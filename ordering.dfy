/** The order in which `GET /items` returns a user's items: by `created_at`,
    newest first. The database compares the ISO timestamp strings by their
    code points, so the order here is the lexicographic order on strings. */
module Ordering {
  import opened Records

  /** `a` sorts at or before `b` in code-point lexicographic order. */
  predicate LexLe(a: string, b: string)
    decreases |a|
  {
    |a| == 0 || (|b| != 0 && (a[0] < b[0] || (a[0] == b[0] && LexLe(a[1..], b[1..]))))
  }

  lemma {:induction false} LexLeReflexive(a: string)
    ensures LexLe(a, a)
    decreases |a|
  {
    if |a| != 0 {
      LexLeReflexive(a[1..]);
    }
  }

  lemma {:induction false} LexLeTotal(a: string, b: string)
    ensures LexLe(a, b) || LexLe(b, a)
    decreases |a|
  {
    if |a| != 0 && |b| != 0 && a[0] == b[0] {
      LexLeTotal(a[1..], b[1..]);
    }
  }

  lemma {:induction false} LexLeTransitive(a: string, b: string, c: string)
    requires LexLe(a, b) && LexLe(b, c)
    ensures LexLe(a, c)
    decreases |a|
  {
    if |a| != 0 && a[0] == b[0] && b[0] == c[0] {
      LexLeTransitive(a[1..], b[1..], c[1..]);
    }
  }

  lemma {:induction false} LexLeAntisymmetric(a: string, b: string)
    requires LexLe(a, b) && LexLe(b, a)
    ensures a == b
    decreases |a|
  {
    if |a| != 0 {
      LexLeAntisymmetric(a[1..], b[1..]);
      assert a == [a[0]] + a[1..] && b == [b[0]] + b[1..];
    }
  }

  /** `s` lists items newest first: `created_at` never increases along `s`. */
  ghost predicate NewestFirst(s: seq<Item>) {
    forall i, j :: 0 <= i < j < |s| ==> LexLe(s[j].createdAt, s[i].createdAt)
  }

  /** Nothing in `s` is newer than `h`. */
  ghost predicate NoneNewer(s: seq<Item>, h: Item) {
    forall j :: 0 <= j < |s| ==> LexLe(s[j].createdAt, h.createdAt)
  }

  lemma ConsNewestFirst(h: Item, t: seq<Item>)
    requires NewestFirst(t) && NoneNewer(t, h)
    ensures NewestFirst([h] + t)
  {
    var r := [h] + t;
    forall i, j | 0 <= i < j < |r| ensures LexLe(r[j].createdAt, r[i].createdAt) {
      assert r[j] == t[j - 1];
      if i > 0 {
        assert r[i] == t[i - 1];
      }
    }
  }

  lemma HeadNoNewer(x: Item, s: seq<Item>)
    requires |s| > 0 && NewestFirst(s) && LexLe(s[0].createdAt, x.createdAt)
    ensures NoneNewer(s, x)
  {
    forall j | 0 <= j < |s| ensures LexLe(s[j].createdAt, x.createdAt) {
      if j > 0 {
        LexLeTransitive(s[j].createdAt, s[0].createdAt, x.createdAt);
      }
    }
  }

  lemma InsertedBelowHead(x: Item, s: seq<Item>, t: seq<Item>)
    requires |s| > 0 && NewestFirst(s) && !LexLe(s[0].createdAt, x.createdAt)
    requires multiset(t) == multiset(s[1..]) + multiset{x}
    ensures NoneNewer(t, s[0])
  {
    LexLeTotal(s[0].createdAt, x.createdAt);
    forall j | 0 <= j < |t|
      ensures LexLe(t[j].createdAt, s[0].createdAt)
    {
      assert t[j] in multiset(t);
      if t[j] != x {
        assert t[j] in multiset(s[1..]);
        var k :| 0 <= k < |s[1..]| && s[1..][k] == t[j];
        assert s[k + 1] == t[j];
      }
    }
  }

  /** Places `x` in front of the first item no newer than it. */
  function Insert(x: Item, s: seq<Item>): (r: seq<Item>)
    requires NewestFirst(s)
    ensures NewestFirst(r)
    ensures multiset(r) == multiset(s) + multiset{x}
    decreases |s|
  {
    if |s| == 0 then [x]
    else if LexLe(s[0].createdAt, x.createdAt) then
      HeadNoNewer(x, s);
      ConsNewestFirst(x, s);
      [x] + s
    else
      var t := Insert(x, s[1..]);
      InsertedBelowHead(x, s, t);
      ConsNewestFirst(s[0], t);
      assert s == [s[0]] + s[1..];
      [s[0]] + t
  }

  /** Insertion sort, newest first. */
  function SortNewestFirst(s: seq<Item>): (r: seq<Item>)
    ensures NewestFirst(r)
    ensures multiset(r) == multiset(s)
    decreases |s|
  {
    if |s| == 0 then []
    else
      assert s == [s[0]] + s[1..];
      Insert(s[0], SortNewestFirst(s[1..]))
  }

  /** Cutting a newest-first list after `k` items keeps the `k` newest: each
      item left out is no newer than each item kept. */
  lemma {:induction false} PrefixIsNewest(s: seq<Item>, k: nat)
    requires NewestFirst(s) && k <= |s|
    ensures NewestFirst(s[..k])
    ensures forall x, y :: x in s[k..] && y in s[..k] ==> LexLe(x.createdAt, y.createdAt)
  {
    forall x, y | x in s[k..] && y in s[..k]
      ensures LexLe(x.createdAt, y.createdAt)
    {
      var i :| 0 <= i < |s[k..]| && s[k..][i] == x;
      var j :| 0 <= j < k && s[..k][j] == y;
      assert s[k + i] == x && s[j] == y;
    }
  }
}
