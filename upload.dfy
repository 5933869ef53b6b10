/** The data URL that `POST /upload` returns for an uploaded file: the
    `data:[<mediatype>][;base64],<data>` form of section 3 of RFC 2397, with
    the file's bytes Base64-encoded. */
module Upload {
  import opened Wrappers
  import Base64

  const DefaultMime := "image/jpeg"
  const Scheme := "data:"
  const Base64Marker := ";base64,"

  /** The declared content type, or `image/jpeg` when the upload has none;
      an empty content type is falsy and falls back as well. */
  function MimeType(contentType: Option<string>): string {
    if contentType.Some? && contentType.value != "" then contentType.value else DefaultMime
  }

  /** The `url` field of the upload response. */
  function UploadImage(contents: seq<Base64.Byte>, contentType: Option<string>): (url: string)
    ensures |url| == |Scheme| + |MimeType(contentType)| + |Base64Marker| + 4 * ((|contents| + 2) / 3)
    ensures url[..|Scheme|] == Scheme
  {
    Base64.LengthOfEncoding(contents);
    Scheme + MimeType(contentType) + Base64Marker + Base64.Encode(contents)
  }

  /** The data of a `data:` URL as a reader takes it: the text after the
      FIRST comma, which ends the media type and the `;base64` marker. A URL
      without a comma has no data. */
  function DataOf(url: string): (r: Option<string>)
    ensures r.None? <==> ',' !in url
    ensures r.Some? ==> |r.value| < |url| && r.value == url[|url| - |r.value|..]
    ensures r.Some? ==> url[|url| - |r.value| - 1] == ','
    ensures r.Some? ==> forall i :: 0 <= i < |url| - |r.value| - 1 ==> url[i] != ','
    decreases |url|
  {
    if |url| == 0 then None
    else if url[0] == ',' then Some(url[1..])
    else DataOf(url[1..])
  }

  lemma DataAfterFirstComma(q: string, d: string)
    requires ',' !in q
    ensures DataOf(q + [','] + d) == Some(d)
  {
    var url := q + [','] + d;
    assert url[|q|] == ',';
    var r := DataOf(url);
    assert forall i :: 0 <= i < |q| ==> url[i] == q[i];
    assert |url| - |r.value| - 1 == |q|;
    assert url[|q| + 1..] == d;
  }

  lemma DataAfterEarlyComma(q: string, d: string, j: nat)
    requires j < |q| && q[j] == ','
    ensures DataOf(q + [','] + d).Some? && |DataOf(q + [','] + d).value| > |d|
  {
    var url := q + [','] + d;
    assert url[j] == ',';
  }

  /** The text before the URL's first structural comma holds a comma exactly
      when the media type does. */
  lemma HeadComma(m: string)
    ensures ',' in Scheme + m + ";base64" <==> ',' in m
  {
    var q := Scheme + m + ";base64";
    if ',' in q {
      var i :| 0 <= i < |q| && q[i] == ',';
      assert |Scheme| <= i < |Scheme| + |m| && m[i - |Scheme|] == ',';
    }
    if ',' in m {
      var k :| 0 <= k < |m| && m[k] == ',';
      assert q[|Scheme| + k] == ',';
    }
  }

  /** A reader finds the Base64 text of the file, which decodes back to the
      uploaded bytes, exactly when the media type holds no comma; a comma in
      the client's content type ends the media type early. */
  lemma UploadRoundTrip(contents: seq<Base64.Byte>, contentType: Option<string>)
    ensures DataOf(UploadImage(contents, contentType)) == Some(Base64.Encode(contents)) <==>
            ',' !in MimeType(contentType)
    ensures ',' !in MimeType(contentType) ==>
            Base64.Decode(DataOf(UploadImage(contents, contentType)).value) == Some(contents)
  {
    var m := MimeType(contentType);
    var e := Base64.Encode(contents);
    var q := Scheme + m + ";base64";
    assert UploadImage(contents, contentType) == q + [','] + e;
    HeadComma(m);
    if ',' !in m {
      DataAfterFirstComma(q, e);
      Base64.RoundTrip(contents);
    } else {
      var j :| 0 <= j < |q| && q[j] == ',';
      DataAfterEarlyComma(q, e, j);
    }
  }

  /** The media type in the URL is the declared one when it is a non-empty
      string, and `image/jpeg` otherwise. */
  lemma UploadMediaType(contents: seq<Base64.Byte>, contentType: Option<string>)
    ensures var url := UploadImage(contents, contentType);
            var m := if contentType.Some? && contentType.value != "" then contentType.value else DefaultMime;
            url[|Scheme|..|Scheme| + |m|] == m &&
            url[|Scheme| + |m|..|Scheme| + |m| + |Base64Marker|] == Base64Marker
  {
    var m := MimeType(contentType);
    var e := Base64.Encode(contents);
    var url := UploadImage(contents, contentType);
    assert url == Scheme + m + Base64Marker + e;
    assert url[|Scheme|..|Scheme| + |m|] == m;
    assert url[|Scheme| + |m|..|Scheme| + |m| + |Base64Marker|] == Base64Marker;
  }
}
