/**
  How a GET on a regular file is answered (api.php:64-139): a thumbnail,
  the raw text, a base64 JSON envelope, or the whole file with
  `Content-Disposition: inline` and its name. `mime_content_type` and `filesize` are
  inputs; a `false` MIME type behaves as the empty string in every test
  made on it.
 */
module Negotiation {
  import opened PhpBuiltins

  const MiB := 1024 * 1024
  /** `$maxFileSize`, the largest file returned inline. */
  const MaxInline := 50 * MiB
  /** Above this size raw text is sent with `readfile` instead of
      `file_get_contents`. */
  const StreamAbove := 10 * MiB
  const JsonType := "application/json"

  datatype FileReply =
    | Thumbnail                                              // generateThumbnail takes over
    | NotAnImage                                             // 404
    | TooLarge                                               // 400
    | RawText(mime: string, streamed: bool)                  // the bytes, typed `mime; charset=utf-8`
    | Base64Json                                             // {"content": ..., "encoding": "base64"}
    | Download(mime: string, fileName: string, length: nat)  // the bytes, disposition inline, with a file name

  /** `strpos($mimeType, 'image/') === 0` */
  predicate IsImage(mime: string) {
    Strpos(mime, "image/") == Some(0)
  }

  /** The types returned as text rather than base64 (api.php:106-110). */
  predicate IsTextual(mime: string) {
    Strpos(mime, "text/") == Some(0) ||
    mime == JsonType || mime == "application/javascript" ||
    mime == "application/xml" || mime == "application/pdf"
  }

  /** The client asked for the content inline: the `content` parameter is
      present or the Accept header contains "application/json" anywhere. */
  predicate WantsInline(content: bool, accept: string) {
    content || Contains(accept, JsonType)
  }

  /** The reply to a GET on a file at `fullPath`. */
  function Negotiate(thumbnail: bool, content: bool, accept: string,
                     size: nat, mime: string, fullPath: string): (r: FileReply)
    ensures thumbnail ==> r == Thumbnail || r == NotAnImage
    ensures r.RawText? ==> r.mime == mime && (r.streamed <==> size > StreamAbove)
    ensures r.Download? ==> r.mime == mime && r.length == size && r.fileName == Basename(fullPath)
    ensures r.TooLarge? ==> size > MaxInline
  {
    if thumbnail then
      if IsImage(mime) then Thumbnail else NotAnImage
    else if WantsInline(content, accept) then
      if size > MaxInline then TooLarge
      else if IsTextual(mime) then RawText(mime, size > StreamAbove)
      else Base64Json
    else Download(mime, Basename(fullPath), size)
  }

  /** The thumbnail flag decides alone, by the MIME prefix. */
  lemma ThumbnailFlagWins(content: bool, accept: string, size: nat, mime: string, fullPath: string)
    ensures Negotiate(true, content, accept, size, mime, fullPath) == Thumbnail <==> "image/" <= mime
    ensures Negotiate(true, content, accept, size, mime, fullPath) == NotAnImage <==> !("image/" <= mime)
  {
    StrposZeroIffPrefix(mime, "image/");
  }

  /** Without the thumbnail flag, the reply is inline exactly when the
      client asked for it, and a download otherwise. */
  lemma InlineIff(content: bool, accept: string, size: nat, mime: string, fullPath: string)
    ensures var r := Negotiate(false, content, accept, size, mime, fullPath);
      (r.TooLarge? || r.RawText? || r.Base64Json?) <==> content || exists i: nat :: OccursAt(accept, JsonType, i)
    ensures var r := Negotiate(false, content, accept, size, mime, fullPath);
      r.Download? <==> !WantsInline(content, accept)
  {
    ContainsIffOccurs(accept, JsonType);
  }

  /** The size cap is strict and only applies to inline replies. */
  lemma TooLargeIff(thumbnail: bool, content: bool, accept: string, size: nat, mime: string, fullPath: string)
    ensures Negotiate(thumbnail, content, accept, size, mime, fullPath) == TooLarge <==>
      !thumbnail && WantsInline(content, accept) && size > 50 * 1024 * 1024
  {
  }

  /** A download has no size cap: only the length header changes. */
  lemma DownloadIgnoresSize(accept: string, size1: nat, size2: nat, mime: string, fullPath: string)
    requires !Contains(accept, JsonType)
    ensures Negotiate(false, false, accept, size1, mime, fullPath) == Download(mime, Basename(fullPath), size1)
    ensures Negotiate(false, false, accept, size2, mime, fullPath).Download?
  {
  }

  /** Growing a file never turns a rejection into an answer, and shrinking
      one never turns an answer into a rejection. */
  lemma TooLargeMonotone(thumbnail: bool, content: bool, accept: string, size: nat, bigger: nat, mime: string, fullPath: string)
    requires size <= bigger
    ensures Negotiate(thumbnail, content, accept, size, mime, fullPath) == TooLarge ==>
      Negotiate(thumbnail, content, accept, bigger, mime, fullPath) == TooLarge
  {
  }

  /** Inline and within the cap, text types get raw text and every other
      type the base64 envelope. */
  lemma InlineKindIff(content: bool, accept: string, size: nat, mime: string, fullPath: string)
    requires WantsInline(content, accept) && size <= MaxInline
    ensures Negotiate(false, content, accept, size, mime, fullPath).RawText? <==>
      "text/" <= mime || mime in {JsonType, "application/javascript", "application/xml", "application/pdf"}
    ensures Negotiate(false, content, accept, size, mime, fullPath) == Base64Json <==> !IsTextual(mime)
  {
    StrposZeroIffPrefix(mime, "text/");
  }

  /** A file of exactly 50 MiB is still returned inline; one byte more is not. */
  lemma CapBoundary(mime: string, fullPath: string)
    ensures Negotiate(false, true, "", MaxInline, mime, fullPath) != TooLarge
    ensures Negotiate(false, true, "", MaxInline + 1, mime, fullPath) == TooLarge
  {
  }

  /** The Accept test is a case-sensitive substring test: a vendor type
      that merely contains "application/json" counts, "Application/JSON"
      does not. */
  lemma AcceptIsSubstring()
    ensures WantsInline(false, "application/json-patch+json")
    ensures !WantsInline(false, "Application/JSON")
  {
    var v := "application/json-patch+json";
    OccursAtIffSlice(v, JsonType, 0);
    assert v[0..|JsonType|] == JsonType;
    ContainsIffOccurs(v, JsonType);
    var a := "Application/JSON";
    assert !OccursAt(a, JsonType, 0) by {
      assert a[0] != JsonType[0];
    }
    assert Strpos(a, JsonType) == FindFrom(a, JsonType, 0);
    assert FindFrom(a, JsonType, 1) == None;
  }
}
