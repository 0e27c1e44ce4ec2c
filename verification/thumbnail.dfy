/**
  Thumbnails in api.php: the aspect-ratio arithmetic of
  `generateThumbnailGD` and the strategy chain of `generateThumbnail`:
  GD when the extension is loaded, then the `convert` command, then
  `magick`, and finally the original image bytes.

  The image library and the subprocesses are not modelled; what they
  answer is a field of `Host`.
 */
module Thumbnail {
  import opened PhpBuiltins

  type Pos = n: int | n > 0 witness 1

  /** The bounding box, `$thumbWidth = $thumbHeight = 200`. */
  const Box := 200
  /** `Cache-Control: public, max-age=86400` on every image reply. */
  const CacheMaxAge := 86400

  /** The integer quotient `q` of `a` by `b`, characterised without division. */
  predicate IsQuotient(q: int, a: nat, b: Pos) {
    q * b <= a < (q + 1) * b
  }

  lemma QuotientIsDiv(a: nat, b: Pos)
    ensures 0 <= a / b && IsQuotient(a / b, a, b)
  {
  }

  lemma QuotientUnique(q: int, a: nat, b: Pos)
    requires IsQuotient(q, a, b)
    ensures q == a / b
  {
    QuotientIsDiv(a, b);
    var d := a / b;
    MulCancelLt(q, d + 1, b);
    MulCancelLt(d, q + 1, b);
  }

  lemma MulCancelLt(x: int, y: int, b: Pos)
    requires x * b < y * b
    ensures x < y
  {
  }

  /** `intval($h * 200 / $w)` for the long side `w`: both operands are
      positive, so truncation is the integer quotient. */
  function Scale(short: Pos, long: Pos): (r: nat)
    requires short <= long
    ensures IsQuotient(r, short * Box, long)
    ensures r <= Box
  {
    QuotientIsDiv(short * Box, long);
    assert short * Box <= long * Box;
    (short * Box) / long
  }

  /** The thumbnail size computed at api.php:585-589. */
  function ThumbDims(w: Pos, h: Pos): (r: (nat, nat))
    ensures r.0 <= Box && r.1 <= Box
    ensures r.0 == Box || r.1 == Box
    ensures w > h ==> r.0 == Box && IsQuotient(r.1, h * Box, w)
    ensures w <= h ==> r.1 == Box && IsQuotient(r.0, w * Box, h)
  {
    if w > h then (Box, Scale(h, w)) else (Scale(w, h), Box)
  }

  /** The size is the only pair that fills the box along the long side and
      keeps the short side at the truncated proportional length. */
  lemma ThumbDimsUnique(w: Pos, h: Pos, tw: nat, th: nat)
    requires w > h ==> tw == Box && IsQuotient(th, h * Box, w)
    requires w <= h ==> th == Box && IsQuotient(tw, w * Box, h)
    ensures ThumbDims(w, h) == (tw, th)
  {
    if w > h {
      QuotientUnique(th, h * Box, w);
    } else {
      QuotientUnique(tw, w * Box, h);
    }
  }

  /** Swapping the sides of a non-square image swaps the thumbnail sides. */
  lemma ThumbDimsTranspose(w: Pos, h: Pos)
    requires w != h
    ensures ThumbDims(h, w) == (ThumbDims(w, h).1, ThumbDims(w, h).0)
  {
    var r := ThumbDims(w, h);
    ThumbDimsUnique(h, w, r.1, r.0);
  }

  /** A square image of any size, small ones included, becomes 200x200. */
  lemma SquareFillsBox(n: Pos)
    ensures ThumbDims(n, n) == (Box, Box)
  {
    ThumbDimsUnique(n, n, Box, Box);
  }

  /** Small images are scaled up: 10x5 becomes 200x100. */
  lemma SmallImageUpscales()
    ensures ThumbDims(10, 5) == (200, 100)
  {
    ThumbDimsUnique(10, 5, 200, 100);
  }

  /** A side becomes 0 exactly when the long side exceeds 200 times the
      short one. */
  lemma ZeroSideIff(w: Pos, h: Pos)
    ensures ThumbDims(w, h).1 == 0 <==> w > h && h * Box < w
    ensures ThumbDims(w, h).0 == 0 <==> h >= w && w * Box < h
  {
    if w > h {
      if h * Box < w {
        QuotientUnique(0, h * Box, w);
      }
    } else {
      if w * Box < h {
        QuotientUnique(0, w * Box, h);
      }
    }
  }

  /** A 1000x1 image gives a 200x0 thumbnail. */
  lemma ExtremeRatioGivesZero()
    ensures ThumbDims(1000, 1) == (200, 0)
  {
    ThumbDimsUnique(1000, 1, 200, 0);
  }

  /** The size with each side raised to at least 1, which
      `imagecreatetruecolor` accepts. */
  function ClampedDims(w: Pos, h: Pos): (r: (Pos, Pos))
    ensures 1 <= r.0 <= Box && 1 <= r.1 <= Box
    ensures r.0 == Box || r.1 == Box
  {
    var d := ThumbDims(w, h);
    (if d.0 == 0 then 1 else d.0, if d.1 == 0 then 1 else d.1)
  }

  /** The clamp only touches a size that had a zero side. */
  lemma ClampedDimsAgree(w: Pos, h: Pos)
    ensures ThumbDims(w, h).0 > 0 && ThumbDims(w, h).1 > 0 ==> ClampedDims(w, h) == ThumbDims(w, h)
    ensures ThumbDims(1000, 1) != ClampedDims(1000, 1)
  {
    ExtremeRatioGivesZero();
  }

  /** `$imageInfo[2]`, the image type `getimagesize` reported. */
  datatype ImageKind = Jpeg | Png | Gif | Bmp | Webp | OtherKind

  /** What `getimagesize` returned when it did not return `false`. */
  datatype ImageInfo = ImageInfo(kind: ImageKind, mime: string)

  /** The host's answers: whether the GD extension is loaded and what
      `imagecreatefrom*` decoded (`None` for `false`), whether `exec` exists,
      the exit codes of `convert` and `magick`, and whether the temporary
      thumbnail file could be read back. */
  datatype Host = Host(
    gdLoaded: bool,
    decoded: Option<(Pos, Pos)>,
    execAvailable: bool,
    convertExit: int,
    magickExit: int,
    thumbReadable: bool)

  datatype Tool = Gd | Convert | Magick

  /** The position of each tool in the chain. */
  function Rank(t: Tool): nat {
    match t
    case Gd => 0
    case Convert => 1
    case Magick => 2
  }

  /** Every tool comes after the tools before it in the chain. */
  predicate InChainOrder(tried: seq<Tool>) {
    forall i, j :: 0 <= i < j < |tried| ==> Rank(tried[i]) < Rank(tried[j])
  }

  datatype Reply =
    | Unreadable                            // 400, `getimagesize` failed
    | GdJpeg(width: Pos, height: Pos)       // a JPEG drawn by GD
    | ToolJpeg(tool: Tool)                    // a JPEG written by convert or magick
    | Original(mime: string, maxAge: nat)   // the image bytes unchanged
    | Fatal                                 // an uncaught error ends the script

  /** What happened and which tools were started, in order. */
  datatype Run = Run(tried: seq<Tool>, reply: Reply)

  datatype GdResult = GdThrew | GdDrew(width: Pos, height: Pos) | GdCrashed

  /** `generateThumbnailGD`: an unsupported kind or a failed decode throws
      an `Exception`; a zero side makes `imagecreatetruecolor` throw a
      `ValueError`, which is an `Error` and escapes `catch (Exception $e)`.
      With `clamp` the sides are first raised to at least 1. */
  function GdAttempt(kind: ImageKind, host: Host, clamp: bool): (r: GdResult)
    ensures r.GdThrew? <==> kind == OtherKind || host.decoded.None?
    ensures r.GdDrew? && !clamp ==>
      (r.width, r.height) == ThumbDims(host.decoded.value.0, host.decoded.value.1)
    ensures r.GdDrew? && clamp ==>
      (r.width, r.height) == ClampedDims(host.decoded.value.0, host.decoded.value.1)
    ensures r.GdCrashed? <==>
      && !clamp && kind != OtherKind && host.decoded.Some?
      && (ThumbDims(host.decoded.value.0, host.decoded.value.1).0 == 0 ||
          ThumbDims(host.decoded.value.0, host.decoded.value.1).1 == 0)
  {
    if kind == OtherKind || host.decoded.None? then GdThrew
    else
      var (w, h) := host.decoded.value;
      var d := ThumbDims(w, h);
      if clamp then GdDrew(ClampedDims(w, h).0, ClampedDims(w, h).1)
      else if d.0 == 0 || d.1 == 0 then GdCrashed
      else GdDrew(d.0, d.1)
  }

  /** `generateThumbnailImageMagick`: `convert`, then `magick` when
      `convert` exited non-zero; `None` when it threw. */
  function ToolAttempt(host: Host): (r: (seq<Tool>, Option<Tool>))
    ensures r.0 == [Convert] || r.0 == [Convert, Magick]
    ensures Magick in r.0 <==> host.convertExit != 0
    ensures r.1.Some? <==> (host.convertExit == 0 || host.magickExit == 0) && host.thumbReadable
    ensures r.1.Some? ==> r.1.value == r.0[|r.0| - 1]
  {
    if host.convertExit == 0 then
      ([Convert], if host.thumbReadable then Some(Convert) else None)
    else if host.magickExit == 0 then
      ([Convert, Magick], if host.thumbReadable then Some(Magick) else None)
    else ([Convert, Magick], None)
  }

  /** The chain from `getimagesize` on; `clamp` selects the corrected GD sizing. */
  function Chain(info: Option<ImageInfo>, host: Host, clamp: bool): (r: Run)
    ensures InChainOrder(r.tried)
    ensures r.reply.Unreadable? ==> r.tried == []
    ensures r.reply.GdJpeg? || r.reply.Fatal? ==> r.tried == [Gd]
    ensures r.reply.ToolJpeg? ==> |r.tried| > 0 && r.tried[|r.tried| - 1] == r.reply.tool
    ensures r.reply.GdJpeg? ==> host.decoded.Some?
    ensures r.reply.GdJpeg? && !clamp ==>
      (r.reply.width, r.reply.height) == ThumbDims(host.decoded.value.0, host.decoded.value.1)
  {
    if info.None? then Run([], Unreadable)
    else
      var gd := if host.gdLoaded then GdAttempt(info.value.kind, host, clamp) else GdThrew;
      var before := if host.gdLoaded then [Gd] else [];
      if gd.GdDrew? then Run([Gd], GdJpeg(gd.width, gd.height))
      else if gd.GdCrashed? then Run([Gd], Fatal)
      else if !host.execAvailable then Run(before, Original(info.value.mime, CacheMaxAge))
      else
        var (tools, made) := ToolAttempt(host);
        if made.Some? then Run(before + tools, ToolJpeg(made.value))
        else Run(before + tools, Original(info.value.mime, CacheMaxAge))
  }

  /** `generateThumbnail` as written (api.php:510-551). */
  function Generate(info: Option<ImageInfo>, host: Host): Run {
    Chain(info, host, false)
  }

  /** `generateThumbnail` with the GD sizing clamped to at least 1 pixel. */
  function GenerateFixed(info: Option<ImageInfo>, host: Host): Run {
    Chain(info, host, true)
  }

  /** Only a failed `getimagesize` gives the 400 reply, and then nothing runs. */
  lemma UnreadableIff(info: Option<ImageInfo>, host: Host, clamp: bool)
    ensures Chain(info, host, clamp).reply == Unreadable <==> info.None?
    ensures info.None? ==> Chain(info, host, clamp).tried == []
  {
  }

  /** GD runs exactly when the image was readable and GD is loaded, and a
      GD success ends the chain. */
  lemma GdTriedIff(info: Option<ImageInfo>, host: Host, clamp: bool)
    ensures Gd in Chain(info, host, clamp).tried <==> info.Some? && host.gdLoaded
    ensures Chain(info, host, clamp).reply.GdJpeg? <==>
      info.Some? && host.gdLoaded && GdAttempt(info.value.kind, host, clamp).GdDrew?
    ensures Chain(info, host, clamp).reply.GdJpeg? ==> Chain(info, host, clamp).tried == [Gd]
  {
    var r := Chain(info, host, clamp);
    if info.Some? && !host.gdLoaded {
      if host.execAvailable {
        assert r.tried == ToolAttempt(host).0;
        assert Gd !in ToolAttempt(host).0;
      } else {
        assert r.tried == [];
      }
    }
  }

  /** `magick` runs exactly when `convert` ran and exited non-zero. */
  lemma MagickIff(info: Option<ImageInfo>, host: Host, clamp: bool)
    ensures Magick in Chain(info, host, clamp).tried <==>
      Convert in Chain(info, host, clamp).tried && host.convertExit != 0
  {
    var r := Chain(info, host, clamp);
    var before := if host.gdLoaded then [Gd] else [];
    if info.Some? && host.execAvailable && !(host.gdLoaded && GdAttempt(info.value.kind, host, clamp) != GdThrew) {
      var tools := ToolAttempt(host).0;
      assert r.tried == before + tools;
      assert Convert in tools;
      if host.convertExit != 0 {
        assert Magick in tools;
      } else {
        assert tools == [Convert];
      }
    }
  }

  /** `convert` runs exactly when GD is absent or threw an `Exception` on a
      readable image and `exec` exists. */
  lemma ConvertIff(info: Option<ImageInfo>, host: Host, clamp: bool)
    ensures Convert in Chain(info, host, clamp).tried <==>
      info.Some? &&
      (!host.gdLoaded || GdAttempt(info.value.kind, host, clamp).GdThrew?) &&
      host.execAvailable
  {
    var r := Chain(info, host, clamp);
    if info.Some? && host.execAvailable && !(host.gdLoaded && !GdAttempt(info.value.kind, host, clamp).GdThrew?) {
      var before := if host.gdLoaded then [Gd] else [];
      assert r.tried == before + ToolAttempt(host).0;
      assert Convert in ToolAttempt(host).0;
    }
  }

  /** The original bytes are sent with the type `getimagesize` reported and
      a one-day cache lifetime, exactly when no tool produced a thumbnail
      and nothing crashed. */
  lemma PassthroughIff(info: Option<ImageInfo>, host: Host, clamp: bool)
    ensures Chain(info, host, clamp).reply.Original? ==>
      Chain(info, host, clamp).reply == Original(info.value.mime, 86400)
    ensures Chain(info, host, clamp).reply.Original? <==>
      info.Some? &&
      (!host.gdLoaded || GdAttempt(info.value.kind, host, clamp).GdThrew?) &&
      (!host.execAvailable || ToolAttempt(host).1.None?)
  {
  }

  /** As written, a 1000x1 JPEG with GD loaded ends in an uncaught error:
      no fallback runs and no image is sent. */
  lemma ExtremeRatioCrashes(host: Host)
    requires host.gdLoaded && host.decoded == Some((1000, 1))
    ensures Generate(Some(ImageInfo(Jpeg, "image/jpeg")), host) == Run([Gd], Fatal)
  {
    ExtremeRatioGivesZero();
  }

  /** With the clamp the chain never crashes, and wherever the code as
      written did not crash the two agree. */
  lemma GenerateFixedNeverCrashes(info: Option<ImageInfo>, host: Host)
    ensures !GenerateFixed(info, host).reply.Fatal?
    ensures !Generate(info, host).reply.Fatal? ==> GenerateFixed(info, host) == Generate(info, host)
  {
    if info.Some? && host.gdLoaded && info.value.kind != OtherKind && host.decoded.Some? {
      var (w, h) := host.decoded.value;
      ClampedDimsAgree(w, h);
    }
  }
}
