/** The three compressors of src/lib/compressors.ts (`compressText`,
    `compressImage`, `compressPdf`) around the codecs they call.

    The codecs themselves (pako's deflate, image decoding and the canvas
    encoder, pdf-lib's load and save) are outside the model: a `Platform` holds
    them as functions, and the model states how each compressor derives the
    parameters it hands them and what it does with what they return. A promise
    that can reject becomes a `Result`. */
module Compressors {
  import opened Outcome
  import opened HuffmanEncoder

  /** A `File` as the browser gives it: its name, its MIME type (possibly
      empty) and its bytes. */
  datatype File = File(name: string, mimeType: string, bytes: seq<bv8>)

  /** A `Blob`: bytes and a MIME type. */
  datatype Blob = Blob(bytes: seq<bv8>, mimeType: string)

  /** The text algorithms `compressText` accepts. */
  datatype TextAlgorithm = Huffman | Deflate

  /** The decoded size of an image, `naturalWidth` by `naturalHeight`. */
  datatype Picture = Picture(naturalWidth: nat, naturalHeight: nat)

  /** The document information fields pdf-lib reads and writes; None where the
      document has none. */
  datatype DocInfo = DocInfo(
    title: Option<string>, author: Option<string>, subject: Option<string>,
    producer: Option<string>, creator: Option<string>)

  /** A loaded PDF document: its information fields and the rest of it. */
  datatype PdfDoc = PdfDoc(info: DocInfo, body: seq<bv8>)

  /** The codecs the compressors call.
      - `deflate(text, level)`: `pako.deflate` of the text at a level 1..9;
      - `decodeImage(bytes)`: loading the file into an `Image`, which fails
        when the browser cannot decode it;
      - `drawAndEncode(bytes, picture, width, height, mime, quality)`: drawing
        the picture on a canvas of that size and `canvas.toBlob`;
      - `loadPdf(bytes)`: `file.arrayBuffer()` then `PDFDocument.load`, which
        fail when the file cannot be read or is not a PDF;
      - `savePdf(doc)`: `save` with object streams and no default page, which
        may reject;
      - `readText(bytes)`: `File.text()`, which fails when the file cannot be
        read;
      - `generateZip(entries)`: `JSZip.generateAsync` over named entries, which
        may reject. */
  datatype Platform = Platform(
    deflate: (string, int) -> seq<bv8>,
    decodeImage: seq<bv8> -> Result<Picture>,
    drawAndEncode: (seq<bv8>, Picture, nat, nat, string, Option<real>) -> seq<bv8>,
    loadPdf: seq<bv8> -> Result<PdfDoc>,
    savePdf: PdfDoc -> Result<seq<bv8>>,
    readText: seq<bv8> -> Result<string>,
    generateZip: seq<(string, Blob)> -> Result<Blob>)

  const OctetStream: string := "application/octet-stream"
  const PdfMime: string := "application/pdf"
  const PngMime: string := "image/png"
  const JpegMime: string := "image/jpeg"
  /** The producer and creator `compressPdf` writes. */
  const ToolName: string := "Smart Compressor"

  function Min(a: int, b: int): int { if a <= b then a else b }
  function Max(a: int, b: int): int { if a >= b then a else b }
  function MinReal(a: real, b: real): real { if a <= b then a else b }
  function MaxReal(a: real, b: real): real { if a >= b then a else b }

  /** `s` contains `sub` as a contiguous substring (`String.prototype.includes`). */
  predicate Contains(s: string, sub: string)
  {
    exists i :: 0 <= i <= |s| && OccursAt(s, sub, i)
  }

  /** `sub` occurs in `s` starting at index `i`. */
  predicate OccursAt(s: string, sub: string, i: nat)
  {
    i + |sub| <= |s| && s[i..i + |sub|] == sub
  }

  // ---------------------------------------------------------------------------
  // compressText

  /** `Math.round((p / 100) * 9)` for an integer percent: the nearest integer to
      9p/100, halves rounded up (floor division, as `/` on `int` is for a
      positive divisor). */
  function RoundedLevel(p: int): int
  {
    (9 * p + 50) / 100
  }

  /** The deflate level `compressText` uses: the rounded level clamped to 1..9. */
  function DeflateLevel(p: int): (level: int)
    ensures 1 <= level <= 9
  {
    Max(1, Min(9, RoundedLevel(p)))
  }

  /** `compressText`: deflate at the level derived from the target, or the
      Huffman encoder, which does not look at the target. */
  function CompressText(platform: Platform, input: string, algo: TextAlgorithm, p: int): (b: Blob)
    ensures b.mimeType == OctetStream
    ensures algo == Deflate ==> b.bytes == platform.deflate(input, DeflateLevel(p))
    ensures algo == Huffman ==> b.bytes == HuffmanEncoding(input)
  {
    match algo
    case Deflate => Blob(platform.deflate(input, DeflateLevel(p)), OctetStream)
    case Huffman => Blob(HuffmanEncoding(input), OctetStream)
  }

  /** The rounded level is the integer nearest to 9p/100, a half rounded up. */
  lemma RoundedLevelNearest(p: int)
    ensures 100 * RoundedLevel(p) - 50 <= 9 * p < 100 * RoundedLevel(p) + 50
  {
  }

  /** The deflate level is the nearest integer to 9p/100 when that lies in 1..9,
      and the nearer end of 1..9 otherwise. */
  lemma DeflateLevelClamps(p: int)
    ensures 1 <= RoundedLevel(p) <= 9 ==> DeflateLevel(p) == RoundedLevel(p)
    ensures RoundedLevel(p) < 1 <==> DeflateLevel(p) == 1 && 9 * p < 50
    ensures RoundedLevel(p) > 9 <==> 9 * p >= 950
    ensures 9 * p >= 850 ==> DeflateLevel(p) == 9
  {
    RoundedLevelNearest(p);
  }

  /** A higher target never lowers the level. */
  lemma {:induction false} DeflateLevelMonotone(p: int, q: int)
    requires p <= q
    ensures DeflateLevel(p) <= DeflateLevel(q)
  {
    assert RoundedLevel(p) <= RoundedLevel(q) by {
      RoundedLevelNearest(p);
      RoundedLevelNearest(q);
    }
  }

  /** Levels at the ends and the middle of the slider, and at the presets. */
  lemma DeflateLevelExamples()
    ensures DeflateLevel(10) == 1 && DeflateLevel(30) == 3 && DeflateLevel(50) == 5
    ensures DeflateLevel(70) == 6 && DeflateLevel(90) == 8 && DeflateLevel(100) == 9
    ensures DeflateLevel(0) == 1
  {
  }

  /** The Huffman path gives the same bytes whatever the target, and the
      deflate path depends on the target only through the level. */
  lemma TextTargetDependence(platform: Platform, input: string, p: int, q: int)
    ensures CompressText(platform, input, Huffman, p) == CompressText(platform, input, Huffman, q)
    ensures CompressText(platform, input, Huffman, p).bytes == HuffmanEncoding(input)
    ensures DeflateLevel(p) == DeflateLevel(q) ==>
      CompressText(platform, input, Deflate, p) == CompressText(platform, input, Deflate, q)
  {
  }

  // ---------------------------------------------------------------------------
  // compressImage

  /** `1 - Math.min(0.5, targetPercent / 200)`: the downscale factor. It is
      `1 - p/200` up to a target of 100 and a halving from there on, so it lies
      in [0.5, 1] for a non-negative target. */
  function ImageScale(p: int): (scale: real)
    ensures p >= 0 ==> 0.5 <= scale <= 1.0
    ensures p >= 100 <==> scale == 0.5
    ensures p <= 100 ==> scale == 1.0 - p as real / 200.0
  {
    1.0 - MinReal(0.5, p as real / 200.0)
  }

  /** `Math.max(1, Math.floor(side * scale))`: a canvas side. */
  function CanvasSide(side: nat, scale: real): (s: nat)
    ensures s >= 1
  {
    var scaled := (side as real * scale).Floor;
    if scaled >= 1 then scaled else 1
  }

  /** The type of the file names PNG somewhere in it (`type.includes('png')`). */
  predicate IsPng(mimeType: string)
  {
    Contains(mimeType, "png")
  }

  /** The type the canvas is asked to encode to. */
  function OutputMime(mimeType: string): (m: string)
    ensures m == PngMime || m == JpegMime
    ensures m == PngMime <==> IsPng(mimeType)
  {
    if IsPng(mimeType) then PngMime else JpegMime
  }

  /** The encoder quality: none for PNG, else `Math.max(0.1, 1 - p / 100)`. */
  function ImageQuality(mimeType: string, p: int): (q: Option<real>)
    ensures q.None? <==> IsPng(mimeType)
  {
    if IsPng(mimeType) then None else Some(MaxReal(0.1, 1.0 - p as real / 100.0))
  }

  /** `compressImage`: decode, draw at the scaled size, encode as PNG or JPEG.
      The result carries the type the canvas was asked for. */
  function CompressImage(platform: Platform, file: File, p: int): (r: Result<Blob>)
    ensures r.Err? <==> platform.decodeImage(file.bytes).Err?
    ensures r.Err? ==> r.error == platform.decodeImage(file.bytes).error
    ensures r.Ok? ==> r.value.mimeType == OutputMime(file.mimeType)
    ensures r.Ok? ==>
      var pic := platform.decodeImage(file.bytes).value;
      r.value.bytes == platform.drawAndEncode(file.bytes, pic,
        CanvasSide(pic.naturalWidth, ImageScale(p)), CanvasSide(pic.naturalHeight, ImageScale(p)),
        OutputMime(file.mimeType), ImageQuality(file.mimeType, p))
  {
    match platform.decodeImage(file.bytes)
    case Err(e) => Err(e)
    case Ok(pic) =>
      var scale := ImageScale(p);
      var width := CanvasSide(pic.naturalWidth, scale);
      var height := CanvasSide(pic.naturalHeight, scale);
      var mime := OutputMime(file.mimeType);
      Ok(Blob(platform.drawAndEncode(file.bytes, pic, width, height, mime,
                                     ImageQuality(file.mimeType, p)), mime))
  }

  /** A higher target never gives a larger scale. */
  lemma ImageScaleMonotone(p: int, q: int)
    requires p <= q
    ensures ImageScale(q) <= ImageScale(p)
  {
  }

  /** A canvas side never exceeds the image side when the scale is at most 1,
      and is the floor of the scaled side whenever that is at least 1. */
  lemma CanvasSideBounds(side: nat, scale: real)
    ensures 0.0 <= scale <= 1.0 && side >= 1 ==> CanvasSide(side, scale) <= side
    ensures (side as real * scale) >= 1.0 ==>
      CanvasSide(side, scale) as real <= side as real * scale < CanvasSide(side, scale) as real + 1.0
  {
  }

  /** The quality of a JPEG lies in [0.1, 1] for a non-negative target; it is
      `1 - p/100` down to 0.1, reached at a target of 90. */
  lemma ImageQualityBounds(mimeType: string, p: int)
    requires !IsPng(mimeType)
    ensures ImageQuality(mimeType, p).Some?
    ensures p >= 0 ==> 0.1 <= ImageQuality(mimeType, p).value <= 1.0
    ensures p <= 90 ==> ImageQuality(mimeType, p).value == 1.0 - p as real / 100.0
    ensures p >= 90 ==> ImageQuality(mimeType, p).value == 0.1
  {
  }

  /** A string that lacks one of the characters of `sub` does not contain it. */
  lemma MissingCharNotContained(s: string, sub: string, c: char)
    requires c in sub && c !in s
    ensures !Contains(s, sub)
  {
    var k :| 0 <= k < |sub| && sub[k] == c;
    forall i: nat | i + |sub| <= |s| ensures !OccursAt(s, sub, i) {
      assert s[i..i + |sub|][k] == s[i + k] != c;
    }
  }

  /** Type examples: a PNG stays PNG with no quality; JPEG, WebP and GIF inputs
      become JPEG. */
  lemma OutputMimeExamples()
    ensures OutputMime("image/png") == PngMime && ImageQuality("image/png", 30).None?
    ensures OutputMime("image/jpeg") == JpegMime
    ensures OutputMime("image/webp") == JpegMime
    ensures OutputMime("image/gif") == JpegMime
  {
    assert Contains("image/png", "png") by {
      assert OccursAt("image/png", "png", 6);
    }
    MissingCharNotContained("image/jpeg", "png", 'n');
    MissingCharNotContained("image/webp", "png", 'n');
    MissingCharNotContained("image/gif", "png", 'n');
  }

  // ---------------------------------------------------------------------------
  // compressPdf

  /** `x ?? ''`. */
  function OrEmpty(x: Option<string>): string
  {
    if x.Some? then x.value else ""
  }

  /** The information `compressPdf` writes: title and author kept (an absent one
      written as empty), subject emptied, producer and creator replaced. */
  function StripInfo(info: DocInfo): (r: DocInfo)
    ensures info.title.Some? ==> r.title == info.title
    ensures info.title.None? ==> r.title == Some("")
    ensures info.author.Some? ==> r.author == info.author
    ensures info.author.None? ==> r.author == Some("")
    ensures r.subject == Some("") && r.producer == Some(ToolName) && r.creator == Some(ToolName)
  {
    DocInfo(
      Some(OrEmpty(info.title)), Some(OrEmpty(info.author)),
      Some(""), Some(ToolName), Some(ToolName))
  }

  /** The document `compressPdf` saves: the loaded one with its information
      rewritten. */
  function Rewritten(doc: PdfDoc): (d: PdfDoc)
    ensures d.body == doc.body && d.info == StripInfo(doc.info)
  {
    PdfDoc(StripInfo(doc.info), doc.body)
  }

  /** `compressPdf`: load, rewrite the information, save. It fails when the
      file cannot be loaded, with the load's error, or else when saving the
      rewritten document fails, with the save's error. The target is not
      used. */
  function CompressPdf(platform: Platform, file: File, p: int): (r: Result<Blob>)
    ensures platform.loadPdf(file.bytes).Err? ==> r == Err(platform.loadPdf(file.bytes).error)
    ensures platform.loadPdf(file.bytes).Ok? ==>
      var saved := platform.savePdf(Rewritten(platform.loadPdf(file.bytes).value));
      && (r.Err? <==> saved.Err?)
      && (r.Err? ==> r.error == saved.error)
      && (r.Ok? ==> r.value.bytes == saved.value)
    ensures r.Ok? ==> r.value.mimeType == PdfMime
  {
    match platform.loadPdf(file.bytes)
    case Err(e) => Err(e)
    case Ok(doc) =>
      match platform.savePdf(Rewritten(doc))
      case Err(e) => Err(e)
      case Ok(bytes) => Ok(Blob(bytes, PdfMime))
  }

  /** Only the title and the author of the old information matter (an absent
      one counting as empty), and rewriting twice is rewriting once. */
  lemma StripInfoProperties(info: DocInfo, other: DocInfo)
    ensures StripInfo(info) == StripInfo(other) <==>
      OrEmpty(info.title) == OrEmpty(other.title) && OrEmpty(info.author) == OrEmpty(other.author)
    ensures StripInfo(StripInfo(info)) == StripInfo(info)
  {
  }

  /** The PDF result does not depend on the target. */
  lemma PdfIgnoresTarget(platform: Platform, file: File, p: int, q: int)
    ensures CompressPdf(platform, file, p) == CompressPdf(platform, file, q)
  {
  }
}
