/** The compression workflow of src/App.tsx: which compressor a file goes to
    (`compressSingle`), one result or an archive of results (`handleCompress`),
    the preset buttons, the saving figure of the summary and the download name.

    Asynchronous calls run one after another here, in the order the source
    awaits them; a rejected promise is an `Err`. The settings are strings and
    an integer because they may come back from storage or a share link with any
    value, not only those the menus offer. */
module App {
  import opened Outcome
  import opened Sequences
  import opened Compressors

  /** The name `handleCompress` gives an archive of several results. */
  const ArchiveName: string := "pixelpack-compressed.zip"

  /** The user's choices: the algorithm menu and the target percent. */
  datatype Settings = Settings(algorithm: string, targetPercent: int)

  /** A compressed file and the name it is to be saved under. */
  datatype Output = Output(name: string, blob: Blob)

  /** Where `compressSingle` sends a file. */
  datatype Route = ImageRoute | PdfRoute | TextRoute

  predicate StartsWith(s: string, prefix: string)
  {
    |prefix| <= |s| && s[..|prefix|] == prefix
  }

  predicate EndsWith(s: string, suffix: string)
  {
    |suffix| <= |s| && s[|s| - |suffix|..] == suffix
  }

  /** `toLowerCase` on one character, for the letters A to Z. */
  function LowerChar(c: char): char
  {
    if 'A' <= c <= 'Z' then (c as int + 32) as char else c
  }

  /** `toLowerCase`, letter by letter. */
  function ToLower(s: string): (r: string)
    ensures |r| == |s| && forall i :: 0 <= i < |s| ==> r[i] == LowerChar(s[i])
  {
    seq(|s|, i requires 0 <= i < |s| => LowerChar(s[i]))
  }

  /** The route of a file: an `image/` type first, then the PDF type or a name
      ending in ".pdf" in any case, and text otherwise. */
  function RouteOf(f: File): (r: Route)
    ensures StartsWith(f.mimeType, "image/") <==> r == ImageRoute
    ensures r == TextRoute <==>
      !StartsWith(f.mimeType, "image/") && f.mimeType != PdfMime && !EndsWith(ToLower(f.name), ".pdf")
  {
    if StartsWith(f.mimeType, "image/") then ImageRoute
    else if f.mimeType == PdfMime || EndsWith(ToLower(f.name), ".pdf") then PdfRoute
    else TextRoute
  }

  /** The text algorithm for a value of the algorithm menu: "huffman" and
      "deflate" pass through, anything else ("image", "pdf", a stale stored
      value) falls back to deflate. */
  function TextAlgorithmOf(selector: string): (a: TextAlgorithm)
    ensures a == Huffman <==> selector == "huffman"
  {
    if selector == "huffman" then Huffman
    else if selector == "deflate" then Deflate
    else Deflate
  }

  /** A compressor's result under a name. */
  function Named(name: string, r: Result<Blob>): (o: Result<Output>)
    ensures o.Ok? <==> r.Ok?
    ensures o.Ok? ==> o.value == Output(name, r.value)
    ensures o.Err? ==> o.error == r.error
  {
    match r
    case Ok(b) => Ok(Output(name, b))
    case Err(e) => Err(e)
  }

  /** `compressSingle`: the file goes to its route's compressor and keeps its
      name; text is read first and fails when it cannot be read. */
  function CompressSingle(platform: Platform, settings: Settings, f: File): (r: Result<Output>)
    ensures r.Ok? ==> r.value.name == f.name
    ensures RouteOf(f) == TextRoute ==> (r.Err? <==> platform.readText(f.bytes).Err?)
    ensures RouteOf(f) == ImageRoute ==> r == Named(f.name, CompressImage(platform, f, settings.targetPercent))
    ensures RouteOf(f) == PdfRoute ==> r == Named(f.name, CompressPdf(platform, f, settings.targetPercent))
    ensures RouteOf(f) == TextRoute ==>
      match platform.readText(f.bytes)
      case Err(e) => r == Err(e)
      case Ok(text) =>
        r == Ok(Output(f.name, CompressText(platform, text, TextAlgorithmOf(settings.algorithm), settings.targetPercent)))
  {
    match RouteOf(f)
    case ImageRoute => Named(f.name, CompressImage(platform, f, settings.targetPercent))
    case PdfRoute => Named(f.name, CompressPdf(platform, f, settings.targetPercent))
    case TextRoute =>
      match platform.readText(f.bytes)
      case Err(e) => Err(e)
      case Ok(text) =>
        var algo := TextAlgorithmOf(settings.algorithm);
        Ok(Output(f.name, CompressText(platform, text, algo, settings.targetPercent)))
  }

  /** Lower-casing twice is lower-casing once. */
  lemma ToLowerIdempotent(s: string)
    ensures ToLower(ToLower(s)) == ToLower(s)
  {
  }

  /** An `image/` type wins over a ".pdf" name; a PDF type or a ".pdf" name in
      any letter case goes to the PDF compressor; renaming a file to lower case
      does not change its route. */
  lemma RouteProperties(f: File)
    ensures StartsWith(f.mimeType, "image/") ==> RouteOf(f) == ImageRoute
    ensures RouteOf(f) == PdfRoute <==>
      !StartsWith(f.mimeType, "image/") && (f.mimeType == PdfMime || EndsWith(ToLower(f.name), ".pdf"))
    ensures RouteOf(f.(name := ToLower(f.name))) == RouteOf(f)
  {
    ToLowerIdempotent(f.name);
  }

  /** Routing examples. */
  lemma RouteExamples(b: seq<bv8>)
    ensures RouteOf(File("REPORT.PDF", "", b)) == PdfRoute
    ensures RouteOf(File("scan.pdf", "image/png", b)) == ImageRoute
    ensures RouteOf(File("notes.txt", "application/pdf", b)) == PdfRoute
    ensures RouteOf(File("notes.txt", "text/plain", b)) == TextRoute
  {
    assert ToLower("REPORT.PDF")[6..] == ".pdf";
    assert "image/png"[..6] == "image/";
    assert "text/plain"[..6] != "image/" by {
      assert "text/plain"[..6][0] == 't';
    }
    assert ToLower("notes.txt")[5..] != ".pdf" by {
      assert ToLower("notes.txt")[5..][1] == 't';
    }
  }

  /** The algorithm menu matters only for text: an image or a PDF compresses the
      same whatever it says; and for text, every value other than "huffman"
      compresses as "deflate" does. */
  lemma SelectorOnlyForText(platform: Platform, f: File, a1: string, a2: string, p: int)
    ensures RouteOf(f) != TextRoute ==>
      CompressSingle(platform, Settings(a1, p), f) == CompressSingle(platform, Settings(a2, p), f)
    ensures a1 != "huffman" ==>
      CompressSingle(platform, Settings(a1, p), f) == CompressSingle(platform, Settings("deflate", p), f)
  {
  }

  /** Text fails exactly when it cannot be read, an image exactly when it
      cannot be decoded, and a PDF exactly when it cannot be loaded or its
      rewritten document cannot be saved; a failure carries the codec's error. */
  lemma SingleFailure(platform: Platform, settings: Settings, f: File)
    ensures RouteOf(f) == TextRoute ==>
      (CompressSingle(platform, settings, f).Err? <==> platform.readText(f.bytes).Err?)
    ensures RouteOf(f) == ImageRoute ==>
      (CompressSingle(platform, settings, f).Err? <==> platform.decodeImage(f.bytes).Err?)
    ensures RouteOf(f) == PdfRoute ==>
      (CompressSingle(platform, settings, f).Err? <==>
        platform.loadPdf(f.bytes).Err? ||
        platform.savePdf(Rewritten(platform.loadPdf(f.bytes).value)).Err?)
  {
  }

  // ---------------------------------------------------------------------------
  // Compressing a list of files, one after another

  /** `compressSingle` over the files in order, stopping at the first failure. */
  function CompressAll(platform: Platform, settings: Settings, files: seq<File>): (r: Result<seq<Output>>)
    ensures r.Ok? ==> |r.value| == |files|
    ensures r.Ok? ==> forall i :: 0 <= i < |files| ==>
      CompressSingle(platform, settings, files[i]) == Ok(r.value[i])
    ensures r.Err? ==>
      (exists i :: 0 <= i < |files| &&
        CompressSingle(platform, settings, files[i]) == Err(r.error) &&
        (forall j :: 0 <= j < i ==> CompressSingle(platform, settings, files[j]).Ok?))
    ensures r.Ok? <==> forall i :: 0 <= i < |files| ==> CompressSingle(platform, settings, files[i]).Ok?
  {
    if files == [] then Ok([])
    else
      var init := files[..|files| - 1];
      var last := files[|files| - 1];
      assert forall i :: 0 <= i < |init| ==> init[i] == files[i];
      match CompressAll(platform, settings, init)
      case Err(e) => Err(e)
      case Ok(outs) =>
        match CompressSingle(platform, settings, last)
        case Err(e) => Err(e)
        case Ok(o) => Ok(outs + [o])
  }

  // ---------------------------------------------------------------------------
  // The archive (JSZip)

  /** The entries of an archive: names in the order they were first added, and
      the blob stored under each. Adding a name that is already there replaces
      its blob and keeps its place, as a JavaScript object's keys do. */
  datatype Zip = Zip(names: seq<string>, blobs: map<string, Blob>)
  {
    ghost predicate Valid()
    {
      Distinct(names) && forall n :: n in blobs <==> n in names
    }

    /** The (name, blob) pairs in name order, as the archive is written. */
    function Entries(): (es: seq<(string, Blob)>)
      requires Valid()
      ensures |es| == |names| && forall i :: 0 <= i < |names| ==> es[i] == (names[i], blobs[names[i]])
    {
      seq(|names|, i requires 0 <= i < |names| => (names[i], blobs[names[i]]))
    }
  }

  /** `zip.file(name, blob)`: the name now holds the blob, every other name
      keeps its blob, and the names are the old ones, followed by the new name
      when it was not there yet. */
  function AddEntry(z: Zip, name: string, blob: Blob): (r: Zip)
    ensures name in r.blobs && r.blobs[name] == blob
    ensures forall n :: n != name ==> (n in r.blobs <==> n in z.blobs)
    ensures forall n :: n != name && n in z.blobs ==> r.blobs[n] == z.blobs[n]
    ensures name in z.blobs ==> r.names == z.names
    ensures name !in z.blobs ==> r.names == z.names + [name]
    ensures z.Valid() ==> r.Valid()
  {
    Zip(if name in z.blobs then z.names else z.names + [name], z.blobs[name := blob])
  }

  /** The archive after adding every output in order. */
  function ZipOf(outs: seq<Output>): Zip
  {
    if outs == [] then Zip([], map[])
    else AddEntry(ZipOf(outs[..|outs| - 1]), outs[|outs| - 1].name, outs[|outs| - 1].blob)
  }

  /** The names of some outputs, in order. */
  function NamesOf(outs: seq<Output>): (ns: seq<string>)
    ensures |ns| == |outs| && forall i :: 0 <= i < |outs| ==> ns[i] == outs[i].name
  {
    seq(|outs|, i requires 0 <= i < |outs| => outs[i].name)
  }

  /** The JSZip object being filled. */
  class Archive {
    var names: seq<string>
    var blobs: map<string, Blob>

    function State(): Zip
      reads this
    {
      Zip(names, blobs)
    }

    constructor ()
      ensures State() == Zip([], map[])
    {
      names := [];
      blobs := map[];
    }

    /** `zip.file(name, blob)`. */
    method AddFile(name: string, blob: Blob)
      modifies this
      ensures State() == AddEntry(old(State()), name, blob)
    {
      if name !in blobs {
        names := names + [name];
      }
      blobs := blobs[name := blob];
    }
  }

  /** Adding entries keeps the names distinct and in step with the blobs; the
      names are those of the outputs. */
  lemma {:induction false} ZipOfValid(outs: seq<Output>)
    ensures ZipOf(outs).Valid()
    ensures forall n :: n in ZipOf(outs).names <==> n in NamesOf(outs)
  {
    if outs != [] {
      var init := outs[..|outs| - 1];
      ZipOfValid(init);
      forall n ensures n in NamesOf(outs) <==> n in NamesOf(init) || n == outs[|outs| - 1].name {
        assert NamesOf(outs) == NamesOf(init) + [outs[|outs| - 1].name];
      }
    }
  }

  /** With distinct names, the archive holds one entry per output, in input
      order, each under its output's name. */
  lemma {:induction false} ZipOfDistinct(outs: seq<Output>)
    requires Distinct(NamesOf(outs))
    ensures ZipOf(outs).names == NamesOf(outs)
    ensures forall i :: 0 <= i < |outs| ==>
      outs[i].name in ZipOf(outs).blobs && ZipOf(outs).blobs[outs[i].name] == outs[i].blob
  {
    if outs != [] {
      var init := outs[..|outs| - 1];
      var last := outs[|outs| - 1];
      var z0 := ZipOf(init);
      assert NamesOf(outs) == NamesOf(init) + [last.name];
      assert Distinct(NamesOf(init)) by {
        forall i, j | 0 <= i < j < |init| ensures NamesOf(init)[i] != NamesOf(init)[j] {
          assert NamesOf(outs)[i] != NamesOf(outs)[j];
        }
      }
      ZipOfDistinct(init);
      ZipOfValid(init);
      assert last.name !in z0.blobs by {
        forall k | 0 <= k < |init| ensures NamesOf(init)[k] != last.name {
          assert NamesOf(outs)[k] != NamesOf(outs)[|outs| - 1];
        }
      }
      forall i | 0 <= i < |outs|
        ensures outs[i].name in ZipOf(outs).blobs && ZipOf(outs).blobs[outs[i].name] == outs[i].blob
      {
        if i < |init| {
          assert outs[i] == init[i];
          assert outs[i].name in z0.blobs;
        }
      }
    }
  }

  /** With a repeated name, the archive keeps the blob of the last output of
      that name: an earlier file of the same name is lost. */
  lemma {:induction false} ZipOfLastWins(outs: seq<Output>, i: nat)
    requires i < |outs|
    requires forall j :: i < j < |outs| ==> outs[j].name != outs[i].name
    ensures outs[i].name in ZipOf(outs).blobs
    ensures ZipOf(outs).blobs[outs[i].name] == outs[i].blob
  {
    var init := outs[..|outs| - 1];
    if i < |outs| - 1 {
      ZipOfLastWins(init, i);
    }
  }

  // ---------------------------------------------------------------------------
  // handleCompress

  /** The entries the archive of some outputs is generated from. */
  function ArchiveEntries(outs: seq<Output>): (es: seq<(string, Blob)>)
    ensures forall n :: n in NamesOf(outs) <==> exists i :: 0 <= i < |es| && es[i].0 == n
  {
    ZipOfValid(outs);
    var es := ZipOf(outs).Entries();
    assert forall i :: 0 <= i < |es| ==> es[i].0 == ZipOf(outs).names[i];
    es
  }

  /** The archive of every file, compressed in order: the first failing file's
      error, or else the outcome of generating the archive. */
  function ArchiveResult(platform: Platform, settings: Settings, files: seq<File>): (r: Result<Output>)
    ensures r.Ok? ==> r.value.name == ArchiveName
    ensures CompressAll(platform, settings, files).Err? ==> r == Err(CompressAll(platform, settings, files).error)
    ensures CompressAll(platform, settings, files).Ok? ==>
      r == Named(ArchiveName, platform.generateZip(ArchiveEntries(CompressAll(platform, settings, files).value)))
  {
    match CompressAll(platform, settings, files)
    case Err(e) => Err(e)
    case Ok(outs) => Named(ArchiveName, platform.generateZip(ArchiveEntries(outs)))
  }

  /** The loop of `handleCompress` that fills a fresh archive, one file after
      another, and stops at the first file that fails. */
  method CompressArchive(platform: Platform, settings: Settings, files: seq<File>) returns (r: Result<Output>)
    ensures r == ArchiveResult(platform, settings, files)
  {
    var zip := new Archive();
    var i := 0;
    while i < |files|
      invariant 0 <= i <= |files|
      invariant CompressAll(platform, settings, files[..i]).Ok?
      invariant zip.State() == ZipOf(CompressAll(platform, settings, files[..i]).value)
      modifies zip
    {
      var res := CompressSingle(platform, settings, files[i]);
      CompressAllStep(platform, settings, files, i);
      if res.Err? {
        CompressAllPrefixFails(platform, settings, files, i + 1);
        return Err(res.error);
      }
      zip.AddFile(res.value.name, res.value.blob);
      i := i + 1;
    }
    assert files[..i] == files;
    ZipOfValid(CompressAll(platform, settings, files).value);
    var zipped := platform.generateZip(zip.State().Entries());
    if zipped.Err? {
      return Err(zipped.error);
    }
    r := Ok(Output(ArchiveName, zipped.value));
  }

  /** What `handleCompress` produces when there is something to compress: the
      single result when at most one file is listed and a current file is set,
      otherwise an archive of every listed file, or the first failure. */
  function RunCompress(platform: Platform, settings: Settings, file: Option<File>, files: seq<File>): (r: Result<Output>)
    ensures r.Ok? && !(|files| <= 1 && file.Some?) ==> r.value.name == ArchiveName
    ensures r.Ok? && |files| <= 1 && file.Some? ==> r.value.name == file.value.name
    ensures |files| <= 1 && file.Some? ==> r == CompressSingle(platform, settings, file.value)
    ensures !(|files| <= 1 && file.Some?) ==> r == ArchiveResult(platform, settings, files)
  {
    if |files| <= 1 && file.Some? then CompressSingle(platform, settings, file.value)
    else ArchiveResult(platform, settings, files)
  }

  /** The archive case fails exactly when some file fails or, every file
      succeeding, generating the archive fails. */
  lemma ArchiveFailure(platform: Platform, settings: Settings, file: Option<File>, files: seq<File>)
    requires !(|files| <= 1 && file.Some?)
    ensures RunCompress(platform, settings, file, files).Err? <==>
      (exists i :: 0 <= i < |files| && CompressSingle(platform, settings, files[i]).Err?) ||
      (CompressAll(platform, settings, files).Ok? &&
       platform.generateZip(ArchiveEntries(CompressAll(platform, settings, files).value)).Err?)
  {
  }

  /** The entries an archive of outputs with distinct names holds: each
      output's name and blob, in order. */
  lemma ZipEntriesDistinct(outs: seq<Output>)
    requires Distinct(NamesOf(outs))
    ensures ZipOf(outs).Valid()
    ensures ZipOf(outs).Entries() == seq(|outs|, i requires 0 <= i < |outs| => (outs[i].name, outs[i].blob))
  {
    ZipOfDistinct(outs);
    ZipOfValid(outs);
  }

  /** Each file's name with its compressed blob, in input order. */
  function FileEntries(platform: Platform, settings: Settings, files: seq<File>): (es: seq<(string, Blob)>)
    requires forall i :: 0 <= i < |files| ==> CompressSingle(platform, settings, files[i]).Ok?
    ensures |es| == |files|
  {
    seq(|files|, i requires 0 <= i < |files| =>
      (files[i].name, CompressSingle(platform, settings, files[i]).value.blob))
  }

  /** With distinct file names and every file compressing, the archive is
      generated from one entry per file, in input order, under the file's name
      and with its compressed blob; the run succeeds or fails as that does. */
  lemma ArchiveContents(platform: Platform, settings: Settings, file: Option<File>, files: seq<File>)
    requires !(|files| <= 1 && file.Some?)
    requires forall i, j :: 0 <= i < j < |files| ==> files[i].name != files[j].name
    requires forall i :: 0 <= i < |files| ==> CompressSingle(platform, settings, files[i]).Ok?
    ensures RunCompress(platform, settings, file, files) ==
      Named(ArchiveName, platform.generateZip(FileEntries(platform, settings, files)))
  {
    var outs := CompressAll(platform, settings, files).value;
    AllCompressedOutputs(platform, settings, files);
    ZipEntriesDistinct(outs);
  }

  /** When every file compresses, the run's outputs carry the files' names and
      their compressed blobs, in order. */
  lemma AllCompressedOutputs(platform: Platform, settings: Settings, files: seq<File>)
    requires forall i :: 0 <= i < |files| ==> CompressSingle(platform, settings, files[i]).Ok?
    ensures CompressAll(platform, settings, files).Ok?
    ensures var outs := CompressAll(platform, settings, files).value;
      && (forall i :: 0 <= i < |outs| ==> outs[i].name == files[i].name)
      && seq(|outs|, i requires 0 <= i < |outs| => (outs[i].name, outs[i].blob)) ==
         FileEntries(platform, settings, files)
  {
  }

  /** One more file: the run so far extended by that file's result. */
  lemma CompressAllStep(platform: Platform, settings: Settings, files: seq<File>, i: nat)
    requires i < |files|
    ensures var before := CompressAll(platform, settings, files[..i]);
      var res := CompressSingle(platform, settings, files[i]);
      CompressAll(platform, settings, files[..i + 1]) ==
        if before.Err? then before
        else if res.Err? then Err(res.error)
        else Ok(before.value + [res.value])
  {
    assert files[..i + 1][..i] == files[..i];
  }

  /** Once a prefix of the files fails, the whole run fails with the same error:
      the files after it are never compressed. */
  lemma {:induction false} CompressAllPrefixFails(platform: Platform, settings: Settings, files: seq<File>, k: nat)
    requires k <= |files|
    requires CompressAll(platform, settings, files[..k]).Err?
    ensures CompressAll(platform, settings, files) == CompressAll(platform, settings, files[..k])
    decreases |files| - k
  {
    if k < |files| {
      var init := files[..|files| - 1];
      assert init[..k] == files[..k];
      CompressAllPrefixFails(platform, settings, init, k);
    } else {
      assert files[..k] == files;
    }
  }

  /** The page's state that compressing reads and writes. */
  class AppState {
    var file: Option<File>
    var files: seq<File>
    var algorithm: string
    var targetPercent: int
    var preset: string
    var outputBlob: Option<Blob>
    var outputName: string
    var processing: bool

    /** The initial state: nothing chosen, deflate at 30 percent, balanced. */
    constructor ()
      ensures file == None && files == [] && algorithm == "deflate" && targetPercent == 30
      ensures preset == "balanced" && outputBlob == None && outputName == "" && !processing
    {
      file := None;
      files := [];
      algorithm := "deflate";
      targetPercent := 30;
      preset := "balanced";
      outputBlob := None;
      outputName := "";
      processing := false;
    }

    /** `handleCompress`. Nothing happens without a file. Otherwise the output
        is cleared, the run's result (if it succeeds) becomes the output and
        its name, a failure leaves no output and the previous name, and the
        page ends not processing. */
    method HandleCompress(platform: Platform)
      modifies this
      ensures old(file).None? && old(files) == [] ==> unchanged(this)
      ensures file == old(file) && files == old(files) && preset == old(preset)
      ensures algorithm == old(algorithm) && targetPercent == old(targetPercent)
      ensures old(file).Some? || old(files) != [] ==>
        var r := RunCompress(platform, Settings(algorithm, targetPercent), file, files);
        && !processing
        && outputBlob == (if r.Ok? then Some(r.value.blob) else None)
        && outputName == (if r.Ok? then r.value.name else old(outputName))
    {
      if file.None? && |files| == 0 {
        return;
      }
      processing := true;
      outputBlob := None;
      var settings := Settings(algorithm, targetPercent);
      var res;
      if |files| <= 1 && file.Some? {
        res := CompressSingle(platform, settings, file.value);
      } else {
        res := CompressArchive(platform, settings, files);
      }
      if res.Ok? {
        outputBlob := Some(res.value.blob);
        outputName := res.value.name;
      }
      processing := false;
    }

    /** The preset effect. */
    method ApplyPreset()
      modifies this
      ensures targetPercent == PresetPercent(preset, old(targetPercent))
      ensures file == old(file) && files == old(files) && preset == old(preset)
      ensures algorithm == old(algorithm) && outputBlob == old(outputBlob)
      ensures outputName == old(outputName) && processing == old(processing)
    {
      if preset == "max-quality" {
        targetPercent := 10;
      } else if preset == "balanced" {
        targetPercent := 30;
      } else if preset == "max-reduction" {
        targetPercent := 70;
      }
    }

    /** The percent figure of `compressionSummary`; None where the page shows a
        dash. */
    function Summary(): Option<real>
      reads this
    {
      if file.None? || outputBlob.None? then None
      else Some(SavingPercent(|file.value.bytes|, |outputBlob.value.bytes|))
    }

    /** The name `handleDownload` saves under; None when there is no output. */
    function DownloadName(): Option<string>
      reads this
    {
      if outputBlob.None? then None else Some(DefaultName(outputName, |files|, file))
    }
  }

  // ---------------------------------------------------------------------------
  // Presets, summary and download name

  /** The target percent a preset sets; an unknown preset leaves it. */
  function PresetPercent(preset: string, current: int): int
  {
    if preset == "max-quality" then 10
    else if preset == "balanced" then 30
    else if preset == "max-reduction" then 70
    else current
  }

  /** The three presets set 10, 30 and 70, inside the slider's range 10..90,
      with deflate levels 1, 3 and 6; applying a preset twice is applying it
      once; an unknown preset changes nothing. */
  lemma PresetProperties(preset: string, current: int)
    ensures preset == "max-quality" ==> PresetPercent(preset, current) == 10
    ensures preset == "balanced" ==> PresetPercent(preset, current) == 30
    ensures preset == "max-reduction" ==> PresetPercent(preset, current) == 70
    ensures preset !in {"max-quality", "balanced", "max-reduction"} ==> PresetPercent(preset, current) == current
    ensures 10 <= current <= 90 ==> 10 <= PresetPercent(preset, current) <= 90
    ensures PresetPercent(preset, PresetPercent(preset, current)) == PresetPercent(preset, current)
    ensures DeflateLevel(PresetPercent("max-quality", current)) == 1
    ensures DeflateLevel(PresetPercent("balanced", current)) == 3
    ensures DeflateLevel(PresetPercent("max-reduction", current)) == 6
  {
  }

  /** The percentage saved, as `compressionSummary` computes it. */
  function SavingPercent(inSize: nat, outSize: nat): (pct: real)
    ensures 0.0 <= pct <= 100.0
  {
    var saved := inSize - outSize;
    if saved <= 0 then 0.0
    else MaxReal(0.0, MinReal(100.0, saved as real / inSize as real * 100.0))
  }

  /** A part over a whole lies in (0, 1], and is 1 only for the whole. */
  lemma RatioBounds(part: real, whole: real)
    requires 0.0 < part <= whole
    ensures 0.0 < part / whole <= 1.0
    ensures part / whole == 1.0 <==> part == whole
  {
    var q := part / whole;
    assert q * whole == part;
  }

  /** Nothing saved when the output is not smaller; otherwise the exact share
      saved, which is never clamped since it already lies in (0, 100]; 100 only
      for an empty output. */
  lemma SavingPercentProperties(inSize: nat, outSize: nat)
    ensures outSize >= inSize ==> SavingPercent(inSize, outSize) == 0.0
    ensures outSize < inSize ==>
      SavingPercent(inSize, outSize) == (inSize - outSize) as real * 100.0 / inSize as real
    ensures outSize < inSize ==> SavingPercent(inSize, outSize) > 0.0
    ensures SavingPercent(inSize, outSize) == 100.0 <==> outSize == 0 && inSize > 0
  {
    if outSize < inSize {
      var saved := (inSize - outSize) as real;
      var size := inSize as real;
      RatioBounds(saved, size);
      assert saved / size * 100.0 == saved * 100.0 / size;
    }
  }

  /** The download name: the output name when there is one, else the archive
      name for several files, else the current file's name, else "output". */
  function DefaultName(outputName: string, fileCount: nat, file: Option<File>): (name: string)
    ensures outputName != "" ==> name == outputName
    ensures name == "" <==> outputName == "" && fileCount <= 1 && file.Some? && file.value.name == ""
    ensures outputName == "" && fileCount > 1 ==> name == ArchiveName
    ensures outputName == "" && fileCount <= 1 && file.None? ==> name == "output"
  {
    if outputName != "" then outputName
    else if fileCount > 1 then ArchiveName
    else if file.Some? then file.value.name
    else "output"
  }

  /** A successful run makes its result's name the download name: the
      archive's fixed name, or a single file's name (when that is empty, the
      fallback is that same file's name). */
  lemma DefaultNameProperties(platform: Platform, settings: Settings, file: Option<File>, files: seq<File>)
    ensures var r := RunCompress(platform, settings, file, files);
      r.Ok? ==> DefaultName(r.value.name, |files|, file) == r.value.name
  {
  }
}
