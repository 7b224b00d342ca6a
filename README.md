# PixelPack compression core in Dafny

PixelPack is a browser app that makes text, image and PDF files smaller on the
user's machine. This project models its compression core:

- the hand-written Huffman text encoder of `src/lib/compressors.ts`:
  - counting characters (`buildFrequencyMap`);
  - building the tree with a stable sort and `shift`/`shift`/`push` (`buildHuffmanTree`);
  - reading off the code table with a depth-first walk (`buildCodeMap`);
  - concatenating the codes and packing the bits most significant first into a
    `Uint8Array` (`huffmanEncode`);
- the parameter formulas around the external codecs:
  - the deflate level of `compressText`;
  - the downscale factor, canvas size, output type and JPEG quality of `compressImage`;
  - the metadata rewrite of `compressPdf`;
- the workflow of `src/App.tsx`:
  - which compressor a file goes to (`compressSingle`);
  - one result or a zip archive of all results (`handleCompress`);
  - the presets;
  - the saving percentage of the summary;
  - the download name.

The modules follow the source:

| file | module | source |
|---|---|---|
| `outcome.dfy` | `Outcome` | `Option` (a value that may be `null`/`undefined`) and `Result` (a promise that resolves or rejects) |
| `sequences.dfy` | `Sequences` | the distinct-elements predicate shared by the frequency map, the tree and the archive |
| `frequency.dfy` | `Frequency` | `buildFrequencyMap` |
| `tree.dfy` | `HuffmanTree` | `HuffmanNode`, `buildHuffmanTree` |
| `codes.dfy` | `CodeMap` | `buildCodeMap` |
| `packing.dfy` | `BitPacking` | the packing loop of `huffmanEncode` |
| `encoder.dfy` | `HuffmanEncoder` | `huffmanEncode`, with a worked example |
| `compressors.dfy` | `Compressors` | `compressText`, `compressImage`, `compressPdf` |
| `app.dfy` | `App` | `compressSingle`, `handleCompress`, presets, summary, download name |

Code that changes state step by step is imperative Dafny, and each such method is
proved equal to a specification function:

- `buildFrequencyMap`, `buildHuffmanTree` and `huffmanEncode` are methods with loops;
- the shared map of `buildCodeMap` is a field of a class written by a recursive method;
- the output buffer is an `array<bv8>`;
- the JSZip object and the page state are classes.

The codecs the app calls are fields of a `Platform` value, given as a parameter and
never interpreted: `pako.deflate`, image decoding, canvas drawing and `toBlob`,
pdf-lib load/save, `File.text()` and `generateAsync`. Every one of them that can reject
in the source returns a `Result`: image decoding, reading and loading a PDF, saving
it, reading a text file, and generating the archive. Each such failure is carried
through to the file's result and to the run.

Other modelling choices:

- A Dafny `char` stands for one code point, as `for…of` over a string yields.
- The insertion-ordered JavaScript `Map` is a key list plus a map of counts. The key order decides how ties in the sort are broken.
- `Array.prototype.sort` is stable, and is modelled as a stable insertion sort by frequency. Its specification is proved:
  - sorted;
  - a permutation;
  - the same order among equal frequencies.
- The target percent is an integer, as the range slider gives. The deflate level `Math.round((p / 100) * 9)` is computed exactly as `(9p + 50) / 100` with floor division:
  - `9p / 100` has a fractional part that is a multiple of 0.01;
  - it is one half only for an exact binary half such as 4.5;
  - so rounding the double gives the same integer.
- Image scale and quality are exact `real`s.

There is no decoder in the source, and the output stores neither the code table nor
the number of bits. So no round trip is claimed. `SingleSymbolsCollide` shows why
none could hold: two texts of the same length, each repeating a different
character, give the same bytes.

## Model

| member | source | states |
|---|---|---|
| Frequency.BuildFrequencyMap | src/lib/compressors.ts:18-22 | The counting loop returns `FrequencyOf(input)`. The map is valid: keys listed once, and exactly the keys carry a count. A character has a count iff it occurs in the input, and the count is its number of occurrences. |
| Frequency.FrequencyKeys | src/lib/compressors.ts:18-22 | The keys are exactly the distinct characters of the input, each listed once. The empty input gives the empty map. |
| Frequency.FrequencyCounts | src/lib/compressors.ts:20 | Each count equals the number of occurrences of its character in the input. |
| Frequency.FrequencyOrder | src/lib/compressors.ts:19-20 | The keys come in the order of their first occurrence in the input (the Map's insertion order). |
| Frequency.FrequencyTotal | src/lib/compressors.ts:18-22 | The counts of the entries add up to the length of the input. |
| Frequency.AddValid | src/lib/compressors.ts:20 | One `map.set(ch, get + 1)` keeps the keys listed once each and in step with the counts. |
| Frequency.AddTotal | src/lib/compressors.ts:20 | One `map.set(ch, get + 1)` raises the total of the counts by exactly one, whether the key is new or present. |
| HuffmanTree.SortByFreq | src/lib/compressors.ts:28 | The sort keeps the number of nodes. That it orders by frequency, is a permutation and is stable is stated by the next three rows. |
| HuffmanTree.SortSorted | src/lib/compressors.ts:28 | After the sort the frequencies are non-decreasing. |
| HuffmanTree.SortPermutes | src/lib/compressors.ts:28 | The sort is a permutation of the list. |
| HuffmanTree.SortStable | src/lib/compressors.ts:28 | The sort is stable: for every frequency, the nodes with that frequency keep their relative order. |
| HuffmanTree.MergeStep | src/lib/compressors.ts:27-31 | One iteration (sort, shift, shift, push) shortens the list by exactly one, so the loop terminates. |
| HuffmanTree.BuildHuffmanTree | src/lib/compressors.ts:24-34 | The loop returns `HuffmanRoot(fm)`, the tree obtained by repeating the merge step until one node is left. It returns no tree exactly when the map is empty. |
| HuffmanTree.MergeTakesTwoSmallest | src/lib/compressors.ts:28-31 | Each merge joins two nodes no heavier than any other node, the lighter on the left, into a node carrying their sum. No other node is lost. |
| HuffmanTree.MergeBreaksTiesInListOrder | src/lib/compressors.ts:28-31 | Ties are broken by list order. The left child is the earliest node of the smallest frequency. The right child is the next node of that frequency, or else the earliest node of the next frequency. |
| HuffmanTree.MergeStepKeeps | src/lib/compressors.ts:28-31 | A merge step keeps the multiset of leaves and the total frequency. |
| HuffmanTree.HuffmanLeaves | src/lib/compressors.ts:27-33 | The leaves of the finished tree are, as a multiset, the leaves of the starting list. |
| HuffmanTree.HuffmanFull | src/lib/compressors.ts:31 | Every internal node of the finished tree carries the sum of its children's frequencies. |
| HuffmanTree.HuffmanFreq | src/lib/compressors.ts:27-33 | The root's frequency is the sum of the starting frequencies. |
| HuffmanTree.LeafCount | src/lib/compressors.ts:11-16 | A tree with n leaves has n - 1 internal nodes. |
| HuffmanTree.HuffmanRootLeaves | src/lib/compressors.ts:24-34 | For a non-empty map, the leaves of the built tree are exactly the map's entries, each character once. |
| HuffmanTree.HuffmanRootCounts | src/lib/compressors.ts:24-34 | The built tree is full. It has one internal node fewer than the map has keys. Its root carries the total count. |
| HuffmanTree.HuffmanRootShape | src/lib/compressors.ts:24-34 | No tree iff the map is empty; otherwise leaves, fullness, node count and root total as above. A single entry gives a single leaf. |
| HuffmanTree.HuffmanRootSymbols | src/lib/compressors.ts:24-34 | The characters at the leaves of the built tree are exactly the map's keys. |
| CodeMap.CodeMapBuilder.constructor | src/lib/compressors.ts:37 | The shared map starts empty. |
| CodeMap.CodeMapBuilder.Dfs | src/lib/compressors.ts:39-46 | The walk from a node with a path leaves the old map updated with `PathCodes(node, path)`. A leaf writes its path, or "0" for an empty path. An internal node walks left with '0' appended, then right with '1'. |
| CodeMap.BuildCodeMap | src/lib/compressors.ts:36-49 | Returns `CodeTable(root)`: empty without a tree. With a tree, the keys are exactly the leaf characters and no code is a prefix of another. |
| CodeMap.PathCodesKeys | src/lib/compressors.ts:39-46 | The walk gives a code to exactly the characters at the leaves. |
| CodeMap.PathCodesArePaths | src/lib/compressors.ts:39-46 | Below the root, every code is the path walked so far followed by a path that leads to a leaf holding that character. |
| CodeMap.LeafPathsUnique | src/lib/compressors.ts:44-45 | Two paths that both end at leaves, one a prefix of the other, are equal. |
| CodeMap.OnePathPerSymbol | src/lib/compressors.ts:44-45 | When each character sits at one leaf, a character has exactly one path. |
| CodeMap.CodeTableShape | src/lib/compressors.ts:36-49 | The table gives non-empty codes to exactly the leaf characters. A single-leaf tree gives "0". Otherwise each code is its character's root-to-leaf path ('0' left, '1' right), and the only one when characters are distinct. No code is a prefix of another. |
| BitPacking.MaskIsShift | src/lib/compressors.ts:62-63 | The mask for bit j of a group of eight is `1 << (7 - j)`. |
| BitPacking.Pack | src/lib/compressors.ts:58-59 | The packed output has `ceil(n / 8)` bytes for n bits. |
| BitPacking.SetBit | src/lib/compressors.ts:63 | `|=` with one mask sets that bit and leaves the other seven unchanged. |
| BitPacking.PackedByteBits | src/lib/compressors.ts:60-64 | Bit j of packed byte k is set iff bit `8k + j` of the string exists and is '1'. |
| BitPacking.PackBits | src/lib/compressors.ts:58-65 | The packing loop fills a fresh zeroed buffer whose contents equal `Pack(bits)`. |
| BitPacking.PackLayout | src/lib/compressors.ts:58-64 | `ceil(n/8)` bytes. Bit i of the string is bit `7 - i % 8` of byte `i / 8` (MSB first). The padding bits are 0. No bits give no bytes. |
| HuffmanEncoder.CodesFor | src/lib/compressors.ts:52-54 | The table built for an input gives a non-empty code to every input character and to no other. No code is a prefix of another. |
| HuffmanEncoder.HuffmanEncode | src/lib/compressors.ts:51-66 | The encoder's buffer holds `HuffmanEncoding(input)`: the codes of the input characters, concatenated in order and packed. |
| HuffmanEncoder.EncodedBitsLength | src/lib/compressors.ts:55-56 | The bit string is as long as the sum of the code lengths over the input characters. |
| HuffmanEncoder.EncodingLayout | src/lib/compressors.ts:51-66 | The output has `ceil(B / 8)` bytes, B the sum of the code lengths. Bit i of the bit string is bit `7 - i % 8` of byte `i / 8`. The padding bits are 0. |
| HuffmanEncoder.EncodingEmpty | src/lib/compressors.ts:51-66 | The empty input encodes to no bytes. |
| HuffmanEncoder.RootCountsInput | src/lib/compressors.ts:52-53 | For a non-empty input there is a tree, and its root's frequency is the input length. |
| HuffmanEncoder.SingleSymbol | src/lib/compressors.ts:41 | N >= 1 copies of one character get the table `{c: "0"}` and encode to `ceil(N / 8)` zero bytes. |
| HuffmanEncoder.SingleSymbolsCollide | src/lib/compressors.ts:51-66 | Two texts of equal length, each one repeated character, encode to the same bytes, so the output alone cannot be decoded. |
| HuffmanEncoder.ExampleFrequency | src/lib/compressors.ts:18-22 | "aaaabbbcc" counts a:4, b:3, c:2, in that key order. |
| HuffmanEncoder.ExampleFirstSort | src/lib/compressors.ts:28 | Sorting the leaves a:4, b:3, c:2 gives c, b, a. |
| HuffmanEncoder.ExampleFirstMerge | src/lib/compressors.ts:28-31 | The first merge joins c and b, c on the left, into a node of 5. |
| HuffmanEncoder.ExampleSecondMerge | src/lib/compressors.ts:28-31 | The second merge joins a (4) and the node of 5, a on the left. |
| HuffmanEncoder.ExampleTree | src/lib/compressors.ts:24-34 | The tree of "aaaabbbcc" is (a, (c, b)) with frequency 9. |
| HuffmanEncoder.ExampleCodes | src/lib/compressors.ts:36-49 | The example's table is a = "0", c = "10", b = "11". |
| HuffmanEncoder.ExampleBits | src/lib/compressors.ts:55-56 | The example's bit string is the 14 bits "00001111111010". |
| HuffmanEncoder.ExamplePack | src/lib/compressors.ts:57-65 | Those 14 bits pack into the bytes 0x0F, 0xE8. |
| HuffmanEncoder.ExampleEncoding | src/lib/compressors.ts:51-66 | "aaaabbbcc" encodes to the two bytes 0x0F, 0xE8. |
| Compressors.DeflateLevel | src/lib/compressors.ts:74 | The deflate level always lies in 1..9. |
| Compressors.RoundedLevelNearest | src/lib/compressors.ts:74 | The rounded level is the integer nearest to 9p/100, a half rounded up (`Math.round`). |
| Compressors.DeflateLevelClamps | src/lib/compressors.ts:74 | The level is the rounded level when that lies in 1..9, and the nearer end of 1..9 otherwise. Targets of 95 and above give 9. |
| Compressors.DeflateLevelMonotone | src/lib/compressors.ts:74 | A higher target never lowers the level. |
| Compressors.DeflateLevelExamples | src/lib/compressors.ts:74 | p = 10, 30, 50, 70, 90, 100, 0 give levels 1, 3, 5, 6, 8, 9, 1. |
| Compressors.CompressText | src/lib/compressors.ts:68-81 | The text result is typed `application/octet-stream`. With deflate its bytes are what pako produces at `DeflateLevel(p)`; with Huffman they are `HuffmanEncoding(input)`. |
| Compressors.TextTargetDependence | src/lib/compressors.ts:72-80 | The Huffman path gives the encoder's bytes whatever the target. The deflate path depends on the target only through the level. |
| Compressors.ImageScale | src/lib/compressors.ts:98 | The scale is `1 - p/200` up to p = 100, and exactly 0.5 from there on. For p >= 0 it lies in [0.5, 1]. |
| Compressors.ImageScaleMonotone | src/lib/compressors.ts:98 | A higher target never gives a larger scale. |
| Compressors.CanvasSide | src/lib/compressors.ts:99-100 | A canvas side is at least 1. |
| Compressors.CanvasSideBounds | src/lib/compressors.ts:99-100 | A side is the floor of the scaled side when that is at least 1. It never exceeds the image side for a scale of at most 1. |
| Compressors.OutputMime | src/lib/compressors.ts:103-104 | The canvas encodes to `image/png` iff the input type contains "png", and to `image/jpeg` otherwise. |
| Compressors.ImageQuality | src/lib/compressors.ts:105 | There is no quality exactly when the type contains "png". |
| Compressors.ImageQualityBounds | src/lib/compressors.ts:105 | The JPEG quality is `1 - p/100` down to 0.1, reached at p = 90. It lies in [0.1, 1] for p >= 0. |
| Compressors.OutputMimeExamples | src/lib/compressors.ts:103-105 | PNG stays PNG with no quality. JPEG, WebP and GIF inputs become JPEG. |
| Compressors.CompressImage | src/lib/compressors.ts:85-112 | The image compressor fails exactly when the image cannot be decoded, with the decoder's error. Otherwise its bytes are the canvas encoding of the decoded picture at `CanvasSide(side, ImageScale(p))` for each side, in `OutputMime(type)` with `ImageQuality(type, p)`, and the blob has that type. |
| Compressors.StripInfo | src/lib/compressors.ts:127-131 | Title and author are kept (an absent one becomes ""). The subject is emptied. Producer and creator become "Smart Compressor". |
| Compressors.Rewritten | src/lib/compressors.ts:126-134 | The saved document is the loaded one, with only its information rewritten. |
| Compressors.CompressPdf | src/lib/compressors.ts:117-141 | A file that cannot be read or loaded fails with that error. Otherwise the result fails iff saving the rewritten document fails, with the save's error, and its bytes are what the save produced. The blob is typed `application/pdf`. |
| Compressors.StripInfoProperties | src/lib/compressors.ts:127-131 | Two documents get the same information iff their titles and authors agree, an absent one counting as "". Rewriting twice equals rewriting once. |
| Compressors.PdfIgnoresTarget | src/lib/compressors.ts:117 | The PDF result does not depend on the target. |
| App.TextAlgorithmOf | src/App.tsx:180 | Text is Huffman-encoded iff the selector is "huffman". Every other value, including "image" and "pdf", means deflate. |
| App.RouteOf | src/App.tsx:170-179 | A file goes to the image codec iff its type starts with `image/`. It goes to text iff it is not an image, its type is not `application/pdf`, and its lower-cased name does not end in ".pdf". |
| App.CompressSingle | src/App.tsx:169-184 | A per-file result keeps the file's name. An image gets the image compressor's result and a PDF the PDF compressor's, under the file's name. A text file fails iff it cannot be read, with the read error; otherwise it gets `CompressText` of its text with `TextAlgorithmOf(algorithm)` and the target. |
| App.RouteProperties | src/App.tsx:170-178 | An `image/` type goes to the image codec first. The PDF codec gets exactly the remaining files with type `application/pdf` or a name ending in ".pdf" in any case. Lower-casing a name never changes the route. |
| App.RouteExamples | src/App.tsx:170-179 | "REPORT.PDF" goes to PDF. An `image/png` named "scan.pdf" goes to image. "notes.txt" typed `application/pdf` goes to PDF. Plain text goes to text. |
| App.SelectorOnlyForText | src/App.tsx:170-181 | The algorithm selector never affects an image or a PDF. For text, every value other than "huffman" acts as "deflate". |
| App.SingleFailure | src/App.tsx:169-184 | Text fails iff it cannot be read. An image fails iff it cannot be decoded. A PDF fails iff it cannot be loaded or its rewritten document cannot be saved. |
| App.CompressAll | src/App.tsx:197-200 | Files are compressed in input order. On success there is one result per file, in order. A failure is the error of the first failing file, with every earlier file succeeding. |
| App.Archive.constructor | src/App.tsx:196 | A new archive is empty. |
| App.Archive.AddFile | src/App.tsx:199 | `zip.file(name, blob)` adds a new name at the end, and replaces the blob of a name already present in place. |
| App.AddEntry | src/App.tsx:199 | After `zip.file(name, blob)` the name holds the blob and every other name keeps its blob. A present name keeps its place; a new one goes last. Distinct, consistent names stay so. |
| App.ZipOfValid | src/App.tsx:197-200 | The archive's names are distinct, match its blobs, and are exactly the results' names. |
| App.ZipOfDistinct | src/App.tsx:197-200 | With distinct names, the archive lists the results' names in order, each with its blob. |
| App.ZipOfLastWins | src/App.tsx:199 | Names are not deduplicated: under a repeated name the archive keeps the last file's blob, and the earlier file is lost. |
| App.ArchiveResult | src/App.tsx:195-203 | The archive result is named "pixelpack-compressed.zip". If a file fails, the result is that first failure. Otherwise it is the outcome of generating the archive from the compressed files' entries, so it fails iff generation fails. |
| App.CompressArchive | src/App.tsx:196-203 | The loop that fills a fresh archive one file at a time, stopping at the first failure, returns `ArchiveResult`. |
| App.RunCompress | src/App.tsx:191-204 | With at most one listed file and a current file, the result is exactly `CompressSingle` of that file, under its own name, and no archive is made. Otherwise it is exactly `ArchiveResult` of the listed files, under the archive name. |
| App.ArchiveFailure | src/App.tsx:195-207 | The archive case fails iff some file fails, or every file succeeds and generating the archive fails. |
| App.ArchiveContents | src/App.tsx:195-203 | With distinct file names and every file succeeding, the result is exactly the outcome of generating the archive from each file's name and compressed blob, in input order. |
| App.AllCompressedOutputs | src/App.tsx:197-200 | When every file compresses, the run succeeds with one output per file carrying that file's name and its compressed blob, in input order. |
| App.CompressAllStep | src/App.tsx:197-200 | One more file extends the run by that file's result, or stops it at its error. |
| App.CompressAllPrefixFails | src/App.tsx:197-200 | Once a prefix fails, the whole run fails with that error: later files are never compressed. |
| App.AppState.constructor | src/App.tsx:63-70 | The page starts with no file, deflate at 30 percent, the balanced preset, no output and no run in progress. |
| App.AppState.HandleCompress | src/App.tsx:186-211 | Without a file nothing changes. Otherwise the output is cleared, and a successful run sets the output and its name. A failure leaves no output and the previous name. Processing ends false. Inputs and settings are unchanged. |
| App.AppState.ApplyPreset | src/App.tsx:137-141 | The preset effect sets the target to `PresetPercent(preset, old target)` and changes nothing else. |
| App.PresetProperties | src/App.tsx:137-141 | max-quality, balanced and max-reduction set 10, 30 and 70, giving deflate levels 1, 3 and 6. An unknown preset leaves the target. Applying a preset twice equals applying it once. The slider range 10..90 is kept. |
| App.SavingPercent | src/App.tsx:154-157 | The saving percentage lies in [0, 100]. |
| App.SavingPercentProperties | src/App.tsx:156-157 | The saving is 0 when the output is not smaller. Otherwise it is exactly `saved * 100 / size` > 0, which the clamp never changes. It is 100 only for an empty output. |
| App.DefaultName | src/App.tsx:217 | A non-empty output name is the download name. Otherwise it is the archive name for several files, the current file's name for one, or "output" with no file. The name is empty only when the output name is empty, at most one file is listed and the current file's name is empty. |
| App.DefaultNameProperties | src/App.tsx:217 | After a successful run, the download name is the result's name. |

## Left out

- The codecs run inside the browser or a library and are not part of this model; they are fields of `Platform`:
  - `pako.deflate`;
  - image decoding and canvas `drawImage`/`toBlob`;
  - pdf-lib `load`/`save`;
  - `File.text()`;
  - `JSZip.generateAsync`.
- `async`/`await` is modelled as sequential calls in the order the source awaits them. A rejected promise is an `Err`.
- Compressors.CompressText: `pako.deflate` is a total function of `Platform`. An exception thrown by pako is not modelled.
- HuffmanEncoder.HuffmanEncode: the `RangeError` that `bitString +=` throws once the bit string passes the JavaScript engine's maximum string length is not modelled. That limit differs between engines, and the model's strings are unbounded, so a very long text encodes here where the source throws.
- Compressors.CompressImage: `toBlob` may hand back `null`, which the source asserts away with `b!` and then passes on as the result's blob. That case is not modelled: the canvas always yields a blob.
- The object URL created and revoked around image decoding is not modelled.
- Floating point:
  - the target percent is an integer;
  - the image scale, quality and saving percentage are exact reals, not IEEE doubles.
- `compressSingle`'s `toLowerCase` is modelled for ASCII letters only. It matters only for the ".pdf" suffix test.
- Strings are sequences of code points. Lone UTF-16 surrogates and JavaScript's UTF-16 string length are not modelled.
- `bitString.length` and the `i >> 3` / `i & 7` index arithmetic are 32-bit in the source, and the model uses unbounded integers. For the non-negative indexes below 2^31 that a string can reach, `i >> 3 == i / 8` and `i & 7 == i % 8`.
- JSZip:
  - folder paths in names are not modelled;
  - the ordering of integer-like names is not modelled;
  - the generated archive bytes are the `generateZip` codec's business.
- The `alert` and `console.error` of a failed run are not modelled. The intermediate `processing = true` is not observable in a sequential model. `HandleCompress` states only the final state.
- App.AppState.Summary and App.AppState.DownloadName carry no contract of their own. What they compute is stated by App.SavingPercentProperties and App.DefaultName.
- `formatBytes` and the text of the summary are not modelled. Both use floating-point `Math.log` and `toFixed`.
- Not modelled:
  - React state plumbing;
  - effects other than the preset effect;
  - drag, drop and paste listeners;
  - `localStorage`;
  - the share link.
- `src/pages/ImageEditor.tsx`, `src/pages/ToPdf.tsx`, `src/lib/theme.tsx`, the landing and about pages and the components are not part of this model. They are UI code.
- There is no decoder in the source, so no round trip is stated. HuffmanEncoder.SingleSymbolsCollide shows that the output alone cannot be decoded.
