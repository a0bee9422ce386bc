# C64 diskmag content classifier — a Dafny model

The corpus tools for German-language C64 diskmags read each program file out
of a disk image and decide what its bytes are: compressed data, program code,
or text in one of three 8-bit encodings (ASCII, lower-case PETSCII, lower-case
C64 screen codes). This project models that classifier (`decode_text`) and the
byte histogram it builds for its entropy test (`check_entropy`). It also
models the two small string helpers from the same file: `replace_alt_umlauts`,
which turns `ae`, `oe`, `ss` and the like into umlauts, and
`create_title_path`, which names the text file a converted image is written
to.

Modules, one file each:

- `Values` (values.dfy): bytes, the exceptions the core raises, `Result` and `Option`.
- `Entropy` (entropy.dfy): the Counter of byte values, in first-occurrence
  order, and the distribution `dist`. The entropy formula is a parameter
  `entropyOf: seq<real> -> real`.
- `Classifier` (classifier.dfy): the three codecs, total decoding with U+FFFD
  for unmapped bytes, the letter density, `np.argmax` as a first-maximum scan,
  and `decode_text`. `DecodeText` is a method with the source's loop over
  the codecs. It is proved equal to the function `Classify`, and the
  properties of `decode_text` are proved about `Classify`.
- `Umlauts` (umlauts.dfy): the left-to-right, non-overlapping regex rewrite.
- `TitlePath` (title_path.dfy): POSIX `split`, `basename` and `join`,
  lower-casing with `' '` replaced by `'_'`, `list.index`, `str(int)`, and
  `create_title_path`, with the directory listing as a parameter.

Foreign behaviour enters as parameters:

- the two cbmcodecs2 byte tables (`Charmaps`);
- `str.isalpha` (`isAlpha`);
- `str.lower` (`lower`, character by character);
- `scipy.stats.entropy` (`entropyOf`);
- the result of `os.listdir` (`listing`).

ASCII decoding is concrete: a byte below 128 becomes that character, and any
other byte becomes U+FFFD.

Two behaviours of the code to note:

- Empty `bytes` are not given density 0. After the entropy test, the first
  division `len(chars) / len(decoded)` raises `ZeroDivisionError`, and
  `Classify` returns `Err(ZeroDivisionError)`. The entropy test comes first,
  so an entropy formula that put `[]` above 7 would give the compressed marker
  instead; scipy gives 0.
- The result is the pair of strings the code returns. `Classification.Rendered`
  gives that pair for each of the three outcomes.

## Model

| member | source | states |
|---|---|---|
| Classifier.Classify | disk_image_handling/c64_disk_image_processing_utils.py:10-27 | `decode_text` raises exactly for input that is not `bytes` (TypeError) and for empty bytes that pass the entropy test (ZeroDivisionError); every other input gets an outcome |
| Classifier.Classification.Rendered | disk_image_handling/c64_disk_image_processing_utils.py:14-27 | The second string is `'Unknown encoding'` exactly for the compressed outcome, and code is reported as `'Code'` |
| Classifier.RenderedCodeText | disk_image_handling/c64_disk_image_processing_utils.py:25-27 | A decoded text that reads `Code` returns the same pair as the code outcome for that codec, so the caller cannot tell them apart |
| Classifier.DecodeText | disk_image_handling/c64_disk_image_processing_utils.py:10-27 | The loop that decodes under each codec, collects texts and densities and picks the first best gives exactly the outcome `Classify` describes, error cases included |
| Classifier.NotBytesRaises | disk_image_handling/c64_disk_image_processing_utils.py:11-12 | Input that is not `bytes` raises TypeError, whatever the threshold, tables or entropy |
| Classifier.HighEntropyIsCompressed | disk_image_handling/c64_disk_image_processing_utils.py:13-14 | Entropy above 7 gives `('Compressed file', 'Unknown encoding')` for every threshold, codec table and letter predicate |
| Classifier.EmptyInput | disk_image_handling/c64_disk_image_processing_utils.py:13-22 | Empty bytes raise ZeroDivisionError unless the entropy of the empty distribution exceeds 7 |
| Classifier.ClassifyDecides | disk_image_handling/c64_disk_image_processing_utils.py:15-27 | Below entropy 7 a non-empty input is always Code or Text; its codec is the first one with the highest density; it is Code exactly when that density is strictly below the threshold; Text carries that codec's decoding; the reported name is the codec's name |
| Classifier.ThresholdMonotone | disk_image_handling/c64_disk_image_processing_utils.py:24-27 | A higher threshold can turn Text into Code but never Code into Text, and never changes the chosen codec |
| Classifier.AllLettersInAscii | disk_image_handling/c64_disk_image_processing_utils.py:15-27 | If the ASCII decoding is all letters, ASCII wins even against ties and the text is returned for any threshold up to 1 |
| Classifier.Codec.Index | disk_image_handling/c64_disk_image_processing_utils.py:15 | Each codec's key in `encoding_mapping` points back to that codec |
| Classifier.Decode | disk_image_handling/c64_disk_image_processing_utils.py:19 | Decoding with `errors='replace'` is total and yields one character per byte |
| Classifier.AsciiDecode | disk_image_handling/c64_disk_image_processing_utils.py:19 | The ASCII codec keeps bytes below 128 as those characters and gives U+FFFD exactly for bytes 128 and above |
| Classifier.Letters | disk_image_handling/c64_disk_image_processing_utils.py:21 | The comprehension is no longer than the decoding and holds a character exactly when the decoding holds it and it is alphabetic |
| Classifier.LettersCount | disk_image_handling/c64_disk_image_processing_utils.py:21 | The comprehension holds each alphabetic character as often as the decoding does, and no other character |
| Classifier.DensityIgnoresOrder | disk_image_handling/c64_disk_image_processing_utils.py:21-22 | The letter share depends only on which characters the decoding holds and how often, not on their order |
| Classifier.Density | disk_image_handling/c64_disk_image_processing_utils.py:22 | The letter share of a non-empty text lies in [0,1] and is 1 exactly when every character is a letter |
| Classifier.Densities | disk_image_handling/c64_disk_image_processing_utils.py:15-22 | `sum_chars` has one entry per codec, in codec order, each in [0,1] |
| Classifier.ArgMax | disk_image_handling/c64_disk_image_processing_utils.py:23 | `np.argmax` returns a position holding the maximum with every earlier entry strictly smaller |
| Classifier.FirstMaximum | disk_image_handling/c64_disk_image_processing_utils.py:23 | The scan over `sum_chars` returns the first position of the maximum |
| Classifier.FirstMaxUnique | disk_image_handling/c64_disk_image_processing_utils.py:23-24 | Only one position is the first maximum, so the tie-break is determined |
| Entropy.Occurrences | disk_image_handling/c64_disk_image_processing_utils.py:37 | A byte's count is its number of occurrences in the input, so it is at most the length and positive exactly when the byte occurs |
| Entropy.Keys | disk_image_handling/c64_disk_image_processing_utils.py:37 | The Counter's keys are exactly the bytes that occur, each once |
| Entropy.Tally | disk_image_handling/c64_disk_image_processing_utils.py:37 | There is one count per key, each between 1 and the length |
| Entropy.TallyCounts | disk_image_handling/c64_disk_image_processing_utils.py:37 | The count at each key is that key's number of occurrences in the input |
| Entropy.TallySeen | disk_image_handling/c64_disk_image_processing_utils.py:37 | Appending a byte already counted adds one to its count and changes nothing else |
| Entropy.TallyNew | disk_image_handling/c64_disk_image_processing_utils.py:37 | Appending a byte not seen before adds a new key at the end with count 1 |
| Entropy.TallySum | disk_image_handling/c64_disk_image_processing_utils.py:36-37 | The histogram's counts add up to the input length |
| Entropy.Distribution | disk_image_handling/c64_disk_image_processing_utils.py:38 | There is one `dist` entry per distinct byte, each in (0,1] |
| Entropy.DistributionSumsToOne | disk_image_handling/c64_disk_image_processing_utils.py:36-38 | For non-empty input the `dist` entries sum to 1 |
| Entropy.EmptyDistribution | disk_image_handling/c64_disk_image_processing_utils.py:36-38 | Empty input has no keys and an empty `dist` |
| Entropy.RepeatedByteDistribution | disk_image_handling/c64_disk_image_processing_utils.py:36-40 | A buffer of one repeated byte has `dist == [1]` |
| Entropy.CheckEntropy | disk_image_handling/c64_disk_image_processing_utils.py:30-40 | The entropy of empty input is the formula's value at the empty distribution, and that of one repeated byte its value at [1] |
| Umlauts.ReplaceAltUmlauts | disk_image_handling/c64_disk_image_processing_utils.py:43-54 | `replace_alt_umlauts` shortens the string by one character per replacement and returns a string holding no key unchanged |
| Umlauts.Rewrite | disk_image_handling/c64_disk_image_processing_utils.py:51-53 | The output is shorter than the input by exactly the number of replacements made |
| Umlauts.NoKeyUnchanged | disk_image_handling/c64_disk_image_processing_utils.py:51-53 | A string in which no key occurs is returned unchanged |
| Umlauts.ScanExamples | disk_image_handling/c64_disk_image_processing_utils.py:51-53 | Matches do not overlap (`'sss'` becomes `'ßs'`), and `'Ue'` becomes `'ü'` |
| Umlauts.AsWrittenLosesCapitalU | disk_image_handling/c64_disk_image_processing_utils.py:51 | With the source's table `'Ue'` and `'ue'` both become `'ü'`, so `'Ue'` cannot be spelled back; with the corrected table it becomes `'Ü'` and spells back |
| Umlauts.SpellingsInvertIntended | disk_image_handling/c64_disk_image_processing_utils.py:51 | With `'Ue'` mapped to `'Ü'`, the table is one-to-one and the two-letter spellings undo it |
| Umlauts.FixUmlautsRoundTrip | disk_image_handling/c64_disk_image_processing_utils.py:51-53 | With the corrected table, spelling the umlauts back out recovers any input that held no umlaut |
| TitlePath.AfterLastSlash | disk_image_handling/c64_disk_image_processing_utils.py:63 | The split point is just past the last slash and nothing after it is a slash |
| TitlePath.StripSlashes | disk_image_handling/c64_disk_image_processing_utils.py:63 | Stripping the head's trailing slashes removes only slashes and leaves no trailing slash |
| TitlePath.SplitParts | disk_image_handling/c64_disk_image_processing_utils.py:63 | `os.path.split` gives as file name the whole text after the last slash; the path is the folder, then slashes only, then that name; the folder keeps its trailing slashes only when it is all slashes |
| TitlePath.Basename | disk_image_handling/c64_disk_image_processing_utils.py:64 | The base name is a slash-free suffix of the path |
| TitlePath.BasenameParts | disk_image_handling/c64_disk_image_processing_utils.py:64 | The base name is the whole text after the last slash: the character before it, if any, is a slash |
| TitlePath.Sanitize | disk_image_handling/c64_disk_image_processing_utils.py:64 | The sanitised folder name has the same length and contains no space; each character is the lower-cased one, or `_` where that is a space |
| TitlePath.IndexOf | disk_image_handling/c64_disk_image_processing_utils.py:65 | `list.index` succeeds exactly when the name is listed and returns its first position |
| TitlePath.FirstIndex | disk_image_handling/c64_disk_image_processing_utils.py:65 | An entry with no equal entry before it is found at its own position |
| TitlePath.Decimal | disk_image_handling/c64_disk_image_processing_utils.py:66 | `str(n)` is a non-empty string of digits without a leading zero |
| TitlePath.DecimalRoundTrip | disk_image_handling/c64_disk_image_processing_utils.py:66 | Reading the decimal string back gives the number |
| TitlePath.Join | disk_image_handling/c64_disk_image_processing_utils.py:67 | `os.path.join` ends with its second part, with one `/` between two parts that need it |
| TitlePath.JoinBasename | disk_image_handling/c64_disk_image_processing_utils.py:67 | Joining a slash-free name gives a path whose base name is that name |
| TitlePath.CreateTitlePath | disk_image_handling/c64_disk_image_processing_utils.py:57-67 | The call succeeds exactly when the file is in the folder listing, and raises ValueError otherwise |
| TitlePath.TitlePathIndex | disk_image_handling/c64_disk_image_processing_utils.py:63-67 | The result is the folder joined with `<sanitised folder name>_<first 1-based position>.txt`, and the number is at least 1 |
| TitlePath.TitleNameIsBasename | disk_image_handling/c64_disk_image_processing_utils.py:64-67 | The sanitised part has no space, and if lower-casing never turns a non-slash into `/` the new name is the base name of the returned path |
| TitlePath.SanitizeNoSlash | disk_image_handling/c64_disk_image_processing_utils.py:64 | Sanitising a slash-free name adds no slash when lower-casing never turns a non-slash into `/` |

## Findings

| source | as written | input that shows it | evidently intended | confidence | as-written member | corrected member |
|---|---|---|---|---|---|---|
| disk_image_handling/c64_disk_image_processing_utils.py:51 | `'Ue'` is replaced by lower-case `'ü'` | `"Ue"` and `"ue"` both become `"ü"` | `'Ue'` becomes `'Ü'`, as `'Ae'` becomes `'Ä'` and `'Oe'` becomes `'Ö'` | not executed; medium | Umlauts.AsWrittenLosesCapitalU | Umlauts.FixUmlautsRoundTrip |

`ReplaceAltUmlauts` keeps the source's table. `FixUmlauts` uses the corrected
one.

## Left out

- The numeric entropy (`scipy.stats.entropy` with base 2) is floating-point
  arithmetic on logarithms. It is the parameter `entropyOf`, applied to the
  exactly modelled distribution.
- The PETSCII and screen-code tables of cbmcodecs2 are foreign data. They are
  the parameter `Charmaps`, one character per byte, U+FFFD where unmapped.
- `str.isalpha` is the parameter `isAlpha`.
- TitlePath.Sanitize: `str.lower` is modelled one character at a time by the
  parameter `lower`. Unicode lower-case mappings that turn one character into
  several are not captured.
- Floating point: the threshold, the densities and `dist` (utils.py:38) are
  exact reals. The rounding of `len(chars) / len(decoded)`, of
  `char / binary_text_size` and of the comparison is not modelled, so
  `DistributionSumsToOne` holds for the exact distribution; the float `dist`
  sums to 1 only up to rounding.
- `max(sum_chars)` is taken as the density at the argmax position. Both
  denote the same maximum.
- "Not `bytes`" is one case, `NotBytes`. What the other object is does not
  matter to the source.
- `os.listdir` is not modelled: its order is the system's, and it can fail
  (for a missing folder, or the empty folder part of a bare file name). The
  model takes its result as the parameter `listing`.
- The `Corpus`, `DiskmagC64` and `ProgramFileC64` classes in
  disk_image_handling/c64_disk_image_processing.py are left out. They walk
  directories, unpack zip files, read images through an external library,
  wrap text and write files and JSON metadata, all of which is I/O.
- The commented-out `convert_diskmag` (utils.py:69-88) is left out, because it
  is not code that runs.
