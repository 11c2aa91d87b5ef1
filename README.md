# Steganography codec and scoring, modelled in Dafny

This project models the bit-level core of a small image-steganography toolkit.
The toolkit has two embedding paths.

- **Wavelet path.** A text message travels as a frame: a 32-bit, MSB-first
  header holding the payload length in bits, then 8 bits per character. Each
  frame bit replaces the least significant bit of one Haar detail
  coefficient. The HH coefficients are used first, then the HL coefficients.
  Extraction reads the least significant bits back, parses the header and
  decodes the characters. It returns fixed error strings for a short stream
  or an over-long header. Sanitizing the recovered text removes every
  non-ASCII character.
- **Cosine path.**
  - Embedding preparation: the image dimensions are padded to whole 8x8
    blocks. Capacity is counted as the nonzero quantized coefficients. The
    secret is cut to that many whole bytes and packed into 8-bit groups.
    Only channel 0 is handed to the embedder. The output samples are
    clipped to 0..255.
  - Extraction: a bit cursor reads a 32-bit header and then up to
    `header div 8` bytes. It stops quietly, rather than failing, when fewer
    than eight bits remain.
  - The decoder only processes stego PNG file names, in sorted order.

Two scoring tools compare the results:

- a bit error rate and a four-way text-match verdict between the expected
  and the recovered message;
- a crop to a common shape for two images, and the zero-error sentinel of
  their PSNR.

Layout: one module per source file, plus a shared `Bits` module.

- `bits.dfy` (`Bits`): bits and bytes, `int(s, 2)` as `Value`, `format(n, '0wb')` as `Format`, byte octets.
- `dwt.dfy` (`DwtCodec`): the wavelet-path codec.
- `dct_embed.dfy` (`DctEmbed`): the cosine-path embedding preparation.
- `dct_extract.dfy` (`DctExtract`): the cosine-path decoder framing and file selection.
- `fidelity.dfy` (`Fidelity`): the bit error rate and the text-match verdict.
- `image_compare.dfy` (`ImageCompare`): the crop and the PSNR sentinel.

Modelling choices:

- Bit strings are sequences of 0/1 integers rather than strings of `'0'`/`'1'`.
- Coefficients are unbounded integers. Python's `&` and `|` on them are
  two's-complement, so `x & 1` is `x % 2` and `(x & ~1) | b` is
  `x - x % 2 + b` under Dafny's Euclidean `%`.
- The coefficient arrays that the source overwrites in place are Dafny
  `array`s. The bit cursor is a class with a mutable position.
- The embedder of the cosine path is a function parameter, because its
  internals are not part of this model.

## Model

| member | source | states |
|---|---|---|
| Bits.Value | dwt.py:90-92 | `int(s, 2)` of an n-bit string is below 2^n |
| Bits.Binary | dwt.py:10 | the shortest numeral of n has at least one digit, denotes n, and starts with 1 unless n is 0 |
| Bits.ValueIgnoresLeadingZeros | dwt.py:35 | zero-padding a numeral on the left does not change its value |
| Bits.BinaryFits | dwt.py:35 | a number below 2^w needs at most w digits |
| Bits.Format | dwt.py:35 | `format(n, '0wb')` denotes n, has at least w digits, and has exactly w digits iff n < 2^w; a number of 2^w or more keeps its leading 1 |
| Bits.Octets | dct_run_stego_algorithm.py:85 | the 8-bit groups of a byte string have 8 bits per byte |
| Bits.OctetsGroup | dct_run_stego_algorithm.py:85 | group i of the octets reads back as byte i |
| Bits.OctetsAppend | dct_run_stego_algorithm.py:85 | appending one byte appends its 8-bit group |
| Bits.Codes | dct_run_stego_algorithm.py:85 | the byte string of a text below 256 has one byte per character, equal to its code point |
| DwtCodec.TextToBinary | dwt.py:8-10 | the encoding has at least 8 bits per character, and exactly 8 per character iff every code point is below 256 |
| DwtCodec.TextToBinaryIsOctets | dwt.py:8-10 | for code points below 256 the encoding is the concatenation of each code point's 8-bit MSB-first group |
| DwtCodec.BinaryToText | dwt.py:12-18 | a trailing partial group is dropped, so the output length is \|bits\| div 8; every decoded code point is below 256 |
| DwtCodec.BinaryToTextGroup | dwt.py:14-16 | character i of the output is group i of the bits (bits 8i..8i+7) read MSB first |
| DwtCodec.BinaryToTextRoundTrip | dwt.py:8-18 | decoding the encoding of a text whose code points are all below 256 gives the text back |
| DwtCodec.Frame | dwt.py:33-36 | when the bit length fits in 32 bits, the frame is a 32-bit header whose value is the payload's bit length, followed by the payload bits |
| DwtCodec.SetLsb | dwt.py:50 | `(x & ~1) \| b` has least significant bit b and keeps every higher bit (`r div 2 == x div 2`) |
| DwtCodec.Lsb | dwt.py:82-83 | `x & 1` is the bit b for which x - b is even |
| DwtCodec.Lsbs | dwt.py:82-83 | `c & 1` gives one bit per coefficient, each with the parity of its coefficient |
| DwtCodec.EmbedStream | dwt.py:47-56 | the reference stream of the two write loops: same length, slot k carries bit k with its higher bits kept, and slots past the data are unchanged |
| DwtCodec.LsbsSplit | dwt.py:82-85 | the bits of HH followed by the bits of HL are the bits of the concatenated stream |
| DwtCodec.ExtractAfterEmbed | dwt.py:82-85 | reading the least significant bits of the embedded stream gives the data back as its prefix |
| DwtCodec.EmbedStreamSplit | dwt.py:47-56 | embedding into HH followed by HL is embedding into HH, then into HL from the data index where HH stopped |
| DwtCodec.WriteSubband | dwt.py:48-51 | one subband loop: the data index advances by the slots written, and the subband becomes the embedded stream of the remaining data |
| DwtCodec.EmbedTextInCoefficients | dwt.py:33-56 | reports insufficient capacity, with the required and available bit counts, exactly when the frame is longer than \|HH\| + \|HL\|, and then leaves both subbands unchanged; otherwise HH followed by HL becomes the frame embedded in the old coefficients |
| DwtCodec.DecodeStream | dwt.py:87-100 | fewer than 32 bits gives the not-enough-data message; a header larger than the remaining bits gives the too-large message; otherwise the output is the decoding of the header's count of bits after the header |
| DwtCodec.DecodeStreamChars | dwt.py:96-100 | a successful decode has header div 8 characters, character i being bits 32+8i..32+8i+7 |
| DwtCodec.DecodeFrame | dwt.py:87-100 | a stream that starts with the frame of a text below 256 decodes to that text, whatever bits follow the frame |
| DwtCodec.ExtractText | dwt.py:82-100 | extraction decodes HH's bits followed by HL's, which are the bits of the HH-then-HL stream; fewer than 32 slots in all give the not-enough-data message |
| DwtCodec.EmbedExtractRoundTrip | dwt.py:33-56 | extracting from the embedded HH and HL gives the text back, when the frame fits, every code point is below 256 and the bit length fits the header |
| DwtCodec.StripNonAscii | dwt.py:152 | the result is ASCII, a subsequence of the input, keeps every ASCII character's count, and is the input itself when the input is ASCII |
| DwtCodec.SanitizeText | dwt.py:149-152 | a non-string gives ""; a string gives its ASCII characters, in order, with their counts kept |
| DwtCodec.SanitizeIdempotent | dwt.py:149-152 | sanitizing twice is sanitizing once |
| DwtCodec.EmbedAndVerify | dwt.py:123-130 | the embed-and-verify step fails exactly on insufficient capacity and then leaves HH and HL unchanged; otherwise HH followed by HL becomes the embedded frame, and, for code points below 256, the verified message is the sanitized original text |
| DctEmbed.PadDimensions | dct_run_stego_algorithm.py:48-50 | the padded height and width are the least multiples of 8 that are at least the height and width |
| DctEmbed.BlockPaddingBounds | dct_run_stego_algorithm.py:48-50 | the padding adds less than one block, and nothing when the dimension is already a multiple of 8 |
| DctEmbed.FlattenLength | dct_run_stego_algorithm.py:67-69 | flattening blocks of n coefficients gives n coefficients per block |
| DctEmbed.FlattenAppend | dct_run_stego_algorithm.py:69 | flattening distributes over concatenation of block lists |
| DctEmbed.FlattenRowMajor | dct_run_stego_algorithm.py:69 | row-major order: block i comes after the flattening of the blocks before it and before that of the blocks after it |
| DctEmbed.NonzeroCoefficients | dct_run_stego_algorithm.py:70 | the filtered coefficients number \|s\| minus the zeros, are all nonzero, and keep every nonzero value's count |
| DctEmbed.MaxCapacityBits | dct_run_stego_algorithm.py:69-73 | the capacity is the number of nonzero coefficients over all blocks of the channel |
| DctEmbed.CapacityPerBlock | dct_run_stego_algorithm.py:67-73 | a channel of zigzagged 8x8 blocks holds at most 64 payload bits per block |
| DctEmbed.MaxCapacityChars | dct_run_stego_algorithm.py:74-75 | the character capacity is the bit capacity div 8 |
| DctEmbed.EmbeddedMessage | dct_run_stego_algorithm.py:82-83 | the embedded message is a prefix of the secret, fits the capacity, and is either the whole secret or as long as the capacity allows |
| DctEmbed.AsciiEncode | dct_run_stego_algorithm.py:85 | encoding succeeds iff the message is ASCII, giving one byte per character equal to its code |
| DctEmbed.PackSecretData | dct_run_stego_algorithm.py:84-85 | the accumulated secret bits are the 8-bit MSB-first groups of the message bytes |
| DctEmbed.EmbedSecret | dct_run_stego_algorithm.py:79-89 | the channel-0 branch fails iff the truncated message is not ASCII; otherwise it returns the truncated message and the embedder's output for its packed bytes |
| DctEmbed.EmbedChannels | dct_run_stego_algorithm.py:59-92 | fails iff the truncated message is not ASCII; otherwise there are three channels, channel 0 is the embedder's output for the packed truncated message, and channels 1 and 2 are passed on unchanged |
| DctEmbed.Clip | dct_run_stego_algorithm.py:100 | in-range values are kept; below 0 gives 0; above 255 gives 255 |
| DctEmbed.ClipSamples | dct_run_stego_algorithm.py:100 | every output sample is in 0..255, and in-range samples are unchanged |
| DctEmbed.ClipMonotoneIdempotent | dct_run_stego_algorithm.py:100 | clipping preserves order and is idempotent |
| DctExtract.BitCursor.Read | dct_extract_stego_image.py:73-77 | a read of n bits yields the next n bits as an MSB-first unsigned value and advances the position; past the end it yields an error and the position stays |
| DctExtract.BitCursor.Remaining | dct_extract_stego_image.py:76 | the bits remaining are the length minus the position |
| DctExtract.ReadBytes | dct_extract_stego_image.py:75-79 | reads min(count, \|bits\| div 8) bytes, byte i being bits 8i..8i+7 |
| DctExtract.LenientPayload | dct_extract_stego_image.py:70-82 | fewer than 32 bits is the extraction error; otherwise min(header div 8, (\|bits\| - 32) div 8) bytes, byte i being bits 32+8i..32+8i+7 |
| DctExtract.ReadBytesExtend | dct_extract_stego_image.py:75-77 | while eight bits remain, reading one more byte appends the next 8-bit group |
| DctExtract.ReadBytesSaturates | dct_extract_stego_image.py:75-79 | asking for more bytes than the bits hold reads every whole byte there is |
| DctExtract.ReadPayload | dct_extract_stego_image.py:74-79 | the byte loop with its early break reads exactly min(count, remaining div 8) bytes from the cursor position, and the cursor ends 8 bits past its start per byte read |
| DctExtract.ExtractPayload | dct_extract_stego_image.py:70-82 | reading the header through the cursor and then the byte loop yields exactly the lenient payload |
| DctExtract.ReadBytesOfOctets | dct_extract_stego_image.py:75-77 | reading \|vals\| bytes from the octets of vals gives vals, whatever bits follow |
| DctExtract.LenientReadsFrame | dct_extract_stego_image.py:70-79 | a stream framed as a 32-bit bit count followed by the bytes' octets reads back as those bytes |
| DctExtract.Lower | dct_extract_stego_image.py:27 | lowering keeps the length, leaves no ASCII capital, and keeps every other character |
| DctExtract.LowerIdempotent | dct_extract_stego_image.py:27 | lowering twice is lowering once |
| DctExtract.PngSuffixAnyCase | dct_extract_stego_image.py:27 | the lowered name ends in ".png" iff the name ends in a dot followed by p, n and g, each in either case |
| DctExtract.EndsWith | dct_extract_stego_image.py:27 | `s.endswith(suffix)` holds iff the last \|suffix\| characters of s are those of suffix |
| DctExtract.Contains | dct_extract_stego_image.py:27 | `t in s` holds iff t occurs in s at some position |
| DctExtract.IsStegoFile | dct_extract_stego_image.py:27 | a name is selected iff it ends in a dot followed by p, n and g, each in either case, and "_steg" occurs in it |
| DctExtract.CodePointLeTotal | dct_extract_stego_image.py:27 | code-point order on names is total |
| DctExtract.InsertMultiset | dct_extract_stego_image.py:27 | inserting adds exactly the one name |
| DctExtract.InsertHead | dct_extract_stego_image.py:27 | inserting adds one element, and the new first name is the inserted one or the old first one |
| DctExtract.InsertSorted | dct_extract_stego_image.py:27 | inserting into a sorted list keeps it sorted |
| DctExtract.SortNames | dct_extract_stego_image.py:27 | sorting gives a sorted permutation of the names |
| DctExtract.SelectStegoFiles | dct_extract_stego_image.py:27 | the filter keeps every stego PNG name with its count, and nothing else |
| DctExtract.StegoFiles | dct_extract_stego_image.py:27 | the stego files are sorted, contain exactly the names that end in ".png" (any case) and contain "_steg", and keep their counts |
| Fidelity.PadRight | compare_and_analyze.py:33-34 | padding keeps the string as a prefix, reaches the longer of the two lengths, and adds only zeros |
| Fidelity.CountDifferences | compare_and_analyze.py:39 | the differing positions are no more than the shorter length |
| Fidelity.CountDifferencesSymmetric | compare_and_analyze.py:39 | counting differences is symmetric |
| Fidelity.CountDifferencesSelf | compare_and_analyze.py:39 | a bit string has no differences with itself |
| Fidelity.CountDifferencesAgainstZeros | compare_and_analyze.py:33-39 | against the all-zero padding, the differences are the 1 bits |
| Fidelity.BerLength | compare_and_analyze.py:27-32 | max_len is 8 times the longer byte length |
| Fidelity.BerErrors | compare_and_analyze.py:32-39 | the error count is at most max_len |
| Fidelity.BerPercentage | compare_and_analyze.py:22-41 | the BER lies in [0, 100], is 0 iff there are no error bits, and is 0 for two empty inputs |
| Fidelity.BerOfEqualIsZero | compare_and_analyze.py:27-40 | BER(x, x) is 0 |
| Fidelity.BerSymmetric | compare_and_analyze.py:32-40 | the BER and its parts are symmetric in the two texts |
| Fidelity.BerAgainstEmpty | compare_and_analyze.py:32-39 | against an empty text the error count is the number of 1 bits of the other text |
| Fidelity.Take | compare_and_analyze.py:59 | `s[:n]` is a prefix of s of length min(\|s\|, n) |
| Fidelity.AnalyzeTextMatch | compare_and_analyze.py:45-62 | "Match" iff the texts are equal; otherwise "Slight Difference" above ratio 0.9, else "End Data Corruption" iff the recovery starts with the first 50 expected characters, else "Significant Data Corruption" |
| Fidelity.LabelInjective | compare_and_analyze.py:51-62 | the four result strings are distinct, so each names exactly one verdict |
| Fidelity.ReportedLabel | compare_and_analyze.py:45-62 | the returned string is "Match" iff the texts are equal, "Slight Difference" iff they differ with ratio above 0.9, "End Data Corruption" iff they differ, the ratio is at most 0.9 and the recovery starts with the first 50 expected characters, and "Significant Data Corruption" otherwise |
| Fidelity.SimilarityRatio | compare_and_analyze.py:53 | the ratio 2M/T lies in [0, 1] |
| Fidelity.EmptyRecoveryIsSignificant | compare_and_analyze.py:53-62 | an empty recovery of a non-empty text is a significant corruption |
| Fidelity.IntactPrefixIsNotSignificant | compare_and_analyze.py:59-62 | a recovery keeping the first 50 expected characters is never a significant corruption |
| ImageCompare.Crop | dct_compare-m.py:21 | `g[:h, :w]` has shape h by w and agrees with g on every kept element |
| ImageCompare.CropToMatch | dct_compare-m.py:18-21 | both outputs have height min(h1, h2) and width min(w1, w2), are the top-left subgrids of the inputs, and are the inputs themselves when the shapes already agree |
| ImageCompare.CropWhole | dct_compare-m.py:18-21 | cropping to the image's own shape returns it unchanged |
| ImageCompare.SquaredError | dct_compare-m.py:8 | exactly, a pixel's squared error is 0 iff the samples are equal; in uint8 arithmetic it is the exact square modulo 256, and it is 0 iff the samples differ by a multiple of 16 |
| ImageCompare.ModSquare | dct_compare-m.py:8 | wrapping the difference modulo 256 before squaring leaves the square modulo 256 unchanged |
| ImageCompare.SquareWrapsToZero | dct_compare-m.py:8 | a square is 0 modulo 256 iff its root is a multiple of 16 |
| ImageCompare.PsnrValue | dct_compare-m.py:7-10 | the sentinel is returned iff the images are non-empty and the summed squared error is 0; empty images give NaN |
| ImageCompare.PsnrAsWritten | dct_compare-m.py:7-10 | as written, empty images give NaN, and non-empty images get the sentinel 100 iff every pair of samples differs by a multiple of 16 |
| ImageCompare.PsnrExact | dct_compare-m.py:7-10 | with exact arithmetic, empty images give NaN, and a noise figure comes only from a positive MSE |
| ImageCompare.RowErrorUint8Zero | dct_compare-m.py:8 | in uint8 arithmetic a row's squared error is 0 iff every pair of samples differs by a multiple of 16 |
| ImageCompare.GridErrorUint8Zero | dct_compare-m.py:8 | in uint8 arithmetic an image's squared error is 0 iff every pair of samples differs by a multiple of 16 |
| ImageCompare.RowErrorZero | dct_compare-m.py:8 | with exact arithmetic a row's squared error is 0 iff the rows are equal |
| ImageCompare.GridErrorZero | dct_compare-m.py:8 | with exact arithmetic an image's squared error is 0 iff the images are equal |
| ImageCompare.PsnrExactSentinelIffEqual | dct_compare-m.py:7-10 | with exact arithmetic, non-empty images get the sentinel 100 iff they are equal |
| ImageCompare.GridErrorSelf | dct_compare-m.py:8 | an image has no squared error against itself, in either arithmetic |
| ImageCompare.PsnrAsWrittenOfEqualIsSentinel | dct_compare-m.py:7-10 | as written, equal non-empty images get the sentinel 100 |
| ImageCompare.PsnrAsWrittenMissesDifference | dct_compare-m.py:7-10 | as written, the differing 1x1 images 16 and 0 also get the sentinel |

## Left out

- Colour-space conversion, channel split and merge: these are OpenCV calls.
  The codec works on one plane's coefficients.
- The Haar transform and its surroundings: `pywt.dwt2`/`idwt2` and the
  reflect padding. The float-to-int16 truncation and the `uint8` casts of
  the wavelet path are also left out. Coefficients are unbounded integers,
  so the model does not capture int16 wrap-around either.
- The forward and inverse DCT, the JPEG quantization table, the zigzag
  order, block stitching, and the coefficient embedder and extractor of the
  cosine path. Their code (`dct_zigzag`, `dct_image_preparation`,
  `dct_data_embedding`) is not part of this model. The embedder is a
  function parameter of `EmbedChannels`, and the recovered bit stream is the
  input of `ExtractPayload`.
- `cv2.resize` to the padded dimensions, which interpolates in floating
  point. Only the padded dimensions are modelled.
- UTF-8 encoding and decoding: the `errors='ignore'` encoding of the BER
  inputs and the `errors='replace'` decoding of the extracted bytes. The
  bit error rate works on the texts' bytes, and the decoder returns bytes.
- The message text of the `[EXTRACTION ERROR: …]` placeholder: the
  decoder returns `None` in its place.
- `DctExtract.ExtractPayload`: the header division `int(header / 8)` is a
  float division truncated to an integer. It is modelled as `div 8`, which
  agrees for every 32-bit header.
- The `SequenceMatcher` similarity ratio: its matching-blocks algorithm is
  not modelled. `SimilarityRatio` takes the matched-character count M as a
  parameter, and `AnalyzeTextMatch` takes the ratio itself.
- SSIM, the PSNR logarithm, and the size-percentage increase: these are
  floating-point results. The PSNR model stops at the MSE.
- The hard-coded secret and expected message: the secret is a parameter of
  `EmbedChannels`.
- `str()` conversion of the compared values: the compared values are strings here.
- File, directory and CSV I/O, pandas, `os.path.getsize`, the interactive
  menu and the batch loops. From the batch loops, only the embed-and-verify
  step (`EmbedAndVerify`) and the stego-file selection (`StegoFiles`) are
  modelled.
- The `ValueError` branches of `binary_to_text` and the header parse in
  `extract_text_from_image`: they cannot occur on bit strings of 0s and
  1s, which is all the model can express.
- `DwtCodec.TextToBinary`: for code points of 256 and above only the
  length (more than 8 bits for that character) is stated, not the bits.
  The round trip is stated only for code points below 256.
- `DwtCodec.EmbedExtractRoundTrip`: stated only when the payload's bit
  length is below 2^32. Above that, `format(n, '032b')` writes more than 32
  digits, so the frame no longer splits as the decoder expects.
- `DwtCodec.EmbedAndVerify`: the verified text is stated only for code
  points below 256 and payloads below 2^32 bits. The source re-extracts
  from the stego image (dwt.py:123-130). That image has been through
  `idwt2`, the `uint8` cast (dwt.py:64), the YCrCb/BGR round trip, a fresh
  `dwt2` and the `int16` cast (dwt.py:79-80). The model extracts from the
  coefficients it has just written. Its "verified text is the sanitized
  text" therefore holds by construction and does not cover losses in that
  image round trip.
- `DctEmbed.ClipSamples`: samples are modelled as integers. The source clips
  float32 samples after `cvtColor`, and `np.uint8` then truncates their
  fraction (dct_run_stego_algorithm.py:99-100). So "in-range samples are
  unchanged" holds only for integer samples; the float rounding and the
  colour conversion are not modelled.
- `DctExtract.Lower`: only ASCII capitals are lowered. Python's Unicode
  case mapping is not modelled.
- `DctExtract.SortNames`: names are ordered by code point, as Python does.
  It is an insertion sort, not Python's algorithm, but both give the same
  sorted permutation.

## Findings

| source | as written | input that shows it | evidently intended | confidence | as-written member | corrected member |
|---|---|---|---|---|---|---|
| dct_compare-m.py:7-10 | `(original - compressed) ** 2` on two `uint8` images wraps modulo 256 in both the difference and the square, so a per-pixel difference of 16 squares to 0; the sentinel comes back whenever every pair of samples differs by a multiple of 16 (`ImageCompare.PsnrAsWritten`) | 1x1 images with samples 16 and 0: the MSE is 0 and `psnr` returns the no-noise sentinel 100, although the images differ | the sentinel 100 only for identical images, i.e. the squared error taken without wrap-around | not executed | ImageCompare.PsnrAsWrittenMissesDifference | ImageCompare.PsnrExactSentinelIffEqual |
