# MADALINE OCR, modelled in Dafny

The system has two scripts.

**The classifier, `madaline_ocr.py`.** It is a template-matching character recogniser.
- **Manifests.** It reads two `description.txt` manifests, one for a training directory and one for a test directory. Each line has the form `<file name>:<label>`.
- **Preprocessing.** It loads every listed bitmap as a 0/1 grid and flattens it row by row. It then divides every cell by the square root of the number of 1-cells.
- **Recognition.** For every test image it computes a confidence against each training image: the dot product divided by the norm of the training vector. `np.argmax` picks the winner, and the script prints one line `<test label> --> <training label>, confidence: <c>`.

**The generator, `font_generator.py`.** It draws one letter into a bitmap.
- It chooses a font size and clamps the glyph position into the image.
- It inverts each pixel whose random draw is at most the noise threshold, on square images (see ## Findings).
- It appends the manifest line that the classifier later parses.

The Dafny project has four modules, one file each:

- `text.dfy` (`Text`): models the Python string operations the scripts use.
  - `str.strip()` with Python's whitespace set, and `str.rstrip("\n")`.
  - `str.split(':')`, with its inverse `Join`.
  - Line iteration over a text file, and the decimal rendering of an `int`.
- `scores.dfy` (`Scores`): models exact confidences and `np.argmax`.
  - A confidence is a number `num / sqrt(rad)`, or NaN.
  - Dafny has no square root, so scores are compared through the key `num * |num| / rad`, which is monotone in the value.
  - Statements about real values take the square root as an argument, together with its defining property `IsRoot`.
  - `ArgMax` has numpy's semantics: the first NaN wins if there is one, otherwise the first maximum.
- `madaline.dfy` (`MadalineOcr`): models the classifier.
  - Manifest-line parsing, preprocessing, the confidence score and nearest-match selection, as functions.
  - The loops of `madaline_ocr`, as methods proved equal to those functions.
  - The failures a run can end in: a line without ':' (IndexError), vectors of different lengths (`np.dot` raises ValueError) and an empty training set (`np.argmax([])` raises ValueError). The lines already printed are kept.
- `fontgen.dfy` (`FontGenerator`): models the deterministic parts of the generator.
  - The font size, the glyph clamp and the manifest line.
  - The noise pass, as a method on an `array2<int>`, both as written (used by `GenerateFontImage`) and corrected.
  - The manifest lines the generator writes and their round trip through the parser.

## Model

| member | source | states |
|---|---|---|
| Text.Strip | madaline_ocr.py:54 | The result is the slice of the line between a whitespace prefix and a whitespace suffix, and it neither starts nor ends with whitespace (Python's `str.strip()`). |
| Text.RStripNewlines | madaline_ocr.py:90-91 | The result is a prefix of the input, everything removed is `'\n'`, and the result does not end with `'\n'`. |
| Text.RStripNewlinesClosed | madaline_ocr.py:90-91 | Stripping a text that is closed by one newline gives back the text. |
| Text.Split | madaline_ocr.py:52-53 | No piece contains the separator, joining the pieces gives back the input, and there is one piece exactly when the separator does not occur. |
| Text.SplitJoin | madaline_ocr.py:52-53 | Splitting undoes joining pieces that do not contain the separator. |
| Text.IndexOf | madaline_ocr.py:52 | The result is the first position of the separator. |
| Text.LinesUnique | madaline_ocr.py:10-11 | Cutting a text into newline-closed lines can be done in only one way, and `Lines` is that way. |
| Text.Lines | madaline_ocr.py:10-11 | The lines concatenate to the text, every line but the last ends with its one newline, and no line is empty. |
| Text.LoadDescription | madaline_ocr.py:7-12 | The line-by-line collecting loop yields exactly `Lines(content)`. |
| Text.AppendClosedLine | font_generator.py:44-45 | Appending a newline-closed line to a text that ends at a line boundary adds exactly that line. |
| Text.DecimalRoundTrip | font_generator.py:45 | The rendered `int` has its minus sign only in front, and its value reads back as the number. |
| MadalineOcr.ParseEntry | madaline_ocr.py:52-53 | A line parses exactly when it contains ':'. Otherwise it fails with `MalformedEntry` naming the line. Neither field contains ':'. |
| MadalineOcr.ParseEntryIsSplit | madaline_ocr.py:52-53 | The parse equals the fields `[0]` and `[1]` of `split(':')`, and it fails exactly when the split has a single piece. |
| MadalineOcr.ParseEntryFields | madaline_ocr.py:52-53 | The file name is everything before the first ':'. The label runs from there to the second ':' or to the end of the line, so a later ':' truncates it. |
| MadalineOcr.ParseEntryOfFields | madaline_ocr.py:52-53 | A line built from a colon-free name, ':', a colon-free label, and then nothing or a ':' suffix, parses back to that name and label. |
| MadalineOcr.ParseManifest | madaline_ocr.py:50-53 | The manifest parses exactly when every line holds ':'; then there is one entry per line, in order, each line's own parse. |
| MadalineOcr.ParseManifestOfEntries | madaline_ocr.py:50-53 | Lines that each parse to a given entry give exactly those entries. |
| MadalineOcr.ParseManifestFirstFailure | madaline_ocr.py:50-53 | The failure names the first line without ':'. |
| MadalineOcr.ParseManifestAbortPropagates | madaline_ocr.py:50-53 | Once a prefix of the manifest fails, every longer manifest fails the same way. |
| MadalineOcr.PreprocessLayout | madaline_ocr.py:21-34 | A rows x cols bitmap gives rows*cols elements, cell (i, j) lands at position i*cols + j, and `ones` counts the 1-cells. |
| MadalineOcr.Preprocess | madaline_ocr.py:21-34 | The feature of a 0/1 bitmap has 0/1 cells and counts its 1-cells. |
| MadalineOcr.FeatureUnitNorm | madaline_ocr.py:25-31 | With at least one 1-cell, the vector the feature stands for (cells divided by sqrt(ones)) has squared length exactly 1. |
| MadalineOcr.PreprocessUnitNorm | madaline_ocr.py:21-34 | A bitmap with at least one 1-cell preprocesses to a vector of squared length exactly 1. |
| MadalineOcr.DegenerateIsAllZero | madaline_ocr.py:25-31 | The count of 1-cells is 0 exactly when every cell is 0, which is the case where numpy divides 0 by 0. |
| MadalineOcr.ScaledDot | madaline_ocr.py:31-38 | Dividing two vectors by a and b divides their dot product by a*b. |
| MadalineOcr.BinaryDotSelf | madaline_ocr.py:25 | On 0/1 cells the squared length is the number of 1-cells. |
| MadalineOcr.OverlapBounds | madaline_ocr.py:38 | The dot product of two 0/1 vectors is non-negative and at most the 1-count of either. |
| MadalineOcr.CalculateConfidence | madaline_ocr.py:36-40 | `calculate_confidence` on real vectors: the confidence times the norm of `weights` is the dot product. |
| MadalineOcr.CalculateConfidenceIsAsymmetric | madaline_ocr.py:36-40 | On general vectors the score depends on the order of its arguments: ([2], [1]) scores 2 and ([1], [2]) scores 1. |
| MadalineOcr.Confidence | madaline_ocr.py:36-40 | Lengths differ: `DimensionMismatch`. A bitmap without 1-cells: NaN. Otherwise the score is overlap / sqrt(ones(q) * ones(r)). |
| MadalineOcr.ConfidenceIsDotOverNorm | madaline_ocr.py:36-40 | The exact score equals the real-valued `dot(q, r) / norm(r)` of the two preprocessed vectors, and `norm(r)` is 1. |
| MadalineOcr.ConfidenceSymmetric | madaline_ocr.py:36-40 | On preprocessed bitmaps the score does not depend on the order of its arguments. |
| MadalineOcr.ConfidenceInUnitRange | madaline_ocr.py:36-40 | A finite score between preprocessed bitmaps lies in [0, 1]. |
| MadalineOcr.SelfMatchIsOne | madaline_ocr.py:31-39 | A bitmap with 1-cells scored against itself gives exactly 1. |
| MadalineOcr.SelfMatchDominates | madaline_ocr.py:31-39 | No reference scores higher than a self-match. |
| MadalineOcr.ScoresAgainst | madaline_ocr.py:79-84 | The confidences are one per training image, in training order. Any length mismatch aborts with `DimensionMismatch`. |
| MadalineOcr.ComputeConfidences | madaline_ocr.py:79-84 | The `for j` loop builds exactly `ScoresAgainst`. |
| Scores.ArgMax | madaline_ocr.py:87 | The result satisfies `IsArgMax`: the first NaN if there is one, otherwise a maximum with nothing earlier as large. |
| Scores.ArgMaxUnique | madaline_ocr.py:87 | At most one position satisfies `IsArgMax`, so the first maximum is the one picked. |
| Scores.LeMeaning | madaline_ocr.py:87 | Comparing keys compares the real values the scores stand for. |
| MadalineOcr.Classify | madaline_ocr.py:87-89 | The winner's index is below the training count and is the argmax of the confidences. Its confidence is the one at that index. An empty training set is an error. |
| MadalineOcr.SelfMatchWins | madaline_ocr.py:79-89 | A query identical to training image j wins at j or earlier, with score k / sqrt(k*k) = 1. |
| MadalineOcr.SquareAndCornerScenario | madaline_ocr.py:21-89 | A filled 3x3 square against [square, corner pixel]: the corner scores 1/sqrt(9), and the square wins at index 0 with 9/sqrt(81). |
| MadalineOcr.RecognitionLabelsClean | madaline_ocr.py:88-93 | Both printed labels are the raw labels minus all trailing newlines, and the label, index and confidence come from the same winner. |
| MadalineOcr.Recognize | madaline_ocr.py:75-93 | One pass fails exactly when classification fails, and otherwise yields the cleaned labels of the winner. |
| MadalineOcr.ResultLine | madaline_ocr.py:93 | The printed line: the cleaned test label, then `" --> "`, then the predicted label, `", confidence: "` and the rendered confidence. Its length is the sum of those parts, and it holds no newline when none of them does. |
| MadalineOcr.RunOf | madaline_ocr.py:74-94 | A completed loop prints one result per pass. Each printed result is the outcome of its pass, and an abort comes from the pass after the printed ones. |
| MadalineOcr.RunOfAbortPropagates | madaline_ocr.py:74-94 | Once the loop aborts on a prefix of the passes, it aborts there for good. |
| MadalineOcr.RecognizeAll | madaline_ocr.py:74-94 | The printed results are those of the leading test images, in test order. A completed run prints one per test image, and an abort is caused by the next test image. |
| MadalineOcr.RecognizeTests | madaline_ocr.py:74-94 | The `for i` loop's run is exactly `RecognizeAll`. |
| MadalineOcr.ManifestEntriesAreSplits | madaline_ocr.py:50-53 | Entry i of a parsed manifest is fields 0 and 1 of `split(':')` of line i. |
| MadalineOcr.TrainingSet | madaline_ocr.py:50-58 | Loading fails exactly when the manifest does, with its failure. Otherwise image i is the preprocessed bitmap named by field 0 of line i, stripped, and label i is field 1 of line i as written. |
| MadalineOcr.TestSet | madaline_ocr.py:61-71 | Loading fails exactly when the manifest does, with its failure. Otherwise image i is the preprocessed bitmap named by field 0 of line i exactly as written, and label i is field 1 of line i. |
| MadalineOcr.LoadTrainingSet | madaline_ocr.py:50-58 | The training loop yields exactly `TrainingSet`: names stripped, labels raw. |
| MadalineOcr.LoadTestSet | madaline_ocr.py:61-71 | The test loop yields exactly `TestSet`: names verbatim, labels raw. |
| MadalineOcr.PaddedNameScenario | madaline_ocr.py:54-66 | For the name `" A.png "`, the training side loads `A.png` and the test side loads `" A.png "`. |
| MadalineOcr.Madaline | madaline_ocr.py:42-94 | The run of the script as a function of the two manifest texts. A training manifest that fails aborts with its failure and nothing printed. Otherwise a test manifest that fails does the same. At most one result is printed per test line. When both manifests parse, printed result i is the `Recognize` pass of test line i, its image loaded by field 0 of the line as written and its label field 1, against the training set. A run that completes printed one result per test line. An aborted run names the failure of the pass for the next test line. |
| MadalineOcr.MadalineOcrRun | madaline_ocr.py:42-94 | The whole of `madaline_ocr` is exactly the `Madaline` function of the two manifest texts. |
| MadalineOcr.MadalineMalformedTraining | madaline_ocr.py:50-53 | A training line without ':' aborts the run before anything is printed, naming the first such line. |
| MadalineOcr.MadalineWithoutTraining | madaline_ocr.py:80-87 | An empty training manifest with a test line aborts on the first test image, with nothing printed. |
| MadalineOcr.MadalineCompletes | madaline_ocr.py:42-94 | With both manifests parsing, a non-empty training set and bitmaps of one size, the run completes and prints one line per test line. |
| FontGenerator.FontSize | font_generator.py:12 | The font size is at most the width and at most the height, and it is one of them. |
| FontGenerator.LetterOffset | font_generator.py:21-22 | The offset is non-negative and at most max(0, extent - letterExtent). It is `pos` when that fits, `extent - letterExtent` when the glyph fits but `pos` overshoots, and 0 when the glyph is too large or `pos <= 0`. |
| FontGenerator.LetterFits | font_generator.py:21-22 | A glyph no larger than the image lies wholly inside it. |
| FontGenerator.FlipMaskedCells | font_generator.py:31-34 | Exactly the flagged cells become 1 - v, and the shape is kept. |
| FontGenerator.FlipMaskedBinary | font_generator.py:34 | Inverting keeps a 0/1 bitmap 0/1. |
| FontGenerator.FlipMaskedTwice | font_generator.py:31-34 | The same mask applied twice restores the bitmap. |
| FontGenerator.ApplyNoise | font_generator.py:31-34 | The in-place loop over rows and columns leaves exactly `FlipMasked` of the old bitmap. |
| FontGenerator.Coins | font_generator.py:30-33 | A cell is flagged exactly when its draw is at most `noise_level / 100`. |
| FontGenerator.Noisy | font_generator.py:28-34 | The bitmap after the noise step. When the level is positive, exactly the cells whose draw is at most `noise_level / 100.0` are inverted and the rest are kept. At level 0 or below nothing changes. The shape is kept. |
| FontGenerator.NoiseOffUnchanged | font_generator.py:28 | A noise level of 0 or below leaves the bitmap unchanged. |
| FontGenerator.NoiseKeepsBinary | font_generator.py:28-34 | The noise step keeps the bitmap 0/1. |
| FontGenerator.NoiseTwice | font_generator.py:28-34 | The same draws at the same level undo the noise. |
| FontGenerator.FullNoiseInverts | font_generator.py:30-34 | At a level of 100 or more every pixel is inverted. |
| FontGenerator.AddNoise | font_generator.py:28-34 | The gated pass leaves exactly `Noisy` of the old bitmap. |
| FontGenerator.AddNoiseAsWritten | font_generator.py:31-34 | The loop as written raises IndexError exactly when a raised flag lies outside the array. When it does not raise, the result equals the noise pass. |
| FontGenerator.SquareIsInBounds | font_generator.py:31-34 | On a square image the loop as written never leaves the array. |
| FontGenerator.AsWrittenFailsOnWideImage | font_generator.py:31-34 | A 2-wide, 1-high image with one draw under the threshold at i = 1 makes the loop as written raise. |
| FontGenerator.AsWrittenMissesColumn | font_generator.py:31-34 | On that image, whenever the loop as written does not raise, pixel (0, 1) is never inverted. |
| FontGenerator.CorrectedReachesColumn | font_generator.py:31-34 | The corrected pass inverts that pixel at full noise. |
| FontGenerator.ManifestLine | font_generator.py:45 | `f"{letter}.png:letter {letter}, noise level {noise_level}%\n"`: its length is twice the letter's plus 28 plus the digits of the level, and it ends with a newline. |
| FontGenerator.PrintedLabelPlain | font_generator.py:45 | The label holds ':' or a newline only where the letter does, and it ends with '%'. |
| FontGenerator.ManifestLineParses | font_generator.py:45 | For a letter without ':', the classifier parses the line to `<letter>.png` and `letter <letter>, noise level <n>%\n`, and `rstrip("\n")` turns the label into the printed one. |
| FontGenerator.ManifestLineIsClosed | font_generator.py:45 | For a letter without newlines, the written line is one newline-closed line. |
| FontGenerator.DescriptionLines | font_generator.py:43-45 | The manifest a series of calls appends has one line per call, in call order. |
| FontGenerator.GeneratedManifestParses | font_generator.py:43-45 | The classifier parses a generated manifest without error: entry i names `<letter>.png` of call i and carries its label. |
| FontGenerator.GenerateFontImage | font_generator.py:7-45 | One call gives the font size and both clamped offsets, then runs the noise loop as written. It raises IndexError exactly when a raised flag lies outside the array, and then appends nothing. On a square image it never raises. Otherwise it appends exactly the manifest line and leaves the bitmap as `Noisy` of the drawn one. |

## Left out

**Outside the model**
- File and directory I/O are not modelled: `open`, `os.makedirs`, `image.save`, and appending to `description.txt`.
  - A manifest's text is an input string, and `Lines` models how Python iterates over it.
  - The line iteration uses `'\n'` only. Universal-newline translation of `'\r'` and `'\r\n'` is not modelled.
- `os.path.join` is not modelled. The image loader is a function parameter of (directory, file name), required (`LoadsBitmaps`) to return 0/1 grids.
  - A missing or unreadable image, where PIL would raise, is not modelled.
- PIL and numpy conversions are not modelled: `convert('1')`, `np.array`, the bool-to-int cast and `Image.fromarray`.
  - Bitmaps are `seq<seq<int>>` or `array2<int>`, and white versus black polarity stays abstract.
- Font rendering is not modelled: `ImageFont.truetype`, `draw.textsize` and `draw.text`.
  - The glyph extent is an input, and the noise pass starts from the drawn bitmap.
- Randomness is not modelled: the draws of `np.random.rand()` are an input grid of reals in [0, 1).
- Floating point is not modelled.
  - Confidences are exact, so IEEE rounding, which could in principle change an argmax tie, is not captured.
  - `{:.3f}` formatting is not modelled: `ResultLine` takes the rendered confidence as a string.
- `print` is modelled as the sequence of `Recognition` values the run produces.
- The command-line handling of both scripts is not modelled: `sys.argv`, the usage messages and `sys.exit`.
- `int(sys.argv[...])` parsing is not modelled. Its inverse, the rendering of the noise level, is modelled and proved to round-trip.

**Deliberate choices**
- FontGenerator.AddNoiseAsWritten: when it raises, the contract does not state the partial state of the array. Python leaves the pixels inverted before the failing index, and the image is then discarded.
- FontGenerator.GenerateFontImage: when the noise loop raises, the contract does not state the partial state of the array either. Nothing is saved or appended in that case.
- MadalineOcr.Confidence: a bitmap with no 1-cells is not a precondition. The source has no guard, and numpy divides 0 by 0 in every cell, which gives NaN confidences. `np.argmax` then returns the first NaN. The model follows that code path exactly, as the `NaN` score.

**Facts about the code worth knowing**
- A self-match scores exactly 1 (`SelfMatchIsOne`), because the training vector has unit norm after preprocessing, so dividing by its norm divides by 1.
- `calculate_confidence` divides only by the norm of its second argument, so on arbitrary vectors it depends on argument order (`CalculateConfidenceIsAsymmetric`). On two preprocessed bitmaps both orders give overlap / sqrt(ones(q) * ones(r)) (`ConfidenceSymmetric`).
- A bitmap without 1-cells raises no error. Its cells become NaN, as above.

## Findings

| source | as written | input that shows it | evidently intended | confidence | as-written member | corrected member |
|---|---|---|---|---|---|---|
| font_generator.py:31-34 | The noise loop runs `i` over the width and `j` over the height, and indexes `image_noise[i][j]` on an array of `height` rows of `width` cells. | width 2, height 1, noise level 50, a draw of 0.1 at i = 1, j = 0. Row 1 does not exist, so IndexError is raised. Also, on that image the second column is never reached (`AsWrittenMissesColumn`). | Visit every pixel once, as `image_noise[j][i]` or with the loops swapped, so that any width and height work. | not executed | FontGenerator.AddNoiseAsWritten, FontGenerator.AsWrittenFailsOnWideImage, FontGenerator.GenerateFontImage | FontGenerator.AddNoise, FontGenerator.ApplyNoise |
