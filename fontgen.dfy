/** The deterministic parts of `font_generator.py`: the font size, the clamped
    position of the glyph, the noise pass that inverts pixels where a random draw
    falls under the noise threshold, and the manifest line the generator appends to
    `description.txt`, which is the line the classifier's parser reads back.

    Font rendering is not modelled: the glyph's extent is an input, and the noise
    pass works on the bitmap as it stands after drawing. The random draws of
    `np.random.rand()` are an input grid of reals in [0, 1). */
module FontGenerator {
  import opened Text
  import opened MadalineOcr

  // ---------------------------------------------------------------------------
  // Font size and glyph position
  // ---------------------------------------------------------------------------

  /** `font_size = min(width, height)`. */
  function FontSize(width: int, height: int): (size: int)
    ensures size <= width && size <= height
    ensures size == width || size == height
  {
    if width < height then width else height
  }

  /** `max(0, min(pos, extent - letterExtent))`: the glyph offset along one axis. */
  function LetterOffset(pos: int, extent: int, letterExtent: int): (p: int)
    ensures 0 <= p
    ensures p <= if extent - letterExtent < 0 then 0 else extent - letterExtent
    ensures 0 <= pos <= extent - letterExtent ==> p == pos
    ensures letterExtent >= extent || pos <= 0 ==> p == 0
    ensures 0 <= extent - letterExtent <= pos ==> p == extent - letterExtent
    ensures p == pos || p == 0 || p == extent - letterExtent
  {
    var m := if pos < extent - letterExtent then pos else extent - letterExtent;
    if m < 0 then 0 else m
  }

  /** A glyph no larger than the image lies wholly inside it along that axis. */
  lemma LetterFits(pos: int, extent: int, letterExtent: int)
    requires 0 <= letterExtent <= extent
    ensures 0 <= LetterOffset(pos, extent, letterExtent)
    ensures LetterOffset(pos, extent, letterExtent) + letterExtent <= extent
  {
  }

  // ---------------------------------------------------------------------------
  // Noise
  // ---------------------------------------------------------------------------

  /** The bitmap held by a 2-D array, row by row. */
  function Cells(a: array2<int>): (g: Grid)
    reads a
    ensures |g| == a.Length0
    ensures forall r :: 0 <= r < |g| ==> |g[r]| == a.Length1
  {
    seq(a.Length0, r requires 0 <= r < a.Length0 reads a =>
      seq(a.Length1, c requires 0 <= c < a.Length1 reads a => a[r, c]))
  }

  /** `mask` has one flag for every cell of a rows x cols bitmap. */
  predicate IsShaped<T>(mask: seq<seq<T>>, rows: nat, cols: nat) {
    |mask| == rows && forall r :: 0 <= r < rows ==> |mask[r]| == cols
  }

  /** Cell (r, c) is inverted: the mask reaches it and its flag is set. */
  predicate Coin(mask: seq<seq<bool>>, r: nat, c: nat) {
    r < |mask| && c < |mask[r]| && mask[r][c]
  }

  function FlipCell(g: Grid, mask: seq<seq<bool>>, r: nat, c: nat): int
    requires r < |g| && c < |g[r]|
  {
    if Coin(mask, r, c) then 1 - g[r][c] else g[r][c]
  }

  /** The bitmap with `v := 1 - v` at every cell whose flag is set. */
  function FlipMasked(g: Grid, mask: seq<seq<bool>>): Grid {
    seq(|g|, r requires 0 <= r < |g| =>
      seq(|g[r]|, c requires 0 <= c < |g[r]| => FlipCell(g, mask, r, c)))
  }

  /** Inversion changes exactly the flagged cells, to 1 - v, and keeps the shape. */
  lemma FlipMaskedCells(g: Grid, mask: seq<seq<bool>>)
    ensures |FlipMasked(g, mask)| == |g|
    ensures forall r :: 0 <= r < |g| ==> |FlipMasked(g, mask)[r]| == |g[r]|
    ensures forall r, c :: 0 <= r < |g| && 0 <= c < |g[r]| ==>
      && (Coin(mask, r, c) ==> FlipMasked(g, mask)[r][c] == 1 - g[r][c])
      && (!Coin(mask, r, c) ==> FlipMasked(g, mask)[r][c] == g[r][c])
  {
  }

  /** Inverting a 0/1 cell gives a 0/1 cell. */
  lemma FlipMaskedBinary(g: Grid, mask: seq<seq<bool>>)
    requires IsBinary(g)
    ensures IsBinary(FlipMasked(g, mask))
  {
    var h := FlipMasked(g, mask);
    forall r, c | 0 <= r < |h| && 0 <= c < |h[r]|
      ensures h[r][c] == 0 || h[r][c] == 1
    {
      assert h[r][c] == FlipCell(g, mask, r, c);
    }
  }

  /** The same mask applied twice gives back the original bitmap. */
  lemma FlipMaskedTwice(g: Grid, mask: seq<seq<bool>>)
    ensures FlipMasked(FlipMasked(g, mask), mask) == g
  {
    var h := FlipMasked(g, mask);
    var k := FlipMasked(h, mask);
    assert |k| == |g|;
    forall r | 0 <= r < |g|
      ensures k[r] == g[r]
    {
      assert |k[r]| == |g[r]|;
      forall c | 0 <= c < |g[r]|
        ensures k[r][c] == g[r][c]
      {
        assert k[r][c] == FlipCell(h, mask, r, c);
        assert h[r][c] == FlipCell(g, mask, r, c);
      }
    }
  }

  /** The nested loop that inverts the flagged cells in place, row by row. */
  method ApplyNoise(image: array2<int>, mask: seq<seq<bool>>)
    requires IsShaped(mask, image.Length0, image.Length1)
    modifies image
    ensures Cells(image) == FlipMasked(old(Cells(image)), mask)
  {
    ghost var g := Cells(image);
    for r := 0 to image.Length0
      invariant forall i, j :: 0 <= i < image.Length0 && 0 <= j < image.Length1 ==>
        image[i, j] == if i < r then FlipCell(g, mask, i, j) else g[i][j]
    {
      for c := 0 to image.Length1
        invariant forall i, j :: 0 <= i < image.Length0 && 0 <= j < image.Length1 ==>
          image[i, j] == if i < r || (i == r && j < c) then FlipCell(g, mask, i, j) else g[i][j]
      {
        if mask[r][c] {
          image[r, c] := 1 - image[r, c];
        }
      }
    }
    ghost var h := FlipMasked(g, mask);
    assert forall i :: 0 <= i < image.Length0 ==> Cells(image)[i] == h[i];
  }

  /** `threshold = noise_level / 100.0`. */
  function Threshold(noiseLevel: int): real {
    noiseLevel as real / 100.0
  }

  /** The flags the draws raise: `np.random.rand() <= threshold` for each cell. */
  function Coins(draws: seq<seq<real>>, noiseLevel: int): (mask: seq<seq<bool>>)
    ensures |mask| == |draws|
    ensures forall r :: 0 <= r < |draws| ==> |mask[r]| == |draws[r]|
    ensures forall r, c :: 0 <= r < |draws| && 0 <= c < |draws[r]| ==>
      (mask[r][c] <==> draws[r][c] <= Threshold(noiseLevel))
  {
    seq(|draws|, r requires 0 <= r < |draws| =>
      seq(|draws[r]|, c requires 0 <= c < |draws[r]| => draws[r][c] <= Threshold(noiseLevel)))
  }

  /** Draws of `np.random.rand()`: each in [0, 1). */
  predicate IsDraws(draws: seq<seq<real>>) {
    forall r, c :: 0 <= r < |draws| && 0 <= c < |draws[r]| ==> 0.0 <= draws[r][c] < 1.0
  }

  /** The bitmap after the noise step: untouched unless `noise_level > 0`. */
  function Noisy(g: Grid, noiseLevel: int, draws: seq<seq<real>>): (h: Grid)
    ensures |h| == |g| && forall r :: 0 <= r < |g| ==> |h[r]| == |g[r]|
    ensures forall r, c :: 0 <= r < |g| && 0 <= c < |g[r]| ==>
      h[r][c] == if noiseLevel > 0 && r < |draws| && c < |draws[r]| && draws[r][c] <= Threshold(noiseLevel)
                 then 1 - g[r][c] else g[r][c]
  {
    if noiseLevel > 0 then
      FlipMaskedCells(g, Coins(draws, noiseLevel));
      FlipMasked(g, Coins(draws, noiseLevel))
    else g
  }

  /** `noise_level == 0` (or below) leaves the bitmap as drawn. */
  lemma NoiseOffUnchanged(g: Grid, noiseLevel: int, draws: seq<seq<real>>)
    requires noiseLevel <= 0
    ensures Noisy(g, noiseLevel, draws) == g
  {
  }

  /** The noise step keeps a 0/1 bitmap 0/1. */
  lemma NoiseKeepsBinary(g: Grid, noiseLevel: int, draws: seq<seq<real>>)
    requires IsBinary(g)
    ensures IsBinary(Noisy(g, noiseLevel, draws))
  {
    if noiseLevel > 0 {
      FlipMaskedBinary(g, Coins(draws, noiseLevel));
    }
  }

  /** The same draws at the same level undo the noise. */
  lemma NoiseTwice(g: Grid, noiseLevel: int, draws: seq<seq<real>>)
    ensures Noisy(Noisy(g, noiseLevel, draws), noiseLevel, draws) == g
  {
    if noiseLevel > 0 {
      FlipMaskedTwice(g, Coins(draws, noiseLevel));
    }
  }

  /** At a noise level of 100 or more every draw is under the threshold, so every
      cell the draws cover is inverted. */
  lemma FullNoiseInverts(g: Grid, noiseLevel: int, draws: seq<seq<real>>)
    requires noiseLevel >= 100 && IsDraws(draws) && IsShaped(draws, |g|, if g == [] then 0 else |g[0]|)
    requires forall r :: 0 <= r < |g| ==> |g[r]| == |draws[r]|
    ensures |Noisy(g, noiseLevel, draws)| == |g|
    ensures forall r, c :: 0 <= r < |g| && 0 <= c < |g[r]| ==> Noisy(g, noiseLevel, draws)[r][c] == 1 - g[r][c]
  {
    var mask := Coins(draws, noiseLevel);
    assert Threshold(noiseLevel) >= 1.0;
    FlipMaskedCells(g, mask);
    assert forall r, c :: 0 <= r < |g| && 0 <= c < |g[r]| ==> Coin(mask, r, c);
  }

  /** The noise step with loops over the rows and columns of the array: nothing
      happens unless the noise level is positive, and then each cell is inverted
      when its draw is at most the threshold. */
  method AddNoise(image: array2<int>, noiseLevel: int, draws: seq<seq<real>>)
    requires IsShaped(draws, image.Length0, image.Length1)
    modifies image
    ensures Cells(image) == Noisy(old(Cells(image)), noiseLevel, draws)
  {
    if noiseLevel > 0 {
      ApplyNoise(image, Coins(draws, noiseLevel));
    }
  }

  // ---------------------------------------------------------------------------
  // The noise loop as written
  // ---------------------------------------------------------------------------

  /** The loop as written runs `i` over the width and `j` over the height and touches
      `image_noise[i][j]`, on an array of `height` rows of `width` cells. It raises
      IndexError exactly when some raised flag `mask[i][j]` lies outside the array. */
  predicate AsWrittenInBounds(mask: seq<seq<bool>>, rows: nat, cols: nat) {
    forall i, j :: 0 <= i < |mask| && 0 <= j < |mask[i]| && mask[i][j] ==> i < rows && j < cols
  }

  /** The loop exactly as written: draws are taken in the order `i < width`, then
      `j < height`, and a raised flag at an index outside the array aborts with
      IndexError (`ok == false`). When it does not abort, the pixels it inverts are
      those at (i, j) of the raised flags. */
  method AddNoiseAsWritten(image: array2<int>, width: nat, height: nat, noiseLevel: int,
                           draws: seq<seq<real>>) returns (ok: bool)
    requires image.Length0 == height && image.Length1 == width
    requires IsShaped(draws, width, height)
    modifies image
    ensures ok <==> noiseLevel <= 0 || AsWrittenInBounds(Coins(draws, noiseLevel), height, width)
    ensures ok ==> Cells(image) == Noisy(old(Cells(image)), noiseLevel, draws)
  {
    if noiseLevel <= 0 {
      return true;
    }
    ghost var g := Cells(image);
    var threshold := Threshold(noiseLevel);
    ghost var mask := Coins(draws, noiseLevel);
    for i := 0 to width
      invariant forall a, b :: 0 <= a < |mask| && 0 <= b < |mask[a]| && a < i && mask[a][b] ==> a < height && b < width
      invariant forall a, b :: 0 <= a < height && 0 <= b < width ==>
        image[a, b] == if a < i then FlipCell(g, mask, a, b) else g[a][b]
    {
      for j := 0 to height
        invariant forall a, b :: 0 <= a < |mask| && 0 <= b < |mask[a]| && (a < i || (a == i && b < j)) && mask[a][b] ==>
          a < height && b < width
        invariant forall a, b :: 0 <= a < height && 0 <= b < width ==>
          image[a, b] == if a < i || (a == i && b < j) then FlipCell(g, mask, a, b) else g[a][b]
      {
        if draws[i][j] <= threshold {
          if i >= height || j >= width {
            return false;
          }
          image[i, j] := 1 - image[i, j];
        }
      }
    }
    ghost var h := FlipMasked(g, mask);
    assert forall a, b :: 0 <= a < height && 0 <= b < width ==> image[a, b] == h[a][b] by {
      forall a, b | 0 <= a < height && 0 <= b < width
        ensures image[a, b] == h[a][b]
      {
        if a >= width {
          assert !Coin(mask, a, b);
        }
      }
    }
    assert forall a :: 0 <= a < height ==> Cells(image)[a] == h[a];
    return true;
  }

  /** On a square image every index the as-written loop visits is inside the array. */
  lemma SquareIsInBounds(mask: seq<seq<bool>>, n: nat)
    requires IsShaped(mask, n, n)
    ensures AsWrittenInBounds(mask, n, n)
  {
  }

  /** A 2-wide, 1-high image at noise level 50: the draw 0.1 at i = 1, j = 0 is under
      the threshold, and row 1 does not exist, so the loop as written raises IndexError. */
  lemma AsWrittenFailsOnWideImage()
    ensures !AsWrittenInBounds(Coins([[0.9], [0.1]], 50), 1, 2)
  {
    var mask := Coins([[0.9], [0.1]], 50);
    assert mask[1][0];
  }

  /** On the same 2 x 1 image, whenever the loop as written does not raise, pixel
      (0, 1) keeps its value: the noise never reaches the second column. */
  lemma AsWrittenMissesColumn(g: Grid, noiseLevel: int, draws: seq<seq<real>>)
    requires IsShaped(g, 1, 2) && IsShaped(draws, 2, 1)
    ensures Noisy(g, noiseLevel, draws)[0][1] == g[0][1]
  {
    if noiseLevel > 0 {
      var mask := Coins(draws, noiseLevel);
      FlipMaskedCells(g, mask);
      assert !Coin(mask, 0, 1);
    }
  }

  /** The corrected pass flips that pixel at full noise. */
  lemma CorrectedReachesColumn(g: Grid, draws: seq<seq<real>>)
    requires IsShaped(g, 1, 2) && IsShaped(draws, 1, 2) && IsDraws(draws)
    ensures Noisy(g, 100, draws)[0][1] == 1 - g[0][1]
  {
    FullNoiseInverts(g, 100, draws);
  }

  // ---------------------------------------------------------------------------
  // The manifest line
  // ---------------------------------------------------------------------------

  /** The label as the classifier prints it: `letter <letter>, noise level <n>%`. */
  function PrintedLabel(letter: string, noiseLevel: int): string {
    "letter " + letter + ", noise level " + DecimalString(noiseLevel) + "%"
  }

  /** The label part of the line: the printed label, then a newline. */
  function ManifestLabel(letter: string, noiseLevel: int): string {
    PrintedLabel(letter, noiseLevel) + "\n"
  }

  /** `f"{letter}.png:letter {letter}, noise level {noise_level}%\n"`. */
  function ManifestLine(letter: string, noiseLevel: int): (l: string)
    ensures |l| == 2 * |letter| + 28 + |DecimalString(noiseLevel)|
    ensures l[|l| - 1] == '\n'
  {
    letter + ".png:" + ManifestLabel(letter, noiseLevel)
  }

  /** A rendered decimal holds neither a colon nor a newline. */
  lemma DecimalStringPlain(n: int)
    ensures ':' !in DecimalString(n) && '\n' !in DecimalString(n)
  {
    var d := DecimalString(n);
    assert forall i :: 0 <= i < |d| ==> d[i] != ':' && d[i] != '\n';
  }

  /** The printed label holds a colon or a newline only where the letter does, and it
      ends with '%'. */
  lemma PrintedLabelPlain(letter: string, noiseLevel: int)
    ensures var p := PrintedLabel(letter, noiseLevel);
      && (':' in p <==> ':' in letter)
      && ('\n' in p <==> '\n' in letter)
      && p != [] && p[|p| - 1] == '%'
  {
    DecimalStringPlain(noiseLevel);
    assert ':' !in "letter " && ':' !in ", noise level " && ':' !in "%";
    assert '\n' !in "letter " && '\n' !in ", noise level " && '\n' !in "%";
  }

  /** The classifier reads the line back: the file name is `<letter>.png`, the label
      is the rest of the line, and stripping trailing newlines leaves the label as
      printed. */
  lemma ManifestLineParses(letter: string, noiseLevel: int)
    requires ':' !in letter
    ensures ParseEntry(ManifestLine(letter, noiseLevel))
         == Ok(Entry(letter + ".png", ManifestLabel(letter, noiseLevel)))
    ensures RStripNewlines(ManifestLabel(letter, noiseLevel)) == PrintedLabel(letter, noiseLevel)
  {
    PrintedLabelPlain(letter, noiseLevel);
    RStripNewlinesClosed(PrintedLabel(letter, noiseLevel));
    assert ':' !in ".png";
    ManifestLineFields(letter, noiseLevel);
    ParseEntryOfFields(letter + ".png", ManifestLabel(letter, noiseLevel), []);
  }

  /** The line is the file name, a colon and the label. */
  lemma ManifestLineFields(letter: string, noiseLevel: int)
    ensures ManifestLine(letter, noiseLevel) == (letter + ".png") + [':'] + ManifestLabel(letter, noiseLevel) + []
  {
    var lbl := ManifestLabel(letter, noiseLevel);
    assert ".png:" == ".png" + [':'];
    assert letter + ".png:" == (letter + ".png") + [':'];
  }

  /** A line for a letter without newlines is one closed line of the manifest. */
  lemma ManifestLineIsClosed(letter: string, noiseLevel: int)
    requires '\n' !in letter
    ensures IsClosedLine(ManifestLine(letter, noiseLevel))
  {
    PrintedLabelPlain(letter, noiseLevel);
    var body := letter + ".png:" + PrintedLabel(letter, noiseLevel);
    assert '\n' !in ".png:";
    assert ManifestLine(letter, noiseLevel) == body + "\n";
    ClosedLineOf(body);
  }

  /** One call of `generate_font_image`: the letter and the noise level it was given. */
  datatype Generated = Generated(letter: string, noiseLevel: int)

  /** The text of `description.txt` after a series of calls on one output directory,
      each appending its line. */
  function DescriptionText(gs: seq<Generated>): string {
    if gs == [] then [] else DescriptionText(gs[..|gs| - 1]) + ManifestLine(gs[|gs| - 1].letter, gs[|gs| - 1].noiseLevel)
  }

  predicate PlainLetters(gs: seq<Generated>) {
    forall i :: 0 <= i < |gs| ==> ':' !in gs[i].letter && '\n' !in gs[i].letter
  }

  /** The lines the calls append, in call order. */
  function ManifestLines(gs: seq<Generated>): (lines: seq<string>)
    ensures |lines| == |gs|
    ensures forall i :: 0 <= i < |gs| ==> lines[i] == ManifestLine(gs[i].letter, gs[i].noiseLevel)
  {
    seq(|gs|, i requires 0 <= i < |gs| => ManifestLine(gs[i].letter, gs[i].noiseLevel))
  }

  lemma ManifestLinesSnoc(gs: seq<Generated>)
    requires gs != []
    ensures ManifestLines(gs) == ManifestLines(gs[..|gs| - 1])
                                 + [ManifestLine(gs[|gs| - 1].letter, gs[|gs| - 1].noiseLevel)]
  {
    var n := |gs| - 1;
    var a, b := ManifestLines(gs[..n]), ManifestLines(gs);
    assert forall i :: 0 <= i < n ==> a[i] == b[i];
  }

  /** A generated manifest has one line per call, in call order. */
  lemma {:induction false} DescriptionLines(gs: seq<Generated>)
    requires PlainLetters(gs)
    ensures Lines(DescriptionText(gs)) == ManifestLines(gs)
  {
    if gs != [] {
      var n := |gs| - 1;
      var p := gs[..n];
      assert PlainLetters(p) by {
        assert forall i :: 0 <= i < n ==> p[i] == gs[i];
      }
      DescriptionLines(p);
      var lines := ManifestLines(p);
      var text := DescriptionText(p);
      var l := ManifestLine(gs[n].letter, gs[n].noiseLevel);
      assert DescriptionText(gs) == text + l;
      ManifestLineIsClosed(gs[n].letter, gs[n].noiseLevel);
      if n > 0 {
        assert lines[n - 1] == ManifestLine(gs[n - 1].letter, gs[n - 1].noiseLevel);
        ManifestLineIsClosed(gs[n - 1].letter, gs[n - 1].noiseLevel);
      }
      AppendClosedLine(lines, text, l);
      ManifestLinesSnoc(gs);
    }
  }

  /** The entries the classifier should read for the calls. */
  function GeneratedEntries(gs: seq<Generated>): (es: seq<Entry>)
    ensures |es| == |gs|
    ensures forall i :: 0 <= i < |gs| ==>
      es[i] == Entry(gs[i].letter + ".png", ManifestLabel(gs[i].letter, gs[i].noiseLevel))
  {
    seq(|gs|, i requires 0 <= i < |gs| => Entry(gs[i].letter + ".png", ManifestLabel(gs[i].letter, gs[i].noiseLevel)))
  }

  lemma GeneratedLinesParse(gs: seq<Generated>)
    requires PlainLetters(gs)
    ensures forall i :: 0 <= i < |gs| ==> ParseEntry(ManifestLines(gs)[i]) == Ok(GeneratedEntries(gs)[i])
  {
    forall i | 0 <= i < |gs|
      ensures ParseEntry(ManifestLines(gs)[i]) == Ok(GeneratedEntries(gs)[i])
    {
      ManifestLineParses(gs[i].letter, gs[i].noiseLevel);
    }
  }

  /** The classifier parses a generated manifest without error: entry i names the
      image `<letter>.png` of call i and carries its label. */
  lemma GeneratedManifestParses(gs: seq<Generated>)
    requires PlainLetters(gs)
    ensures ParseManifest(Lines(DescriptionText(gs))) == Ok(GeneratedEntries(gs))
  {
    DescriptionLines(gs);
    var lines := ManifestLines(gs);
    var es := GeneratedEntries(gs);
    GeneratedLinesParse(gs);
    ParseManifestOfEntries(lines, es);
  }

  // ---------------------------------------------------------------------------
  // One call
  // ---------------------------------------------------------------------------

  /** What one call decides before it draws: the font size and the glyph position. */
  datatype Layout = Layout(fontSize: int, letterX: int, letterY: int)

  /** `generate_font_image` after the glyph is drawn: `image` holds the drawn bitmap
      (height rows of width cells), `letterWidth` and `letterHeight` are what
      `draw.textsize` reported, and `draws` are the random draws in the order the
      noise loop takes them (one row per column index `i`, one draw per `j`). The
      noise loop runs as written, so a raised flag outside the array aborts the call
      with IndexError (`ok == false`) before the image is saved and before any line
      is appended; `appended` is what the call adds to `description.txt`. */
  method GenerateFontImage(image: array2<int>, width: nat, height: nat, x: int, y: int,
                           letter: string, noiseLevel: int, letterWidth: int, letterHeight: int,
                           draws: seq<seq<real>>) returns (layout: Layout, ok: bool, appended: seq<string>)
    requires image.Length0 == height && image.Length1 == width
    requires IsShaped(draws, width, height)
    modifies image
    ensures layout == Layout(FontSize(width, height), LetterOffset(x, width, letterWidth),
                             LetterOffset(y, height, letterHeight))
    ensures ok <==> noiseLevel <= 0 || AsWrittenInBounds(Coins(draws, noiseLevel), height, width)
    ensures width == height ==> ok
    ensures ok ==> appended == [ManifestLine(letter, noiseLevel)]
    ensures !ok ==> appended == []
    ensures ok ==> Cells(image) == Noisy(old(Cells(image)), noiseLevel, draws)
  {
    var fontSize := if width < height then width else height;
    var letterX := LetterOffset(x, width, letterWidth);
    var letterY := LetterOffset(y, height, letterHeight);
    layout := Layout(fontSize, letterX, letterY);
    if width == height {
      SquareIsInBounds(Coins(draws, noiseLevel), width);
    }
    ok := AddNoiseAsWritten(image, width, height, noiseLevel, draws);
    if !ok {
      return layout, false, [];
    }
    appended := [ManifestLine(letter, noiseLevel)];
  }
}
