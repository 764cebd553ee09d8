/** The classifier script `madaline_ocr.py`: parsing manifest lines, preprocessing a
    0/1 bitmap into a feature vector, the confidence score of a query against a
    reference, nearest-match selection, and one run over a training and a test
    directory.

    Bitmap polarity stays abstract: a cell is 1 where the image library reports a
    set pixel, whatever colour that is. Confidences are exact (see module Scores). */
module MadalineOcr {
  import opened Text
  import opened Scores

  // ---------------------------------------------------------------------------
  // Manifest lines
  // ---------------------------------------------------------------------------

  /** One manifest line, cut at its colons: the image file name and the label. */
  datatype Entry = Entry(fileName: string, labelText: string)

  /** The ways a run aborts. */
  datatype Failure =
    | MalformedEntry(line: string)  // `split(':')[1]` raises IndexError: the line has no ':'
    | DimensionMismatch             // `np.dot` raises ValueError: vectors of different lengths
    | EmptyTrainingSet              // `np.argmax([])` raises ValueError

  datatype Result<T> = Ok(value: T) | Err(failure: Failure)

  /** `image_file.split(':')[0]` and `image_file.split(':')[1]`, computed from the
      first two colons (`ParseEntryIsSplit` shows it is the same thing). */
  function ParseEntry(line: string): (r: Result<Entry>)
    ensures r.Ok? <==> ':' in line
    ensures r.Err? ==> r.failure == MalformedEntry(line)
    ensures r.Ok? ==> ':' !in r.value.fileName && ':' !in r.value.labelText
  {
    if ':' !in line then Err(MalformedEntry(line))
    else
      var i := IndexOf(line, ':');
      Ok(Entry(line[..i], FirstField(line[i + 1..], ':')))
  }

  /** The parse is Python's: the first two pieces of `split(':')`, and an IndexError
      when there is only one piece. */
  lemma ParseEntryIsSplit(line: string)
    ensures var fields := Split(line, ':');
      ParseEntry(line) == if |fields| < 2 then Err(MalformedEntry(line)) else Ok(Entry(fields[0], fields[1]))
  {
    if ':' in line {
      var i := IndexOf(line, ':');
      SplitFirstField(line[i + 1..], ':');
    }
  }

  /** Where the two fields sit in the line: the file name is everything before the
      first ':', and the label runs from there to the second ':' or to the end of
      the line, so a later ':' cuts the label short. */
  lemma ParseEntryFields(line: string)
    requires ':' in line
    ensures var e := ParseEntry(line).value;
      var end := |e.fileName| + 1 + |e.labelText|;
      && end <= |line|
      && line[..|e.fileName|] == e.fileName
      && line[|e.fileName|] == ':'
      && line[|e.fileName| + 1..end] == e.labelText
      && (end == |line| || line[end] == ':')
  {
    var i := IndexOf(line, ':');
    var l := FirstField(line[i + 1..], ':');
    SliceOfSuffix(line, i + 1, |l|);
  }

  /** Parsing recovers the fields of a line built from them. */
  lemma ParseEntryOfFields(fileName: string, labelText: string, rest: string)
    requires ':' !in fileName && ':' !in labelText
    requires rest == [] || rest[0] == ':'
    ensures ParseEntry(fileName + [':'] + labelText + rest) == Ok(Entry(fileName, labelText))
  {
    var t := labelText + rest;
    var line := fileName + [':'] + t;
    assert fileName + [':'] + labelText + rest == line;
    IndexOfAfterField(fileName, ':', t);
    assert line[..|fileName|] == fileName;
    assert line[|fileName| + 1..] == t;
    if rest == [] {
      assert t == labelText;
    } else {
      assert t == labelText + [':'] + rest[1..];
      IndexOfAfterField(labelText, ':', rest[1..]);
      assert t[..|labelText|] == labelText;
    }
  }

  /** The entries of a manifest, in order; the first line without ':' aborts. */
  function ParseManifest(lines: seq<string>): (r: Result<seq<Entry>>)
    ensures r.Ok? <==> forall i :: 0 <= i < |lines| ==> ':' in lines[i]
    ensures r.Ok? ==> |r.value| == |lines|
    ensures r.Ok? ==> forall i :: 0 <= i < |lines| ==> ParseEntry(lines[i]) == Ok(r.value[i])
    ensures r.Err? ==> r.failure.MalformedEntry? && ':' !in r.failure.line
  {
    if lines == [] then Ok([])
    else
      var n := |lines| - 1;
      assert forall i :: 0 <= i < n ==> lines[..n][i] == lines[i];
      match ParseManifest(lines[..n])
      case Err(f) => Err(f)
      case Ok(es) =>
        match ParseEntry(lines[n])
        case Err(f) => Err(f)
        case Ok(e) => Ok(es + [e])
  }

  /** A manifest whose every line parses gives exactly those entries. */
  lemma {:induction false} ParseManifestOfEntries(lines: seq<string>, es: seq<Entry>)
    requires |lines| == |es|
    requires forall i :: 0 <= i < |lines| ==> ParseEntry(lines[i]) == Ok(es[i])
    ensures ParseManifest(lines) == Ok(es)
  {
    if lines != [] {
      var n := |lines| - 1;
      var init, prior := lines[..n], es[..n];
      assert forall i :: 0 <= i < n ==> init[i] == lines[i] && prior[i] == es[i];
      ParseManifestOfEntries(init, prior);
      ParseManifestStep(lines, n, prior);
      assert lines[..n + 1] == lines;
      assert prior + [es[n]] == es;
    }
  }

  /** The failure names the first line without ':'. */
  lemma {:induction false} ParseManifestFirstFailure(lines: seq<string>, i: nat)
    requires i < |lines| && ':' !in lines[i]
    requires forall j :: 0 <= j < i ==> ':' in lines[j]
    ensures ParseManifest(lines) == Err(MalformedEntry(lines[i]))
    decreases |lines|
  {
    var n := |lines| - 1;
    if i < n {
      assert forall j :: 0 <= j <= i ==> lines[..n][j] == lines[j];
      ParseManifestFirstFailure(lines[..n], i);
    } else {
      assert forall j :: 0 <= j < n ==> lines[..n][j] == lines[j];
    }
  }

  /** Once a prefix of the manifest fails, the whole manifest fails the same way. */
  lemma {:induction false} ParseManifestAbortPropagates(lines: seq<string>, i: nat)
    requires i <= |lines| && ParseManifest(lines[..i]).Err?
    ensures ParseManifest(lines) == ParseManifest(lines[..i])
    decreases |lines|
  {
    if i < |lines| {
      var n := |lines| - 1;
      assert lines[..n][..i] == lines[..i];
      ParseManifestAbortPropagates(lines[..n], i);
      ParseManifestErrStep(lines);
    } else {
      assert lines[..i] == lines;
    }
  }

  /** A failure before the last line is the failure of the whole manifest. */
  lemma ParseManifestErrStep(lines: seq<string>)
    requires |lines| > 0 && ParseManifest(lines[..|lines| - 1]).Err?
    ensures ParseManifest(lines) == ParseManifest(lines[..|lines| - 1])
  {
  }

  // ---------------------------------------------------------------------------
  // Preprocessing
  // ---------------------------------------------------------------------------

  /** A bitmap as `load_image` returns it: rows of 0/1 cells. */
  type Grid = seq<seq<int>>

  predicate IsBinary(g: Grid) {
    forall i, j :: 0 <= i < |g| && 0 <= j < |g[i]| ==> g[i][j] == 0 || g[i][j] == 1
  }

  predicate IsBinaryVector(v: seq<int>) {
    forall i :: 0 <= i < |v| ==> v[i] == 0 || v[i] == 1
  }

  /** `np.reshape(image, (1, -1))`: the rows one after the other (row-major). */
  function Flatten(g: Grid): seq<int> {
    if g == [] then [] else g[0] + Flatten(g[1..])
  }

  /** `np.count_nonzero(v == 1)`. */
  function CountOnes(v: seq<int>): nat {
    if v == [] then 0 else (if v[0] == 1 then 1 else 0) + CountOnes(v[1..])
  }

  /** Position (i, j) of a rows x cols grid in row-major order lies inside the
      vector, one row after position (i - 1, j). */
  lemma RowMajorIndex(i: nat, j: nat, rows: nat, cols: nat)
    requires i < rows && j < cols
    ensures i * cols + j < rows * cols
    ensures i > 0 ==> i * cols + j == cols + ((i - 1) * cols + j)
  {
    assert i * cols <= (rows - 1) * cols;
  }

  lemma {:induction false} FlattenLength(g: Grid, rows: nat, cols: nat)
    requires |g| == rows && forall i :: 0 <= i < rows ==> |g[i]| == cols
    ensures |Flatten(g)| == rows * cols
  {
    if rows > 0 {
      var tail := g[1..];
      assert forall i :: 0 <= i < rows - 1 ==> tail[i] == g[i + 1];
      FlattenLength(tail, rows - 1, cols);
      assert |Flatten(g)| == cols + (rows - 1) * cols;
    }
  }

  /** Flattening a rectangular grid lays cell (i, j) at position i * cols + j. */
  lemma {:induction false} FlattenCell(g: Grid, rows: nat, cols: nat, i: nat, j: nat)
    requires |g| == rows && forall i :: 0 <= i < rows ==> |g[i]| == cols
    requires i < rows && j < cols
    ensures i * cols + j < |Flatten(g)| && Flatten(g)[i * cols + j] == g[i][j]
  {
    var tail := g[1..];
    var f := Flatten(g);
    assert f == g[0] + Flatten(tail);
    FlattenLength(g, rows, cols);
    RowMajorIndex(i, j, rows, cols);
    if i > 0 {
      assert forall k :: 0 <= k < rows - 1 ==> tail[k] == g[k + 1];
      FlattenCell(tail, rows - 1, cols, i - 1, j);
      assert f[i * cols + j] == Flatten(tail)[(i - 1) * cols + j];
    }
  }

  lemma {:induction false} FlattenBinary(g: Grid)
    requires IsBinary(g)
    ensures IsBinaryVector(Flatten(g))
  {
    if g != [] {
      assert IsBinary(g[1..]) by {
        forall i, j | 0 <= i < |g[1..]| && 0 <= j < |g[1..][i]|
          ensures g[1..][i][j] == 0 || g[1..][i][j] == 1
        {
          assert g[1..][i] == g[i + 1];
        }
      }
      FlattenBinary(g[1..]);
    }
  }

  /** A preprocessed bitmap: element i of the vector is `cells[i] / sqrt(ones)`.
      With `ones == 0` numpy computes 0 / 0 in every cell, so every element is NaN. */
  datatype Feature = Feature(cells: seq<int>, ones: nat)

  /** A feature made from a bitmap: 0/1 cells, and `ones` counts the 1-cells. */
  predicate IsFeature(f: Feature) {
    IsBinaryVector(f.cells) && f.ones == CountOnes(f.cells)
  }

  /** `preprocess_image(image).flatten()`. */
  function Preprocess(g: Grid): (f: Feature)
    requires IsBinary(g)
    ensures IsFeature(f)
  {
    FlattenBinary(g);
    Feature(Flatten(g), CountOnes(Flatten(g)))
  }

  /** The real vector the cells stand for once divided by `root`. */
  function Elements(v: seq<int>, root: real): seq<real>
    requires root > 0.0
  {
    seq(|v|, i requires 0 <= i < |v| => v[i] as real / root)
  }

  /** `np.dot` on two real vectors of the same length. */
  function RealDot(u: seq<real>, v: seq<real>): real
    requires |u| == |v|
  {
    if u == [] then 0.0 else u[0] * v[0] + RealDot(u[1..], v[1..])
  }

  /** `np.dot` on two integer vectors of the same length. */
  function Dot(u: seq<int>, v: seq<int>): int
    requires |u| == |v|
  {
    if u == [] then 0 else u[0] * v[0] + Dot(u[1..], v[1..])
  }

  /** The layout of a preprocessed rectangular bitmap: rows * cols elements, cell
      (i, j) at position i * cols + j, and `ones` is the number of 1-cells. */
  lemma PreprocessLayout(g: Grid, rows: nat, cols: nat, i: nat, j: nat)
    requires IsBinary(g)
    requires |g| == rows && forall i :: 0 <= i < rows ==> |g[i]| == cols
    requires i < rows && j < cols
    ensures var f := Preprocess(g);
      && |f.cells| == rows * cols
      && i * cols + j < |f.cells| && f.cells[i * cols + j] == g[i][j]
      && f.ones == CountOnes(f.cells)
  {
    FlattenLength(g, rows, cols);
    FlattenCell(g, rows, cols, i, j);
  }

  lemma QuotientProduct(x: real, y: real, a: real, b: real)
    requires a > 0.0 && b > 0.0
    ensures (x / a) * (y / b) == (x * y) / (a * b)
  {
    var p, q := x / a, y / b;
    assert p * a == x && q * b == y;
    assert (p * q) * (a * b) == (p * a) * (q * b);
  }

  /** Dividing the two vectors by a and b divides their dot product by a * b. */
  lemma {:induction false} ScaledDot(u: seq<int>, v: seq<int>, a: real, b: real)
    requires |u| == |v| && a > 0.0 && b > 0.0
    ensures RealDot(Elements(u, a), Elements(v, b)) == Dot(u, v) as real / (a * b)
  {
    if u != [] {
      var eu, ev := Elements(u, a), Elements(v, b);
      assert eu[1..] == Elements(u[1..], a);
      assert ev[1..] == Elements(v[1..], b);
      ScaledDot(u[1..], v[1..], a, b);
      var x, y := u[0] as real, v[0] as real;
      var rest := Dot(u[1..], v[1..]) as real;
      QuotientProduct(x, y, a, b);
      SumOfQuotients(x * y, rest, a * b);
      assert (u[0] * v[0]) as real == x * y;
      assert RealDot(eu, ev) == (x * y) / (a * b) + rest / (a * b);
    }
  }

  lemma SumOfQuotients(x: real, y: real, c: real)
    requires c > 0.0
    ensures x / c + y / c == (x + y) / c
  {
    var p, q := x / c, y / c;
    assert p * c == x && q * c == y;
    assert (p + q) * c == x + y;
  }

  /** On 0/1 cells the squared length is the number of 1-cells. */
  lemma {:induction false} BinaryDotSelf(v: seq<int>)
    requires IsBinaryVector(v)
    ensures Dot(v, v) == CountOnes(v)
  {
    if v != [] {
      BinaryDotSelf(v[1..]);
    }
  }

  lemma {:induction false} DotSymmetric(u: seq<int>, v: seq<int>)
    requires |u| == |v|
    ensures Dot(u, v) == Dot(v, u)
  {
    if u != [] {
      DotSymmetric(u[1..], v[1..]);
    }
  }

  /** The dot product of two 0/1 vectors counts their common 1-cells, so it is
      at most the number of 1-cells of either. */
  lemma {:induction false} OverlapBounds(u: seq<int>, v: seq<int>)
    requires |u| == |v| && IsBinaryVector(u) && IsBinaryVector(v)
    ensures 0 <= Dot(u, v) <= CountOnes(u) && Dot(u, v) <= CountOnes(v)
  {
    if u != [] {
      OverlapBounds(u[1..], v[1..]);
    }
  }

  /** A feature with at least one 1-cell stands for a vector of squared length exactly 1. */
  lemma FeatureUnitNorm(f: Feature, root: real)
    requires IsFeature(f) && f.ones > 0 && IsRoot(root, f.ones as real)
    ensures var e := Elements(f.cells, root); RealDot(e, e) == 1.0
  {
    ScaledDot(f.cells, f.cells, root, root);
    BinaryDotSelf(f.cells);
    var n := root * root;
    assert n == f.ones as real == Dot(f.cells, f.cells) as real;
    assert n > 0.0;
    assert Dot(f.cells, f.cells) as real / n == 1.0;
  }

  /** A bitmap with at least one 1-cell becomes a vector of squared length exactly 1. */
  lemma PreprocessUnitNorm(g: Grid, root: real)
    requires IsBinary(g)
    requires Preprocess(g).ones > 0 && IsRoot(root, Preprocess(g).ones as real)
    ensures var e := Elements(Preprocess(g).cells, root); RealDot(e, e) == 1.0
  {
    FeatureUnitNorm(Preprocess(g), root);
  }

  /** A bitmap without 1-cells is all 0 cells, which numpy turns into 0 / 0 = NaN. */
  lemma {:induction false} DegenerateIsAllZero(v: seq<int>)
    requires IsBinaryVector(v)
    ensures CountOnes(v) == 0 <==> forall i :: 0 <= i < |v| ==> v[i] == 0
  {
    if v != [] {
      DegenerateIsAllZero(v[1..]);
      assert forall i :: 1 <= i < |v| ==> v[1..][i - 1] == v[i];
    }
  }

  // ---------------------------------------------------------------------------
  // Confidence
  // ---------------------------------------------------------------------------

  /** `calculate_confidence(input_vector, weights)` on real vectors:
      `np.dot(input_vector, weights) / np.linalg.norm(weights)`, with the norm
      given as the square root of the squared length of `weights`. */
  function CalculateConfidence(input: seq<real>, weights: seq<real>, norm: real): (c: real)
    requires |input| == |weights| && IsRoot(norm, RealDot(weights, weights)) && norm > 0.0
    ensures c * norm == RealDot(input, weights)
  {
    RealDot(input, weights) / norm
  }

  /** Only the reference side is divided by its norm, so on arbitrary vectors the
      score depends on the order of its arguments. */
  lemma CalculateConfidenceIsAsymmetric()
    ensures CalculateConfidence([2.0], [1.0], 1.0) == 2.0
    ensures CalculateConfidence([1.0], [2.0], 2.0) == 1.0
  {
  }

  /** `calculate_confidence(test_image, train_image)` on two preprocessed bitmaps,
      exactly: cells of different lengths make `np.dot` raise; a bitmap without
      1-cells makes every element NaN and so the score; otherwise the score is
      overlap / sqrt(ones(q) * ones(r)), where overlap counts the common 1-cells. */
  function Confidence(q: Feature, r: Feature): (c: Result<Score>)
    requires IsFeature(q) && IsFeature(r)
    ensures c.Err? <==> |q.cells| != |r.cells|
    ensures c.Err? ==> c.failure == DimensionMismatch
    ensures c.Ok? ==> (c.value.NaN? <==> q.ones == 0 || r.ones == 0)
    ensures c.Ok? && c.value.Finite? ==>
      c.value.num == Dot(q.cells, r.cells) && c.value.rad == q.ones * r.ones
  {
    if |q.cells| != |r.cells| then Err(DimensionMismatch)
    else if q.ones == 0 || r.ones == 0 then Ok(NaN)
    else
      // dot(q, r) = D / sqrt(kq * kr) and norm(r) = sqrt(N / kr), where D is the
      // dot product and N the squared length of the integer cells: the quotient
      // is D / sqrt(kq * N).
      BinaryDotSelf(r.cells);
      Ok(Finite(Dot(q.cells, r.cells), q.ones * Dot(r.cells, r.cells)))
  }

  /** The exact score is the real-valued `calculate_confidence` of the two
      preprocessed vectors; the reference's norm is 1. */
  lemma ConfidenceIsDotOverNorm(q: Feature, r: Feature, rq: real, rr: real, norm: real, rc: real)
    requires IsFeature(q) && IsFeature(r) && |q.cells| == |r.cells|
    requires q.ones > 0 && r.ones > 0
    requires IsRoot(rq, q.ones as real) && IsRoot(rr, r.ones as real)
    requires IsRoot(norm, RealDot(Elements(r.cells, rr), Elements(r.cells, rr)))
    requires IsRoot(rc, (q.ones * r.ones) as real)
    ensures norm == 1.0
    ensures Value(Confidence(q, r).value, rc)
         == CalculateConfidence(Elements(q.cells, rq), Elements(r.cells, rr), norm)
  {
    FeatureUnitNorm(r, rr);
    RootUnique(norm, 1.0, 1.0);
    ProductRoot(rq, q.ones, rr, r.ones, rc);
    ScaledDot(q.cells, r.cells, rq, rr);
    ConfidenceOfFeatures(q, r);
    var d := Dot(q.cells, r.cells) as real;
    assert Value(Confidence(q, r).value, rc) == d / rc;
    assert CalculateConfidence(Elements(q.cells, rq), Elements(r.cells, rr), norm) == d / rc / 1.0;
  }

  /** The root of a product of two counts is the product of their roots. */
  lemma ProductRoot(ra: real, a: int, rb: real, b: int, rc: real)
    requires IsRoot(ra, a as real) && IsRoot(rb, b as real) && IsRoot(rc, (a * b) as real)
    ensures rc == ra * rb
  {
    RootProduct(ra, a as real, rb, b as real);
    assert (a * b) as real == a as real * b as real;
    RootUnique(rc, ra * rb, (a * b) as real);
  }

  /** On preprocessed bitmaps both orders give overlap / sqrt(ones(q) * ones(r)), so
      the score does not depend on the order of its arguments. */
  lemma ConfidenceSymmetric(q: Feature, r: Feature)
    requires IsFeature(q) && IsFeature(r)
    ensures Confidence(q, r) == Confidence(r, q)
  {
    if |q.cells| == |r.cells| {
      DotSymmetric(q.cells, r.cells);
    }
  }

  /** The score of two bitmaps of the same length that both have 1-cells. */
  lemma ConfidenceOfFeatures(q: Feature, r: Feature)
    requires IsFeature(q) && IsFeature(r) && |q.cells| == |r.cells| && q.ones > 0 && r.ones > 0
    ensures Confidence(q, r) == Ok(Finite(Dot(q.cells, r.cells), q.ones * r.ones))
  {
    BinaryDotSelf(r.cells);
  }

  lemma MulMonotone(a: int, b: int, c: nat)
    requires 0 <= a <= b
    ensures a * c <= b * c
  {
  }

  /** The overlap of two bitmaps, squared, is at most the product of their 1-counts. */
  lemma OverlapSquareBound(q: Feature, r: Feature)
    requires IsFeature(q) && IsFeature(r) && |q.cells| == |r.cells|
    ensures 0 <= Dot(q.cells, r.cells)
    ensures Dot(q.cells, r.cells) * Dot(q.cells, r.cells) <= q.ones * r.ones
  {
    var d := Dot(q.cells, r.cells);
    OverlapBounds(q.cells, r.cells);
    MulMonotone(d, q.ones, d);
    MulMonotone(d, r.ones, q.ones);
  }

  /** A finite score between preprocessed bitmaps lies in [0, 1]. */
  lemma ConfidenceInUnitRange(q: Feature, r: Feature, rc: real)
    requires IsFeature(q) && IsFeature(r)
    requires Confidence(q, r).Ok? && Confidence(q, r).value.Finite?
    requires IsRoot(rc, Confidence(q, r).value.rad as real)
    ensures 0.0 <= Key(Confidence(q, r).value) <= 1.0
    ensures 0.0 <= Value(Confidence(q, r).value, rc) <= 1.0
  {
    ConfidenceOfFeatures(q, r);
    OverlapSquareBound(q, r);
    var c := Confidence(q, r).value;
    KeyOfBoundedScore(c);
    KeyInUnitRange(c, rc);
  }

  /** A preprocessed bitmap scored against itself gives exactly 1. */
  lemma SelfMatchIsOne(p: Feature, rc: real)
    requires IsFeature(p) && p.ones > 0
    requires IsRoot(rc, (p.ones * p.ones) as real)
    ensures Confidence(p, p) == Ok(Finite(p.ones, p.ones * p.ones))
    ensures Key(Confidence(p, p).value) == 1.0
    ensures Value(Confidence(p, p).value, rc) == 1.0
  {
    ConfidenceOfFeatures(p, p);
    BinaryDotSelf(p.cells);
    var c := Confidence(p, p).value;
    KeyOfBoundedScore(c);
    KeyOneIsOne(c, rc);
  }

  /** No reference can score higher than a self-match. */
  lemma SelfMatchDominates(q: Feature, r: Feature, p: Feature)
    requires IsFeature(q) && IsFeature(r) && IsFeature(p)
    requires |q.cells| == |r.cells| && q.ones > 0 && r.ones > 0 && p.ones > 0
    ensures Le(Confidence(q, r).value, Confidence(p, p).value)
  {
    ConfidenceOfFeatures(q, r);
    OverlapSquareBound(q, r);
    KeyOfBoundedScore(Confidence(q, r).value);
    ConfidenceOfFeatures(p, p);
    BinaryDotSelf(p.cells);
    KeyOfBoundedScore(Confidence(p, p).value);
  }

  // ---------------------------------------------------------------------------
  // Nearest-match selection
  // ---------------------------------------------------------------------------

  predicate AllFeatures(fs: seq<Feature>) {
    forall j :: 0 <= j < |fs| ==> IsFeature(fs[j])
  }

  /** The `confidences` list of one test image against every training image, in
      training order; any length mismatch aborts. */
  function ScoresAgainst(q: Feature, train: seq<Feature>): (r: Result<seq<Score>>)
    requires IsFeature(q) && AllFeatures(train)
    ensures r.Ok? <==> forall j :: 0 <= j < |train| ==> |train[j].cells| == |q.cells|
    ensures r.Err? ==> r.failure == DimensionMismatch
    ensures r.Ok? ==> |r.value| == |train|
    ensures r.Ok? ==> forall j :: 0 <= j < |train| ==> Confidence(q, train[j]) == Ok(r.value[j])
  {
    if exists j :: 0 <= j < |train| && |train[j].cells| != |q.cells| then Err(DimensionMismatch)
    else Ok(seq(|train|, j requires 0 <= j < |train| => Confidence(q, train[j]).value))
  }

  /** The `for j` loop that fills `confidences`. */
  method ComputeConfidences(q: Feature, train: seq<Feature>) returns (r: Result<seq<Score>>)
    requires IsFeature(q) && AllFeatures(train)
    ensures r == ScoresAgainst(q, train)
  {
    var confidences: seq<Score> := [];
    for j := 0 to |train|
      invariant |confidences| == j
      invariant forall k :: 0 <= k < j ==>
        |train[k].cells| == |q.cells| && Confidence(q, train[k]) == Ok(confidences[k])
    {
      var c := Confidence(q, train[j]);
      if c.Err? {
        return Err(c.failure);
      }
      confidences := confidences + [c.value];
    }
    var cs := ScoresAgainst(q, train);
    assert cs.Ok?;
    assert forall k :: 0 <= k < |train| ==> cs.value[k] == confidences[k];
    assert cs.value == confidences;
    assert cs == Ok(confidences);
    return Ok(confidences);
  }

  /** The winner for one test image: its training position and its confidence. */
  datatype Match = Match(index: nat, confidence: Score)

  /** `max_index = np.argmax(confidences)` and `confidences[max_index]`. */
  function Classify(q: Feature, train: seq<Feature>): (r: Result<Match>)
    requires IsFeature(q) && AllFeatures(train)
    ensures r.Err? ==> (r.failure == DimensionMismatch <==> ScoresAgainst(q, train).Err?)
    ensures r.Err? ==> (r.failure == EmptyTrainingSet <==> ScoresAgainst(q, train).Ok? && train == [])
    ensures r.Err? ==> ScoresAgainst(q, train).Err? || train == []
    ensures r.Ok? ==> var cs := ScoresAgainst(q, train);
      && cs.Ok?
      && r.value.index < |train|
      && IsArgMax(cs.value, r.value.index)
      && r.value.confidence == cs.value[r.value.index]
      && Confidence(q, train[r.value.index]) == Ok(r.value.confidence)
  {
    match ScoresAgainst(q, train)
    case Err(f) => Err(f)
    case Ok(cs) =>
      if cs == [] then Err(EmptyTrainingSet)
      else
        var i := ArgMax(cs);
        Ok(Match(i, cs[i]))
  }

  /** An overlap whose square is the product of the two 1-counts is all of both. */
  lemma PerfectOverlap(d: int, a: int, b: int)
    requires 0 <= d <= a && d <= b && 0 < a && 0 < b && d * d == a * b
    ensures d == a == b
  {
    assert a * b - d * d == (a - d) * b + d * (b - d);
    MulMonotone(0, a - d, b);
    MulMonotone(0, d, b - d);
    assert (a - d) * b == 0;
    assert a == d;
    assert d * d > 0;
    assert d * (b - d) == 0;
  }

  /** With a query identical to training bitmap j and training bitmaps that all
      have 1-cells and its size, the winner's key is 1 and it is j or earlier. */
  lemma WinnerKeyIsOne(q: Feature, train: seq<Feature>, j: nat)
    requires IsFeature(q) && AllFeatures(train) && q.ones > 0
    requires forall k :: 0 <= k < |train| ==> |train[k].cells| == |q.cells| && train[k].ones > 0
    requires j < |train| && train[j] == q
    ensures Classify(q, train).Ok?
    ensures Classify(q, train).value.index <= j
    ensures Key(Classify(q, train).value.confidence) == 1.0
  {
    var cs := ScoresAgainst(q, train).value;
    assert forall k :: 0 <= k < |cs| ==> Confidence(q, train[k]) == Ok(cs[k]) && cs[k].Finite?;
    assert !HasNaN(cs);
    var w := Classify(q, train).value.index;
    ConfidenceOfFeatures(q, q);
    BinaryDotSelf(q.cells);
    KeyOfBoundedScore(cs[j]);
    assert Le(cs[j], cs[w]);
    SelfMatchDominates(q, train[w], q);
    assert Le(cs[w], cs[j]);
  }

  /** A query identical to a training bitmap, against training bitmaps that all have
      1-cells and its size: the winner is that training bitmap or an earlier one, its
      score is exactly k / sqrt(k * k) for the query's k 1-cells, which is 1. */
  lemma SelfMatchWins(q: Feature, train: seq<Feature>, j: nat, rc: real)
    requires IsFeature(q) && AllFeatures(train) && q.ones > 0
    requires forall k :: 0 <= k < |train| ==> |train[k].cells| == |q.cells| && train[k].ones > 0
    requires j < |train| && train[j] == q
    requires IsRoot(rc, (q.ones * q.ones) as real)
    ensures Classify(q, train).Ok?
    ensures Classify(q, train).value.index <= j
    ensures Classify(q, train).value.confidence == Finite(q.ones, q.ones * q.ones)
    ensures Value(Classify(q, train).value.confidence, rc) == 1.0
  {
    WinnerKeyIsOne(q, train, j);
    var m := Classify(q, train).value;
    var r := train[m.index];
    ConfidenceOfFeatures(q, r);
    OverlapSquareBound(q, r);
    OverlapBounds(q.cells, r.cells);
    KeyOfBoundedScore(m.confidence);
    PerfectOverlap(Dot(q.cells, r.cells), q.ones, r.ones);
    KeyOneIsOne(m.confidence, rc);
  }

  lemma FilledSquareFeature()
    ensures Preprocess([[1, 1, 1], [1, 1, 1], [1, 1, 1]]) == Feature([1, 1, 1, 1, 1, 1, 1, 1, 1], 9)
  {
    var sq: Grid := [[1, 1, 1], [1, 1, 1], [1, 1, 1]];
    assert Flatten(sq[2..]) == [1, 1, 1];
    assert Flatten(sq[1..]) == [1, 1, 1] + [1, 1, 1];
    var v := Flatten(sq);
    assert v == [1, 1, 1, 1, 1, 1, 1, 1, 1];
    assert CountOnes(v[8..]) == 1;
    assert CountOnes(v[6..]) == 3;
    assert CountOnes(v[4..]) == 5;
    assert CountOnes(v[2..]) == 7;
  }

  lemma CornerPixelFeature()
    ensures Preprocess([[1, 0, 0], [0, 0, 0], [0, 0, 0]]) == Feature([1, 0, 0, 0, 0, 0, 0, 0, 0], 1)
  {
    var co: Grid := [[1, 0, 0], [0, 0, 0], [0, 0, 0]];
    assert Flatten(co[2..]) == [0, 0, 0];
    assert Flatten(co[1..]) == [0, 0, 0] + [0, 0, 0];
    var v := Flatten(co);
    assert v == [1, 0, 0, 0, 0, 0, 0, 0, 0];
    assert CountOnes(v[8..]) == 0;
    assert CountOnes(v[6..]) == 0;
    assert CountOnes(v[4..]) == 0;
    assert CountOnes(v[2..]) == 0;
  }

  /** The filled square and the corner pixel share one 1-cell. */
  lemma SquareCornerOverlap()
    ensures Dot([1, 1, 1, 1, 1, 1, 1, 1, 1], [1, 0, 0, 0, 0, 0, 0, 0, 0]) == 1
  {
    assert Dot([1, 1, 1], [0, 0, 0]) == 0;
    assert Dot([1, 1, 1, 1, 1, 1], [0, 0, 0, 0, 0, 0]) == 0;
  }

  /** The confidences of the filled square against itself and against the corner pixel. */
  lemma SquareAndCornerConfidences(square: Feature, corner: Feature)
    requires square == Feature([1, 1, 1, 1, 1, 1, 1, 1, 1], 9)
    requires corner == Feature([1, 0, 0, 0, 0, 0, 0, 0, 0], 1)
    ensures IsFeature(square) && IsFeature(corner)
    ensures Confidence(square, corner) == Ok(Finite(1, 9))
    ensures Confidence(square, square) == Ok(Finite(9, 81))
  {
    FilledSquareFeature();
    CornerPixelFeature();
    SquareCornerOverlap();
    BinaryDotSelf(square.cells);
    ConfidenceOfFeatures(square, corner);
    ConfidenceOfFeatures(square, square);
  }

  /** The `confidences` list of the square against the training list [square, corner]. */
  lemma SquareAndCornerScores(square: Feature, corner: Feature)
    requires square == Feature([1, 1, 1, 1, 1, 1, 1, 1, 1], 9)
    requires corner == Feature([1, 0, 0, 0, 0, 0, 0, 0, 0], 1)
    ensures IsFeature(square) && IsFeature(corner)
    ensures ScoresAgainst(square, [square, corner]) == Ok([Finite(9, 81), Finite(1, 9)])
  {
    SquareAndCornerConfidences(square, corner);
    var cs := ScoresAgainst(square, [square, corner]);
    assert cs.Ok? && |cs.value| == 2;
    assert cs.value[0] == Finite(9, 81) && cs.value[1] == Finite(1, 9);
    assert cs.value == [Finite(9, 81), Finite(1, 9)];
  }

  /** A score of 1 beats a score of 1/3. */
  lemma SquareBeatsCorner()
    ensures ArgMax([Finite(9, 81), Finite(1, 9)]) == 0
  {
    var cs := [Finite(9, 81), Finite(1, 9)];
    assert Key(cs[0]) == 1.0 && Key(cs[1]) == 1.0 / 9.0;
    assert !HasNaN(cs);
    assert IsArgMax(cs, 0);
    ArgMaxUnique(cs, 0, ArgMax(cs));
  }

  /** Two training bitmaps, a filled 3 x 3 square and a single corner pixel, and a
      query identical to the square: the square wins with score 9 / sqrt(81) = 1, and
      the corner pixel scores 1 / sqrt(9) = 1/3. */
  lemma SquareAndCornerScenario(squareImage: Grid, cornerImage: Grid)
    requires squareImage == [[1, 1, 1], [1, 1, 1], [1, 1, 1]]
    requires cornerImage == [[1, 0, 0], [0, 0, 0], [0, 0, 0]]
    ensures IsBinary(squareImage) && IsBinary(cornerImage)
    ensures var square := Preprocess(squareImage);
      var corner := Preprocess(cornerImage);
      && Confidence(square, corner) == Ok(Finite(1, 9))
      && Classify(square, [square, corner]) == Ok(Match(0, Finite(9, 81)))
  {
    FilledSquareFeature();
    CornerPixelFeature();
    var square := Preprocess(squareImage);
    var corner := Preprocess(cornerImage);
    SquareAndCornerConfidences(square, corner);
    SquareAndCornerScores(square, corner);
    SquareBeatsCorner();
  }

  // ---------------------------------------------------------------------------
  // One run
  // ---------------------------------------------------------------------------

  /** One printed result: `f"{test_label} --> {recognized_label}, confidence: ..."`
      with both labels stripped of trailing newlines. */
  datatype Recognition = Recognition(testLabel: string, predicted: string, trainIndex: nat, confidence: Score)

  /** What a run printed, and how it ended: all test images done, or aborted by an
      exception after the lines printed so far. */
  datatype Run =
    | Completed(printed: seq<Recognition>)
    | Aborted(printed: seq<Recognition>, failure: Failure)

  /** The line printed for one result, given the confidence already rendered with
      `{:.3f}`. */
  function ResultLine(r: Recognition, formattedConfidence: string): (line: string)
    ensures |line| == |r.testLabel| + 5 + |r.predicted| + 14 + |formattedConfidence|
    ensures line[..|r.testLabel| + 5] == r.testLabel + " --> "
    ensures line[|r.testLabel| + 5..] == r.predicted + ", confidence: " + formattedConfidence
    ensures '\n' !in r.testLabel && '\n' !in r.predicted && '\n' !in formattedConfidence ==> '\n' !in line
  {
    var head := r.testLabel + " --> ";
    var line := head + (r.predicted + ", confidence: " + formattedConfidence);
    assert line[..|head|] == head;
    assert line[|head|..] == r.predicted + ", confidence: " + formattedConfidence;
    line
  }

  /** The result for one test image with rawLabel `rawLabel` and a winning match. */
  function RecognitionOf(rawLabel: string, trainLabels: seq<string>, m: Match): Recognition
    requires m.index < |trainLabels|
  {
    Recognition(RStripNewlines(rawLabel), RStripNewlines(trainLabels[m.index]), m.index, m.confidence)
  }

  /** One pass of the recognition loop: classify the test image and name the result,
      or the exception that aborts the run. */
  function Recognize(q: Feature, rawLabel: string, train: seq<Feature>, trainLabels: seq<string>): (r: Result<Recognition>)
    requires IsFeature(q) && AllFeatures(train) && |train| == |trainLabels|
    ensures r.Err? <==> Classify(q, train).Err?
    ensures r.Err? ==> r.failure == Classify(q, train).failure
    ensures r.Ok? ==> r.value == RecognitionOf(rawLabel, trainLabels, Classify(q, train).value)
  {
    match Classify(q, train)
    case Err(f) => Err(f)
    case Ok(m) => Ok(RecognitionOf(rawLabel, trainLabels, m))
  }

  /** Both printed labels are the raw labels with their trailing newlines removed, and
      the predicted label, index and confidence all come from the same winner. */
  lemma RecognitionLabelsClean(rawLabel: string, trainLabels: seq<string>, m: Match)
    requires m.index < |trainLabels|
    ensures var r := RecognitionOf(rawLabel, trainLabels, m);
      && r.trainIndex == m.index && r.confidence == m.confidence
      && rawLabel[..|r.testLabel|] == r.testLabel
      && (forall k :: |r.testLabel| <= k < |rawLabel| ==> rawLabel[k] == '\n')
      && (r.testLabel == [] || r.testLabel[|r.testLabel| - 1] != '\n')
      && trainLabels[m.index][..|r.predicted|] == r.predicted
      && (forall k :: |r.predicted| <= k < |trainLabels[m.index]| ==> trainLabels[m.index][k] == '\n')
      && (r.predicted == [] || r.predicted[|r.predicted| - 1] != '\n')
  {
  }

  /** What a loop that prints the result of every pass and stops at the first
      exception prints, given the outcome of each pass in order. */
  function RunOf(outcomes: seq<Result<Recognition>>): (r: Run)
    ensures r.Completed? ==> |r.printed| == |outcomes|
    ensures r.Aborted? ==> |r.printed| < |outcomes| && outcomes[|r.printed|] == Err(r.failure)
    ensures forall i :: 0 <= i < |r.printed| ==> outcomes[i] == Ok(r.printed[i])
  {
    if outcomes == [] then Completed([])
    else
      var n := |outcomes| - 1;
      var init := outcomes[..n];
      assert forall i :: 0 <= i < n ==> init[i] == outcomes[i];
      match RunOf(init)
      case Aborted(p, f) => Aborted(p, f)
      case Completed(p) =>
        match outcomes[n]
        case Err(f) => Aborted(p, f)
        case Ok(x) => Completed(p + [x])
  }

  /** Once the loop aborts on a prefix of the passes, it aborts there for good. */
  lemma {:induction false} RunOfAbortPropagates(outcomes: seq<Result<Recognition>>, i: nat)
    requires i <= |outcomes| && RunOf(outcomes[..i]).Aborted?
    ensures RunOf(outcomes) == RunOf(outcomes[..i])
    decreases |outcomes|
  {
    if i < |outcomes| {
      var n := |outcomes| - 1;
      assert outcomes[..n][..i] == outcomes[..i];
      RunOfAbortPropagates(outcomes[..n], i);
    } else {
      assert outcomes[..i] == outcomes;
    }
  }

  /** The outcome of every pass of the recognition loop, in test order. */
  function Outcomes(tests: seq<Feature>, testLabels: seq<string>,
                    train: seq<Feature>, trainLabels: seq<string>): (os: seq<Result<Recognition>>)
    requires AllFeatures(tests) && AllFeatures(train)
    requires |tests| == |testLabels| && |train| == |trainLabels|
    ensures |os| == |tests|
    ensures forall i :: 0 <= i < |tests| ==> os[i] == Recognize(tests[i], testLabels[i], train, trainLabels)
  {
    seq(|tests|, i requires 0 <= i < |tests| => Recognize(tests[i], testLabels[i], train, trainLabels))
  }

  lemma AllFeaturesPrefix(fs: seq<Feature>, n: nat)
    requires AllFeatures(fs) && n <= |fs|
    ensures AllFeatures(fs[..n])
  {
    assert forall i :: 0 <= i < n ==> fs[..n][i] == fs[i];
  }

  /** The passes over the first n test images are the first n passes. */
  lemma OutcomesPrefix(tests: seq<Feature>, testLabels: seq<string>,
                       train: seq<Feature>, trainLabels: seq<string>, n: nat)
    requires AllFeatures(tests) && AllFeatures(train)
    requires |tests| == |testLabels| && |train| == |trainLabels| && n <= |tests|
    ensures AllFeatures(tests[..n])
    ensures Outcomes(tests[..n], testLabels[..n], train, trainLabels)
         == Outcomes(tests, testLabels, train, trainLabels)[..n]
  {
    AllFeaturesPrefix(tests, n);
    var os := Outcomes(tests, testLabels, train, trainLabels);
    var ps := Outcomes(tests[..n], testLabels[..n], train, trainLabels);
    forall i | 0 <= i < n
      ensures ps[i] == os[i]
    {
      assert tests[..n][i] == tests[i] && testLabels[..n][i] == testLabels[i];
    }
  }

  /** The recognition loop over the test images, in test order: the printed results
      are those of the leading test images, and an abort comes from the next one. */
  function RecognizeAll(tests: seq<Feature>, testLabels: seq<string>,
                        train: seq<Feature>, trainLabels: seq<string>): (r: Run)
    requires AllFeatures(tests) && AllFeatures(train)
    requires |tests| == |testLabels| && |train| == |trainLabels|
    ensures r.Completed? ==> |r.printed| == |tests|
    ensures r.Aborted? ==>
      && |r.printed| < |tests|
      && Recognize(tests[|r.printed|], testLabels[|r.printed|], train, trainLabels) == Err(r.failure)
    ensures forall i :: 0 <= i < |r.printed| ==>
      Recognize(tests[i], testLabels[i], train, trainLabels) == Ok(r.printed[i])
  {
    RunOf(Outcomes(tests, testLabels, train, trainLabels))
  }

  /** One more pass of the loop, after the first i test images all printed. */
  lemma RecognizeAllStep(tests: seq<Feature>, testLabels: seq<string>,
                         train: seq<Feature>, trainLabels: seq<string>, i: nat, p: seq<Recognition>)
    requires AllFeatures(tests) && AllFeatures(train)
    requires |tests| == |testLabels| && |train| == |trainLabels| && i < |tests|
    requires AllFeatures(tests[..i]) && AllFeatures(tests[..i + 1])
    requires RecognizeAll(tests[..i], testLabels[..i], train, trainLabels) == Completed(p)
    ensures RecognizeAll(tests[..i + 1], testLabels[..i + 1], train, trainLabels)
         == match Recognize(tests[i], testLabels[i], train, trainLabels)
            case Err(f) => Aborted(p, f)
            case Ok(x) => Completed(p + [x])
  {
    OutcomesPrefix(tests, testLabels, train, trainLabels, i);
    OutcomesPrefix(tests, testLabels, train, trainLabels, i + 1);
    var os := Outcomes(tests, testLabels, train, trainLabels);
    assert os[..i + 1][..i] == os[..i];
  }

  /** Once the loop aborts on a prefix of the test images, the run aborts there. */
  lemma RecognizeAllAbortPropagates(tests: seq<Feature>, testLabels: seq<string>,
                                    train: seq<Feature>, trainLabels: seq<string>, i: nat)
    requires AllFeatures(tests) && AllFeatures(train)
    requires |tests| == |testLabels| && |train| == |trainLabels|
    requires i <= |tests| && AllFeatures(tests[..i])
    requires RecognizeAll(tests[..i], testLabels[..i], train, trainLabels).Aborted?
    ensures RecognizeAll(tests, testLabels, train, trainLabels)
         == RecognizeAll(tests[..i], testLabels[..i], train, trainLabels)
  {
    OutcomesPrefix(tests, testLabels, train, trainLabels, i);
    RunOfAbortPropagates(Outcomes(tests, testLabels, train, trainLabels), i);
  }

  /** `load(directory, name)` stands for `load_image(os.path.join(directory, name))`. */
  type Loader = (string, string) -> Grid

  /** The image library always yields 0/1 grids. */
  ghost predicate LoadsBitmaps(load: Loader) {
    forall d: string, n: string :: IsBinary(load(d, n))
  }

  function Labels(es: seq<Entry>): (ls: seq<string>)
    ensures |ls| == |es| && forall i :: 0 <= i < |es| ==> ls[i] == es[i].labelText
  {
    seq(|es|, i requires 0 <= i < |es| => es[i].labelText)
  }

  /** `train_images`: the file name is stripped of surrounding whitespace before the
      path is built. */
  function TrainingImages(dir: string, es: seq<Entry>, load: Loader): (fs: seq<Feature>)
    requires LoadsBitmaps(load)
    ensures |fs| == |es| && AllFeatures(fs)
    ensures forall i :: 0 <= i < |es| ==> fs[i] == Preprocess(load(dir, Strip(es[i].fileName)))
  {
    var fs := seq(|es|, i requires 0 <= i < |es| => Preprocess(load(dir, Strip(es[i].fileName))));
    assert forall i :: 0 <= i < |es| ==> fs[i] == Preprocess(load(dir, Strip(es[i].fileName))) && IsFeature(fs[i]);
    fs
  }

  /** `test_images`: the file name is used exactly as written. */
  function TestImages(dir: string, es: seq<Entry>, load: Loader): (fs: seq<Feature>)
    requires LoadsBitmaps(load)
    ensures |fs| == |es| && AllFeatures(fs)
    ensures forall i :: 0 <= i < |es| ==> fs[i] == Preprocess(load(dir, es[i].fileName))
  {
    var fs := seq(|es|, i requires 0 <= i < |es| => Preprocess(load(dir, es[i].fileName)));
    assert forall i :: 0 <= i < |es| ==> fs[i] == Preprocess(load(dir, es[i].fileName)) && IsFeature(fs[i]);
    fs
  }

  lemma TrainingImagesAppend(dir: string, es: seq<Entry>, e: Entry, load: Loader)
    requires LoadsBitmaps(load)
    ensures TrainingImages(dir, es + [e], load)
         == TrainingImages(dir, es, load) + [Preprocess(load(dir, Strip(e.fileName)))]
    ensures Labels(es + [e]) == Labels(es) + [e.labelText]
  {
    var es' := es + [e];
    assert forall i :: 0 <= i < |es| ==> es'[i] == es[i];
  }

  lemma TestImagesAppend(dir: string, es: seq<Entry>, e: Entry, load: Loader)
    requires LoadsBitmaps(load)
    ensures TestImages(dir, es + [e], load)
         == TestImages(dir, es, load) + [Preprocess(load(dir, e.fileName))]
    ensures Labels(es + [e]) == Labels(es) + [e.labelText]
  {
    var es' := es + [e];
    assert forall i :: 0 <= i < |es| ==> es'[i] == es[i];
  }

  /** Parsing one more line that has a ':' appends its entry. */
  lemma ParseManifestStep(lines: seq<string>, i: nat, es: seq<Entry>)
    requires i < |lines| && ParseManifest(lines[..i]) == Ok(es) && ParseEntry(lines[i]).Ok?
    ensures ParseManifest(lines[..i + 1]) == Ok(es + [ParseEntry(lines[i]).value])
  {
    assert lines[..i + 1][..i] == lines[..i];
  }

  /** The two loaders treat a padded file name differently: the training side looks
      up the stripped name, the test side the name as written. */
  lemma PaddedNameScenario(dir: string, load: Loader)
    requires LoadsBitmaps(load)
    ensures TrainingImages(dir, [Entry(" A.png ", "x")], load) == [Preprocess(load(dir, "A.png"))]
    ensures TestImages(dir, [Entry(" A.png ", "x")], load) == [Preprocess(load(dir, " A.png "))]
  {
    var name := " A.png ";
    assert IsSpace(name[0]) && !IsSpace(name[1]);
    assert LeadingSpaces(name) == 1;
    assert IsSpace(name[1..][5]) && !IsSpace(name[1..][4]);
    assert TrailingSpaces(name[1..]) == 1;
    assert name[1..6] == "A.png";
    assert Strip(name) == "A.png";
  }

  /** A loaded image set: the preprocessed bitmaps and their raw labels, in manifest order. */
  datatype ImageSet = ImageSet(images: seq<Feature>, labels: seq<string>)

  /** Every entry of a parsed manifest is fields 0 and 1 of `split(':')` of its line. */
  lemma ManifestEntriesAreSplits(description: seq<string>, es: seq<Entry>)
    requires ParseManifest(description) == Ok(es)
    ensures forall i :: 0 <= i < |description| ==>
      var fields := Split(description[i], ':');
      |fields| >= 2 && es[i] == Entry(fields[0], fields[1])
  {
    forall i | 0 <= i < |description|
      ensures var fields := Split(description[i], ':');
        |fields| >= 2 && es[i] == Entry(fields[0], fields[1])
    {
      ParseEntryIsSplit(description[i]);
    }
  }

  /** The training set a manifest describes, or the exception that stops loading it:
      image i is the bitmap named by field 0 of line i, stripped, and label i is
      field 1 as written. */
  function TrainingSet(dir: string, description: seq<string>, load: Loader): (r: Result<ImageSet>)
    requires LoadsBitmaps(load)
    ensures r.Err? <==> ParseManifest(description).Err?
    ensures r.Err? ==> r.failure == ParseManifest(description).failure
    ensures r.Ok? ==> |r.value.images| == |r.value.labels| == |description| && AllFeatures(r.value.images)
    ensures r.Ok? ==> forall i :: 0 <= i < |description| ==>
      var fields := Split(description[i], ':');
      && |fields| >= 2
      && r.value.images[i] == Preprocess(load(dir, Strip(fields[0])))
      && r.value.labels[i] == fields[1]
  {
    match ParseManifest(description)
    case Err(f) => Err(f)
    case Ok(es) =>
      ManifestEntriesAreSplits(description, es);
      Ok(ImageSet(TrainingImages(dir, es, load), Labels(es)))
  }

  /** The test set a manifest describes, or the exception that stops loading it:
      image i is the bitmap named by field 0 of line i exactly as written, and
      label i is field 1 as written. */
  function TestSet(dir: string, description: seq<string>, load: Loader): (r: Result<ImageSet>)
    requires LoadsBitmaps(load)
    ensures r.Err? <==> ParseManifest(description).Err?
    ensures r.Err? ==> r.failure == ParseManifest(description).failure
    ensures r.Ok? ==> |r.value.images| == |r.value.labels| == |description| && AllFeatures(r.value.images)
    ensures r.Ok? ==> forall i :: 0 <= i < |description| ==>
      var fields := Split(description[i], ':');
      && |fields| >= 2
      && r.value.images[i] == Preprocess(load(dir, fields[0]))
      && r.value.labels[i] == fields[1]
  {
    match ParseManifest(description)
    case Err(f) => Err(f)
    case Ok(es) =>
      ManifestEntriesAreSplits(description, es);
      Ok(ImageSet(TestImages(dir, es, load), Labels(es)))
  }

  /** The whole run of `madaline_ocr(train_directory, test_directory)`, given the
      text of the two `description.txt` files. */
  function Madaline(trainDir: string, testDir: string, trainText: string, testText: string,
                    load: Loader): (r: Run)
    requires LoadsBitmaps(load)
    ensures ParseManifest(Lines(trainText)).Err? ==> r == Aborted([], ParseManifest(Lines(trainText)).failure)
    ensures ParseManifest(Lines(trainText)).Ok? && ParseManifest(Lines(testText)).Err? ==>
      r == Aborted([], ParseManifest(Lines(testText)).failure)
    ensures |r.printed| <= |Lines(testText)|
    ensures ParseManifest(Lines(trainText)).Ok? && ParseManifest(Lines(testText)).Ok? ==>
      var train := TrainingSet(trainDir, Lines(trainText), load).value;
      var tests := Lines(testText);
      && (r.Completed? ==> |r.printed| == |tests|)
      && (forall i :: 0 <= i < |r.printed| ==>
            var fields := Split(tests[i], ':');
            && |fields| >= 2
            && Recognize(Preprocess(load(testDir, fields[0])), fields[1], train.images, train.labels) == Ok(r.printed[i]))
      && (r.Aborted? ==>
            && |r.printed| < |tests|
            && var fields := Split(tests[|r.printed|], ':');
            && |fields| >= 2
            && Recognize(Preprocess(load(testDir, fields[0])), fields[1], train.images, train.labels) == Err(r.failure))
  {
    match TrainingSet(trainDir, Lines(trainText), load)
    case Err(f) => Aborted([], f)
    case Ok(train) =>
      match TestSet(testDir, Lines(testText), load)
      case Err(f) => Aborted([], f)
      case Ok(test) => RecognizeAll(test.images, test.labels, train.images, train.labels)
  }

  /** A training manifest line without ':' aborts the run before anything is printed,
      naming the first such line. */
  lemma MadalineMalformedTraining(trainDir: string, testDir: string, trainText: string, testText: string,
                                  load: Loader, i: nat)
    requires LoadsBitmaps(load)
    requires i < |Lines(trainText)| && ':' !in Lines(trainText)[i]
    requires forall j :: 0 <= j < i ==> ':' in Lines(trainText)[j]
    ensures Madaline(trainDir, testDir, trainText, testText, load)
         == Aborted([], MalformedEntry(Lines(trainText)[i]))
  {
    ParseManifestFirstFailure(Lines(trainText), i);
  }

  /** An empty training manifest with at least one test line aborts on the first test
      image, when `np.argmax` is given no confidences, before anything is printed. */
  lemma MadalineWithoutTraining(trainDir: string, testDir: string, testText: string, load: Loader)
    requires LoadsBitmaps(load)
    requires ParseManifest(Lines(testText)).Ok? && |Lines(testText)| > 0
    ensures Madaline(trainDir, testDir, "", testText, load) == Aborted([], EmptyTrainingSet)
  {
    assert Lines("") == [];
    var train := TrainingSet(trainDir, [], load).value;
    var test := TestSet(testDir, Lines(testText), load).value;
    assert train.images == [];
    assert Recognize(test.images[0], test.labels[0], train.images, train.labels) == Err(EmptyTrainingSet);
  }

  /** With a non-empty training set and every bitmap of one size the loop never aborts. */
  lemma RecognizeAllCompletes(tests: seq<Feature>, testLabels: seq<string>,
                              train: seq<Feature>, trainLabels: seq<string>, n: nat)
    requires AllFeatures(tests) && AllFeatures(train)
    requires |tests| == |testLabels| && |train| == |trainLabels| && |train| > 0
    requires forall k :: 0 <= k < |tests| ==> |tests[k].cells| == n
    requires forall k :: 0 <= k < |train| ==> |train[k].cells| == n
    ensures RecognizeAll(tests, testLabels, train, trainLabels).Completed?
    ensures |RecognizeAll(tests, testLabels, train, trainLabels).printed| == |tests|
  {
    forall k | 0 <= k < |tests|
      ensures Recognize(tests[k], testLabels[k], train, trainLabels).Ok?
    {
      assert ScoresAgainst(tests[k], train).Ok?;
    }
  }

  /** When both manifests parse, the training manifest is not empty and every bitmap the
      loader yields has the same number of cells, the run completes and prints one
      result per test line. */
  lemma MadalineCompletes(trainDir: string, testDir: string, trainText: string, testText: string,
                          load: Loader, n: nat)
    requires LoadsBitmaps(load)
    requires ParseManifest(Lines(trainText)).Ok? && ParseManifest(Lines(testText)).Ok?
    requires |Lines(trainText)| > 0
    requires forall d: string, f: string :: |Flatten(load(d, f))| == n
    ensures Madaline(trainDir, testDir, trainText, testText, load).Completed?
    ensures |Madaline(trainDir, testDir, trainText, testText, load).printed| == |Lines(testText)|
  {
    var trainEntries := ParseManifest(Lines(trainText)).value;
    var testEntries := ParseManifest(Lines(testText)).value;
    LoadedImagesOfSize(trainDir, trainEntries, load, n);
    LoadedImagesOfSize(testDir, testEntries, load, n);
    var train := TrainingSet(trainDir, Lines(trainText), load).value;
    var test := TestSet(testDir, Lines(testText), load).value;
    RecognizeAllCompletes(test.images, test.labels, train.images, train.labels, n);
  }

  /** A loader whose bitmaps all have n cells gives features of n cells. */
  lemma LoadedImagesOfSize(dir: string, es: seq<Entry>, load: Loader, n: nat)
    requires LoadsBitmaps(load)
    requires forall d: string, f: string :: |Flatten(load(d, f))| == n
    ensures forall k :: 0 <= k < |es| ==> |TrainingImages(dir, es, load)[k].cells| == n
    ensures forall k :: 0 <= k < |es| ==> |TestImages(dir, es, load)[k].cells| == n
  {
    var train, test := TrainingImages(dir, es, load), TestImages(dir, es, load);
    forall k | 0 <= k < |es|
      ensures |train[k].cells| == n && |test[k].cells| == n
    {
      assert train[k] == Preprocess(load(dir, Strip(es[k].fileName)));
      assert test[k] == Preprocess(load(dir, es[k].fileName));
    }
  }

  /** The loop that fills `train_images` and `train_labels`. */
  method LoadTrainingSet(dir: string, description: seq<string>, load: Loader) returns (r: Result<ImageSet>)
    requires LoadsBitmaps(load)
    ensures r == TrainingSet(dir, description, load)
  {
    var trainImages: seq<Feature> := [];
    var trainLabels: seq<string> := [];
    ghost var entries: seq<Entry> := [];
    for i := 0 to |description|
      invariant ParseManifest(description[..i]) == Ok(entries)
      invariant trainImages == TrainingImages(dir, entries, load)
      invariant trainLabels == Labels(entries)
    {
      var entry := ParseEntry(description[i]);
      if entry.Err? {
        assert description[..i + 1][..i] == description[..i];
        ParseManifestAbortPropagates(description, i + 1);
        return Err(entry.failure);
      }
      ParseManifestStep(description, i, entries);
      TrainingImagesAppend(dir, entries, entry.value, load);
      var image := load(dir, Strip(entry.value.fileName));
      trainImages := trainImages + [Preprocess(image)];
      trainLabels := trainLabels + [entry.value.labelText];
      entries := entries + [entry.value];
    }
    assert description[..|description|] == description;
    return Ok(ImageSet(trainImages, trainLabels));
  }

  /** The loop that fills `test_images` and `test_labels`. */
  method LoadTestSet(dir: string, description: seq<string>, load: Loader) returns (r: Result<ImageSet>)
    requires LoadsBitmaps(load)
    ensures r == TestSet(dir, description, load)
  {
    var testImages: seq<Feature> := [];
    var testLabels: seq<string> := [];
    ghost var entries: seq<Entry> := [];
    for i := 0 to |description|
      invariant ParseManifest(description[..i]) == Ok(entries)
      invariant testImages == TestImages(dir, entries, load)
      invariant testLabels == Labels(entries)
    {
      var entry := ParseEntry(description[i]);
      if entry.Err? {
        assert description[..i + 1][..i] == description[..i];
        ParseManifestAbortPropagates(description, i + 1);
        return Err(entry.failure);
      }
      ParseManifestStep(description, i, entries);
      TestImagesAppend(dir, entries, entry.value, load);
      var image := load(dir, entry.value.fileName);
      testImages := testImages + [Preprocess(image)];
      testLabels := testLabels + [entry.value.labelText];
      entries := entries + [entry.value];
    }
    assert description[..|description|] == description;
    return Ok(ImageSet(testImages, testLabels));
  }

  /** The `for i` loop over the test images: score, pick the winner, print. */
  method RecognizeTests(testImages: seq<Feature>, testLabels: seq<string>,
                        trainImages: seq<Feature>, trainLabels: seq<string>) returns (run: Run)
    requires AllFeatures(testImages) && AllFeatures(trainImages)
    requires |testImages| == |testLabels| && |trainImages| == |trainLabels|
    ensures run == RecognizeAll(testImages, testLabels, trainImages, trainLabels)
  {
    var printed: seq<Recognition> := [];
    for i := 0 to |testImages|
      invariant AllFeatures(testImages[..i])
      invariant RecognizeAll(testImages[..i], testLabels[..i], trainImages, trainLabels) == Completed(printed)
    {
      AllFeaturesPrefix(testImages, i + 1);
      RecognizeAllStep(testImages, testLabels, trainImages, trainLabels, i, printed);
      var confidences := ComputeConfidences(testImages[i], trainImages);
      if confidences.Err? {
        RecognizeAllAbortPropagates(testImages, testLabels, trainImages, trainLabels, i + 1);
        return Aborted(printed, confidences.failure);
      }
      if confidences.value == [] {
        RecognizeAllAbortPropagates(testImages, testLabels, trainImages, trainLabels, i + 1);
        return Aborted(printed, EmptyTrainingSet);
      }
      var maxIndex := ArgMax(confidences.value);
      var recognizedLabel := RStripNewlines(trainLabels[maxIndex]);
      var confidence := confidences.value[maxIndex];
      var testLabel := RStripNewlines(testLabels[i]);
      printed := printed + [Recognition(testLabel, recognizedLabel, maxIndex, confidence)];
    }
    assert testImages[..|testImages|] == testImages;
    assert testLabels[..|testLabels|] == testLabels;
    return Completed(printed);
  }

  /** `madaline_ocr`: read both manifests, load and preprocess the training images,
      then the test images, then print one result per test image. */
  method MadalineOcrRun(trainDir: string, testDir: string, trainText: string, testText: string,
                        load: Loader) returns (run: Run)
    requires LoadsBitmaps(load)
    ensures run == Madaline(trainDir, testDir, trainText, testText, load)
  {
    var trainDescription := LoadDescription(trainText);
    var testDescription := LoadDescription(testText);
    var train := LoadTrainingSet(trainDir, trainDescription, load);
    if train.Err? {
      return Aborted([], train.failure);
    }
    var test := LoadTestSet(testDir, testDescription, load);
    if test.Err? {
      return Aborted([], test.failure);
    }
    run := RecognizeTests(test.value.images, test.value.labels, train.value.images, train.value.labels);
  }
}
