/** Exact confidence values. A confidence of the classifier is a number of the form
    num / sqrt(rad) with integers num and rad > 0, or NaN (what numpy yields for 0/0).
    Dafny has no square root, so a score keeps num and rad; scores are ordered through
    the key num * |num| / rad, which grows with the value, and statements about the
    real value take the square root as an argument together with its defining property
    `IsRoot`. This module also models `np.argmax` over a list of such scores. */
module Scores {

  type Positive = n: int | n > 0 witness 1

  /** `Finite(num, rad)` is exactly num / sqrt(rad). */
  datatype Score = Finite(num: int, rad: Positive) | NaN

  /** `s` is the non-negative square root of `x`. */
  predicate IsRoot(s: real, x: real) {
    s >= 0.0 && s * s == x
  }

  function Abs(x: real): real {
    if x < 0.0 then -x else x
  }

  /** A non-negative number has at most one non-negative square root. */
  lemma RootUnique(a: real, b: real, x: real)
    requires IsRoot(a, x) && IsRoot(b, x)
    ensures a == b
  {
    assert (a - b) * (a + b) == a * a - b * b == 0.0;
    if a + b == 0.0 {
      assert a == 0.0 && b == 0.0;
    } else {
      assert a + b > 0.0;
      assert a - b == ((a - b) * (a + b)) / (a + b);
    }
  }

  /** The square root of a product is the product of the square roots. */
  lemma RootProduct(a: real, x: real, b: real, y: real)
    requires IsRoot(a, x) && IsRoot(b, y)
    ensures IsRoot(a * b, x * y)
  {
    assert (a * b) * (a * b) == (a * a) * (b * b);
  }

  /** The real number a finite score stands for, given the square root of its radicand. */
  function Value(s: Score, root: real): real
    requires s.Finite? && IsRoot(root, s.rad as real)
  {
    assert root != 0.0;
    s.num as real / root
  }

  /** v * |v| for v = num / sqrt(rad), computed without the square root. */
  function Key(s: Score): real
    requires s.Finite?
  {
    (s.num * (if s.num < 0 then -s.num else s.num)) as real / s.rad as real
  }

  lemma KeyIsSignedSquare(s: Score, root: real)
    requires s.Finite? && IsRoot(root, s.rad as real)
    ensures Key(s) == Value(s, root) * Abs(Value(s, root))
  {
    var n := s.num as real;
    var v := Value(s, root);
    assert root > 0.0;
    assert v * root == n;
    assert Abs(v) * root == Abs(n);
    calc {
      v * Abs(v) * s.rad as real;
      v * Abs(v) * (root * root);
      (v * root) * (Abs(v) * root);
      n * Abs(n);
      (s.num * (if s.num < 0 then -s.num else s.num)) as real;
    }
  }

  /** Squaring is strictly increasing on the non-negative numbers. */
  lemma SquareMonotone(a: real, b: real)
    requires 0.0 <= a && 0.0 <= b
    ensures a <= b <==> a * a <= b * b
  {
    if a <= b {
      assert a * a <= a * b <= b * b;
    } else {
      var d := a - b;
      assert a * a == b * b + d * (a + b);
      assert d * (a + b) > 0.0;
    }
  }

  /** x |-> x * |x| is strictly increasing. */
  lemma SignedSquareMonotone(x: real, y: real)
    ensures x <= y <==> x * Abs(x) <= y * Abs(y)
  {
    if 0.0 <= x && 0.0 <= y {
      SquareMonotone(x, y);
    } else if x < 0.0 && y < 0.0 {
      SquareMonotone(-y, -x);
      assert x * Abs(x) == -((-x) * (-x));
      assert y * Abs(y) == -((-y) * (-y));
    } else if x < 0.0 {
      assert x * Abs(x) < 0.0 <= y * Abs(y);
    } else {
      assert y * Abs(y) < 0.0 <= x * Abs(x);
    }
  }

  /** numpy's `a <= b` on two confidences: always false when either is NaN. */
  predicate Le(a: Score, b: Score) {
    a.Finite? && b.Finite? && Key(a) <= Key(b)
  }

  /** `Le` compares the real values the scores stand for. */
  lemma LeMeaning(a: Score, b: Score, ra: real, rb: real)
    requires a.Finite? && IsRoot(ra, a.rad as real)
    requires b.Finite? && IsRoot(rb, b.rad as real)
    ensures Le(a, b) <==> Value(a, ra) <= Value(b, rb)
  {
    KeyIsSignedSquare(a, ra);
    KeyIsSignedSquare(b, rb);
    SignedSquareMonotone(Value(a, ra), Value(b, rb));
  }

  /** A score whose key is 1 stands for exactly 1. */
  lemma KeyOneIsOne(s: Score, root: real)
    requires s.Finite? && IsRoot(root, s.rad as real)
    requires Key(s) == 1.0
    ensures Value(s, root) == 1.0
  {
    var v := Value(s, root);
    KeyIsSignedSquare(s, root);
    SignedSquareMonotone(v, 1.0);
    SignedSquareMonotone(1.0, v);
  }

  /** A score whose key lies in [0, 1] stands for a number in [0, 1]. */
  lemma KeyInUnitRange(s: Score, root: real)
    requires s.Finite? && IsRoot(root, s.rad as real)
    requires 0.0 <= Key(s) <= 1.0
    ensures 0.0 <= Value(s, root) <= 1.0
  {
    var v := Value(s, root);
    KeyIsSignedSquare(s, root);
    SignedSquareMonotone(v, 1.0);
    SignedSquareMonotone(0.0, v);
  }

  /** A score whose numerator is non-negative with num^2 <= rad has a key in [0, 1],
      and the key is 1 exactly when num^2 == rad. */
  lemma KeyOfBoundedScore(s: Score)
    requires s.Finite? && 0 <= s.num && s.num * s.num <= s.rad
    ensures 0.0 <= Key(s) <= 1.0
    ensures Key(s) == 1.0 <==> s.num * s.num == s.rad
  {
    var n := (s.num * s.num) as real;
    var r := s.rad as real;
    assert Key(s) == n / r;
    assert r > 0.0 && 0.0 <= n <= r;
    var k := n / r;
    assert k * r == n;
    assert (k - 1.0) * r == n - r;
  }

  predicate HasNaN(s: seq<Score>) {
    exists j :: 0 <= j < |s| && s[j].NaN?
  }

  /** What `np.argmax(s)` returns: the first NaN if there is one (NaN propagates as
      the maximum), otherwise the first position of the largest score. */
  predicate IsArgMax(s: seq<Score>, i: nat) {
    && i < |s|
    && (if HasNaN(s) then
          s[i].NaN? && forall j :: 0 <= j < i ==> s[j].Finite?
        else
          && (forall j :: 0 <= j < |s| ==> Le(s[j], s[i]))
          && (forall j :: 0 <= j < i ==> !Le(s[i], s[j])))
  }

  /** `np.argmax(s)`: one scan from the left that moves to a later element when the
      current best is not `>=` it, and stops moving once it holds a NaN.
      Undefined on an empty list, where numpy raises ValueError. */
  function ArgMax(s: seq<Score>): (i: nat)
    requires |s| > 0
    ensures IsArgMax(s, i)
  {
    if |s| == 1 then 0
    else
      var p := s[..|s| - 1];
      var i := ArgMax(p);
      assert forall j :: 0 <= j < |p| ==> p[j] == s[j];
      if s[i].NaN? then i
      else if !Le(s[|s| - 1], s[i]) then |s| - 1
      else i
  }

  /** The argmax contract determines the position: ties go to the earliest. */
  lemma ArgMaxUnique(s: seq<Score>, i: nat, j: nat)
    requires IsArgMax(s, i) && IsArgMax(s, j)
    ensures i == j
  {
    if HasNaN(s) {
      assert s[i].NaN? && s[j].NaN?;
    } else {
      assert Le(s[j], s[i]) && Le(s[i], s[j]);
    }
  }
}
