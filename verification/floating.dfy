/** The floating-point layer, as algebra over the reals.

    Components are `real`s: the rounding of IEEE-754 arithmetic is not
    modelled. The square root the source takes from `libm` is a parameter
    `sqrt`; `normalized` needs only that it is positive on positive inputs,
    and the unit-length property needs that it is a true square root.
 */
module Floating {
  import opened FixedVector

  /** The expanded sum `v[0] + v[1] + ... + v[N-1]`, added left to right. */
  function Sum(v: seq<real>): real {
    if |v| == 0 then 0.0 else Sum(v[..|v| - 1]) + v[|v| - 1]
  }

  function Mul(p: real, q: real): real {
    p * q
  }

  function Square(p: real): real {
    p * p
  }

  predicate IsZero(v: seq<real>) {
    forall i :: 0 <= i < |v| ==> v[i] == 0.0
  }

  /** `zero()`: every component set to zero, the arity kept. */
  function Zero(v: seq<real>): (r: seq<real>)
    ensures |r| == |v|
    ensures IsZero(r)
  {
    Repeat(|v|, 0.0)
  }

  // ---------------------------------------------------------------------------
  // Sums

  /** A sum of non-negative terms is non-negative, and it is zero exactly when
      every term is zero. */
  lemma {:induction false} SumNonNegative(s: seq<real>)
    requires forall i :: 0 <= i < |s| ==> s[i] >= 0.0
    ensures Sum(s) >= 0.0
    ensures Sum(s) == 0.0 <==> IsZero(s)
  {
    if |s| > 0 {
      var init := s[..|s| - 1];
      SumNonNegative(init);
      if Sum(s) == 0.0 {
        assert Sum(init) == 0.0 && s[|s| - 1] == 0.0;
        assert forall i :: 0 <= i < |s| - 1 ==> s[i] == init[i];
      }
    }
  }

  /** Dividing every term by `k` divides the sum by `k`. */
  lemma {:induction false} SumDivided(s: seq<real>, t: seq<real>, k: real)
    requires k != 0.0
    requires |s| == |t|
    requires forall i :: 0 <= i < |s| ==> t[i] == s[i] / k
    ensures Sum(t) == Sum(s) / k
  {
    if |s| > 0 {
      SumDivided(s[..|s| - 1], t[..|t| - 1], k);
    }
  }

  /** Sums of pointwise-equal sequences are equal. */
  lemma {:induction false} SumPointwise(s: seq<real>, t: seq<real>)
    requires |s| == |t|
    requires forall i :: 0 <= i < |s| ==> s[i] == t[i]
    ensures Sum(s) == Sum(t)
  {
    if |s| > 0 {
      SumPointwise(s[..|s| - 1], t[..|t| - 1]);
    }
  }

  // ---------------------------------------------------------------------------
  // dot, length_squared, length

  /** `dot`: the sum of the products of corresponding components. It is zero
      when either side is the zero vector, and a vector's dot product with
      itself is non-negative and zero only at the zero vector. */
  function Dot(a: seq<real>, b: seq<real>): (r: real)
    requires |a| == |b|
    ensures IsZero(a) || IsZero(b) ==> r == 0.0
    ensures a == b ==> r >= 0.0 && (r == 0.0 <==> IsZero(a))
  {
    var products := ZipWith(a, b, Mul);
    if IsZero(a) || IsZero(b) then
      ProductTerms(a, b);
      SumNonNegative(products);
      Sum(products)
    else if a == b then
      SelfProductTerms(a);
      SumNonNegative(products);
      Sum(products)
    else
      Sum(products)
  }

  /** A termwise product is zero where either factor is zero. */
  lemma ProductTerms(a: seq<real>, b: seq<real>)
    requires |a| == |b|
    ensures forall i :: 0 <= i < |a| && (a[i] == 0.0 || b[i] == 0.0) ==> ZipWith(a, b, Mul)[i] == 0.0
  {
    var products := ZipWith(a, b, Mul);
    forall i | 0 <= i < |a| && (a[i] == 0.0 || b[i] == 0.0)
      ensures products[i] == 0.0
    {
      ProductSign(a[i], b[i], products[i]);
    }
  }

  /** The termwise products of a vector with itself are squares: non-negative,
      and zero only at a zero component. */
  lemma SelfProductTerms(a: seq<real>)
    ensures forall i :: 0 <= i < |a| ==> ZipWith(a, a, Mul)[i] >= 0.0
    ensures forall i :: 0 <= i < |a| ==> (ZipWith(a, a, Mul)[i] == 0.0 <==> a[i] == 0.0)
  {
    var products := ZipWith(a, a, Mul);
    forall i | 0 <= i < |a|
      ensures products[i] >= 0.0 && (products[i] == 0.0 <==> a[i] == 0.0)
    {
      assert products[i] == Square(a[i]);
      SquareSign(a[i]);
    }
  }

  /** The dot product is commutative. */
  lemma DotCommutes(a: seq<real>, b: seq<real>)
    requires |a| == |b|
    ensures Dot(a, b) == Dot(b, a)
  {
    SumPointwise(ZipWith(a, b, Mul), ZipWith(b, a, Mul));
  }

  /** `length_squared`: the components are squared (`Self { f: f * f, .. }`)
      and the squares summed. The result is never negative and is zero exactly
      at the zero vector. */
  function LengthSquared(v: seq<real>): (r: real)
    ensures r >= 0.0
    ensures r == 0.0 <==> IsZero(v)
  {
    var squares := Map(v, Square);
    forall i | 0 <= i < |v|
      ensures squares[i] >= 0.0 && (squares[i] == 0.0 <==> v[i] == 0.0)
    {
      SquareSign(v[i]);
    }
    SumNonNegative(squares);
    Sum(squares)
  }

  /** The sign of a product `s == a * b`. The product is named by a
      parameter of its own so that the solver reasons about it linearly. */
  lemma ProductSign(a: real, b: real, s: real)
    requires s == a * b
    ensures a > 0.0 && b > 0.0 ==> s > 0.0
    ensures a < 0.0 && b < 0.0 ==> s > 0.0
    ensures a == 0.0 || b == 0.0 ==> s == 0.0
  {
    if a < 0.0 && b < 0.0 {
      assert s == (-a) * (-b);
    }
  }

  lemma SquareSign(x: real)
    ensures Square(x) >= 0.0
    ensures Square(x) == 0.0 <==> x == 0.0
  {
    ProductSign(x, x, Square(x));
  }

  /** The squared length is the dot product of a vector with itself. */
  lemma LengthSquaredIsSelfDot(v: seq<real>)
    ensures LengthSquared(v) == Dot(v, v)
  {
    SumPointwise(Map(v, Square), ZipWith(v, v, Mul));
  }

  /** The square root taken from the host is positive on positive inputs. */
  ghost predicate PositiveRoot(sqrt: real -> real) {
    forall x :: x > 0.0 ==> sqrt(x) > 0.0
  }

  /** The square root taken from the host is exact on non-negative inputs. */
  ghost predicate IsRoot(sqrt: real -> real) {
    forall x :: x >= 0.0 ==> sqrt(x) >= 0.0 && sqrt(x) * sqrt(x) == x
  }

  lemma RootIsPositive(sqrt: real -> real)
    requires IsRoot(sqrt)
    ensures PositiveRoot(sqrt)
  {
    forall x | x > 0.0
      ensures sqrt(x) > 0.0
    {
      ProductSign(sqrt(x), sqrt(x), x);
    }
  }

  /** `length`: the square root of `length_squared`. */
  function Length(v: seq<real>, sqrt: real -> real): (r: real)
    ensures IsRoot(sqrt) ==> r >= 0.0 && r * r == LengthSquared(v)
  {
    sqrt(LengthSquared(v))
  }

  /** `sqrt()`: the square root of every component. */
  function SqrtEach(v: seq<real>, sqrt: real -> real): (r: seq<real>)
    ensures |r| == |v|
    ensures IsRoot(sqrt) ==> forall i :: 0 <= i < |v| && v[i] >= 0.0 ==> r[i] >= 0.0 && r[i] * r[i] == v[i]
  {
    Map(v, sqrt)
  }

  // ---------------------------------------------------------------------------
  // normalized, normalize, direction

  /** Every component divided by the same nonzero value `c`. */
  function DivideEach(v: seq<real>, c: real): (r: seq<real>)
    requires c != 0.0
    ensures |r| == |v|
    ensures forall i :: 0 <= i < |v| ==> r[i] * c == v[i]
    ensures IsZero(r) <==> IsZero(v)
  {
    var r := Map(v, x => x / c);
    forall i | 0 <= i < |v|
      ensures r[i] * c == v[i] && (r[i] == 0.0 <==> v[i] == 0.0)
    {
      DivTimes(v[i], c);
    }
    r
  }

  lemma DivTimes(x: real, c: real)
    requires c != 0.0
    ensures (x / c) * c == x
    ensures x / c == 0.0 <==> x == 0.0
  {
  }

  /** `normalized`: exactly at the zero vector (`length_squared() == 0`, no
      tolerance) the result is the zero vector; otherwise every component is
      divided by the same value, the square root of `length_squared`. */
  function Normalized(v: seq<real>, sqrt: real -> real): (r: seq<real>)
    requires PositiveRoot(sqrt)
    ensures |r| == |v|
    ensures IsZero(v) ==> r == Repeat(|v|, 0.0)
    ensures IsZero(r) <==> IsZero(v)
  {
    var lengthSquared := LengthSquared(v);
    if lengthSquared == 0.0 then Repeat(|v|, 0.0)
    else
      DivideEach(v, sqrt(lengthSquared))
  }

  /** Away from zero, every component of `normalized` is the input component
      divided by the same positive value, `sqrt(length_squared)`. */
  lemma NormalizedScales(v: seq<real>, sqrt: real -> real)
    requires PositiveRoot(sqrt)
    ensures !IsZero(v) ==> sqrt(LengthSquared(v)) > 0.0
    ensures !IsZero(v) ==> Normalized(v, sqrt) == DivideEach(v, sqrt(LengthSquared(v)))
  {
  }

  /** `normalize()`: the in-place variant, written out separately in the
      source with the same two branches. It leaves `self` equal to
      `old(self).normalized()`. */
  method Normalize(v: seq<real>, sqrt: real -> real) returns (r: seq<real>)
    requires PositiveRoot(sqrt)
    ensures r == Normalized(v, sqrt)
  {
    var lengthSquared := LengthSquared(v);
    if lengthSquared == 0.0 {
      r := Repeat(|v|, 0.0);
      return;
    }
    var length := sqrt(lengthSquared);
    r := DivideEach(v, length);
  }

  /** Squaring commutes with division: if `q * c == x` then `q * q` is
      `x * x` divided by `c * c`. */
  lemma QuotientSquare(x: real, c: real, q: real, sx: real, sq: real, k: real)
    requires c > 0.0 && q * c == x
    requires sq == q * q && sx == x * x && k == c * c
    ensures k > 0.0 && sq == sx / k
  {
    ProductSign(c, c, k);
    assert sx == (q * c) * (q * c);
    assert sx == (q * q) * (c * c);
  }

  /** Dividing every component by `c` divides every square by `k == c * c`. */
  lemma SquaresDivided(v: seq<real>, r: seq<real>, c: real, k: real)
    requires c > 0.0 && k > 0.0 && k == c * c
    requires |r| == |v|
    requires forall i :: 0 <= i < |v| ==> r[i] * c == v[i]
    ensures forall i :: 0 <= i < |v| ==> Square(r[i]) == Square(v[i]) / k
  {
    forall i | 0 <= i < |v|
      ensures Square(r[i]) == Square(v[i]) / k
    {
      QuotientSquare(v[i], c, r[i], Square(v[i]), Square(r[i]), k);
    }
  }

  /** Dividing every component by `c` divides the squared length by `c * c`. */
  lemma DividedLengthSquared(v: seq<real>, r: seq<real>, c: real, k: real)
    requires c > 0.0 && k > 0.0 && k == c * c
    requires |r| == |v|
    requires forall i :: 0 <= i < |v| ==> r[i] * c == v[i]
    ensures LengthSquared(r) == LengthSquared(v) / k
  {
    SquaresDivided(v, r, c, k);
    SumDivided(Map(v, Square), Map(r, Square), k);
  }

  /** Normalizing divides the squared length by itself. */
  lemma NormalizedLengthSquared(v: seq<real>, sqrt: real -> real)
    requires IsRoot(sqrt)
    requires !IsZero(v)
    ensures PositiveRoot(sqrt)
    ensures LengthSquared(Normalized(v, sqrt)) == LengthSquared(v) / LengthSquared(v)
  {
    RootIsPositive(sqrt);
    RootOf(sqrt, LengthSquared(v));
    NormalizedScales(v, sqrt);
    DivideByRoot(v, sqrt(LengthSquared(v)));
  }

  /** Dividing every component by a root `c` of the squared length divides
      the squared length by itself. */
  lemma DivideByRoot(v: seq<real>, c: real)
    requires c > 0.0 && c * c == LengthSquared(v)
    ensures LengthSquared(v) > 0.0
    ensures LengthSquared(DivideEach(v, c)) == LengthSquared(v) / LengthSquared(v)
  {
    ProductSign(c, c, LengthSquared(v));
    DividedLengthSquared(v, DivideEach(v, c), c, LengthSquared(v));
  }

  /** An exact square root of a positive value is positive and squares back. */
  lemma RootOf(sqrt: real -> real, x: real)
    requires IsRoot(sqrt)
    requires x > 0.0
    ensures sqrt(x) > 0.0 && sqrt(x) * sqrt(x) == x
  {
    RootIsPositive(sqrt);
  }

  /** With an exact square root, a nonzero vector normalizes to unit length. */
  lemma NormalizedIsUnit(v: seq<real>, sqrt: real -> real)
    requires IsRoot(sqrt)
    requires !IsZero(v)
    ensures PositiveRoot(sqrt)
    ensures LengthSquared(Normalized(v, sqrt)) == 1.0
  {
    NormalizedLengthSquared(v, sqrt);
    DivSelf(LengthSquared(v));
  }

  lemma DivSelf(x: real)
    requires x != 0.0
    ensures x / x == 1.0
  {
  }

  /** Element-wise `-` at real components. */
  function Sub(a: seq<real>, b: seq<real>): (r: seq<real>)
    requires |a| == |b|
    ensures |r| == |a|
    ensures forall i :: 0 <= i < |a| ==> r[i] + b[i] == a[i]
  {
    ZipWith(a, b, (p: real, q: real) => p - q)
  }

  /** `direction(to)`: the default method `(to - self).normalized()`. */
  function Direction(from: seq<real>, to: seq<real>, sqrt: real -> real): (r: seq<real>)
    requires |from| == |to|
    requires PositiveRoot(sqrt)
    ensures |r| == |from|
    ensures IsZero(r) <==> from == to
  {
    var d := Sub(to, from);
    assert IsZero(d) <==> from == to by {
      if IsZero(d) {
        assert forall i :: 0 <= i < |from| ==> from[i] == to[i];
      }
    }
    Normalized(d, sqrt)
  }

  /** With an exact square root, the direction between two distinct points
      has unit length. */
  lemma DirectionIsUnit(from: seq<real>, to: seq<real>, sqrt: real -> real)
    requires |from| == |to|
    requires IsRoot(sqrt)
    requires from != to
    ensures PositiveRoot(sqrt)
    ensures LengthSquared(Direction(from, to, sqrt)) == 1.0
  {
    RootIsPositive(sqrt);
    NormalizedIsUnit(Sub(to, from), sqrt);
  }

  // ---------------------------------------------------------------------------
  // lerp

  /** `lerp(to, weight)`: component i is `a[i] + weight * (b[i] - a[i])`; the
      weight is not clamped. */
  function Lerp(a: seq<real>, b: seq<real>, weight: real): (r: seq<real>)
    requires |a| == |b|
    ensures |r| == |a|
    ensures forall i :: 0 <= i < |a| ==> r[i] == a[i] + weight * (b[i] - a[i])
  {
    ZipWith(a, b, (p: real, q: real) => p + weight * (q - p))
  }

  /** Over the reals, weight 0 gives the start and weight 1 the end. */
  lemma LerpEnds(a: seq<real>, b: seq<real>)
    requires |a| == |b|
    ensures Lerp(a, b, 0.0) == a
    ensures Lerp(a, b, 1.0) == b
  {
  }

  /** A weight in [0, 1] keeps every component between its two end values. */
  lemma LerpBetween(a: seq<real>, b: seq<real>, weight: real)
    requires |a| == |b|
    requires 0.0 <= weight <= 1.0
    ensures forall i :: 0 <= i < |a| ==>
              (a[i] <= Lerp(a, b, weight)[i] <= b[i]) || (b[i] <= Lerp(a, b, weight)[i] <= a[i])
  {
    var r := Lerp(a, b, weight);
    forall i | 0 <= i < |a|
      ensures (a[i] <= r[i] <= b[i]) || (b[i] <= r[i] <= a[i])
    {
      LerpScalarBetween(a[i], b[i] - a[i], weight, r[i]);
    }
  }

  lemma LerpScalarBetween(p: real, d: real, weight: real, r: real)
    requires 0.0 <= weight <= 1.0
    requires r == p + weight * d
    ensures (p <= r <= p + d) || (p + d <= r <= p)
  {
    ProductBetween(weight, d);
  }

  /** `w * d` lies between 0 and `d` for a weight `w` in [0, 1]. */
  lemma ProductBetween(weight: real, d: real)
    requires 0.0 <= weight <= 1.0
    ensures d >= 0.0 ==> 0.0 <= weight * d <= d
    ensures d < 0.0 ==> d <= weight * d <= 0.0
  {
    if d < 0.0 {
      var e := -d;
      assert 0.0 <= weight * e <= e;
      assert weight * d == -(weight * e);
    }
  }

  // ---------------------------------------------------------------------------
  // The component-wise scalar functions, each applied through `map`.

  function Floor(x: real): real {
    x.Floor as real
  }

  function Ceil(x: real): real {
    -((-x).Floor as real)
  }

  /** The integer part, rounding toward zero. */
  function Trunc(x: real): real {
    if x < 0.0 then Ceil(x) else Floor(x)
  }

  /** `x - x.trunc()`. */
  function Fract(x: real): real {
    x - Trunc(x)
  }

  /** The nearest integer, halfway cases rounded away from zero. */
  function Round(x: real): real {
    if x < 0.0 then -Floor(-x + 0.5) else Floor(x + 0.5)
  }

  function Abs(x: real): real {
    if x < 0.0 then -x else x
  }

  predicate IsIntegral(x: real) {
    x == x.Floor as real
  }

  lemma FloorBounds(x: real)
    ensures IsIntegral(Floor(x)) && Floor(x) <= x < Floor(x) + 1.0
  {
  }

  lemma CeilBounds(x: real)
    ensures IsIntegral(Ceil(x)) && Ceil(x) - 1.0 < x <= Ceil(x)
  {
    var g: int := (-x).Floor;
    assert Ceil(x) == (-g) as real;
  }

  lemma RoundBounds(x: real)
    ensures IsIntegral(Round(x)) && Abs(Round(x) - x) <= 0.5
    ensures Abs(Round(x) - x) == 0.5 ==> Abs(Round(x)) > Abs(x)
  {
    if x < 0.0 {
      var k: int := (-x + 0.5).Floor;
      assert Round(x) == (-k) as real;
    } else {
      var h: int := (x + 0.5).Floor;
      assert Round(x) == h as real;
    }
  }

  lemma TruncBounds(x: real)
    ensures IsIntegral(Trunc(x)) && Abs(Trunc(x)) <= Abs(x) < Abs(Trunc(x)) + 1.0
    ensures (x < 0.0 ==> Trunc(x) <= 0.0) && (x >= 0.0 ==> Trunc(x) >= 0.0)
  {
    CeilBounds(x);
    FloorBounds(x);
  }

  /** `floor()`: each component becomes the greatest integer not above it. */
  function FloorEach(v: seq<real>): (r: seq<real>)
    ensures |r| == |v|
    ensures forall i :: 0 <= i < |v| ==> IsIntegral(r[i]) && r[i] <= v[i] < r[i] + 1.0
  {
    forall x { FloorBounds(x); }
    Map(v, Floor)
  }

  /** `ceil()`: each component becomes the least integer not below it. */
  function CeilEach(v: seq<real>): (r: seq<real>)
    ensures |r| == |v|
    ensures forall i :: 0 <= i < |v| ==> IsIntegral(r[i]) && r[i] - 1.0 < v[i] <= r[i]
  {
    forall x { CeilBounds(x); }
    Map(v, Ceil)
  }

  /** `round()`: each component becomes an integer at most one half away;
      exactly halfway, the one farther from zero. */
  function RoundEach(v: seq<real>): (r: seq<real>)
    ensures |r| == |v|
    ensures forall i :: 0 <= i < |v| ==> IsIntegral(r[i]) && Abs(r[i] - v[i]) <= 0.5
    ensures forall i :: 0 <= i < |v| && Abs(r[i] - v[i]) == 0.5 ==> Abs(r[i]) > Abs(v[i])
  {
    forall x { RoundBounds(x); }
    Map(v, Round)
  }

  /** `trunc()`: each component becomes an integer of the same sign, less
      than one below it in magnitude. */
  function TruncEach(v: seq<real>): (r: seq<real>)
    ensures |r| == |v|
    ensures forall i :: 0 <= i < |v| ==>
              && IsIntegral(r[i])
              && Abs(r[i]) <= Abs(v[i]) < Abs(r[i]) + 1.0
              && (v[i] < 0.0 ==> r[i] <= 0.0)
              && (v[i] >= 0.0 ==> r[i] >= 0.0)
  {
    forall x { TruncBounds(x); }
    Map(v, Trunc)
  }

  /** `fract()`: each component becomes its fractional part, which added to
      the integer part gives the component back. */
  function FractEach(v: seq<real>): (r: seq<real>)
    ensures |r| == |v|
    ensures forall i :: 0 <= i < |v| ==> r[i] + TruncEach(v)[i] == v[i] && Abs(r[i]) < 1.0
  {
    forall x { TruncBounds(x); }
    Map(v, Fract)
  }

  /** `abs()`: each component becomes its magnitude. */
  function AbsEach(v: seq<real>): (r: seq<real>)
    ensures |r| == |v|
    ensures forall i :: 0 <= i < |v| ==> r[i] >= 0.0 && (r[i] == v[i] || r[i] == -v[i])
  {
    Map(v, Abs)
  }

  /** `x` raised to the natural power `n`. */
  function PowN(x: real, n: nat): real {
    if n == 0 then 1.0 else x * PowN(x, n - 1)
  }

  lemma {:induction false} PowNNonZero(x: real, n: nat)
    requires x != 0.0
    ensures PowN(x, n) != 0.0
  {
    if n > 0 {
      PowNNonZero(x, n - 1);
    }
  }

  /** `x` raised to the integer power `n`; a negative power is the reciprocal. */
  function PowI(x: real, n: int): real
    requires n >= 0 || x != 0.0
  {
    if n >= 0 then PowN(x, n)
    else
      PowNNonZero(x, -n);
      1.0 / PowN(x, -n)
  }

  /** Every component is nonzero, so a negative power of it exists. */
  predicate NoZeroComponent(v: seq<real>) {
    forall i :: 0 <= i < |v| ==> v[i] != 0.0
  }

  /** `powi(n)`: every component raised to the integer power `n`. */
  function PowiEach(v: seq<real>, n: int): (r: seq<real>)
    requires n >= 0 || NoZeroComponent(v)
    ensures |r| == |v|
    ensures forall i :: 0 <= i < |v| ==> r[i] == PowI(v[i], n)
  {
    seq(|v|, i requires 0 <= i < |v| => PowI(v[i], n))
  }

  /** `powi(0)` gives all ones. */
  lemma PowiZero(v: seq<real>)
    ensures PowiEach(v, 0) == Repeat(|v|, 1.0)
  {
  }

  /** Each further power multiplies by `v` once more. */
  lemma PowiSteps(v: seq<real>, n: nat)
    ensures PowiEach(v, n + 1) == ZipWith(PowiEach(v, n), v, Mul)
  {
    var next := ZipWith(PowiEach(v, n), v, Mul);
    forall i | 0 <= i < |v|
      ensures PowiEach(v, n + 1)[i] == next[i]
    {
      PowISucc(v[i], n);
    }
  }

  lemma PowISucc(x: real, n: nat)
    ensures PowI(x, n + 1) == Mul(PowI(x, n), x)
  {
    var p := PowN(x, n);
    assert PowN(x, n + 1) == x * p;
  }

  /** `powi(-1)` of a vector with no zero component is its component-wise
      reciprocal. */
  lemma PowiReciprocal(v: seq<real>)
    requires NoZeroComponent(v)
    ensures forall i :: 0 <= i < |v| ==> PowiEach(v, -1)[i] * v[i] == 1.0
  {
    forall i | 0 <= i < |v|
      ensures PowiEach(v, -1)[i] * v[i] == 1.0
    {
      Reciprocal(v[i]);
    }
  }

  lemma Reciprocal(x: real)
    requires x != 0.0
    ensures PowI(x, -1) * x == 1.0
  {
    assert PowN(x, 1) == x;
    assert PowI(x, -1) == 1.0 / x;
  }

  /** `a * b < c * d` for non-negative factors each strictly smaller. */
  lemma ProductStrict(a: real, b: real, c: real, d: real, s: real, t: real)
    requires 0.0 <= a < c && 0.0 <= b < d
    requires s == a * b && t == c * d
    ensures s < t
  {
    assert a * b <= c * b;
    assert c * b < c * d;
  }

  lemma SumTwo(a: real, b: real)
    ensures Sum([a, b]) == a + b
  {
    assert [a][..0] == [];
    assert Sum([a]) == a;
    assert [a, b][..1] == [a];
  }

  lemma SumThree(a: real, b: real, c: real)
    ensures Sum([a, b, c]) == a + b + c
  {
    assert [a, b, c][..2] == [a, b];
    SumTwo(a, b);
  }

  /** The dot products and squared lengths of the doc examples and tests. */
  lemma DotExamples()
    ensures Dot([1.0, 2.0], [2.0, 4.0]) == 10.0
    ensures Dot([2.0, 4.0], [2.0, 4.0]) == 20.0
    ensures Dot([1.0, 2.0, 3.0], [2.0, 4.0, 6.0]) == 28.0
    ensures LengthSquared([3.0, 4.0]) == 25.0
  {
    assert ZipWith([1.0, 2.0], [2.0, 4.0], Mul) == [2.0, 8.0];
    SumTwo(2.0, 8.0);
    assert ZipWith([2.0, 4.0], [2.0, 4.0], Mul) == [4.0, 16.0];
    SumTwo(4.0, 16.0);
    assert ZipWith([1.0, 2.0, 3.0], [2.0, 4.0, 6.0], Mul) == [2.0, 8.0, 18.0];
    SumThree(2.0, 8.0, 18.0);
    assert Map([3.0, 4.0], Square) == [9.0, 16.0];
    SumTwo(9.0, 16.0);
  }

  /** With an exact square root, (3, 4) normalizes to (0.6, 0.8). */
  lemma NormalizedExample(sqrt: real -> real)
    requires IsRoot(sqrt)
    ensures PositiveRoot(sqrt) && Normalized([3.0, 4.0], sqrt) == [0.6, 0.8]
  {
    RootIsPositive(sqrt);
    DotExamples();
    var c := sqrt(25.0);
    assert c >= 0.0 && c * c == 25.0;
    if c < 5.0 {
      ProductStrict(c, c, 5.0, 5.0, 25.0, 25.0);
    } else if c > 5.0 {
      ProductStrict(5.0, 5.0, c, c, 25.0, 25.0);
    }
    var n := Normalized([3.0, 4.0], sqrt);
    assert n[0] * 5.0 == 3.0 && n[1] * 5.0 == 4.0;
  }

  /** `lerp` and `powi` on the values of the doc examples. */
  lemma LerpPowiExamples()
    ensures Lerp([1.0, 2.0], [2.0, 3.0], 1.0) == [2.0, 3.0]
    ensures PowiEach([2.0, 4.0], 2) == [4.0, 16.0]
    ensures PowiEach([2.0, 4.0], -1) == [0.5, 0.25]
  {
    assert PowN(2.0, 2) == 4.0 && PowN(4.0, 2) == 16.0;
    assert PowN(2.0, 1) == 2.0 && PowN(4.0, 1) == 4.0;
  }

  /** The rounding functions on the values of their doc examples, and
      `round` at two halfway values. */
  lemma RoundingExamples()
    ensures FloorEach([1.6, 2.3]) == [1.0, 2.0]
    ensures CeilEach([1.6, 2.3]) == [2.0, 3.0]
    ensures RoundEach([1.6, 2.3]) == [2.0, 2.0]
    ensures RoundEach([-2.5, 2.5]) == [-3.0, 3.0]
    ensures AbsEach([-2.6, 2.3]) == [2.6, 2.3]
    ensures TruncEach([-2.6, 2.3]) == [-2.0, 2.0]
    ensures FractEach([-2.5, 2.25]) == [-0.5, 0.25]
  {
  }
}
