/** The element-wise operator layer over integer components.

    Components are mathematical integers: the fixed width of the Rust integer
    types (and their overflow panics) is not modelled. Division and remainder
    follow Rust's integer operators, which truncate toward zero, and a zero
    divisor is outside their domain (Rust panics; the vector layer does not
    intercept it).
 */
module Arithmetic {
  import opened FixedVector

  datatype Op = Add | Sub | Mul | Div | Rem

  function Abs(a: int): nat {
    if a < 0 then -a else a
  }

  /** Rust's integer `/`: the quotient truncated toward zero. */
  function TruncDiv(a: int, b: int): (r: int)
    requires b != 0
    ensures Abs(b) * Abs(r) <= Abs(a) < Abs(b) * (Abs(r) + 1)
    ensures r != 0 ==> (r < 0 <==> (a < 0) != (b < 0))
  {
    var q := Abs(a) / Abs(b);
    EuclideanDivision(Abs(a), Abs(b), Abs(b) * q);
    assert Abs(b) * (q + 1) == Abs(b) * q + Abs(b);
    if (a < 0) == (b < 0) then q else -q
  }

  /** Rust's integer `%`: the remainder carries the sign of the dividend. */
  function TruncRem(a: int, b: int): (r: int)
    requires b != 0
    ensures Abs(r) < Abs(b)
    ensures r != 0 ==> (r < 0 <==> a < 0)
  {
    var m := Abs(a) % Abs(b);
    if a < 0 then -m else m
  }

  /** The pair (TruncDiv, TruncRem) is the truncating division of `a` by `b`:
      the identity `a == b * q + r` holds, `r` is smaller than the divisor in
      magnitude, and a nonzero `r` has the sign of `a`. */
  lemma TruncDivision(a: int, b: int)
    requires b != 0
    ensures a == b * TruncDiv(a, b) + TruncRem(a, b)
    ensures Abs(TruncRem(a, b)) < Abs(b)
    ensures TruncRem(a, b) != 0 ==> (TruncRem(a, b) < 0 <==> a < 0)
    ensures Abs(b) * Abs(TruncDiv(a, b)) <= Abs(a)
  {
    var A, B := Abs(a), Abs(b);
    var q: int, m: int := A / B, A % B;
    var t := B * q;
    EuclideanDivision(A, B, t);
    var d, r := TruncDiv(a, b), TruncRem(a, b);
    SignedProduct(a, b, q, t);
    assert Abs(d) == q && Abs(r) == m;
  }

  /** Euclidean division of naturals: `A == B * (A / B) + A % B` with the
      remainder below `B`. The product is named by `t`. */
  lemma EuclideanDivision(A: nat, B: nat, t: int)
    requires B > 0 && t == B * (A / B)
    ensures A == t + A % B && 0 <= A % B < B && 0 <= t
  {
  }

  /** `b * TruncDiv(a, b)` is `t == |b| * (|a| / |b|)` with the sign of the
      quotient restored. */
  lemma SignedProduct(a: int, b: int, q: int, t: int)
    requires b != 0 && q == Abs(a) / Abs(b) && t == Abs(b) * q
    ensures b * TruncDiv(a, b) == (if a < 0 then -t else t)
  {
    var d := TruncDiv(a, b);
    if a < 0 && b < 0 {
      assert d == q && b == -(Abs(b) as int);
      NegTimes(Abs(b), q);
    } else if a < 0 {
      assert d == -q && b == Abs(b);
      NegTimes(q, Abs(b));
    } else if b < 0 {
      assert d == -q && b == -(Abs(b) as int);
      NegTimesNeg(Abs(b), q);
    } else {
      assert d == q && b == Abs(b);
    }
  }

  lemma NegTimes(x: int, y: int)
    ensures (-x) * y == -(x * y) && y * (-x) == -(x * y)
  {
  }

  lemma NegTimesNeg(x: int, y: int)
    ensures (-x) * (-y) == x * y
  {
  }

  /** The operands an operator accepts: the divisor of `/` and `%` is nonzero. */
  predicate Defined(op: Op, q: int) {
    (op == Div || op == Rem) ==> q != 0
  }

  /** One component of `a op b`. */
  function Apply(op: Op, p: int, q: int): int
    requires Defined(op, q)
  {
    match op
    case Add => p + q
    case Sub => p - q
    case Mul => p * q
    case Div => TruncDiv(p, q)
    case Rem => TruncRem(p, q)
  }

  /** Every divisor component is in the operator's domain. */
  predicate DefinedOn(op: Op, b: seq<int>) {
    forall i :: 0 <= i < |b| ==> Defined(op, b[i])
  }

  /** The binary operators `+ - * / %` on two vectors of one arity. */
  function ZipOp(op: Op, a: seq<int>, b: seq<int>): (r: seq<int>)
    requires |a| == |b|
    requires DefinedOn(op, b)
    ensures |r| == |a|
    ensures forall i :: 0 <= i < |a| ==> r[i] == Apply(op, a[i], b[i])
  {
    ZipWith(a, b, (p, q) requires Defined(op, q) => Apply(op, p, q))
  }

  /** Unary `-`, written in the source as `self.map(|x| -x)`. */
  function Neg(v: seq<int>): (r: seq<int>)
    ensures |r| == |v|
    ensures forall i :: 0 <= i < |v| ==> r[i] + v[i] == 0
  {
    Map(v, x => -x)
  }

  /** Compound assignment `a op= b` as the later macro writes it: each field is
      updated in place, one after another (`self.x op= other.x; self.y op= ...`).
      The result is the value `a op b`, which is also what the earlier revisions
      obtain by replacing the whole value at once. */
  method CompoundAssign(op: Op, a: seq<int>, b: seq<int>) returns (r: seq<int>)
    requires |a| == |b|
    requires DefinedOn(op, b)
    ensures r == ReplaceAssign(op, a, b)
    ensures r == ZipOp(op, a, b)
  {
    r := a;
    var i := 0;
    while i < |r|
      invariant |r| == |a|
      invariant 0 <= i <= |a|
      invariant forall k :: 0 <= k < i ==> r[k] == Apply(op, a[k], b[k])
      invariant forall k :: i <= k < |a| ==> r[k] == a[k]
    {
      r := r[i := Apply(op, r[i], b[i])];
      i := i + 1;
    }
  }

  /** Compound assignment `a op= b` as the earlier revisions write it: the whole
      value is replaced by a freshly built one, `*self = Self { f: self.f op other.f, .. }`. */
  function ReplaceAssign(op: Op, a: seq<int>, b: seq<int>): (r: seq<int>)
    requires |a| == |b|
    requires DefinedOn(op, b)
    ensures |r| == |a|
    ensures forall i :: 0 <= i < |a| ==> r[i] == Apply(op, a[i], b[i])
  {
    seq(|a|, i requires 0 <= i < |a| => Apply(op, a[i], b[i]))
  }

  /** `x` raised to the natural power `n`, by repeated multiplication. */
  function IntPow(x: int, n: nat): int {
    if n == 0 then 1 else x * IntPow(x, n - 1)
  }

  /** `pow(n)` of an integer vector: every component raised to `n`. */
  function Pow(v: seq<int>, n: nat): (r: seq<int>)
    ensures |r| == |v|
    ensures forall i :: 0 <= i < |v| ==> r[i] == IntPow(v[i], n)
  {
    Map(v, x => IntPow(x, n))
  }

  // ---------------------------------------------------------------------------
  // Algebraic laws of the element-wise layer.

  /** Raising to the power 0 gives all ones. */
  lemma PowZero(v: seq<int>)
    ensures Pow(v, 0) == Repeat(|v|, 1)
  {
  }

  /** Each further power multiplies component-wise by `v` once more. */
  lemma PowSteps(v: seq<int>, n: nat)
    ensures Pow(v, n + 1) == ZipOp(Mul, Pow(v, n), v)
  {
    var next := ZipOp(Mul, Pow(v, n), v);
    forall i | 0 <= i < |v|
      ensures Pow(v, n + 1)[i] == next[i]
    {
      IntPowSucc(v[i], n);
    }
  }

  lemma IntPowSucc(x: int, n: nat)
    ensures IntPow(x, n + 1) == IntPow(x, n) * x
  {
    var p := IntPow(x, n);
    assert IntPow(x, n + 1) == x * p;
  }

  /** `v + 0 == v` and `v * 1 == v`. */
  lemma Identities(v: seq<int>)
    ensures ZipOp(Add, v, Repeat(|v|, 0)) == v
    ensures ZipOp(Mul, v, Repeat(|v|, 1)) == v
  {
  }

  /** `v - v == 0`, `v + -v == 0`, and negation is its own inverse. */
  lemma Inverses(v: seq<int>)
    ensures ZipOp(Sub, v, v) == Repeat(|v|, 0)
    ensures ZipOp(Add, v, Neg(v)) == Repeat(|v|, 0)
    ensures Neg(Neg(v)) == v
  {
  }

  /** Component i of `a / b` and of `a % b` recombine into `a[i]`. */
  lemma DivRemRecombine(a: seq<int>, b: seq<int>)
    requires |a| == |b|
    requires DefinedOn(Div, b)
    ensures DefinedOn(Rem, b)
    ensures ZipOp(Add, ZipOp(Mul, b, ZipOp(Div, a, b)), ZipOp(Rem, a, b)) == a
  {
    forall i | 0 <= i < |a|
      ensures b[i] * TruncDiv(a[i], b[i]) + TruncRem(a[i], b[i]) == a[i]
    {
      TruncDivision(a[i], b[i]);
    }
  }

  /** Truncation toward zero where Euclidean division would differ: -7 / 2 is
      -3 with remainder -1, and 7 % -2 is 1. */
  lemma TruncatingExamples()
    ensures TruncDiv(-7, 2) == -3 && TruncRem(-7, 2) == -1
    ensures TruncDiv(7, -2) == -3 && TruncRem(7, -2) == 1
    ensures ZipOp(Div, [12, 6, 18], [2, 2, 2]) == [6, 3, 9]
    ensures ZipOp(Rem, [12, 6, 19], [2, 2, 11]) == [0, 0, 8]
    ensures Pow([2, 4, 6], 2) == [4, 16, 36]
    ensures Neg([4, 3]) == [-4, -3]
  {
  }
}
