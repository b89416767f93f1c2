/** The concrete vector types `Vector2`, `Vector3` and `Vector4`, their fields
    in declared order, and the per-type operations written by hand for
    `Vector2` and `Vector3`.

    Each type is tied to the arity-generic model by `ToArrayN`/`FromArrayN`:
    the macro-generated operations of a type are the generic ones applied to
    its array, and the lemmas below show that the hand-written operations agree
    with them.
 */
module Vectors {
  import opened FixedVector
  import Arithmetic

  datatype Vector2<T> = Vector2(x: T, y: T)
  datatype Vector3<T> = Vector3(x: T, y: T, z: T)
  datatype Vector4<T> = Vector4(x: T, y: T, z: T, w: T)

  // ---------------------------------------------------------------------------
  // The instantiations `impl_vector!(Vector2 { x, y }, 2)` and so on: the
  // struct's name, its field list and its arity.

  const Name2: string := "Vector2"
  const Name3: string := "Vector3"
  const Name4: string := "Vector4"

  const Fields2: seq<string> := ["x", "y"]
  const Fields3: seq<string> := ["x", "y", "z"]
  const Fields4: seq<string> := ["x", "y", "z", "w"]

  // ---------------------------------------------------------------------------
  // `to_array` / `from([T; N])`

  function ToArray2<T>(v: Vector2<T>): (r: seq<T>)
    ensures |r| == |Fields2|
  {
    [v.x, v.y]
  }

  function ToArray3<T>(v: Vector3<T>): (r: seq<T>)
    ensures |r| == |Fields3|
  {
    [v.x, v.y, v.z]
  }

  function ToArray4<T>(v: Vector4<T>): (r: seq<T>)
    ensures |r| == |Fields4|
  {
    [v.x, v.y, v.z, v.w]
  }

  function FromArray2<T>(a: seq<T>): (v: Vector2<T>)
    requires |a| == 2
    ensures ToArray2(v) == a
  {
    Vector2(a[0], a[1])
  }

  function FromArray3<T>(a: seq<T>): (v: Vector3<T>)
    requires |a| == 3
    ensures ToArray3(v) == a
  {
    Vector3(a[0], a[1], a[2])
  }

  function FromArray4<T>(a: seq<T>): (v: Vector4<T>)
    requires |a| == 4
    ensures ToArray4(v) == a
  {
    Vector4(a[0], a[1], a[2], a[3])
  }

  /** `new(v1, .., vN)` stores argument i in the i-th declared field, which is
      element i of `to_array`. */
  lemma NewStoresInOrder<T>(a: T, b: T, c: T, d: T)
    ensures ToArray2(Vector2(a, b)) == [a, b]
    ensures ToArray3(Vector3(a, b, c)) == [a, b, c]
    ensures ToArray4(Vector4(a, b, c, d)) == [a, b, c, d]
  {
  }

  /** `from(v.to_array()) == v`, and `from` of any array of the right length
      converts back to that array. */
  lemma ArrayRoundTrip<T>(v2: Vector2<T>, v3: Vector3<T>, v4: Vector4<T>, a: seq<T>)
    ensures FromArray2(ToArray2(v2)) == v2
    ensures FromArray3(ToArray3(v3)) == v3
    ensures FromArray4(ToArray4(v4)) == v4
    ensures |a| == 2 ==> ToArray2(FromArray2(a)) == a
    ensures |a| == 3 ==> ToArray3(FromArray3(a)) == a
    ensures |a| == 4 ==> ToArray4(FromArray4(a)) == a
  {
  }

  // ---------------------------------------------------------------------------
  // `to_tuple` / `as_tuple` / `from((T, .., T))`

  function ToTuple2<T>(v: Vector2<T>): (t: (T, T))
    ensures [t.0, t.1] == ToArray2(v)
  {
    (v.x, v.y)
  }

  function ToTuple3<T>(v: Vector3<T>): (t: (T, T, T))
    ensures [t.0, t.1, t.2] == ToArray3(v)
  {
    (v.x, v.y, v.z)
  }

  function ToTuple4<T>(v: Vector4<T>): (t: (T, T, T, T))
    ensures [t.0, t.1, t.2, t.3] == ToArray4(v)
  {
    (v.x, v.y, v.z, v.w)
  }

  function FromTuple3<T>(t: (T, T, T)): (v: Vector3<T>)
    ensures ToArray3(v) == [t.0, t.1, t.2]
  {
    Vector3(t.0, t.1, t.2)
  }

  /** `Vector3::from(v.as_tuple()) == v` and `from(t).as_tuple() == t`. */
  lemma TupleRoundTrip<T>(v: Vector3<T>, t: (T, T, T))
    ensures FromTuple3(ToTuple3(v)) == v
    ensures ToTuple3(FromTuple3(t)) == t
  {
  }

  // ---------------------------------------------------------------------------
  // `len()` and `size()`: constants of the type, independent of the contents.

  function Len2<T>(v: Vector2<T>): (n: nat)
    ensures n == |ToArray2(v)|
  {
    2
  }

  function Len3<T>(v: Vector3<T>): (n: nat)
    ensures n == |ToArray3(v)|
  {
    3
  }

  function Len4<T>(v: Vector4<T>): (n: nat)
    ensures n == |ToArray4(v)|
  {
    4
  }

  /** `size()`: `size_of::<T>() * LEN`, the size in bytes of the field storage. */
  function Size2<T>(v: Vector2<T>, sizeOfT: nat): (n: nat)
    ensures n == sizeOfT * |ToArray2(v)|
  {
    sizeOfT * Len2(v)
  }

  function Size3<T>(v: Vector3<T>, sizeOfT: nat): (n: nat)
    ensures n == sizeOfT * |ToArray3(v)|
  {
    sizeOfT * Len3(v)
  }

  function Size4<T>(v: Vector4<T>, sizeOfT: nat): (n: nat)
    ensures n == sizeOfT * |ToArray4(v)|
  {
    sizeOfT * Len4(v)
  }

  /** Each type's field list has as many names as the type has components. */
  lemma FieldListsMatchArity<T>(v2: Vector2<T>, v3: Vector3<T>, v4: Vector4<T>)
    ensures |Fields2| == Len2(v2) == 2
    ensures |Fields3| == Len3(v3) == 3
    ensures |Fields4| == Len4(v4) == 4
    ensures Size2(v2, 2) == 4 && Size3(v3, 2) == 6 && Size4(v4, 2) == 8
  {
  }

  // ---------------------------------------------------------------------------
  // `Default`

  /** Every component is set to the element type's default value `d`. */
  function Default2<T>(d: T): (v: Vector2<T>)
    ensures forall i :: 0 <= i < 2 ==> ToArray2(v)[i] == d
  {
    Vector2(d, d)
  }

  function Default3<T>(d: T): (v: Vector3<T>)
    ensures forall i :: 0 <= i < 3 ==> Index3(v, i) == d
  {
    Vector3(d, d, d)
  }

  // ---------------------------------------------------------------------------
  // `PartialEq`, as the hand-written `Vector2` and `Vector3` impls spell it.

  function Eq2<T(==)>(a: Vector2<T>, b: Vector2<T>): (r: bool)
    ensures r <==> a == b
    ensures r == Equal(ToArray2(a), ToArray2(b))
  {
    a.x == b.x && a.y == b.y
  }

  function Ne2<T(==)>(a: Vector2<T>, b: Vector2<T>): (r: bool)
    ensures r <==> !Eq2(a, b)
    ensures r == NotEqual(ToArray2(a), ToArray2(b))
  {
    a.x != b.x || a.y != b.y
  }

  function Eq3<T(==)>(a: Vector3<T>, b: Vector3<T>): (r: bool)
    ensures r <==> a == b
    ensures r == Equal(ToArray3(a), ToArray3(b))
  {
    a.x == b.x && a.y == b.y && a.z == b.z
  }

  function Ne3<T(==)>(a: Vector3<T>, b: Vector3<T>): (r: bool)
    ensures r <==> !Eq3(a, b)
    ensures r == NotEqual(ToArray3(a), ToArray3(b))
  {
    a.x != b.x || a.y != b.y || a.z != b.z
  }

  // ---------------------------------------------------------------------------
  // Formatting. `show` renders one component (the element type's own
  // `Debug`/`Display`).

  /** `Vector2`'s hand-written `Display`: `write!(f, "({}, {})", x, y)`, the
      tuple form of the components in field order. */
  function Display2<T>(v: Vector2<T>, show: T -> string): (r: string)
    ensures r == DisplayTuple(Map(ToArray2(v), show))
  {
    var m := Map(ToArray2(v), show);
    assert Join(m) == show(v.x) + ", " + Join(m[1..]);
    "(" + show(v.x) + ", " + show(v.y) + ")"
  }

  /** `Vector3`'s hand-written `Display`, the same tuple form. */
  function Display3<T>(v: Vector3<T>, show: T -> string): (r: string)
    ensures r == DisplayTuple(Map(ToArray3(v), show))
  {
    var m := Map(ToArray3(v), show);
    assert Join(m) == show(v.x) + ", " + (show(v.y) + ", " + Join(m[2..]));
    "(" + show(v.x) + ", " + show(v.y) + ", " + show(v.z) + ")"
  }

  /** `Vector2`'s hand-written `Debug`: a debug struct with the literal names,
      the same text as the macro-generated `Debug`. */
  function Debug2<T>(v: Vector2<T>, show: T -> string): (r: string)
    ensures r == Debug(Name2, Fields2, ToArray2(v), show)
  {
    assert Map(ToArray2(v), show) == [show(v.x), show(v.y)];
    DebugStruct("Vector2", ["x", "y"], [show(v.x), show(v.y)])
  }

  /** `Vector3`'s hand-written `Debug`, again the macro-generated text. */
  function Debug3<T>(v: Vector3<T>, show: T -> string): (r: string)
    ensures r == Debug(Name3, Fields3, ToArray3(v), show)
  {
    assert Map(ToArray3(v), show) == [show(v.x), show(v.y), show(v.z)];
    DebugStruct("Vector3", ["x", "y", "z"], [show(v.x), show(v.y), show(v.z)])
  }

  /** `Vector2`'s `Debug` renders "Vector2 { x: .., y: .. }". */
  lemma Debug2Layout<T>(v: Vector2<T>, show: T -> string)
    ensures Debug2(v, show) == "Vector2 { x: " + show(v.x) + ", y: " + show(v.y) + " }"
  {
    var m := Map(ToArray2(v), show);
    assert m == [show(v.x), show(v.y)];
    var ey := DebugEntries(["y"], [show(v.y)]);
    assert ey == "y" + ": " + show(v.y);
    var e := DebugEntries(Fields2, m);
    assert e == "x" + ": " + show(v.x) + ", " + ey;
    assert "Vector2" + " { " + "x" + ": " == "Vector2 { x: ";
    assert ", " + "y" + ": " == ", y: ";
  }

  /** The macro-generated `Debug` of a `Vector4` lists x, y, z, w in order,
      each as "name: value", separated by ", " and wrapped in "Vector4 { .. }". */
  lemma Debug4Layout<T>(v: Vector4<T>, show: T -> string)
    ensures Debug(Name4, Fields4, ToArray4(v), show)
         == "Vector4 { " + Join(["x: " + show(v.x), "y: " + show(v.y), "z: " + show(v.z), "w: " + show(v.w)]) + " }"
  {
    var m := Map(ToArray4(v), show);
    assert m == [show(v.x), show(v.y), show(v.z), show(v.w)];
    DebugEntriesJoined(Fields4, m);
    assert "x" + ": " == "x: " && "y" + ": " == "y: " && "z" + ": " == "z: " && "w" + ": " == "w: ";
    assert Entries(Fields4, m) == ["x: " + show(v.x), "y: " + show(v.y), "z: " + show(v.z), "w: " + show(v.w)];
    assert "Vector4" + " { " == "Vector4 { ";
  }

  /** The `Debug` rendering the test suite pins down. */
  lemma DebugExample()
    ensures Debug2(Vector2(0, 1), IntToString) == "Vector2 { x: 0, y: 1 }"
  {
    assert IntToString(0) == "0" && IntToString(1) == "1";
    Debug2Layout(Vector2(0, 1), IntToString);
  }

  /** The `Display` renderings of the doc examples. */
  lemma DisplayExamples()
    ensures Display2(Vector2(4, 2), IntToString) == "(4, 2)"
    ensures Display3(Vector3(7, 7, 7), IntToString) == "(7, 7, 7)"
  {
    assert IntToString(4) == "4" && IntToString(2) == "2" && IntToString(7) == "7";
  }

  // ---------------------------------------------------------------------------
  // `Vector3`'s hand-written accessors, indexing and operators.

  /** `v[i]`: index 0, 1, 2 reads x, y, z; any other index panics. */
  function Index3<T>(v: Vector3<T>, i: nat): (r: T)
    requires i < 3
    ensures r == ToArray3(v)[i]
  {
    match i
    case 0 => v.x
    case 1 => v.y
    case 2 => v.z
  }

  /** `v[i] = e` through `IndexMut`: component i becomes `e`, the others keep
      their values. */
  function SetIndex3<T>(v: Vector3<T>, i: nat, e: T): (r: Vector3<T>)
    requires i < 3
    ensures Index3(r, i) == e
    ensures forall j :: 0 <= j < 3 && j != i ==> Index3(r, j) == Index3(v, j)
  {
    match i
    case 0 => v.(x := e)
    case 1 => v.(y := e)
    case 2 => v.(z := e)
  }

  function SetX<T>(v: Vector3<T>, e: T): (r: Vector3<T>)
    ensures r == SetIndex3(v, 0, e)
  {
    Vector3(e, v.y, v.z)
  }

  function SetY<T>(v: Vector3<T>, e: T): (r: Vector3<T>)
    ensures r == SetIndex3(v, 1, e)
  {
    Vector3(v.x, e, v.z)
  }

  function SetZ<T>(v: Vector3<T>, e: T): (r: Vector3<T>)
    ensures r == SetIndex3(v, 2, e)
  {
    Vector3(v.x, v.y, e)
  }

  /** A getter after a setter returns the stored value; the other two getters
      are unaffected. */
  lemma GetAfterSet<T>(v: Vector3<T>, e: T)
    ensures SetX(v, e).x == e && SetX(v, e).y == v.y && SetX(v, e).z == v.z
    ensures SetY(v, e).y == e && SetY(v, e).x == v.x && SetY(v, e).z == v.z
    ensures SetZ(v, e).z == e && SetZ(v, e).x == v.x && SetZ(v, e).y == v.y
  {
  }

  /** `Vector3`'s five hand-written binary operators, field by field. */
  function Op3(op: Arithmetic.Op, a: Vector3<int>, b: Vector3<int>): (r: Vector3<int>)
    requires Arithmetic.Defined(op, b.x) && Arithmetic.Defined(op, b.y) && Arithmetic.Defined(op, b.z)
    ensures ToArray3(r) == Arithmetic.ZipOp(op, ToArray3(a), ToArray3(b))
  {
    Vector3(Arithmetic.Apply(op, a.x, b.x), Arithmetic.Apply(op, a.y, b.y), Arithmetic.Apply(op, a.z, b.z))
  }

  /** `Vector3`'s five hand-written compound assignments, each of which
      replaces the whole value: `*self = Self { x: self.x op other.x, .. }`. */
  function OpAssign3(op: Arithmetic.Op, a: Vector3<int>, b: Vector3<int>): (r: Vector3<int>)
    requires Arithmetic.Defined(op, b.x) && Arithmetic.Defined(op, b.y) && Arithmetic.Defined(op, b.z)
    ensures r == Op3(op, a, b)
  {
    var x := Arithmetic.Apply(op, a.x, b.x);
    var y := Arithmetic.Apply(op, a.y, b.y);
    var z := Arithmetic.Apply(op, a.z, b.z);
    Vector3(x, y, z)
  }

  /** The operator results the `Vector3` tests expect. */
  lemma Vector3OperatorExamples()
    ensures Op3(Arithmetic.Add, Vector3(0, 1, 2), Vector3(1, 0, 2)) == Vector3(1, 1, 4)
    ensures OpAssign3(Arithmetic.Sub, Vector3(6, 4, 7), Vector3(3, 2, 4)) == Vector3(3, 2, 3)
    ensures OpAssign3(Arithmetic.Mul, Vector3(7, 4, 9), Vector3(3, 5, 3)) == Vector3(21, 20, 27)
    ensures OpAssign3(Arithmetic.Div, Vector3(32, 50, 96), Vector3(4, 25, 8)) == Vector3(8, 2, 12)
    ensures Op3(Arithmetic.Rem, Vector3(12, 6, 19), Vector3(2, 2, 11)) == Vector3(0, 0, 8)
    ensures OpAssign3(Arithmetic.Rem, Vector3(32, 50, 27), Vector3(5, 9, 3)) == Vector3(2, 5, 0)
  {
  }

  // ---------------------------------------------------------------------------
  // The macro-generated operations at each arity.

  /** `map` at arity 2: `Vector2::new(1, 2).map(|i| i * 2) == Vector2::new(2, 4)`. */
  lemma MapExample()
    ensures FromArray2(Map(ToArray2(Vector2(1, 2)), (i: int) => i * 2)) == Vector2(2, 4)
  {
  }

  /** `a += b` at arities 2, 3 and 4, as the doc examples of the three structs
      use it; `-` is `map(-x)`. */
  lemma AddAssignExamples()
    ensures FromArray2(Arithmetic.ReplaceAssign(Arithmetic.Add, ToArray2(Vector2(1, 2)), ToArray2(Vector2(1, 2))))
         == Vector2(2, 4)
    ensures FromArray3(Arithmetic.ReplaceAssign(Arithmetic.Add, ToArray3(Vector3(1, 2, 3)), ToArray3(Vector3(1, 2, 3))))
         == Vector3(2, 4, 6)
    ensures FromArray4(Arithmetic.ReplaceAssign(Arithmetic.Add, ToArray4(Vector4(1, 2, 3, 4)), ToArray4(Vector4(1, 2, 3, 4))))
         == Vector4(2, 4, 6, 8)
    ensures FromArray4(Arithmetic.Neg(ToArray4(Vector4(4, 3, 2, 1)))) == Vector4(-4, -3, -2, -1)
  {
  }
}
