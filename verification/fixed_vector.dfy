/** The arity-generic core of the vector family.

    A vector of arity N is modelled as a sequence of exactly N components, in
    declared field order (x, y, z, w): position i of the sequence is the i-th
    declared field. Everything the `impl_vector!` macro generates field by
    field is written here once, as a recursion over that sequence.
 */
module FixedVector {

  datatype Option<T> = None | Some(value: T)

  /** The vector of arity `n` with every component equal to `c`, as
      `Self { f: c, .. }` builds it. */
  function Repeat<T>(n: nat, c: T): (r: seq<T>)
    ensures |r| == n
    ensures forall i :: 0 <= i < n ==> r[i] == c
  {
    seq(n, _ => c)
  }

  /** `map`: one call of `f` per field, in field order. */
  function Map<T, U>(v: seq<T>, f: T -> U): (r: seq<U>)
    ensures |r| == |v|
    ensures forall i :: 0 <= i < |v| ==> r[i] == f(v[i])
  {
    if |v| == 0 then [] else [f(v[0])] + Map(v[1..], f)
  }

  /** The per-field pairing every binary operator expands to:
      field i of the result is `op(a[i], b[i])`. The operator may be
      partial (integer division), so each pair must lie in its domain. */
  function ZipWith<T>(a: seq<T>, b: seq<T>, op: (T, T) --> T): (r: seq<T>)
    requires |a| == |b|
    requires forall i :: 0 <= i < |a| ==> op.requires(a[i], b[i])
    ensures |r| == |a|
    ensures forall i :: 0 <= i < |a| ==> r[i] == op(a[i], b[i])
  {
    if |a| == 0 then [] else [op(a[0], b[0])] + ZipWith(a[1..], b[1..], op)
  }

  /** `eq` as the macro expands it: `a.f1 == b.f1 && ... && a.fN == b.fN`. */
  function Equal<T(==)>(a: seq<T>, b: seq<T>): (r: bool)
    requires |a| == |b|
    ensures r <==> (forall i :: 0 <= i < |a| ==> a[i] == b[i])
    ensures r <==> a == b
  {
    if |a| == 0 then true else a[0] == b[0] && Equal(a[1..], b[1..])
  }

  /** `ne` as the hand-written impls spell it: `a.f1 != b.f1 || ... || a.fN != b.fN`. */
  function NotEqual<T(==)>(a: seq<T>, b: seq<T>): (r: bool)
    requires |a| == |b|
    ensures r <==> !Equal(a, b)
    ensures r <==> (exists i :: 0 <= i < |a| && a[i] != b[i])
  {
    if |a| == 0 then false else a[0] != b[0] || NotEqual(a[1..], b[1..])
  }

  /** `to_vec`: a collection pre-sized to `len()`, into which every field is
      pushed in declared order. */
  method ToVec<T>(v: seq<T>) returns (out: seq<T>)
    ensures |out| == |v|
    ensures forall i :: 0 <= i < |v| ==> out[i] == v[i]
  {
    out := [];
    var i := 0;
    while i < |v|
      invariant 0 <= i <= |v|
      invariant |out| == i
      invariant forall k :: 0 <= k < i ==> out[k] == v[k]
    {
      out := out + [v[i]];
      i := i + 1;
    }
  }

  /** The by-value array iterator that `into_iter` returns (it iterates over
      `to_array()`). The components not yet yielded are `data[front..back]`. */
  datatype ArrayIter<T> = ArrayIter(data: seq<T>, front: nat, back: nat)

  predicate ValidIter<T>(it: ArrayIter<T>) {
    it.front <= it.back <= |it.data|
  }

  /** The components an iterator has still to yield, front to back. */
  function Remaining<T>(it: ArrayIter<T>): seq<T>
    requires ValidIter(it)
  {
    it.data[it.front..it.back]
  }

  /** `into_iter`: every component is still to be yielded. */
  function IntoIter<T>(v: seq<T>): (it: ArrayIter<T>)
    ensures ValidIter(it)
    ensures Remaining(it) == v
  {
    ArrayIter(v, 0, |v|)
  }

  /** `next`: yields the front component, or `None` once nothing remains. */
  function Next<T>(it: ArrayIter<T>): (r: (Option<T>, ArrayIter<T>))
    requires ValidIter(it)
    ensures ValidIter(r.1)
    ensures r.0.None? <==> |Remaining(it)| == 0
    ensures r.0.None? ==> r.1 == it
    ensures r.0.Some? ==> r.0.value == Remaining(it)[0] && Remaining(r.1) == Remaining(it)[1..]
  {
    if it.front < it.back then (Some(it.data[it.front]), it.(front := it.front + 1))
    else (None, it)
  }

  /** `next_back`: yields the back component, or `None` once nothing remains. */
  function NextBack<T>(it: ArrayIter<T>): (r: (Option<T>, ArrayIter<T>))
    requires ValidIter(it)
    ensures ValidIter(r.1)
    ensures r.0.None? <==> |Remaining(it)| == 0
    ensures r.0.None? ==> r.1 == it
    ensures r.0.Some? ==>
              && r.0.value == Remaining(it)[|Remaining(it)| - 1]
              && Remaining(r.1) == Remaining(it)[..|Remaining(it)| - 1]
  {
    if it.front < it.back then
      DropLast(it.data, it.front, it.back);
      (Some(it.data[it.back - 1]), it.(back := it.back - 1))
    else (None, it)
  }

  /** Dropping the last element of a slice shortens the slice by one. */
  lemma DropLast<T>(s: seq<T>, a: nat, b: nat)
    requires a < b <= |s|
    ensures s[a..b - 1] == s[a..b][..b - a - 1]
  {
  }

  /** Drains `into_iter()` with `next` until it returns `None`. */
  method CollectForward<T>(v: seq<T>) returns (out: seq<T>)
    ensures out == v
  {
    var it := IntoIter(v);
    out := [];
    while true
      invariant ValidIter(it)
      invariant out + Remaining(it) == v
      decreases |Remaining(it)|
    {
      var step := Next(it);
      if step.0.None? {
        break;
      }
      out := out + [step.0.value];
      it := step.1;
    }
  }

  /** Drains `into_iter()` with `next_back` until it returns `None`. */
  method CollectBackward<T>(v: seq<T>) returns (out: seq<T>)
    ensures |out| == |v|
    ensures forall k :: 0 <= k < |v| ==> out[k] == v[|v| - 1 - k]
  {
    var it := IntoIter(v);
    out := [];
    while true
      invariant ValidIter(it)
      invariant |out| <= |v|
      invariant Remaining(it) == v[..|v| - |out|]
      invariant forall k :: 0 <= k < |out| ==> out[k] == v[|v| - 1 - k]
      decreases |Remaining(it)|
    {
      var step := NextBack(it);
      if step.0.None? {
        break;
      }
      out := out + [step.0.value];
      it := step.1;
    }
  }

  /** The sum of the fields written out left to right: `v[0] + v[1] + ... `. */
  function FieldSum(v: seq<int>): int {
    if |v| == 0 then 0 else FieldSum(v[..|v| - 1]) + v[|v| - 1]
  }

  /** `for i in v.into_iter() { sum += i; }`, starting from 0. */
  method IterSum(v: seq<int>) returns (sum: int)
    ensures sum == FieldSum(v)
  {
    var it := IntoIter(v);
    sum := 0;
    while true
      invariant ValidIter(it)
      invariant it.data == v && it.back == |v|
      invariant sum == FieldSum(v[..it.front])
      decreases |Remaining(it)|
    {
      var step := Next(it);
      if step.0.None? {
        break;
      }
      assert v[..it.front + 1][..it.front] == v[..it.front];
      sum := sum + step.0.value;
      it := step.1;
    }
    assert v[..it.front] == v;
  }

  /** Items separated by ", ", as `write!` and `debug_struct` place them. */
  function Join(items: seq<string>): string {
    if |items| == 0 then ""
    else if |items| == 1 then items[0]
    else items[0] + ", " + Join(items[1..])
  }

  /** Appending an item to a nonempty list appends ", " and the item to the
      joined text; a single item is joined as itself. */
  lemma {:induction false} JoinSnoc(items: seq<string>, s: string)
    ensures Join([s]) == s
    ensures |items| > 0 ==> Join(items + [s]) == Join(items) + ", " + s
  {
    if |items| > 1 {
      JoinSnoc(items[1..], s);
      assert (items + [s])[1..] == items[1..] + [s];
    } else if |items| == 1 {
      assert items + [s] == [items[0], s];
    }
  }

  /** The display form "(v1, v2, ..., vN)": the items in order, separated
      by ", ", between parentheses. */
  function DisplayTuple(items: seq<string>): (r: string)
    ensures |r| >= 2 && r[0] == '(' && r[|r| - 1] == ')'
    ensures r[1..|r| - 1] == Join(items)
    ensures |items| == 0 ==> r == "()"
    ensures |items| == 1 ==> r == "(" + items[0] + ")"
  {
    "(" + Join(items) + ")"
  }

  /** Each further item goes at the end of the display form, after ", ". */
  lemma DisplayTupleSnoc(items: seq<string>, s: string)
    requires |items| > 0
    ensures DisplayTuple(items + [s])
         == DisplayTuple(items)[..|DisplayTuple(items)| - 1] + ", " + s + ")"
  {
    JoinSnoc(items, s);
    var d := DisplayTuple(items);
    assert d[..|d| - 1] == "(" + Join(items);
  }

  /** The entry list "f1: v1, f2: v2, ..." of a debug struct. */
  function DebugEntries(fields: seq<string>, values: seq<string>): string
    requires |fields| == |values|
  {
    if |fields| == 0 then ""
    else if |fields| == 1 then fields[0] + ": " + values[0]
    else fields[0] + ": " + values[0] + ", " + DebugEntries(fields[1..], values[1..])
  }

  /** The entries "f: v" of a debug struct, one per field, in field order. */
  function Entries(fields: seq<string>, values: seq<string>): (r: seq<string>)
    requires |fields| == |values|
    ensures |r| == |fields|
    ensures forall i :: 0 <= i < |r| ==> r[i] == fields[i] + ": " + values[i]
  {
    seq(|fields|, i requires 0 <= i < |fields| => fields[i] + ": " + values[i])
  }

  /** The entry list is the entries joined with ", ". */
  lemma {:induction false} DebugEntriesJoined(fields: seq<string>, values: seq<string>)
    requires |fields| == |values|
    ensures DebugEntries(fields, values) == Join(Entries(fields, values))
  {
    if |fields| > 1 {
      DebugEntriesJoined(fields[1..], values[1..]);
      assert Entries(fields, values)[1..] == Entries(fields[1..], values[1..]);
    }
  }

  /** The output shape of a formatter's `debug_struct(name).field(..)...finish()`:
      "Name { f1: v1, ..., fN: vN }", or just "Name" with no fields. */
  function DebugStruct(name: string, fields: seq<string>, values: seq<string>): (r: string)
    requires |fields| == |values|
    ensures |fields| == 0 ==> r == name
    ensures |fields| > 0 ==> |r| >= |name| + 5 && r[..|name| + 3] == name + " { " && r[|r| - 2..] == " }"
  {
    if |fields| == 0 then name
    else name + " { " + DebugEntries(fields, values) + " }"
  }

  /** The macro-generated `Debug`: the struct's name, then each field's name
      and its value rendered by `show`, in declared order. */
  function Debug<T>(name: string, fields: seq<string>, v: seq<T>, show: T -> string): (r: string)
    requires |fields| == |v|
    ensures |fields| == 0 ==> r == name
    ensures |fields| > 0 ==> r == name + " { " + Join(Entries(fields, Map(v, show))) + " }"
  {
    DebugEntriesJoined(fields, Map(v, show));
    DebugStruct(name, fields, Map(v, show))
  }

  // ---------------------------------------------------------------------------
  // Decimal rendering of integers, standing for the element type's own formatter.

  function DigitChar(d: nat): char
    requires d < 10
  {
    "0123456789"[d]
  }

  function NatToString(n: nat): string
    decreases n
  {
    if n < 10 then [DigitChar(n)] else NatToString(n / 10) + [DigitChar(n % 10)]
  }

  function IntToString(i: int): string {
    if i < 0 then "-" + NatToString(-i) else NatToString(i)
  }
}
