# fixed-vectors in Dafny

A model of `fixed-vectors`, a Rust library of small fixed-arity value vectors
(`Vector2`, `Vector3`, `Vector4`, with fields `x, y, z, w`). Every operation of
the library is a fixed rule applied field by field, in declared field order,
and the model proves that this is what each operation does.

The library exists in several revisions, and the model covers all of them:

- the hand-written `Vector2` and `Vector3` (`src/vector2.rs`, `src/vector3.rs`);
- an early `impl_vector!` macro (`src/macros.rs`), with `len`, `to_vec` and `IntoIterator`;
- a later `impl_vector!` macro (`src/macros/mod.rs`), instantiated at arities 2, 3 and 4 in `src/lib.rs`;
- the copy-based operator macro (`src/macros/operators.rs`);
- the floating-point macro (`src/macros/floating.rs`);
- the trait surface (`src/traits.rs`).

It also covers the voxel example (`examples/voxel.rs`). That example builds a
chunk of voxels with a triple loop and finds a voxel again through a
closed-form index formula.

Modules, one per file:

- `FixedVector` (`fixed_vector.dfy`): one vector of arity N is a `seq<T>` of
  N components, position i being the i-th declared field. It holds `map`,
  the per-field zip that every binary operator expands to, `==`/`!=`,
  `to_vec`, the by-value iterator with `next`/`next_back`, and the `Debug`
  and `Display` output shapes.
- `Arithmetic` (`arithmetic.dfy`): the binary operators `+ - * / %` and unary
  `-` on integer components. `/` and `%` are Rust's truncating operators. It
  also holds both revisions of compound assignment and `pow`.
- `Vectors` (`vectors.dfy`): the datatypes `Vector2`/`Vector3`/`Vector4`, tied to
  the sequence model by `ToArrayN`/`FromArrayN`. It holds tuples, `len`/`size`,
  `Default`, the hand-written `eq`/`ne`, `Display` and `Debug`, `Vector3`'s
  getters, setters, `Index`/`IndexMut` and operators.
- `Floating` (`floating.dfy`): the floating-point layer as algebra over `real`.
  It holds `dot`, `length_squared`, `length`, `normalized`/`normalize`,
  `direction`, `lerp`, the rounding maps and `powi`. The square root is a
  function parameter.
- `Voxels` (`voxel.dfy`): `VoxelChunk::new`, `position_as_index`, and chunk
  indexing.

Conventions of the model:

- Components are unbounded `int`/`nat`/`real`.
- A Rust panic is a precondition: a zero integer divisor, or an index of 3 or
  more into a `Vector3`.
- A mutating operation (`+=`, `set_x`, `v[i] = e`, `normalize`) is a function
  or method returning the new value.
- The rendering of one component by its own `Debug`/`Display` is a parameter
  `show`. `IntToString` stands in for it in the examples.

## Model

| member | source | states |
|---|---|---|
| FixedVector.Map | src/macros/mod.rs:54-61 | `map` keeps the arity, and component i of the result is `f` applied to component i |
| FixedVector.ZipWith | src/macros/mod.rs:90-98 | the per-field expansion of a binary operator: the arity is kept and field i is `op(a[i], b[i])`, each pair in the operator's domain |
| FixedVector.Equal | src/macros/mod.rs:74-78 | the conjunction of per-field `==` holds exactly when every component is equal, and exactly when the two vectors are equal |
| FixedVector.NotEqual | src/vector3.rs:131-133 | the disjunction of per-field `!=` is the exact negation of `eq`, and holds exactly when some component differs |
| FixedVector.ToVec | src/macros.rs:73-77 | the collection has `len()` elements, and element i is field i, so it equals `to_array` as a sequence |
| FixedVector.IntoIter | src/macros.rs:80-87 | `into_iter` starts with every component still to be yielded, in field order |
| FixedVector.Next | src/macros.rs:80-87 | `next` returns `None` exactly when nothing remains (and then changes nothing); otherwise it yields the front component and removes it |
| FixedVector.NextBack | src/macros.rs:80-87 | `next_back` returns `None` exactly when nothing remains; otherwise it yields the back component and removes it |
| FixedVector.CollectForward | src/tests.rs:273-290 | draining the iterator with `next` yields exactly the components in field order, then ends |
| FixedVector.CollectBackward | src/tests.rs:292-310 | draining the iterator with `next_back` yields exactly the components in reverse field order |
| FixedVector.IterSum | src/tests.rs:261-271 | adding up what the iterator yields, from 0, gives the sum of the fields |
| FixedVector.DisplayTuple | src/vector2.rs:43-47 | the display form is wrapped in parentheses, and between them are the rendered components joined by `, `; it is `()` for no components and `(a)` for one |
| FixedVector.JoinSnoc | src/vector3.rs:119-123 | appending one more rendered component to a non-empty list appends `, ` and that component to the joined text |
| FixedVector.DisplayTupleSnoc | src/vector3.rs:119-123 | one more component turns the closing `)` into `, ` the new component and `)` |
| FixedVector.DebugStruct | src/macros/mod.rs:64-72 | the debug form starts with the struct name and ` { ` and ends with ` }`, and is the bare name when there are no fields |
| FixedVector.DebugEntriesJoined | src/macros/mod.rs:68-70 | the debug entry list is the entries `field: value`, one per field in declared order, separated by `, ` |
| FixedVector.Debug | src/macros/mod.rs:64-72 | the macro's `Debug` is `Name { f1: v1, .., fN: vN }`, the entries `field: value` in declared order joined by `, `, each value rendered by the component's formatter; with no fields it is the bare name |
| Arithmetic.TruncDiv | src/vector3.rs:215-220 | Rust's integer `/` truncates toward zero: the magnitude of the quotient is the largest `q` with `\|b\| * q <= \|a\|`, and a nonzero quotient is negative exactly when the operands' signs differ |
| Arithmetic.TruncRem | src/vector3.rs:239-244 | Rust's integer `%` is smaller than the divisor in magnitude, and a nonzero remainder has the dividend's sign |
| Arithmetic.TruncDivision | src/vector3.rs:212-246 | Rust's integer `/` and `%` form a truncating division: `a == b * (a / b) + a % b`, the remainder is smaller than the divisor in magnitude, a nonzero remainder has the dividend's sign, and the quotient never overshoots |
| Arithmetic.ZipOp | src/macros/mod.rs:90-162 | each of `+ - * / %` is component-wise, and for `/` and `%` every divisor component must be nonzero |
| Arithmetic.Neg | src/macros/mod.rs:82-88 | unary `-` keeps the arity, and each component of `-v` is the additive inverse of the component of `v` |
| Arithmetic.CompoundAssign | src/macros/mod.rs:100-104 | updating the fields in place one after another leaves the value `a op b`, the same as replacing the whole value at once |
| Arithmetic.ReplaceAssign | src/macros/operators.rs:14-20 | `a op= b` written as a whole-value replacement leaves component i equal to `a[i] op b[i]` |
| Arithmetic.Pow | src/traits.rs:77-80 | `pow(n)` keeps the arity and raises each component to `n` |
| Arithmetic.PowZero | src/traits.rs:77-80 | `pow(0)` is all ones |
| Arithmetic.PowSteps | src/traits.rs:77-80 | `pow(n + 1)` is `pow(n) * v`, component-wise |
| Arithmetic.Identities | src/macros/mod.rs:90-130 | `v + 0 == v` and `v * 1 == v` |
| Arithmetic.Inverses | src/macros/mod.rs:82-114 | `v - v` and `v + -v` are zero, and `-(-v) == v` |
| Arithmetic.DivRemRecombine | src/macros/mod.rs:138-162 | `b * (a / b) + a % b == a` at every component, whenever `a / b` is defined |
| Arithmetic.TruncatingExamples | src/vector3.rs:373-391 | the `/` and `%` results of the tests, plus where truncation differs from Euclidean division (-7 / 2 is -3, remainder -1) |
| Vectors.ToArray2 | src/macros/mod.rs:37-39 | `to_array` has one element per declared field; which element holds which field is stated by `NewStoresInOrder` and `ArrayRoundTrip` |
| Vectors.ToArray3 | src/vector3.rs:90-93 | `as_array` has one element per declared field; its order is stated by `NewStoresInOrder` and `ArrayRoundTrip` |
| Vectors.ToArray4 | src/macros/mod.rs:37-39 | `to_array` has one element per declared field; its order is stated by `NewStoresInOrder` and `ArrayRoundTrip` |
| Vectors.FromArray2 | src/tests.rs:408-414 | `Vector2::from([a, b])` converts back to the same array |
| Vectors.FromArray3 | src/vector3.rs:307-315 | `Vector3::from([a, b, c])` converts back to the same array |
| Vectors.FromArray4 | src/tests.rs:408-414 | `Vector4::from([a, b, c, d])` converts back to the same array |
| Vectors.NewStoresInOrder | src/macros/mod.rs:18-22 | `new(v1, .., vN)` stores argument i in the i-th declared field, at arities 2, 3 and 4 |
| Vectors.ArrayRoundTrip | src/tests.rs:408-414 | `from(v.to_array()) == v`, and `from` of an array of the right length converts back to that array, at arities 2, 3 and 4 |
| Vectors.ToTuple2 | src/traits.rs:250-253 | `to_tuple` holds the fields in declared order |
| Vectors.ToTuple3 | src/vector3.rs:86-88 | `as_tuple` is `(x, y, z)` |
| Vectors.ToTuple4 | src/tests.rs:427-435 | the tuple form of `Vector4` is `(x, y, z, w)` |
| Vectors.FromTuple3 | src/vector3.rs:296-304 | `from((a, b, c))` stores the tuple's elements in field order |
| Vectors.TupleRoundTrip | src/vector3.rs:296-304 | `from(v.as_tuple()) == v` and `from(t).as_tuple() == t` |
| Vectors.Len2 | src/macros.rs:47-49 | `len()` is the number of fields, independent of the contents |
| Vectors.Len3 | src/traits.rs:47-49 | `len()` is `LEN`, the number of fields |
| Vectors.Len4 | src/traits.rs:47-49 | `len()` is `LEN`, the number of fields |
| Vectors.Size2 | src/traits.rs:31-33 | `size()` is the element size times the number of fields |
| Vectors.Size3 | src/traits.rs:31-33 | `size()` is the element size times the number of fields |
| Vectors.Size4 | src/traits.rs:31-33 | `size()` is the element size times the number of fields |
| Vectors.FieldListsMatchArity | src/lib.rs:72-74 | the field lists `x, y` / `x, y, z` / `x, y, z, w` have the arities 2, 3, 4, and a `u16` vector has size 4, 6, 8 |
| Vectors.Default2 | src/vector2.rs:23-30 | `Default` sets both components to the element type's default |
| Vectors.Default3 | src/vector3.rs:97-105 | `Default` sets every component to the element type's default |
| Vectors.Eq2 | src/vector2.rs:51-53 | `eq` holds exactly when the vectors are equal, and agrees with the macro's `eq` |
| Vectors.Ne2 | src/vector2.rs:55-57 | `ne` is the exact negation of `eq`, and agrees with the macro's per-field `!=` |
| Vectors.Eq3 | src/vector3.rs:127-129 | `eq` holds exactly when the vectors are equal, and agrees with the macro's `eq` |
| Vectors.Ne3 | src/vector3.rs:131-133 | `ne` is the exact negation of `eq`, and agrees with the macro's per-field `!=` |
| Vectors.Display2 | src/vector2.rs:43-47 | `Vector2`'s hand-written `Display` is the tuple form of its components in field order |
| Vectors.Display3 | src/vector3.rs:119-123 | `Vector3`'s hand-written `Display` is the tuple form of its components in field order |
| Vectors.Debug2 | src/vector2.rs:33-40 | `Vector2`'s hand-written `Debug` is the macro's `Debug` for the name `Vector2` and the fields `x, y` |
| Vectors.Debug3 | src/vector3.rs:108-116 | `Vector3`'s hand-written `Debug` is the macro's `Debug` for the name `Vector3` and the fields `x, y, z` |
| Vectors.Debug2Layout | src/vector2.rs:33-40 | `Vector2`'s `Debug` renders `Vector2 { x: .., y: .. }` |
| Vectors.Debug4Layout | src/macros/mod.rs:64-72 | the macro's `Debug` of a `Vector4` is `Vector4 { x: .., y: .., z: .., w: .. }` in field order |
| Vectors.DebugExample | src/tests.rs:208-217 | `Vector2::new(0, 1)` renders as `Vector2 { x: 0, y: 1 }` |
| Vectors.DisplayExamples | src/tests.rs:220-229 | `(4, 2)` and `(7, 7, 7)` render as the tests expect |
| Vectors.Index3 | src/vector3.rs:260-271 | `v[0]`, `v[1]`, `v[2]` read x, y, z, and any other index is outside the domain |
| Vectors.SetIndex3 | src/vector3.rs:274-283 | writing `v[i] = e` makes component i equal to `e` and leaves the other two unchanged |
| Vectors.SetX | src/vector3.rs:66-69 | `set_x` is a write through index 0 |
| Vectors.SetY | src/vector3.rs:71-74 | `set_y` is a write through index 1 |
| Vectors.SetZ | src/vector3.rs:76-79 | `set_z` is a write through index 2 |
| Vectors.GetAfterSet | src/vector3.rs:37-79 | a getter after a setter returns the stored value, and the other two getters are unaffected |
| Vectors.Op3 | src/vector3.rs:140-246 | `Vector3`'s hand-written `+ - * / %` agree with the component-wise operator of the macro |
| Vectors.OpAssign3 | src/vector3.rs:153-257 | `Vector3`'s hand-written compound assignments leave the value `a op b` |
| Vectors.Vector3OperatorExamples | src/vector3.rs:343-391 | the operator and compound-assignment results the `Vector3` tests expect |
| Vectors.MapExample | src/macros/mod.rs:48-51 | `Vector2::new(1, 2).map(\|i\| i * 2)` is `Vector2::new(2, 4)` |
| Vectors.AddAssignExamples | src/lib.rs:16-20 | `(1, 2) += (1, 2)` is `(2, 4)`; likewise at arities 3 and 4; `-(4, 3, 2, 1)` is `(-4, -3, -2, -1)` |
| Floating.Zero | src/traits.rs:90-93 | `zero()` keeps the arity and sets every component to zero |
| Floating.SumNonNegative | src/macros/floating.rs:43-45 | a sum of non-negative terms is non-negative, and zero exactly when every term is zero |
| Floating.Dot | src/macros/floating.rs:20-24 | `dot` is zero when either side is the zero vector, and a vector's dot product with itself is non-negative and zero only at the zero vector |
| Floating.DotCommutes | src/macros/floating.rs:20-24 | the dot product is commutative |
| Floating.LengthSquared | src/macros/floating.rs:38-46 | the sum of the squared components is never negative, and is zero exactly at the zero vector |
| Floating.LengthSquaredIsSelfDot | src/macros/floating.rs:38-46 | `length_squared` equals the dot product of the vector with itself |
| Floating.Length | src/macros/floating.rs:222-224 | with an exact square root, `length` is non-negative and its square is `length_squared` |
| Floating.SqrtEach | src/macros/floating.rs:205-207 | `sqrt()` keeps the arity, and with an exact square root each non-negative component becomes its root |
| Floating.DivideEach | src/macros/floating.rs:247-249 | dividing every component by the same nonzero value: each result times that value gives the component back, and the result is zero exactly when the input is |
| Floating.Normalized | src/macros/floating.rs:238-250 | `normalized` keeps the arity, gives the zero vector exactly at the zero vector, and is zero only there |
| Floating.NormalizedScales | src/macros/floating.rs:245-249 | away from zero, every component is divided by the same positive value, the square root of `length_squared` |
| Floating.Normalize | src/macros/floating.rs:265-278 | the in-place `normalize`, with its own two branches, leaves the value `normalized()` of the old value |
| Floating.NormalizedIsUnit | src/macros/floating.rs:238-250 | with an exact square root, a nonzero vector normalizes to squared length 1 |
| Floating.Sub | src/macros/mod.rs:106-114 | component i of `a - b` added back to `b[i]` gives `a[i]` |
| Floating.Direction | src/traits.rs:215-220 | `direction(to)` is `(to - self).normalized()`: it keeps the arity and is zero exactly when the two points coincide |
| Floating.DirectionIsUnit | src/traits.rs:215-220 | with an exact square root, the direction between two distinct points has squared length 1 |
| Floating.Lerp | src/macros/floating.rs:181-185 | component i of `lerp` is `a[i] + weight * (b[i] - a[i])` |
| Floating.LerpEnds | src/macros/floating.rs:181-185 | weight 0 gives the start and weight 1 gives the end |
| Floating.LerpBetween | src/macros/floating.rs:181-185 | a weight in [0, 1] keeps every component between its two end values |
| Floating.FloorEach | src/macros/floating.rs:61-63 | each component becomes the greatest integer not above it |
| Floating.CeilEach | src/macros/floating.rs:78-80 | each component becomes the least integer not below it |
| Floating.RoundEach | src/macros/floating.rs:95-97 | each component becomes an integer at most one half away, and of two integers exactly halfway away, the one farther from zero |
| Floating.AbsEach | src/macros/floating.rs:112-114 | each component becomes its non-negative magnitude |
| Floating.TruncEach | src/macros/floating.rs:129-131 | each component becomes an integer of the same sign, less than 1 smaller in magnitude |
| Floating.FractEach | src/macros/floating.rs:146-148 | each component becomes its fractional part: added to the integer part it gives the component back, and it is below 1 in magnitude |
| Floating.PowiEach | src/macros/floating.rs:163-165 | `powi(n)` raises every component to the integer power `n`, and a negative power needs nonzero components |
| Floating.PowiZero | src/macros/floating.rs:163-165 | `powi(0)` is all ones |
| Floating.PowiSteps | src/macros/floating.rs:163-165 | `powi(n + 1)` is `powi(n)` times `v`, component-wise |
| Floating.PowiReciprocal | src/macros/floating.rs:163-165 | `powi(-1)` of a vector with no zero component is its component-wise reciprocal |
| Floating.DotExamples | src/tests.rs:516-525 | the dot products 10 and 28 of the tests, and the squared length 25 of (3, 4) |
| Floating.NormalizedExample | src/macros/floating.rs:238-250 | with an exact square root, (3, 4) normalizes to (0.6, 0.8) |
| Floating.LerpPowiExamples | src/tests.rs:504-513 | `lerp` with weight 1 gives the end point, and `powi(2)` of (2, 4) is (4, 16) |
| Floating.RoundingExamples | src/macros/floating.rs:56-148 | the doc examples: `floor`, `ceil`, `round` of (1.6, 2.3), `abs` and `trunc` of (-2.6, 2.3), `fract` of (-2.5, 2.25); and `round` of (-2.5, 2.5) is (-3, 3) |
| Voxels.PositionAsIndex | examples/voxel.rs:48-50 | `position_as_index` of an in-bounds position is below `size.x * size.y * size.z` |
| Voxels.IndexInjective | examples/voxel.rs:44-50 | distinct in-bounds positions have distinct indices |
| Voxels.IndexToPositionToIndex | examples/voxel.rs:48-50 | every index inside the chunk is the index of exactly one in-bounds position, recovered by mixed-radix digits |
| Voxels.PositionToIndexToPosition | examples/voxel.rs:48-50 | the index formula is inverted by reading the index back as digits |
| Voxels.NewChunk | examples/voxel.rs:17-33 | the triple loop stores `size` unchanged and pushes `size.x * size.y * size.z` voxels, and the voxel at list position i has an in-bounds position whose index is i |
| Voxels.Index | examples/voxel.rs:36-42 | in a chunk built by `new`, the voxel found at an in-bounds position has that position |
| Voxels.ChunkLookup | examples/voxel.rs:44-50 | the construction order is why the index formula finds the right voxel |
| Voxels.LookupExample | examples/voxel.rs:52-56 | in a chunk of size (8, 16, 8), the voxel at (4, 8, 4) has position (4, 8, 4) |

## Left out

- Floating point is modelled as exact `real` arithmetic. IEEE-754 rounding, and so the exact decimals the tests compare against, are not modelled.
- The IEEE-754 special values `inf`, `-inf` and `NaN` have no counterpart among the reals. Where Rust produces one, the model either has a precondition (a division by zero, a negative power of a zero component) or promises nothing (`SqrtEach` at a negative component). A `length_squared` that overflows to `inf` has no counterpart at all, because exact reals do not overflow.
- Floating.PowiEach: requires every component to be nonzero when the power is negative. In Rust such a component gives `inf` or `-inf`; it is excluded here because the reals have no infinity.
- The `libm` square root bindings (src/macros/floating.rs:302-315) are not modelled. The square root is a parameter `sqrt`. `normalized`, `normalize` and `direction` need only that it is positive on positive inputs. The unit-length lemmas need it to be exact.
- The scalar maps (`floor`, `ceil`, `round`, `trunc`, `fract`, `abs`) are concrete functions on reals, not uninterpreted ones, so their contracts can say what each computes. `round` rounds halfway cases away from zero, as Rust's does.
- `powf` is left out: a real power with a real exponent has no exact model here.
- Fixed-width integer overflow (`i16`, `i32`, `u32` wrap-around or panics) is not modelled; components are unbounded integers.
- Arithmetic.ZipOp: does not model the overflow panic of `+ - *` at the element type's width, because components are unbounded.
- Voxels.NewChunk: does not model the `u32` overflow of `size.x * size.y * size.z`, or the `usize` cast of `position_as_index`, because coordinates are `nat`.
- Floating.NormalizedIsUnit: holds only for an exact square root over the reals; with IEEE-754 the length is 1 only approximately.
- Floating.Length: states properties of the result only when `sqrt` is an exact square root.
- Vectors.Debug3: states that `Vector3`'s `Debug` is the macro's `Debug`, whose text `FixedVector.Debug` gives. The concrete string `Vector3 { x: .., y: .., z: .. }` is not derived, because unfolding long string literals is costly for the solver.
- The `Display` of `Vector4` and the arity-generic `Display` (the test at src/tests.rs:220-229 expects `(1, 3, 3, 7)`): no implementation is shown for it.
- The `NAME`, `SIZE` and `LEN` associated constants, `name()`, `try_from(Vec)`, tuple `From` for the macro-generated types, `min`/`max` and the bitwise operators are used by the tests, but their implementations are not shown.
- Hashing, `Copy` and `Clone` are not modelled: they state nothing about the values.
- The `sum_repeating` token macro (src/macros/floating.rs:288-292) is not modelled directly. The sum it expands to is modelled as `Sum`, a left-to-right addition.
- The formatter machinery beyond the shape of the output string is not modelled. How one component renders is the parameter `show`.
- `examples/custom_vector.rs` and `examples/tuplable_vector.rs` are demonstrations that only print; they are not part of this model.
- `get_x_mut`, `get_y_mut` and `get_z_mut` (src/vector3.rs:51-64) have no member of their own: a reference is not modelled as an alias. A write through one of them has the effect of `set_x`/`set_y`/`set_z` or of `v[i] = e`, which `SetX`, `SetY`, `SetZ` and `SetIndex3` model. `IndexMut` likewise becomes `SetIndex3`, returning the updated value.
- `Vector2::from([a, b])`, `Vector4::from([a, b, c, d])` and `to_tuple` of `Vector2` and `Vector4` are macro-generated, with no implementation shown; `FromArray2`, `FromArray4`, `ToTuple2` and `ToTuple4` follow the behaviour the tests expect of them (src/tests.rs:408-414 and 427-435).
