# my_infer Tensor — a verified Dafny model

This project models `my_infer::Tensor<T>`, the tensor at the heart of the
my_infer inference engine. A tensor has two parts:

- a shape vector of one to three entries;
- a storage cube of rows x columns x channels elements, which Armadillo holds as
  one flat buffer, column-major within each channel plane, with the planes
  contiguous.

The element at (channel, row, col) sits at buffer offset
`row + col*rows + channel*rows*cols`. Callers see a row-major view instead:
within a plane, the column index varies fastest. The operations are:

- construction from dimensions or from a shape vector;
- copy and move;
- the accessors;
- filling from a value or a flat sequence;
- extraction to a flat sequence;
- element-wise transformation;
- reshape and flatten;
- padding.

The model has three modules plus a scenario module:

- `Shape` (shape.dfy). The shape vector: its element count, and the cube that
  each operation derives from it.
- `Layout` (layout.dfy). Pure functions on sequences:
  - the offset map and its inverse `Decode`;
  - plane-wise transposition;
  - the row-major to physical conversions `ToPhysical` and `ToRowMajor`;
  - the buffer that Fill writes;
  - the two column-major extractions (as written and as intended);
  - the padded cube.

  These functions are the specifications the class methods are proved against.
- `Tensors` (tensor.dfy). The class `Tensor<T>`:
  - fields: the shape vector `rawShape`, the buffer `data` (an `array`), and
    the extents `nRows`, `nCols`, `nSlices`;
  - one constructor or method per member of the C++ class;
  - the loop-carrying methods `FillValues`, `Values` and `Reshape` keep the
    loops of the source with their invariants;
  - `CopyIntoSubcube` writes Padding's subcube assignment element by element.
    In the source that copy is a single call into Armadillo, not a loop the
    source writes.
- `Scenarios` (scenarios.dfy). Client code that combines several calls.

The C++ `assert`s abort the program, so they become `requires` clauses.
`Valid()` is the state every constructor establishes and every mutator keeps:

- 1 to 3 shape entries whose product is the buffer length;
- one channel for shapes of fewer than three entries;
- one row for a one-entry shape.

Among the calls the model admits, a moved-from tensor is the one reachable
state outside `Valid()`. Armadillo
leaves its cube empty, and every size-dependent operation rejects an empty cube.

Points where the code behaves in ways a reader might not expect, all kept as
written:

- The code never checks that dimensions are positive: a cube with a zero
  extent can be built. The accessors, Fill(value) and Padding reject it
  afterwards, and so does every operation that calls them.
- `values(false)` with two or more non-empty channels reads past the buffer
  (see Findings).
- Padding always re-records the shape as `[channels, rows, cols]`, even with
  zero pads. The elements are unchanged (`Layout.PaddedByZero`).
- The 3-argument constructor records `[rows, cols, channels]`. The
  shape-vector constructor hands `shapes[0]` over as the channel count.
  Padding records `[channels, rows, cols]`. Reshape reads a 3-entry shape as
  `[rows, cols, channels]`. All four are kept as written.
  `Shape.ConstructedShapeIsRequested` and `Shape.PaddedShapeMisreads` state
  exactly when these interpretations agree.

## Model

| member | source | states |
|---|---|---|
| Shape.Product | source/data/tensor.cpp:175-178 | the element count of a shape vector, accumulated entry by entry as Reshape's `new_size` loop does; it is zero exactly when some entry is zero |
| Shape.ConstructedShape | source/data/tensor.cpp:21-38 | the shape vector the shape-vector constructor records: the vector itself for one or two entries, [s1, s2, s0] for three; the recorded vector has as many entries as the requested one, and its properties are in Shape.ConstructedShapeProduct, Shape.ConstructedShapeIsRequested and Shape.ConstructedShapeDescribesCube |
| Shape.ProductSmall | source/data/tensor.cpp:175-178 | the element count of a 1-, 2- or 3-entry shape is the product of its entries, as Reshape's loop accumulates it |
| Shape.CubeDims | source/data/tensor.cpp:183-189 | the cube Reshape relabels to has exactly Product(shape) elements, one channel for shapes of at most two entries and one row for a single entry |
| Shape.ConstructedDims | source/data/tensor.cpp:28-38 | the cube the shape-vector constructor allocates holds Product(shape) elements, with the degenerate axes one |
| Shape.ConstructedShapeProduct | source/data/tensor.cpp:21-38 | the shape vector the shape-vector constructor records has the same element count as the one requested |
| Shape.ConstructedShapeIsRequested | source/data/tensor.cpp:21-38 | the recorded shape equals the requested shape exactly when it has fewer than three entries or all three are equal |
| Shape.ConstructedShapeDescribesCube | source/data/tensor.cpp:21-38 | read back by Reshape's convention, the recorded shape describes the cube that was allocated |
| Shape.PaddedShape | source/data/tensor.cpp:231 | the shape Padding records has three entries whose product is the new element count |
| Shape.PaddedShapeMisreads | source/data/tensor.cpp:231 | read back by Reshape's convention, Padding's recorded shape describes its cube exactly when rows, columns and channels are all equal |
| Layout.Offset | source/data/tensor.cpp:95-99 | the physical offset of an in-bounds position lies inside the buffer |
| Layout.RowMajorOffset | source/data/tensor.cpp:139-144 | defines the row-major position of (ch, r, c) as c + r*cols + ch*rows*cols; the contract adds only that it lies inside the buffer |
| Layout.Decode | source/data/tensor.cpp:100-109 | every buffer offset is the offset of an in-bounds position |
| Layout.DecodeOffset | source/data/tensor.cpp:95-109 | decoding the offset of a position gives the position back: index() and at() address the same bijection |
| Layout.OffsetInjective | source/data/tensor.cpp:95-99 | two in-bounds positions with the same offset are the same position |
| Layout.WithPlane | source/data/tensor.cpp:124-127 | assigning a plane changes the buffer inside that plane's segment to the new plane and leaves it unchanged outside |
| Layout.Transposed | source/data/tensor.cpp:126-127 | defines the per-plane `.t()` of Fill and of values(true) (tensor.cpp:143) on the whole buffer; the contract states only that the length is kept, and the element-wise meaning is Layout.TransposedAt |
| Layout.TransposedAt | source/data/tensor.cpp:126-127 | element (ch, r, c) of the transposed planes is element (ch, c, r) of the input |
| Layout.TransposedTwice | source/data/tensor.cpp:126-127 | transposing every plane twice gives the input back |
| Layout.TransposedThin | source/data/tensor.cpp:129-133 | planes with a single row or column are unchanged by transposition |
| Layout.TransposedPlane | source/data/tensor.cpp:123-128 | plane i of the transposed cube is the transpose of plane i on its own, as each loop iteration computes it |
| Layout.ToPhysical | source/data/tensor.cpp:120-128 | defines the buffer Fill's transposing branch writes from row-major values; the contract states only that the length is kept, and its meaning is Layout.ToPhysicalAt and Layout.RowMajorRoundTrip |
| Layout.ToRowMajor | source/data/tensor.cpp:139-144 | defines the sequence values(true) returns from a buffer; the contract states only that the length is kept, and its meaning is Layout.ToRowMajorAt and Layout.PhysicalRoundTrip. The contracts of Values, FillValues, Reshape and Flatten are stated in terms of it |
| Layout.ToPhysicalAt | source/data/tensor.cpp:120-128 | row-major input element (ch, r, c) is stored at physical position (ch, r, c) |
| Layout.ToRowMajorAt | source/data/tensor.cpp:139-144 | the row-major extraction puts physical element (ch, r, c) at row-major position (ch, r, c) |
| Layout.RowMajorRoundTrip | source/data/tensor.cpp:116-150 | converting row-major values to the physical layout and back gives the values |
| Layout.PhysicalRoundTrip | source/data/tensor.cpp:116-150 | extracting a buffer row-major and storing it back gives the buffer |
| Layout.ToRowMajorSingleRow | source/data/tensor.cpp:129-133 | with one row per plane the row-major view is the buffer, which is why the verbatim copy is right for a 1-entry shape |
| Layout.Filled | source/data/tensor.cpp:116-134 | defines the buffer Fill writes: ToPhysical(values) on the transposing branch, values verbatim otherwise; its properties are in Layout.FillThenRowMajor |
| Layout.FillThenRowMajor | source/data/tensor.cpp:116-150 | whenever Fill transposes or the planes have one row, the row-major extraction of the filled buffer is the input |
| Layout.ColumnMajorValues | source/data/tensor.cpp:145-147 | the intended column-major extraction has one plane's worth of elements per channel |
| Layout.ColumnMajorValuesIsBuffer | source/data/tensor.cpp:145-147 | the intended column-major extraction is the buffer itself |
| Layout.ColumnMajorReadAsWritten | source/data/tensor.cpp:145-147 | the column-major copy as written, when it stays in bounds, has one plane's worth of elements per channel |
| Layout.ColumnMajorReadSingleChannel | source/data/tensor.cpp:145-147 | with one channel the copy as written is the buffer |
| Layout.ColumnMajorReadOverruns | source/data/tensor.cpp:145-147 | with two or more non-empty channels the copy as written reads past the end of the buffer |
| Layout.SubcubeCopied | source/data/tensor.cpp:228-229 | copying into the subcube keeps the size of the target cube |
| Layout.Padded | source/data/tensor.cpp:214-232 | the padded cube has (rows+top+bottom) x (cols+left+right) x channels elements |
| Layout.SubcubeCopiedNothing | source/data/tensor.cpp:224-227 | before the copy the new cube is the filled cube |
| Layout.SubcubeTarget | source/data/tensor.cpp:228-229 | the position the subcube assignment writes old element k to: its (ch, row+top, col+left) in the grown cube, which lies inside that cube |
| Layout.SubcubeCopiedStep | source/data/tensor.cpp:228-229 | copying one more old element writes it at its shifted position and nowhere else |
| Layout.PaddedAt | source/data/tensor.cpp:214-232 | a padded element is the padding value outside the copied rectangle and the old element at (i-top, j-left) inside it |
| Layout.PaddedByZero | source/data/tensor.cpp:214-232 | padding by zero on every side gives the old elements back, whatever the padding value |
| Tensors.Tensor.OfSize | source/data/tensor.cpp:9-14 | Tensor(size) is a valid 1 x size x 1 tensor with shape [size] and a fresh buffer |
| Tensors.Tensor.OfMatrix | source/data/tensor.cpp:16-19 | Tensor(rows, cols) is a valid rows x cols x 1 tensor with shape [rows, cols] |
| Tensors.Tensor.OfCube | source/data/tensor.cpp:21-26 | Tensor(channels, rows, cols) is a valid rows x cols x channels tensor whose shape is recorded as [rows, cols, channels] |
| Tensors.Tensor.FromShape | source/data/tensor.cpp:28-38 | Tensor(shapes) allocates the cube ConstructedDims(shapes) and records ConstructedShape(shapes) |
| Tensors.Tensor.Copy | include/data/tensor.hpp:18 | the copy has a fresh buffer with the same elements, the same cube and the same shape |
| Tensors.Tensor.Move | include/data/tensor.hpp:20 | the new tensor takes over t's buffer, cube and shape; t keeps an empty shape vector |
| Tensors.Tensor.Assign | source/data/tensor.cpp:41-46 | after copy assignment this holds t's elements, cube and shape, self-assignment included; the model's buffer is a new array, and buffer identity is not modelled (see Left out) |
| Tensors.Tensor.MoveAssign | source/data/tensor.cpp:48-53 | after move assignment this holds t's buffer, cube and shape, and t keeps an empty shape vector |
| Tensors.Tensor.Rows | source/data/tensor.cpp:56-60 | rows() of a non-empty cube is its positive row count |
| Tensors.Tensor.Cols | source/data/tensor.cpp:62-66 | cols() of a non-empty cube is its positive column count |
| Tensors.Tensor.Channels | source/data/tensor.cpp:67-71 | channels() of a non-empty cube is its positive channel count |
| Tensors.Tensor.Size | source/data/tensor.cpp:72-76 | size() is rows*cols*channels, and in a valid tensor the product of the shape vector |
| Tensors.Tensor.PlaneSize | source/data/tensor.cpp:77-80 | plane_size() times the channel count is size() |
| Tensors.Tensor.IsEmpty | source/data/tensor.cpp:151-154 | empty() can only answer false, since size() rejects an empty cube first |
| Tensors.Tensor.Shapes | source/data/tensor.cpp:197-200 | in a valid tensor shapes() has 1 to 3 entries whose product is the element count |
| Tensors.Tensor.PlaneStart | source/data/tensor.cpp:82-94 | defines the start of plane ch as ch*plane_size(); the contract adds that the whole plane lies inside the buffer |
| Tensors.Tensor.Slice | source/data/tensor.cpp:82-94 | slice(ch) has plane_size() elements, and its (r, c) element is element (ch, r, c) of the cube |
| Tensors.Tensor.At | source/data/tensor.cpp:95-99 | at(ch, r, c) is element (r, c) of slice(ch) |
| Tensors.Tensor.Index | source/data/tensor.cpp:100-109 | index(k) is at() of the position whose offset is k |
| Tensors.Tensor.SetIndex | source/data/tensor.cpp:100-104 | writing through index(k) changes element k and no other |
| Tensors.Tensor.AssignSlice | source/data/tensor.cpp:124-127 | assigning to slice(ch) makes that plane the new matrix and leaves the other planes unchanged |
| Tensors.Tensor.Fill | source/data/tensor.cpp:110-114 | Fill(value) makes every element value |
| Tensors.Tensor.FillValues | source/data/tensor.cpp:115-134 | Fill(values, rowMajor) stores Filled(values, rowMajor and at least two shape entries); with rowMajor, values(true) afterwards returns values |
| Tensors.Tensor.Values | source/data/tensor.cpp:135-150 | values(true) is the row-major sequence of the cube; values(false) of a single channel is exactly what the as-written read ColumnMajorReadAsWritten yields, and equals the buffer |
| Tensors.Tensor.Transform | source/data/tensor.cpp:168-172 | Transform(f) replaces every element e by f(e) |
| Tensors.Tensor.Reshape | source/data/tensor.cpp:173-196 | Reshape keeps the buffer object and relabels the cube by CubeDims(shapes); with rowMajor the row-major values are unchanged, without it the buffer is unchanged |
| Tensors.Tensor.Flatten | source/data/tensor.cpp:209-213 | Flatten gives a 1 x size x 1 cube with shape [size]; with rowMajor the buffer becomes the old row-major values |
| Tensors.Tensor.Padding | source/data/tensor.cpp:214-232 | Padding grows rows and columns by the pads, holds Padded(old elements) and records [channels, rows, cols] |
| Tensors.PaddedCube | source/data/tensor.cpp:224-229 | the new cube is a fresh array holding Padded(source) |
| Tensors.CopyIntoSubcube | source/data/tensor.cpp:228-229 | the subcube assignment copies the old cube into the rectangle at (top, left) and keeps the rest of the target |
| Scenarios.FillTwoPlanes | source/data/tensor.cpp:115-150 | a 2-channel 2 x 3 tensor filled row-major with 0..11 returns 0..11 from values(true), also after Flatten(true) |
| Scenarios.ReshapeMatrix | source/data/tensor.cpp:173-196 | reshaping a filled 2 x 3 matrix to [3, 2] row-major gives shape [3, 2], a 3 x 2 cube and the same row-major values |
| Scenarios.ReshapeThereAndBack | source/data/tensor.cpp:173-196 | reshaping to another shape and back with the same flag restores the shape, and the row-major values or the buffer |

## Left out

- Show(): prints the planes to standard output; I/O is not modelled.
- Rand(): fills with normally distributed random numbers; randomness is not modelled.
- data() and raw_shapes(): these hand out mutable references to the private members. The model's fields are visible directly instead, and aliasing through such references is not modelled.
- Slice references: the model covers reading from a reference (`Slice`) and assigning a whole matrix to it (`AssignSlice`). Element-wise writes through a retained reference, and the reference's invalidation when another operation reallocates the buffer, are not modelled.
- Element type: the repository instantiates only `Tensor<float>` on a float cube. The model is generic in `T` because no modelled operation computes with elements. Floating point is not modelled.
- Construction contents: the constructors leave the elements as Armadillo allocates them. Their contracts say nothing about the initial elements.
- Tensors.Tensor.Reshape: does not model the 32-bit wrap-around of `new_size` or of the dimension products, because the model uses unbounded naturals. A shape whose true product differs from size() but wraps around to it is accepted by the source and rejected by the model's precondition. The model also requires 1 to 3 entries. An empty vector makes the source index shapes[0] out of range (tensor.cpp:184-188). A vector of four or more entries is accepted by the source: it records the vector whole and reshapes the cube to its first three entries, which keeps fewer elements than size() whenever a later entry exceeds 1. The model excludes these calls. Both kinds of excluded call lead in the source to states outside `Valid()`. After a four-entry Reshape, for example, Fill(values, true) transposes only plane 0.
- 32-bit arithmetic: the source computes sizes and indices in `uint32_t`. This covers `size()` narrowing the buffer length (tensor.cpp:73-75), the product in `plane_size()` (tensor.cpp:78-80), the offsets `i * plane_size` in Fill and values (tensor.cpp:122-146) and the shape `{size()}` that Flatten records (tensor.cpp:211). The model uses unbounded naturals for all of these. It matches the source only for planes and cubes of fewer than 2^32 elements.
- Tensors.Tensor.Assign: always gives this a new array. Armadillo's copy assignment skips self-assignment and reuses the existing memory when the sizes match. Only a retained slice reference could observe the difference, and those are not modelled.
- Tensors.Tensor.Move: does not state what t's cube holds afterwards, because Armadillo's moved-from state is library behaviour outside this model. The model leaves t's buffer in place.
- Tensors.Tensor.MoveAssign: requires `t != this`, because self-move-assignment leaves the std::vector and the Armadillo cube in unspecified states. Like Move, it does not state what t's cube holds afterwards; the model leaves t's buffer in place.
- Tensors.Tensor.Values: requires one channel when rowMajor is false. With two or more non-empty channels the source reads past the buffer (see Findings), and that read has no value to model.
- Tensors.Tensor.FillValues: requires `Valid()` in addition to the source's size check. Among the calls the model admits, every reachable non-empty tensor satisfies it, and the branch taken depends on the recorded shape matching the cube.
- Tensors.Tensor.Padding: requires a non-empty cube. For an empty cube the subcube bounds `n_rows - pad_row2 - 1` and `n_cols - pad_col2 - 1` in the source underflow or describe an empty span that Armadillo rejects.
- include/data/tensor_util.hpp and main.cpp use the tensor; they are not part of this model.

## Findings

| source | as written | input that shows it | evidently intended | confidence | as-written member | corrected member |
|---|---|---|---|---|---|---|
| source/data/tensor.cpp:146 | values(false) copies plane i from `plane.begin() + i*plane_size`, i.e. from buffer offset 2*i*plane_size, which is past the end of the buffer for the last plane whenever there are two or more non-empty channels | channels=2, rows=2, cols=3: plane 1 is read from offsets 12..17 of a 12-element buffer | copy plane i from `plane.begin()`, so that values(false) is the buffer, each plane column-major | not executed | Layout.ColumnMajorReadAsWritten (Layout.ColumnMajorReadOverruns) | Layout.ColumnMajorValues (Layout.ColumnMajorValuesIsBuffer) |
