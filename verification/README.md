# Tensor<float> of DariusInfer, modelled in Dafny

This project models the tensor type at the base of the DariusInfer inference engine
(`source/tensor.cpp`). A tensor is a cube of at most three dimensions. It is stored as one flat
buffer in Armadillo's cube layout: slices follow one another and each slice is column-major, so
cell (row, col, channel) lives at offset `channel*rows*cols + col*rows + row`. Beside the
buffer, the tensor keeps a logical shape of one to three entries, which is what callers see.

The project has four modules:

- `Arith` holds the few facts about multiplication, division and remainder that the layout
  proofs need.
- `Layout` holds the pure specification of the storage. It covers:
  - shape normalisation (`Normalize`, `PadShape`) and Reshape's choice of dimensions
    (`ReshapeDims`);
  - the physical and row-major offsets, and decoding a flat offset into a cell (`CellAt`);
  - the per-plane transpose, and the two whole-cube conversions between row-major order and
    memory order (`RowMajorToPhysical` is `Fill(values, true)`, `PhysicalToRowMajor` is
    `values(true)`). Both are defined over the first c slices and recurse on c, one slice
    at a time;
  - the padded cube (`Padded`).
- `Tensors` holds the class `Tensor`. Its fields are the dimensions, the memory as an `array<real>`
  and the logical shape. Every constructor and operation of the class is modelled as a
  constructor, method or function over that state. Every method keeps the class invariant
  `Tensor.Valid`. The methods that rearrange elements are proved against the `Layout` functions:
  FillValues, Values, SetAt, Padding, Reshape and Flatten. The simple writes (SetIndex,
  SetData, Fill, Ones, Transform, CopyFrom) state their new memory directly. The properties the
  source relies on are proved as lemmas about the `Layout` functions:
  - fill and read-back are inverse;
  - Reshape and Flatten preserve the row-major element order;
  - Padding puts every old element at its shifted cell and the padding value everywhere else.
- `Scenarios` holds client code that chains several operations, plus one concrete padding
  example.

On the logical shape, the model follows the code. Only three constructors collapse leading unit
dimensions: `Tensor(channels, rows, cols)`, `Tensor(shapes)` and `Tensor(size)`. The other
shape-changing operations set the logical shape without collapsing:

- `Tensor(rows, cols)` keeps `[rows, cols]` even when rows is 1.
- Padding sets `[channels, rows, cols]` even when channels is 1.
- Reshape stores the requested shape verbatim.
- Flatten stores `[size]`.

So collapsing is not an invariant of the class. What every operation does keep
(`Tensor.Valid`) is this:

- the buffer holds exactly rows × cols × channels elements;
- the logical shape has 1 to 3 entries whose product is that same count;
- the logical shape, left-padded with 1s, is exactly the physical shape [channels, rows, cols].

The last point holds whether or not the shape is collapsed: `[1, 5]`, `[5]` and `[1, 1, 5]`
all stand for one row of five columns.

A failing `CHECK` in the source aborts the program. The model turns each such check into a
precondition of the member. That includes the `!data_.empty()` check inside `channels()`, which
`slice(channel)` and `matrix_raw_ptr(index)` call.

## Model

| member | source | states |
|---|---|---|
| Layout.Normalize | source/tensor.cpp:11-22 | The logical shape of Tensor(channels, rows, cols) has 1 to 3 entries. Padded back to three entries it gives exactly [channels, rows, cols]. A shape with more than one entry never starts with 1. The element count is kept. |
| Layout.PadShape | source/tensor.cpp:42-48 | A 1–3 entry shape left-padded with 1s is three entries long and ends with the given shape. Its leading entries are 1 and its product equals the original's. |
| Layout.NormalizePadShape | source/tensor.cpp:38-63 | A shape that is already collapsed (no leading 1 unless it has a single entry) survives the trip through Tensor(shapes) unchanged as its logical shape. |
| Layout.ReshapeDims | source/tensor.cpp:387-401 | Reshape's physical dimensions are the requested shape left-padded with 1s, read as (channels, rows, cols). Their product equals the product of the requested shape. |
| Layout.OffsetBound | source/tensor.cpp:185-199 | For a cell inside the cube, both the column-major memory offset and the row-major offset are below the element count. |
| Layout.CellAtOffset | source/tensor.cpp:151-161 | Decoding the memory offset of a cell gives back that cell. |
| Layout.OffsetOfCellAt | source/tensor.cpp:151-161 | Every offset below the element count decodes to a cell inside the cube whose memory offset is that offset. |
| Layout.TransposeAt | source/tensor.cpp:286-290 | Entry (i, j) of the transposed column-major m×n matrix is entry (j, i) of the original. |
| Layout.TransposeInvolution | source/tensor.cpp:438 | Transposing an m×n matrix and then the resulting n×m matrix gives the original back. |
| Layout.RowMajorToPhysicalPlane | source/tensor.cpp:283-291 | After Fill(values, true), slice i is the transpose of block i of `values`, read as a cols × rows column-major matrix. |
| Layout.PhysicalToRowMajorPlane | source/tensor.cpp:434-439 | In values(true), block c is the transpose of slice c, so it lists that slice row by row. |
| Layout.RowMajorToPhysicalAt | source/tensor.cpp:271-297 | After Fill(values, true), the cell (row, col, channel) holds the value at that cell's row-major position in `values`. |
| Layout.PhysicalToRowMajorAt | source/tensor.cpp:423-445 | values(true) puts each cell's stored value at that cell's row-major position. |
| Layout.RowMajorRoundTrip | source/tensor.cpp:423-445 | Reading row-major what was filled row-major returns exactly the values filled. |
| Layout.PhysicalRoundTrip | source/tensor.cpp:271-297 | Filling row-major from the row-major read-out reproduces the memory exactly. |
| Layout.SingleRowLayout | source/tensor.cpp:333-342 | For one row and one channel, the row-major order and memory order coincide in both directions. |
| Layout.Padded | source/tensor.cpp:232-238 | The padded cube holds (rows+top+bottom) × (cols+left+right) × channels elements. |
| Layout.PaddedAt | source/tensor.cpp:238-249 | In the padded cube, a cell inside the frame holds the original element at (row−top, col−left, channel). Every other cell holds the padding value. |
| Tensors.WriteRowMajor | source/tensor.cpp:283-291 | The channel loop of Fill(values, true) transposes each block of `values` into its slice, and leaves the memory exactly `RowMajorToPhysical` of the values. |
| Tensors.ReadRowMajor | source/tensor.cpp:432-442 | The copy loop of values(true) appends one transposed slice after another and returns exactly `PhysicalToRowMajor` of the memory. |
| Tensors.FrameInto | source/tensor.cpp:238-249 | The triple copy loop turns a buffer filled with the padding value into exactly the padded cube of the source buffer. |
| Tensors.Tensor.Cube | source/tensor.cpp:8-23 | A cube of the given dimensions whose logical shape is the collapsed form of [channels, rows, cols]. |
| Tensors.Tensor.Vector | source/tensor.cpp:25-29 | One row and one channel of `size` columns, with logical shape [size]. |
| Tensors.Tensor.Matrix | source/tensor.cpp:31-35 | One channel of rows × cols, with logical shape [rows, cols] and no collapsing. |
| Tensors.Tensor.FromShape | source/tensor.cpp:38-63 | The dimensions are the 1–3 entry shape left-padded with 1s. The buffer holds the product of the shape. The logical shape is the collapsed form. |
| Tensors.Tensor.Copy | source/tensor.cpp:66-73 | A copy has its own fresh buffer with the same contents, dimensions and logical shape. |
| Tensors.Tensor.CopyFrom | source/tensor.cpp:100-112 | Assignment takes over the other tensor's contents, dimensions and logical shape. Assigning a tensor to itself leaves it unchanged. |
| Tensors.Tensor.Empty | source/tensor.cpp:149 | A tensor is empty exactly when one of its dimensions is 0. |
| Tensors.Tensor.Rows | source/tensor.cpp:114-118 | The row count of a non-empty tensor is positive, and times cols and channels it gives the element count. |
| Tensors.Tensor.Cols | source/tensor.cpp:120-124 | The column count of a non-empty tensor is positive, and times rows and channels it gives the element count. |
| Tensors.Tensor.Channels | source/tensor.cpp:126-130 | The channel count of a non-empty tensor is positive, and times rows and cols it gives the element count. |
| Tensors.Tensor.Size | source/tensor.cpp:132-136 | The size is positive. It equals both rows × cols × channels and the product of the logical shape. |
| Tensors.Tensor.Shapes | source/tensor.cpp:163-167 | The physical shape is [channels, rows, cols], and its product is the size. |
| Tensors.Tensor.RawShapes | source/tensor.cpp:363-369 | raw_shapes() returns the stored logical shape. It has 1 to 3 entries, covers exactly the stored elements, and left-padded with 1s it is the physical shape [channels, rows, cols]. |
| Tensors.Tensor.At | source/tensor.cpp:185-191 | For an in-range cell, the element is the one at that cell's row-major position in values(true). |
| Tensors.Tensor.SetAt | source/tensor.cpp:193-199 | Writing through at(channel, row, col) changes that cell's memory position only, and at() then reads the new value. |
| Tensors.Tensor.Index | source/tensor.cpp:151-155 | Memory offset `offset` addresses an in-range cell, and index(offset) equals at() of that cell. |
| Tensors.Tensor.SetIndex | source/tensor.cpp:157-161 | Writing through index(offset) changes that memory position only. |
| Tensors.Tensor.Slice | source/tensor.cpp:179-183 | Defined only on a non-empty tensor, as the `channels()` check demands. A channel's plane has rows × cols entries. Its column-major entry (row, col) is at(channel, row, col). |
| Tensors.Tensor.AssignSlice | source/tensor.cpp:173-177 | Defined only on a non-empty tensor. Assigning a plane through slice(channel) replaces that channel's block of memory only. The slice then reads back as the plane. |
| Tensors.Tensor.MatrixOffset | source/tensor.cpp:447-454 | On a non-empty tensor, matrix_raw_ptr(index) points at offset index × rows × cols. That is the number of elements in the index planes before it, so it is the start of channel index's plane. The plane lies inside the buffer and is exactly slice(index). |
| Tensors.Tensor.SetData | source/tensor.cpp:138-147 | With matching dimensions, set_data makes the memory exactly the given cube. |
| Tensors.Tensor.Fill | source/tensor.cpp:263-269 | Every element becomes the value. |
| Tensors.Tensor.Ones | source/tensor.cpp:351-355 | Every element becomes 1. |
| Tensors.Tensor.Transform | source/tensor.cpp:357-361 | Every element e becomes f(e), in place. |
| Tensors.Tensor.FillValues | source/tensor.cpp:271-297 | The values must be as many as the elements. Row-major filling leaves the memory `RowMajorToPhysical` of the values: each channel's block, transposed. Otherwise the values are copied verbatim. |
| Tensors.Tensor.Values | source/tensor.cpp:423-445 | The row-major read-out appends each channel's transposed plane, which is `PhysicalToRowMajor` of the memory. Otherwise it is the memory verbatim. |
| Tensors.Tensor.Padding | source/tensor.cpp:201-261 | The dimensions grow by the pads and the channels stay. The logical shape becomes [channels, rows, cols] uncollapsed. The new memory is the padded cube of the old one. |
| Tensors.Tensor.Reshape | source/tensor.cpp:371-407 | The new dimensions are ReshapeDims of the shape, and the logical shape is the shape verbatim. Row-major: the row-major order of the elements is unchanged. Otherwise: the memory is unchanged. |
| Tensors.Tensor.Flatten | source/tensor.cpp:309-343 | The tensor becomes one row of all elements with logical shape [size]. Row-major: the row holds values(true) of the old tensor. Otherwise: the row holds the old memory order. |
| Scenarios.ValuesFillRoundTrip | source/tensor.cpp:423-445 | Filling a tensor with its own values(b), in the same order b, leaves its memory unchanged. |
| Scenarios.FillValuesRoundTrip | source/tensor.cpp:271-297 | values(b) right after Fill(v, b) returns v. |
| Scenarios.FlattenReshapeRoundTrip | source/tensor.cpp:309-343 | For any valid non-empty tensor, collapsed logical shape or not, Flatten(true) followed by Reshape(true) to the former logical shape restores the dimensions, the logical shape and the memory. |
| Scenarios.PaddingScenario | source/tensor.cpp:201-261 | Padding a 2×2 single-channel cube of ones by 1 on every side with 0 gives a 4×4 plane of ones framed by zeros. |

## Left out

- Element type: `float` is modelled as `real`. No arithmetic is done on elements except through the function passed to Transform, so rounding plays no part.
- Dimensions and the `size()` and Reshape products are unbounded naturals. The 32-bit wrap-around of `uint32_t` is not modelled: `new_rows`/`new_cols` in Padding, `rows * cols * channels` in Flatten, and the `std::accumulate` product in Reshape.
- Tensors.Tensor.Cube, Vector, Matrix and FromShape: the initial element values are not stated. Armadillo's cube constructor zero-fills or leaves memory uninitialised depending on its version.
- Move constructor and move assignment (`source/tensor.cpp:76-98`): ownership transfer has no counterpart here. Their effect on the target is the same as Copy and CopyFrom.
- `data()`, `raw_ptr()` and `raw_ptr(offset)`: raw access to the underlying cube. The offset arithmetic is covered by Index and MatrixOffset.
- Slice: references returned by `slice(channel)` are modelled as a value read (Slice) and a whole-plane write (AssignSlice). Aliasing a live reference is not modelled.
- `Rand()`: randomness is not modelled.
- `Show()`: logging is not modelled.
- The `CHECK` failures (program abort) are modelled as preconditions, not as an error path. Padding's `throw` branches duplicate its `CHECK`s and are unreachable once those hold.
