/**
 * The tensor itself: a cube of rows x cols x channels values kept in one flat buffer in
 * the layout of module Layout, plus the logical shape vector (1 to 3 entries) that callers see.
 */
module Tensors {
  import opened Arith
  import opened Layout

  /** Copies `s` into `a` from index `start` on (a block copy); the rest of `a` is untouched. */
  method CopyInto(a: array<real>, start: nat, s: seq<real>)
    requires start + |s| <= a.Length
    modifies a
    ensures a[..] == old(a[..start]) + s + old(a[start + |s|..])
  {
    forall k | start <= k < start + |s| {
      a[k] := s[k - start];
    }
  }

  /** The first two parts of a three-part concatenation. */
  lemma {:induction false} PrefixOfConcat(a: seq<real>, b: seq<real>, c: seq<real>)
    ensures (a + b + c)[..|a| + |b|] == a + b
  {
  }

  /** The loop of values(true): each plane of `mem`, transposed, appended in channel order. */
  method ReadRowMajor(mem: array<real>, rows: nat, cols: nat, channels: nat) returns (v: seq<real>)
    requires mem.Length == Planes(rows * cols, channels)
    ensures v == PhysicalToRowMajor(mem[..], rows, cols, channels)
  {
    MulNat(rows, cols);
    var out := new real[mem.Length];
    var index := 0;
    for c := 0 to channels
      invariant index == Planes(rows * cols, c) && index <= out.Length
      invariant out[..index] == PhysicalToRowMajor(mem[..], rows, cols, c)
    {
      PlanesMono(rows * cols, c + 1, channels);
      var next := Planes(rows * cols, c + 1);
      assert mem[index..next] == PlaneOf(mem[..], rows * cols, c);
      var plane := Transpose(mem[index..next], rows, cols);
      ghost var before, after := out[..index], out[next..];
      CopyInto(out, index, plane);
      PrefixOfConcat(before, plane, after);
      index := next;
    }
    assert out[..index] == out[..];
    v := out[..];
  }

  /**
   * The loop of Fill(values, true): block c of `values`, read as a cols x rows column-major
   * matrix, is transposed into slice c, channel by channel.
   */
  method WriteRowMajor(mem: array<real>, values: seq<real>, rows: nat, cols: nat, channels: nat)
    requires mem.Length == Planes(rows * cols, channels) && |values| == mem.Length
    modifies mem
    ensures mem[..] == RowMajorToPhysical(values, rows, cols, channels)
  {
    MulNat(rows, cols);
    for c := 0 to channels
      invariant Planes(rows * cols, c) <= mem.Length
      invariant mem[..Planes(rows * cols, c)] == RowMajorToPhysical(values, rows, cols, c)
    {
      PlanesMono(rows * cols, c + 1, channels);
      var start, end := Planes(rows * cols, c), Planes(rows * cols, c + 1);
      var block := values[start..end];
      assert block == PlaneOf(values, rows * cols, c);
      var plane := Transpose(block, cols, rows);
      ghost var before, after := mem[..start], mem[end..];
      CopyInto(mem, start, plane);
      PrefixOfConcat(before, plane, after);
    }
    assert mem[..Planes(rows * cols, channels)] == mem[..];
  }

  /**
   * The copy loop of Padding: `dst`, a (rows + top + bottom) x (cols + left + right) x channels
   * cube filled with `value`, receives each cell (i, j, c) of `src` at (i + top, j + left, c).
   */
  method FrameInto(src: array<real>, dst: array<real>, rows: nat, cols: nat, channels: nat,
                   top: nat, bottom: nat, left: nat, right: nat, value: real)
    requires src != dst && rows > 0 && cols > 0
    requires src.Length == Planes(rows * cols, channels)
    requires dst.Length == Planes((rows + top + bottom) * (cols + left + right), channels)
    requires forall k :: 0 <= k < dst.Length ==> dst[k] == value
    modifies dst
    ensures dst[..] == Padded(src[..], rows, cols, channels, top, bottom, left, right, value)
  {
    var newRows, newCols := rows + top + bottom, cols + left + right;
    ghost var original := src[..];
    PaddingStart(original, rows, cols, channels, top, bottom, left, right, value);
    for c := 0 to channels
      modifies dst
      invariant forall k: nat :: k < dst.Length ==>
        dst[k] == PaddingProgress(original, rows, cols, channels,
                                  top, bottom, left, right, value, c, 0, 0, k)
    {
      for i := 0 to rows
        modifies dst
        invariant forall k: nat :: k < dst.Length ==>
          dst[k] == PaddingProgress(original, rows, cols, channels,
                                    top, bottom, left, right, value, c, i, 0, k)
      {
        for j := 0 to cols
          modifies dst
          invariant forall k: nat :: k < dst.Length ==>
            dst[k] == PaddingProgress(original, rows, cols, channels,
                                      top, bottom, left, right, value, c, i, j, k)
        {
          PaddingCopyCell(original, rows, cols, channels, top, bottom, left, right, value, c, i, j);
          dst[Offset(newRows, newCols, i + top, j + left, c)] := src[Offset(rows, cols, i, j, c)];
        }
        PaddingRowDone(original, rows, cols, channels, top, bottom, left, right, value, c, i);
      }
      PaddingChannelDone(original, rows, cols, channels, top, bottom, left, right, value, c);
    }
    ghost var padded := Padded(original, rows, cols, channels, top, bottom, left, right, value);
    PaddingEnd(original, rows, cols, channels, top, bottom, left, right, value);
    assert forall k :: 0 <= k < dst.Length ==> dst[k] == padded[k];
  }

  class Tensor {
    /** Physical dimensions of the cube. */
    var rows: nat
    var cols: nat
    var channels: nat
    /** The cube's memory: slices one after another, each column-major. */
    var mem: array<real>
    /** The logical shape seen by callers. */
    var rawShapes: seq<nat>

    /**
     * The buffer holds exactly the cube, `channels` planes of rows x cols; the logical shape
     * has 1 to 3 entries covering the same count, and left-padded with 1s it is the physical
     * shape [channels, rows, cols].
     */
    ghost predicate Valid()
      reads this
    {
      && mem.Length == Planes(rows * cols, channels)
      && 1 <= |rawShapes| <= 3
      && Product(rawShapes) == mem.Length
      && PadShape(rawShapes) == [channels, rows, cols]
    }

    /** Tensor(channels, rows, cols). */
    constructor Cube(channels: nat, rows: nat, cols: nat)
      ensures Valid() && fresh(mem)
      ensures this.rows == rows && this.cols == cols && this.channels == channels
      ensures rawShapes == Normalize(channels, rows, cols)
    {
      ShapeCount(channels, rows, cols);
      MulNat(rows, cols);
      this.rows, this.cols, this.channels := rows, cols, channels;
      mem := new real[Planes(rows * cols, channels)];
      rawShapes := Normalize(channels, rows, cols);
    }

    /** Tensor(size): one row of `size` columns. */
    constructor Vector(size: nat)
      ensures Valid() && fresh(mem)
      ensures rows == 1 && cols == size && channels == 1
      ensures rawShapes == [size]
    {
      rows, cols, channels := 1, size, 1;
      mem := new real[size];
      rawShapes := [size];
    }

    /** Tensor(rows, cols): one channel, logical shape [rows, cols] even when rows is 1. */
    constructor Matrix(rows: nat, cols: nat)
      ensures Valid() && fresh(mem)
      ensures this.rows == rows && this.cols == cols && channels == 1
      ensures rawShapes == [rows, cols]
    {
      ProductOfThree(1, rows, cols);
      MulNat(rows, cols);
      this.rows, this.cols, channels := rows, cols, 1;
      mem := new real[rows * cols];
      rawShapes := [rows, cols];
    }

    /** Tensor(shapes): the shape is left-padded with 1s to [channels, rows, cols]. */
    constructor FromShape(shapes: seq<nat>)
      requires 1 <= |shapes| <= 3
      ensures Valid() && fresh(mem)
      ensures [channels, rows, cols] == PadShape(shapes)
      ensures mem.Length == Product(shapes)
      ensures rawShapes == Normalize(channels, rows, cols)
    {
      var p := PadShape(shapes);
      var c, r, k := p[0], p[1], p[2];
      assert p == [c, r, k];
      ShapeCount(c, r, k);
      MulNat(r, k);
      channels, rows, cols := c, r, k;
      mem := new real[Planes(r * k, c)];
      rawShapes := Normalize(c, r, k);
    }

    /** Copy construction: an independent buffer with the same contents and shape. */
    constructor Copy(other: Tensor)
      requires other.Valid()
      ensures Valid() && fresh(mem)
      ensures rows == other.rows && cols == other.cols && channels == other.channels
      ensures rawShapes == other.rawShapes && mem[..] == other.mem[..]
    {
      var a := new real[other.mem.Length];
      CopyInto(a, 0, other.mem[..]);
      rows, cols, channels := other.rows, other.cols, other.channels;
      rawShapes := other.rawShapes;
      mem := a;
    }

    /** Copy assignment; assigning a tensor to itself changes nothing. */
    method CopyFrom(other: Tensor)
      requires Valid() && other.Valid()
      modifies this
      ensures Valid()
      ensures rows == old(other.rows) && cols == old(other.cols) && channels == old(other.channels)
      ensures rawShapes == old(other.rawShapes) && mem[..] == old(other.mem[..])
      ensures other != this ==> fresh(mem)
    {
      if other != this {
        var a := new real[other.mem.Length];
        CopyInto(a, 0, other.mem[..]);
        rows, cols, channels := other.rows, other.cols, other.channels;
        rawShapes := other.rawShapes;
        mem := a;
      }
    }

    function Empty(): (e: bool)
      reads this
      requires Valid()
      ensures e <==> rows == 0 || cols == 0 || channels == 0
    {
      PlanesProduct(rows * cols, channels);
      PositiveProduct(rows, cols, channels);
      mem.Length == 0
    }

    function Rows(): (r: nat)
      reads this
      requires Valid() && !Empty()
      ensures r > 0 && r * cols * channels == mem.Length
    {
      PlanesProduct(rows * cols, channels);
      rows
    }

    function Cols(): (c: nat)
      reads this
      requires Valid() && !Empty()
      ensures c > 0 && rows * c * channels == mem.Length
    {
      PlanesProduct(rows * cols, channels);
      cols
    }

    function Channels(): (c: nat)
      reads this
      requires Valid() && !Empty()
      ensures c > 0 && rows * cols * c == mem.Length
    {
      PlanesProduct(rows * cols, channels);
      channels
    }

    /** Number of elements: the product of the physical dimensions and of the logical shape alike. */
    function Size(): (n: nat)
      reads this
      requires Valid() && !Empty()
      ensures n > 0 && n == rows * cols * channels && n == Product(rawShapes)
    {
      PlanesProduct(rows * cols, channels);
      mem.Length
    }

    /** The physical shape [channels, rows, cols]. */
    function Shapes(): (s: seq<nat>)
      reads this
      requires Valid() && !Empty()
      ensures s == [channels, rows, cols] && Product(s) == Size()
    {
      ProductOfThree(channels, rows, cols);
      PlanesProduct(rows * cols, channels);
      [channels, rows, cols]
    }

    /** The logical shape. */
    function RawShapes(): (s: seq<nat>)
      reads this
      requires Valid()
      ensures s == rawShapes
      ensures 1 <= |s| <= 3 && Product(s) == mem.Length
      ensures PadShape(s) == [channels, rows, cols]
    {
      rawShapes
    }

    /** The element of cell (row, col, channel): the value at that cell's row-major place. */
    function At(channel: nat, row: nat, col: nat): (v: real)
      reads this, mem
      requires Valid() && row < rows && col < cols && channel < channels
      ensures Offset(rows, cols, row, col, channel) < mem.Length
      ensures RowMajorOffset(rows, cols, row, col, channel) < mem.Length
      ensures v == PhysicalToRowMajor(mem[..], rows, cols, channels)[RowMajorOffset(rows, cols, row, col, channel)]
    {
      PhysicalToRowMajorAt(mem[..], rows, cols, channels, row, col, channel);
      mem[Offset(rows, cols, row, col, channel)]
    }

    /** Writes through at(channel, row, col): only that cell changes. */
    method SetAt(channel: nat, row: nat, col: nat, v: real)
      requires Valid() && row < rows && col < cols && channel < channels
      modifies mem
      ensures Offset(rows, cols, row, col, channel) < mem.Length
      ensures mem[..] == old(mem[..])[Offset(rows, cols, row, col, channel) := v]
      ensures At(channel, row, col) == v
    {
      OffsetBound(rows, cols, channels, row, col, channel);
      mem[Offset(rows, cols, row, col, channel)] := v;
    }

    /** The element at memory offset `offset`: the cell that offset addresses in the layout. */
    function Index(offset: nat): (v: real)
      reads this, mem
      requires Valid() && offset < mem.Length
      ensures rows > 0 && cols > 0
      ensures var c := CellAt(rows, cols, offset);
        c.row < rows && c.col < cols && c.channel < channels && v == At(c.channel, c.row, c.col)
    {
      OffsetOfCellAt(rows, cols, channels, offset);
      mem[offset]
    }

    /** Writes through index(offset): only that element changes. */
    method SetIndex(offset: nat, v: real)
      requires Valid() && offset < mem.Length
      modifies mem
      ensures mem[..] == old(mem[..])[offset := v]
    {
      mem[offset] := v;
    }

    /** Channel `channel` as a rows x cols column-major plane: entry (row, col) is At(channel, row, col). */
    function Slice(channel: nat): (s: seq<real>)
      reads this, mem
      requires Valid() && !Empty() && channel < channels
      ensures |s| == rows * cols
      ensures forall row: nat, col: nat :: row < rows && col < cols ==>
                Offset(rows, cols, row, col, 0) < |s| && s[Offset(rows, cols, row, col, 0)] == At(channel, row, col)
    {
      PlanesMono(rows * cols, channel + 1, channels);
      PlaneOffsets(rows, cols);
      mem[Planes(rows * cols, channel)..Planes(rows * cols, channel + 1)]
    }

    /** Where matrix_raw_ptr(index) points: the start of channel `index`'s plane. */
    function MatrixOffset(index: nat): (o: nat)
      reads this, mem
      requires Valid() && !Empty() && index < channels
      ensures o == Planes(rows * cols, index)
      ensures o + rows * cols <= mem.Length
      ensures mem[o..o + rows * cols] == Slice(index)
    {
      PlanesMono(rows * cols, index + 1, channels);
      PlanesProduct(rows * cols, index);
      assert index * rows * cols == rows * cols * index;
      index * rows * cols
    }

    /** Assigns a whole plane to channel `channel` (a write through slice(channel)). */
    method AssignSlice(channel: nat, plane: seq<real>)
      requires Valid() && !Empty() && channel < channels && |plane| == rows * cols
      modifies mem
      ensures Planes(rows * cols, channel + 1) <= mem.Length
      ensures mem[..] == old(mem[..Planes(rows * cols, channel)]) + plane
                         + old(mem[Planes(rows * cols, channel + 1)..])
      ensures Slice(channel) == plane
    {
      PlanesMono(rows * cols, channel + 1, channels);
      var start := Planes(rows * cols, channel);
      CopyInto(mem, start, plane);
      assert mem[..][start..start + rows * cols] == plane;
    }

    /** set_data: replaces the contents by a cube of the same dimensions. */
    method SetData(dataRows: nat, dataCols: nat, dataSlices: nat, data: seq<real>)
      requires Valid() && |data| == dataRows * dataCols * dataSlices
      requires dataRows == rows && dataCols == cols && dataSlices == channels
      modifies mem
      ensures mem[..] == data
    {
      PlanesProduct(rows * cols, channels);
      CopyInto(mem, 0, data);
    }

    /** Fill(value): every element becomes `value`. */
    method Fill(value: real)
      requires Valid() && !Empty()
      modifies mem
      ensures forall k :: 0 <= k < mem.Length ==> mem[k] == value
    {
      forall k | 0 <= k < mem.Length {
        mem[k] := value;
      }
    }

    /** Ones(): every element becomes 1. */
    method Ones()
      requires Valid() && !Empty()
      modifies mem
      ensures forall k :: 0 <= k < mem.Length ==> mem[k] == 1.0
    {
      Fill(1.0);
    }

    /** Transform(f): every element e becomes f(e). */
    method Transform(f: real -> real)
      requires Valid() && !Empty()
      modifies mem
      ensures forall k :: 0 <= k < mem.Length ==> mem[k] == f(old(mem[k]))
    {
      forall k | 0 <= k < mem.Length {
        mem[k] := f(mem[k]);
      }
    }

    /**
     * Fill(values, row_major): with row_major, each rows x cols block of `values` is read as
     * a cols x rows column-major matrix and its transpose assigned to its channel's plane;
     * otherwise `values` is copied into memory as it is.
     */
    method FillValues(values: seq<real>, rowMajor: bool)
      requires Valid() && !Empty()
      requires |values| == mem.Length
      modifies mem
      ensures mem[..] == if rowMajor then RowMajorToPhysical(values, rows, cols, channels) else values
    {
      if rowMajor {
        WriteRowMajor(mem, values, rows, cols, channels);
      } else {
        CopyInto(mem, 0, values);
      }
    }

    /**
     * values(row_major): with row_major, each channel's plane transposed and appended in
     * channel order; otherwise the memory as it is.
     */
    method Values(rowMajor: bool) returns (v: seq<real>)
      requires Valid() && !Empty()
      ensures v == if rowMajor then PhysicalToRowMajor(mem[..], rows, cols, channels) else mem[..]
    {
      if !rowMajor {
        v := mem[..];
        return;
      }
      v := ReadRowMajor(mem, rows, cols, channels);
    }

    /**
     * Padding(pads, value) with pads = [top, bottom, left, right]: a new cube, larger by the pads,
     * framing the old one with `value`; the logical shape becomes [channels, rows, cols] uncollapsed.
     */
    method Padding(pads: seq<nat>, value: real)
      requires Valid() && !Empty()
      requires |pads| == 4
      modifies this
      ensures Valid() && fresh(mem)
      ensures rows == old(rows) + pads[0] + pads[1] && cols == old(cols) + pads[2] + pads[3]
      ensures channels == old(channels)
      ensures rawShapes == [channels, rows, cols]
      ensures mem[..] == Padded(old(mem[..]), old(rows), old(cols), old(channels),
                                pads[0], pads[1], pads[2], pads[3], value)
    {
      var top, bottom, left, right := pads[0], pads[1], pads[2], pads[3];
      var originalRows, originalCols, chans := Rows(), Cols(), Channels();
      var newRows, newCols := originalRows + top + bottom, originalCols + left + right;
      var src := mem;
      ShapeCount(chans, newRows, newCols);
      MulNat(newRows, newCols);
      var newData := new real[Planes(newRows * newCols, chans)](_ => value);
      FrameInto(src, newData, originalRows, originalCols, chans, top, bottom, left, right, value);
      mem := newData;
      rows, cols := newRows, newCols;
      rawShapes := [chans, newRows, newCols];
    }

    /**
     * Reshape(shapes, row_major): new physical dimensions for the same elements, the logical
     * shape set verbatim. With row_major the row-major order of the elements is kept (they are
     * read row-major and filled back row-major); without it the memory is kept as it is.
     */
    method Reshape(shapes: seq<nat>, rowMajor: bool)
      requires Valid() && !Empty()
      requires 1 <= |shapes| <= 3 && Product(shapes) == mem.Length
      modifies this, mem
      ensures Valid() && mem == old(mem)
      ensures Dims(rows, cols, channels) == ReshapeDims(shapes)
      ensures rawShapes == shapes
      ensures rowMajor ==> mem[..] == RowMajorToPhysical(
                PhysicalToRowMajor(old(mem[..]), old(rows), old(cols), old(channels)), rows, cols, channels)
      ensures rowMajor ==>
                PhysicalToRowMajor(mem[..], rows, cols, channels)
                == PhysicalToRowMajor(old(mem[..]), old(rows), old(cols), old(channels))
      ensures !rowMajor ==> mem[..] == old(mem[..])
    {
      var flat: seq<real> := [];
      if rowMajor {
        flat := Values(true);
      }
      var d := ReshapeDims(shapes);
      rows, cols, channels := d.rows, d.cols, d.channels;
      rawShapes := shapes;
      if rowMajor {
        FillValues(flat, true);
        RowMajorRoundTrip(flat, rows, cols, channels);
      }
    }

    /**
     * Flatten(row_major): one row holding every element, logical shape [size]. With row_major
     * the row holds the elements in row-major order; without it, in memory order.
     */
    method Flatten(rowMajor: bool)
      requires Valid() && !Empty()
      modifies this, mem
      ensures Valid() && mem == old(mem)
      ensures rows == 1 && cols == old(mem.Length) && channels == 1
      ensures rawShapes == [cols]
      ensures mem[..] == if rowMajor then PhysicalToRowMajor(old(mem[..]), old(rows), old(cols), old(channels))
                         else old(mem[..])
    {
      PlanesProduct(rows * cols, channels);
      var total := rows * cols * channels;
      var flat := Values(rowMajor);
      rawShapes := [total];
      ProductOfThree(1, 1, total);
      rows, cols, channels := 1, total, 1;
      FillValues(flat, rowMajor);
      SingleRowLayout(flat);
    }
  }
}
