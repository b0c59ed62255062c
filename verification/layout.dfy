/**
 * The memory layout of a tensor's cube: the shape vectors, the physical offset of a cell,
 * the per-plane transpose, the two whole-cube conversions between physical order and
 * row-major order, and the padded cube.
 *
 * A cube of rows x cols x channels cells keeps its slices (channels) one after another,
 * and each slice column-major: cell (row, col, channel) lives at
 * channel * rows * cols + col * rows + row. Row-major order, the order callers supply
 * and read flat values in, keeps the slices one after another as well but each slice
 * row by row: the same cell is at channel * rows * cols + row * cols + col.
 * The start of a slice, channel * rows * cols, is written Planes(rows * cols, channel).
 */
module Layout {
  import opened Arith

  /** Product of the entries of a shape vector (1 for the empty vector). */
  function Product(s: seq<nat>): nat
  {
    if s == [] then 1 else s[0] * Product(s[1..])
  }

  lemma {:induction false} ProductOfThree(a: nat, b: nat, c: nat)
    ensures Product([c]) == c && Product([b, c]) == b * c
    ensures Product([a, b, c]) == a * b * c
  {
    assert [a, b, c][1..] == [b, c];
    assert [b, c][1..] == [c];
    assert [c][1..] == [];
    assert Product([c]) == c;
    assert Product([b, c]) == b * c;
  }

  /** The three-entry shape [channels, rows, cols] that a 1- to 3-entry shape stands for: missing leading entries are 1. */
  function PadShape(s: seq<nat>): (p: seq<nat>)
    requires 1 <= |s| <= 3
    ensures |p| == 3 && p[3 - |s|..] == s
    ensures forall i :: 0 <= i < 3 - |s| ==> p[i] == 1
    ensures Product(p) == Product(s)
  {
    if |s| == 3 then s
    else if |s| == 2 then [1] + s
    else [1, 1] + s
  }

  /** The logical shape given to a cube of channels x rows x cols: leading unit dimensions are collapsed. */
  function Normalize(channels: nat, rows: nat, cols: nat): (s: seq<nat>)
    ensures 1 <= |s| <= 3
    ensures PadShape(s) == [channels, rows, cols]
    ensures |s| > 1 ==> s[0] != 1
    ensures Product(s) == rows * cols * channels
  {
    ProductOfThree(channels, rows, cols);
    if channels == 1 && rows == 1 then [cols]
    else if channels == 1 then [rows, cols]
    else [channels, rows, cols]
  }

  /** A shape with no leading unit dimension is its own normal form: the constructor from a shape keeps it verbatim. */
  lemma {:induction false} NormalizePadShape(s: seq<nat>)
    requires 1 <= |s| <= 3
    requires |s| > 1 ==> s[0] != 1
    ensures var p := PadShape(s); Normalize(p[0], p[1], p[2]) == s
  {
    var p := PadShape(s);
    var n := Normalize(p[0], p[1], p[2]);
    assert PadShape(n) == p;
    if |s| == 3 {
      assert p == s;
    } else if |s| == 2 {
      assert p == [1, s[0], s[1]];
    } else {
      assert p == [1, 1, s[0]];
    }
  }

  /** The physical dimensions of a cube, rows x cols x channels. */
  datatype Dims = Dims(rows: nat, cols: nat, channels: nat)

  /** The physical dimensions that Reshape gives a cube for a 1- to 3-entry logical shape. */
  function ReshapeDims(shapes: seq<nat>): (d: Dims)
    requires 1 <= |shapes| <= 3
    ensures var p := PadShape(shapes); d == Dims(p[1], p[2], p[0])
    ensures d.rows * d.cols * d.channels == Product(shapes)
    ensures Planes(d.rows * d.cols, d.channels) == Product(shapes)
  {
    var p := PadShape(shapes);
    assert p == [p[0], p[1], p[2]];
    ShapeCount(p[0], p[1], p[2]);
    var d := if |shapes| == 3 then Dims(shapes[1], shapes[2], shapes[0])
      else if |shapes| == 2 then Dims(shapes[0], shapes[1], 1)
      else Dims(1, shapes[0], 1);
    assert d == Dims(p[1], p[2], p[0]);
    d
  }

  /** The logical shape [channels, rows, cols] covers the cube's `channels` planes of rows x cols. */
  lemma {:induction false} ShapeCount(channels: nat, rows: nat, cols: nat)
    ensures Product([channels, rows, cols]) == Planes(rows * cols, channels)
    ensures Planes(rows * cols, channels) == rows * cols * channels
  {
    ProductOfThree(channels, rows, cols);
    PlanesProduct(rows * cols, channels);
    assert channels * rows * cols == channels * (rows * cols);
    assert channels * (rows * cols) == rows * cols * channels;
  }

  /** Memory offset of cell (row, col, channel): slices one after another, each column-major. */
  function Offset(rows: nat, cols: nat, row: nat, col: nat, channel: nat): nat
  {
    Planes(rows * cols, channel) + col * rows + row
  }

  /** Row-major position of cell (row, col, channel): slices one after another, each row by row. */
  function RowMajorOffset(rows: nat, cols: nat, row: nat, col: nat, channel: nat): nat
  {
    Planes(rows * cols, channel) + row * cols + col
  }

  lemma {:induction false} OffsetBound(rows: nat, cols: nat, channels: nat, row: nat, col: nat, channel: nat)
    requires row < rows && col < cols && channel < channels
    ensures Offset(rows, cols, row, col, channel) < Planes(rows * cols, channels)
    ensures RowMajorOffset(rows, cols, row, col, channel) < Planes(rows * cols, channels)
  {
    PlaneBound(col, row, rows, cols);
    PlaneBound(row, col, cols, rows);
    PlanesWithin(rows * cols, channel, channels, col * rows + row);
    PlanesWithin(rows * cols, channel, channels, row * cols + col);
  }

  /** A cell of a cube: its row, column and channel (slice). */
  datatype Cell = Cell(row: nat, col: nat, channel: nat)

  /** The cell stored at memory offset k of a cube with the given rows and cols. */
  function CellAt(rows: nat, cols: nat, k: nat): Cell
    requires rows > 0 && cols > 0
  {
    MulLe(1, rows, cols);
    var inPlane := k % (rows * cols);
    Cell(inPlane % rows, inPlane / rows, k / (rows * cols))
  }

  /** Offset is one-to-one: the cell at a cell's offset is that cell. */
  lemma {:induction false} CellAtOffset(rows: nat, cols: nat, row: nat, col: nat, channel: nat)
    requires row < rows && col < cols
    ensures CellAt(rows, cols, Offset(rows, cols, row, col, channel)) == Cell(row, col, channel)
  {
    PlaneBound(col, row, rows, cols);
    PlanesProduct(rows * cols, channel);
    DivModUnique(Offset(rows, cols, row, col, channel), rows * cols, channel, col * rows + row);
    DivModUnique(col * rows + row, rows, col, row);
  }

  /** Offset is onto: every memory offset of the cube is the offset of an in-range cell. */
  lemma {:induction false} OffsetOfCellAt(rows: nat, cols: nat, channels: nat, k: nat)
    requires k < Planes(rows * cols, channels)
    ensures rows > 0 && cols > 0
    ensures var c := CellAt(rows, cols, k);
      c.row < rows && c.col < cols && c.channel < channels && Offset(rows, cols, c.row, c.col, c.channel) == k
  {
    var p := rows * cols;
    DivModPlanes(k, p, channels);
    InPlaneSplit(k % p, rows, cols);
  }

  /** Where entry p of the transpose of a column-major m x n matrix comes from. */
  function TransposedIndex(m: nat, n: nat, p: nat): (q: nat)
    requires p < m * n
    ensures q < m * n
  {
    DivBound(p, n, m);
    PlaneBound(p % n, p / n, m, n);
    (p % n) * m + p / n
  }

  /**
   * The plane transpose: `b` holds an m x n matrix column-major (entry (i, j) at j * m + i);
   * the result holds its n x m transpose column-major (entry (j, i) at i * n + j).
   */
  function Transpose(b: seq<real>, m: nat, n: nat): (t: seq<real>)
    requires |b| == m * n
    ensures |t| == |b|
  {
    seq(m * n, p requires 0 <= p < m * n => b[TransposedIndex(m, n, p)])
  }

  lemma {:induction false} TransposeAt(b: seq<real>, m: nat, n: nat, i: nat, j: nat)
    requires |b| == m * n && i < m && j < n
    ensures 0 <= i * n + j < m * n && 0 <= j * m + i < m * n
    ensures Transpose(b, m, n)[i * n + j] == b[j * m + i]
  {
    PlaneBound(i, j, n, m);
    PlaneBound(j, i, m, n);
    DivModUnique(i * n + j, n, i, j);
  }

  /** Transposing twice gives the plane back. */
  lemma {:induction false} TransposeInvolution(b: seq<real>, m: nat, n: nat)
    requires |b| == m * n
    ensures Transpose(Transpose(b, m, n), n, m) == b
  {
    var t := Transpose(b, m, n);
    var tt := Transpose(t, n, m);
    forall q | 0 <= q < m * n
      ensures tt[q] == b[q]
    {
      DivBound(q, m, n);
      var j, i := q / m, q % m;
      assert q == j * m + i;
      TransposeAt(t, n, m, j, i);
      TransposeAt(b, m, n, i, j);
    }
  }

  /** Plane c of a flat sequence of planes of n entries each. */
  function PlaneOf(s: seq<real>, n: nat, c: nat): (b: seq<real>)
    requires Planes(n, c + 1) <= |s|
    ensures |b| == n
  {
    s[Planes(n, c)..Planes(n, c + 1)]
  }

  /**
   * What Fill(values, true) stores in the first c slices: each rows x cols block of `values`,
   * read row by row, is transposed into its slice's column-major storage, slice after slice.
   */
  function RowMajorToPhysical(values: seq<real>, rows: nat, cols: nat, c: nat): (m: seq<real>)
    requires Planes(rows * cols, c) <= |values|
    ensures |m| == Planes(rows * cols, c)
  {
    if c == 0 then []
    else
      assert cols * rows == rows * cols;
      RowMajorToPhysical(values, rows, cols, c - 1) + Transpose(PlaneOf(values, rows * cols, c - 1), cols, rows)
  }

  /**
   * What values(true) returns for the first c slices: each slice of the physical storage
   * `mem`, transposed, so that it reads row by row, slice after slice.
   */
  function PhysicalToRowMajor(mem: seq<real>, rows: nat, cols: nat, c: nat): (v: seq<real>)
    requires Planes(rows * cols, c) <= |mem|
    ensures |v| == Planes(rows * cols, c)
  {
    if c == 0 then []
    else PhysicalToRowMajor(mem, rows, cols, c - 1) + Transpose(PlaneOf(mem, rows * cols, c - 1), rows, cols)
  }

  /** Indexing into the left part of a concatenation reads the left part. */
  lemma {:induction false} ConcatLeft(a: seq<real>, b: seq<real>, i: nat)
    requires i < |a|
    ensures (a + b)[i] == a[i]
  {
  }

  /** Indexing past the left part of a concatenation reads the right part. */
  lemma {:induction false} ConcatRight(a: seq<real>, b: seq<real>, i: nat)
    requires i < |b|
    ensures (a + b)[|a| + i] == b[i]
  {
  }

  /** A slice inside the left part of a concatenation is a slice of the left part. */
  lemma {:induction false} SliceLeft(a: seq<real>, b: seq<real>, i: nat, j: nat)
    requires i <= j <= |a|
    ensures (a + b)[i..j] == a[i..j]
  {
  }

  /** The right part of a concatenation, sliced back out. */
  lemma {:induction false} SliceRight(a: seq<real>, b: seq<real>)
    ensures (a + b)[|a|..|a| + |b|] == b
  {
  }

  /** Entry i of plane c is entry Planes(n, c) + i of the whole sequence. */
  lemma {:induction false} PlaneIndex(s: seq<real>, n: nat, c: nat, i: nat)
    requires Planes(n, c + 1) <= |s| && i < n
    ensures Planes(n, c) + i < |s| && PlaneOf(s, n, c)[i] == s[Planes(n, c) + i]
  {
  }

  /**
   * If plane `channel` of `s` is the transpose of plane `channel` of `t` (an a x b matrix, column-major),
   * then entry (i, j) of that plane of `t` sits at entry (j, i) of that plane of `s`.
   */
  lemma {:induction false} TransposedPlaneCell(s: seq<real>, t: seq<real>, a: nat, b: nat, channel: nat, i: nat, j: nat)
    requires Planes(a * b, channel + 1) <= |s| && Planes(a * b, channel + 1) <= |t| && i < a && j < b
    requires PlaneOf(s, a * b, channel) == Transpose(PlaneOf(t, a * b, channel), a, b)
    ensures Planes(a * b, channel) + i * b + j < |s| && Planes(a * b, channel) + j * a + i < |t|
    ensures s[Planes(a * b, channel) + i * b + j] == t[Planes(a * b, channel) + j * a + i]
  {
    MulNat(a, b);
    TransposeAt(PlaneOf(t, a * b, channel), a, b, i, j);
    PlaneIndex(s, a * b, channel, i * b + j);
    PlaneIndex(t, a * b, channel, j * a + i);
  }

  /** Fill(values, true) puts the row-major value of each cell into that cell's physical place. */
  lemma {:induction false} RowMajorToPhysicalAt(values: seq<real>, rows: nat, cols: nat, c: nat,
                                                row: nat, col: nat, channel: nat)
    requires Planes(rows * cols, c) <= |values|
    requires row < rows && col < cols && channel < c
    ensures Offset(rows, cols, row, col, channel) < Planes(rows * cols, c)
    ensures RowMajorOffset(rows, cols, row, col, channel) < Planes(rows * cols, c)
    ensures RowMajorToPhysical(values, rows, cols, c)[Offset(rows, cols, row, col, channel)]
         == values[RowMajorOffset(rows, cols, row, col, channel)]
  {
    MulNat(rows, cols);
    OffsetBound(rows, cols, c, row, col, channel);
    RowMajorToPhysicalPlane(values, rows, cols, c, channel);
    TransposedPlaneCell(RowMajorToPhysical(values, rows, cols, c), values, cols, rows, channel, col, row);
  }

  /** values(true) reads each cell's physical value into that cell's row-major place. */
  lemma {:induction false} PhysicalToRowMajorAt(mem: seq<real>, rows: nat, cols: nat, c: nat,
                                                row: nat, col: nat, channel: nat)
    requires Planes(rows * cols, c) <= |mem|
    requires row < rows && col < cols && channel < c
    ensures Offset(rows, cols, row, col, channel) < Planes(rows * cols, c)
    ensures RowMajorOffset(rows, cols, row, col, channel) < Planes(rows * cols, c)
    ensures PhysicalToRowMajor(mem, rows, cols, c)[RowMajorOffset(rows, cols, row, col, channel)]
         == mem[Offset(rows, cols, row, col, channel)]
  {
    MulNat(rows, cols);
    OffsetBound(rows, cols, c, row, col, channel);
    PhysicalToRowMajorPlane(mem, rows, cols, c, channel);
    TransposedPlaneCell(PhysicalToRowMajor(mem, rows, cols, c), mem, rows, cols, channel, row, col);
  }

  /** The plane just after c whole planes is the part appended after them. */
  lemma {:induction false} PlaneOfLast(front: seq<real>, last: seq<real>, n: nat, c: nat)
    requires |front| == Planes(n, c) && |last| == n
    ensures Planes(n, c + 1) <= |front + last| && PlaneOf(front + last, n, c) == last
  {
    SliceRight(front, last);
  }

  /** A plane inside the first c planes is unaffected by what is appended after them. */
  lemma {:induction false} PlaneOfFront(front: seq<real>, last: seq<real>, n: nat, c: nat, channel: nat)
    requires Planes(n, c) <= |front| && channel < c
    ensures Planes(n, channel + 1) <= |front| && PlaneOf(front + last, n, channel) == PlaneOf(front, n, channel)
  {
    PlanesMono(n, channel + 1, c);
    SliceLeft(front, last, Planes(n, channel), Planes(n, channel + 1));
  }

  /** Slice `channel` of Fill(values, true) is the transpose of block `channel` of `values`. */
  lemma {:induction false} RowMajorToPhysicalPlane(values: seq<real>, rows: nat, cols: nat, c: nat, channel: nat)
    requires Planes(rows * cols, c) <= |values| && channel < c
    ensures Planes(rows * cols, channel + 1) <= Planes(rows * cols, c)
    ensures cols * rows == rows * cols
    ensures PlaneOf(RowMajorToPhysical(values, rows, cols, c), rows * cols, channel)
         == Transpose(PlaneOf(values, rows * cols, channel), cols, rows)
  {
    MulNat(rows, cols);
    var n := rows * cols;
    PlanesMono(n, channel + 1, c);
    assert cols * rows == rows * cols;
    var front := RowMajorToPhysical(values, rows, cols, c - 1);
    var last := Transpose(PlaneOf(values, n, c - 1), cols, rows);
    assert RowMajorToPhysical(values, rows, cols, c) == front + last;
    if channel == c - 1 {
      PlaneOfLast(front, last, n, channel);
    } else {
      PlaneOfFront(front, last, n, c - 1, channel);
      RowMajorToPhysicalPlane(values, rows, cols, c - 1, channel);
    }
  }

  /** Slice `channel` of values(true) is the transpose of slice `channel` of `mem`. */
  lemma {:induction false} PhysicalToRowMajorPlane(mem: seq<real>, rows: nat, cols: nat, c: nat, channel: nat)
    requires Planes(rows * cols, c) <= |mem| && channel < c
    ensures Planes(rows * cols, channel + 1) <= Planes(rows * cols, c)
    ensures PlaneOf(PhysicalToRowMajor(mem, rows, cols, c), rows * cols, channel)
         == Transpose(PlaneOf(mem, rows * cols, channel), rows, cols)
  {
    MulNat(rows, cols);
    var n := rows * cols;
    PlanesMono(n, channel + 1, c);
    var front := PhysicalToRowMajor(mem, rows, cols, c - 1);
    var last := Transpose(PlaneOf(mem, n, c - 1), rows, cols);
    assert PhysicalToRowMajor(mem, rows, cols, c) == front + last;
    if channel == c - 1 {
      PlaneOfLast(front, last, n, channel);
    } else {
      PlaneOfFront(front, last, n, c - 1, channel);
      PhysicalToRowMajorPlane(mem, rows, cols, c - 1, channel);
    }
  }

  /** The first planes of a sequence, one plane longer: the shorter prefix followed by that plane. */
  lemma {:induction false} PrefixStep(s: seq<real>, n: nat, c: nat)
    requires Planes(n, c + 1) <= |s|
    ensures s[..Planes(n, c + 1)] == s[..Planes(n, c)] + PlaneOf(s, n, c)
  {
  }

  /** One more slice of the row-major round trip: slice c of the read-back is block c of `values`. */
  lemma {:induction false} RowMajorRoundTripStep(values: seq<real>, rows: nat, cols: nat, total: nat, c: nat)
    requires Planes(rows * cols, total) <= |values| && c < total
    requires Planes(rows * cols, c + 1) <= Planes(rows * cols, total)
    requires PhysicalToRowMajor(RowMajorToPhysical(values, rows, cols, total), rows, cols, c)
          == values[..Planes(rows * cols, c)]
    ensures PhysicalToRowMajor(RowMajorToPhysical(values, rows, cols, total), rows, cols, c + 1)
         == values[..Planes(rows * cols, c + 1)]
  {
    MulNat(rows, cols);
    RowMajorToPhysicalPlane(values, rows, cols, total, c);
    TransposeInvolution(PlaneOf(values, rows * cols, c), cols, rows);
    PrefixStep(values, rows * cols, c);
  }

  /** Reading back the first c slices row-major, after filling C >= c slices row-major, gives the first c blocks. */
  lemma {:induction false} RowMajorRoundTripPrefix(values: seq<real>, rows: nat, cols: nat, total: nat, c: nat)
    requires Planes(rows * cols, total) <= |values| && c <= total
    ensures Planes(rows * cols, c) <= Planes(rows * cols, total)
    ensures PhysicalToRowMajor(RowMajorToPhysical(values, rows, cols, total), rows, cols, c)
         == values[..Planes(rows * cols, c)]
  {
    PlanesMono(rows * cols, c, total);
    if c > 0 {
      RowMajorRoundTripPrefix(values, rows, cols, total, c - 1);
      RowMajorRoundTripStep(values, rows, cols, total, c - 1);
    }
  }

  /** Reading row-major values back after filling them row-major gives the same values. */
  lemma {:induction false} RowMajorRoundTrip(values: seq<real>, rows: nat, cols: nat, channels: nat)
    requires |values| == Planes(rows * cols, channels)
    ensures PhysicalToRowMajor(RowMajorToPhysical(values, rows, cols, channels), rows, cols, channels) == values
  {
    RowMajorRoundTripPrefix(values, rows, cols, channels, channels);
    assert values[..|values|] == values;
  }

  /** One more slice of the physical round trip: slice c of the refill is slice c of `mem`. */
  lemma {:induction false} PhysicalRoundTripStep(mem: seq<real>, rows: nat, cols: nat, total: nat, c: nat)
    requires Planes(rows * cols, total) <= |mem| && c < total
    requires Planes(rows * cols, c + 1) <= Planes(rows * cols, total)
    requires RowMajorToPhysical(PhysicalToRowMajor(mem, rows, cols, total), rows, cols, c)
          == mem[..Planes(rows * cols, c)]
    ensures RowMajorToPhysical(PhysicalToRowMajor(mem, rows, cols, total), rows, cols, c + 1)
         == mem[..Planes(rows * cols, c + 1)]
  {
    MulNat(rows, cols);
    PhysicalToRowMajorPlane(mem, rows, cols, total, c);
    TransposeInvolution(PlaneOf(mem, rows * cols, c), rows, cols);
    PrefixStep(mem, rows * cols, c);
  }

  /** Filling the first c slices row-major from values(true) of C >= c slices reproduces those slices. */
  lemma {:induction false} PhysicalRoundTripPrefix(mem: seq<real>, rows: nat, cols: nat, total: nat, c: nat)
    requires Planes(rows * cols, total) <= |mem| && c <= total
    ensures Planes(rows * cols, c) <= Planes(rows * cols, total)
    ensures RowMajorToPhysical(PhysicalToRowMajor(mem, rows, cols, total), rows, cols, c)
         == mem[..Planes(rows * cols, c)]
  {
    PlanesMono(rows * cols, c, total);
    if c > 0 {
      PhysicalRoundTripPrefix(mem, rows, cols, total, c - 1);
      PhysicalRoundTripStep(mem, rows, cols, total, c - 1);
    }
  }

  /** Filling row-major with the values read row-major leaves the physical storage as it was. */
  lemma {:induction false} PhysicalRoundTrip(mem: seq<real>, rows: nat, cols: nat, channels: nat)
    requires |mem| == Planes(rows * cols, channels)
    ensures RowMajorToPhysical(PhysicalToRowMajor(mem, rows, cols, channels), rows, cols, channels) == mem
  {
    PhysicalRoundTripPrefix(mem, rows, cols, channels, channels);
    assert mem[..|mem|] == mem;
  }

  /** In a single row (1 x n x 1) physical order and row-major order coincide. */
  lemma {:induction false} SingleRowLayout(v: seq<real>)
    ensures Planes(1 * |v|, 1) == |v|
    ensures RowMajorToPhysical(v, 1, |v|, 1) == v
    ensures PhysicalToRowMajor(v, 1, |v|, 1) == v
  {
    var n := |v|;
    assert v[..0] == [] && v[0..] == v;
    var t := Transpose(v, n, 1);
    forall p | 0 <= p < n
      ensures t[p] == v[p]
    {
      assert TransposedIndex(n, 1, p) == p;
    }
    var u := Transpose(v, 1, n);
    forall p | 0 <= p < n
      ensures u[p] == v[p]
    {
      DivModUnique(p, n, 0, p);
      assert TransposedIndex(1, n, p) == p;
    }
  }

  /** The value of cell c of the padded cube: the original cell it frames, or the padding value. */
  function PaddedCell(mem: seq<real>, rows: nat, cols: nat, channels: nat, top: nat, left: nat,
                      value: real, c: Cell): real
    requires |mem| == Planes(rows * cols, channels)
  {
    if c.channel < channels && top <= c.row < top + rows && left <= c.col < left + cols then
      OffsetBound(rows, cols, channels, c.row - top, c.col - left, c.channel);
      mem[Offset(rows, cols, c.row - top, c.col - left, c.channel)]
    else value
  }

  /**
   * What Padding stores: a (rows + top + bottom) x (cols + left + right) x channels cube whose
   * cell (i + top, j + left, c) holds the original cell (i, j, c) and every other cell `value`.
   */
  function Padded(mem: seq<real>, rows: nat, cols: nat, channels: nat,
                  top: nat, bottom: nat, left: nat, right: nat, value: real): (p: seq<real>)
    requires |mem| == Planes(rows * cols, channels)
    requires rows > 0 && cols > 0
    ensures |p| == Planes((rows + top + bottom) * (cols + left + right), channels)
  {
    var newRows, newCols := rows + top + bottom, cols + left + right;
    seq(Planes(newRows * newCols, channels), k requires 0 <= k < Planes(newRows * newCols, channels) =>
      PaddedCell(mem, rows, cols, channels, top, left, value, CellAt(newRows, newCols, k)))
  }

  /** Cell by cell, the padded cube frames the original with the padding value. */
  lemma {:induction false} PaddedAt(mem: seq<real>, rows: nat, cols: nat, channels: nat,
                 top: nat, bottom: nat, left: nat, right: nat, value: real,
                 row: nat, col: nat, channel: nat)
    requires |mem| == Planes(rows * cols, channels)
    requires rows > 0 && cols > 0
    requires row < rows + top + bottom && col < cols + left + right && channel < channels
    ensures Offset(rows + top + bottom, cols + left + right, row, col, channel)
          < Planes((rows + top + bottom) * (cols + left + right), channels)
    ensures top <= row < top + rows && left <= col < left + cols ==>
              Offset(rows, cols, row - top, col - left, channel) < |mem|
    ensures Padded(mem, rows, cols, channels, top, bottom, left, right, value)
              [Offset(rows + top + bottom, cols + left + right, row, col, channel)]
         == if top <= row < top + rows && left <= col < left + cols
            then mem[Offset(rows, cols, row - top, col - left, channel)]
            else value
  {
    var newRows, newCols := rows + top + bottom, cols + left + right;
    OffsetBound(newRows, newCols, channels, row, col, channel);
    CellAtOffset(newRows, newCols, row, col, channel);
    if top <= row < top + rows && left <= col < left + cols {
      OffsetBound(rows, cols, channels, row - top, col - left, channel);
    }
  }

  /** The in-plane offsets of a rows x cols plane stay inside the plane. */
  lemma {:induction false} PlaneOffsets(rows: nat, cols: nat)
    ensures forall row: nat, col: nat :: row < rows && col < cols ==> Offset(rows, cols, row, col, 0) < rows * cols
  {
    forall row: nat, col: nat | row < rows && col < cols
      ensures Offset(rows, cols, row, col, 0) < rows * cols
    {
      PlaneBound(col, row, rows, cols);
    }
  }

  /**
   * The padded cube while Padding's copy loop runs: the original cells before (row i, col j)
   * of channel c, in loop order, have been copied; every other cell still holds `value`.
   */
  ghost function PaddingProgress(mem: seq<real>, rows: nat, cols: nat, channels: nat,
                                 top: nat, bottom: nat, left: nat, right: nat, value: real,
                                 c: nat, i: nat, j: nat, k: nat): real
    requires |mem| == Planes(rows * cols, channels)
    requires rows > 0 && cols > 0
  {
    var cell := CellAt(rows + top + bottom, cols + left + right, k);
    var copied := cell.channel < c
      || (cell.channel == c && (cell.row - top < i || (cell.row - top == i && cell.col - left < j)));
    if copied then PaddedCell(mem, rows, cols, channels, top, left, value, cell) else value
  }

  lemma {:induction false} PaddingStart(mem: seq<real>, rows: nat, cols: nat, channels: nat,
                     top: nat, bottom: nat, left: nat, right: nat, value: real)
    requires |mem| == Planes(rows * cols, channels)
    requires rows > 0 && cols > 0
    ensures forall k: nat :: PaddingProgress(mem, rows, cols, channels, top, bottom, left, right, value, 0, 0, 0, k) == value
  {
  }

  /** Copying original cell (i, j, c) to (i + top, j + left, c) moves the loop one cell on. */
  lemma {:induction false} PaddingCopyCell(mem: seq<real>, rows: nat, cols: nat, channels: nat,
                        top: nat, bottom: nat, left: nat, right: nat, value: real,
                        c: nat, i: nat, j: nat)
    requires |mem| == Planes(rows * cols, channels)
    requires i < rows && j < cols && c < channels
    ensures Offset(rows, cols, i, j, c) < |mem|
    ensures Offset(rows + top + bottom, cols + left + right, i + top, j + left, c)
          < Planes((rows + top + bottom) * (cols + left + right), channels)
    ensures PaddingProgress(mem, rows, cols, channels, top, bottom, left, right, value, c, i, j + 1,
              Offset(rows + top + bottom, cols + left + right, i + top, j + left, c))
         == mem[Offset(rows, cols, i, j, c)]
    ensures forall k: nat ::
              (k < Planes((rows + top + bottom) * (cols + left + right), channels)
               && k != Offset(rows + top + bottom, cols + left + right, i + top, j + left, c))
              ==> (PaddingProgress(mem, rows, cols, channels, top, bottom, left, right, value, c, i, j + 1, k)
                   == PaddingProgress(mem, rows, cols, channels, top, bottom, left, right, value, c, i, j, k))
  {
    var newRows, newCols := rows + top + bottom, cols + left + right;
    OffsetBound(rows, cols, channels, i, j, c);
    OffsetBound(newRows, newCols, channels, i + top, j + left, c);
    CellAtOffset(newRows, newCols, i + top, j + left, c);
    forall k: nat | k < Planes(newRows * newCols, channels)
      && k != Offset(newRows, newCols, i + top, j + left, c)
      ensures PaddingProgress(mem, rows, cols, channels, top, bottom, left, right, value, c, i, j + 1, k)
           == PaddingProgress(mem, rows, cols, channels, top, bottom, left, right, value, c, i, j, k)
    {
      OffsetOfCellAt(newRows, newCols, channels, k);
    }
  }

  /** Finishing a row of the original moves the loop to the start of the next row. */
  lemma {:induction false} PaddingRowDone(mem: seq<real>, rows: nat, cols: nat, channels: nat,
                       top: nat, bottom: nat, left: nat, right: nat, value: real, c: nat, i: nat)
    requires |mem| == Planes(rows * cols, channels)
    requires rows > 0 && cols > 0
    ensures forall k: nat ::
              (PaddingProgress(mem, rows, cols, channels, top, bottom, left, right, value, c, i, cols, k)
               == PaddingProgress(mem, rows, cols, channels, top, bottom, left, right, value, c, i + 1, 0, k))
  {
  }

  /** Finishing a channel of the original moves the loop to the start of the next channel. */
  lemma {:induction false} PaddingChannelDone(mem: seq<real>, rows: nat, cols: nat, channels: nat,
                           top: nat, bottom: nat, left: nat, right: nat, value: real, c: nat)
    requires |mem| == Planes(rows * cols, channels)
    requires rows > 0 && cols > 0
    ensures forall k: nat ::
              (PaddingProgress(mem, rows, cols, channels, top, bottom, left, right, value, c, rows, 0, k)
               == PaddingProgress(mem, rows, cols, channels, top, bottom, left, right, value, c + 1, 0, 0, k))
  {
  }

  /** Once every channel is copied, the cube is the padded cube. */
  lemma {:induction false} PaddingEnd(mem: seq<real>, rows: nat, cols: nat, channels: nat,
                   top: nat, bottom: nat, left: nat, right: nat, value: real)
    requires |mem| == Planes(rows * cols, channels)
    requires rows > 0 && cols > 0
    ensures forall k: nat :: k < Planes((rows + top + bottom) * (cols + left + right), channels) ==>
              (PaddingProgress(mem, rows, cols, channels, top, bottom, left, right, value, channels, 0, 0, k)
               == Padded(mem, rows, cols, channels, top, bottom, left, right, value)[k])
  {
    var newRows, newCols := rows + top + bottom, cols + left + right;
    forall k: nat | k < Planes(newRows * newCols, channels)
      ensures PaddingProgress(mem, rows, cols, channels, top, bottom, left, right, value, channels, 0, 0, k)
           == Padded(mem, rows, cols, channels, top, bottom, left, right, value)[k]
    {
      OffsetOfCellAt(newRows, newCols, channels, k);
    }
  }
}
