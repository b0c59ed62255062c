/**
 * Properties that relate several tensor operations, stated as client code of the class, and
 * a concrete cube worked through the layout functions.
 */
module Scenarios {
  import opened Layout
  import opened Tensors

  /** Filling with what values(b) returned, in the same order b, leaves the storage as it was. */
  method ValuesFillRoundTrip(t: Tensor, rowMajor: bool)
    requires t.Valid() && !t.Empty()
    modifies t.mem
    ensures t.mem[..] == old(t.mem[..])
  {
    ghost var before := t.mem[..];
    var v := t.Values(rowMajor);
    t.FillValues(v, rowMajor);
    if rowMajor {
      PhysicalRoundTrip(before, t.rows, t.cols, t.channels);
    }
  }

  /** values(b) right after Fill(v, b) returns v. */
  method FillValuesRoundTrip(t: Tensor, v: seq<real>, rowMajor: bool) returns (w: seq<real>)
    requires t.Valid() && !t.Empty() && |v| == t.mem.Length
    modifies t.mem
    ensures w == v
  {
    t.FillValues(v, rowMajor);
    w := t.Values(rowMajor);
    if rowMajor {
      RowMajorRoundTrip(v, t.rows, t.cols, t.channels);
    }
  }

  /**
   * Flatten(true) followed by Reshape to the original logical shape, row-major, restores
   * dimensions, shape and storage.
   */
  method FlattenReshapeRoundTrip(t: Tensor)
    requires t.Valid() && !t.Empty()
    modifies t, t.mem
    ensures t.rows == old(t.rows) && t.cols == old(t.cols) && t.channels == old(t.channels)
    ensures t.rawShapes == old(t.rawShapes) && t.mem[..] == old(t.mem[..])
  {
    ghost var before := t.mem[..];
    ghost var rows, cols, channels := t.rows, t.cols, t.channels;
    var shape := t.rawShapes;
    t.Flatten(true);
    ghost var flat := t.mem[..];
    t.Reshape(shape, true);
    assert PhysicalToRowMajor(t.mem[..], rows, cols, channels) == PhysicalToRowMajor(before, rows, cols, channels) by {
      SingleRowLayout(flat);
    }
    PhysicalRoundTrip(t.mem[..], rows, cols, channels);
    PhysicalRoundTrip(before, rows, cols, channels);
  }

  /** Padding a one-channel 2 x 2 cube of ones by 1 on every side with 0 gives a 4 x 4 cube with a ring of zeros. */
  lemma PaddingScenario()
    ensures forall row: nat, col: nat :: row < 4 && col < 4 ==>
      Padded([1.0, 1.0, 1.0, 1.0], 2, 2, 1, 1, 1, 1, 1, 0.0)[Offset(4, 4, row, col, 0)]
      == if 1 <= row <= 2 && 1 <= col <= 2 then 1.0 else 0.0
  {
    forall row: nat, col: nat | row < 4 && col < 4
      ensures Padded([1.0, 1.0, 1.0, 1.0], 2, 2, 1, 1, 1, 1, 1, 0.0)[Offset(4, 4, row, col, 0)]
           == if 1 <= row <= 2 && 1 <= col <= 2 then 1.0 else 0.0
    {
      PaddedAt([1.0, 1.0, 1.0, 1.0], 2, 2, 1, 1, 1, 1, 1, 0.0, row, col, 0);
    }
  }
}
