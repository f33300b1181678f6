/**
 * `sliceMatrix`: drop the row padding of a flat byte buffer. The buffer is
 * read as rows of `bytesPerRow` bytes, and the first `targetBytesPerRow`
 * bytes of every row are copied, in order, to a buffer of that stride.
 */
module SliceMatrix {
  import opened Wrappers
  import MathUtils

  type byte = bv8

  /** The four checks `sliceMatrix` makes, each with the error it throws. */
  datatype SliceError =
    | EmptyMatrix
    | NonPositiveRowBytes
    | NotDivisible(size: nat, bytesPerRow: int)
    | TargetTooWide(target: int, bytesPerRow: int)

  /** All four checks pass: a non-empty buffer, positive strides, whole rows, a target no wider than a row. */
  predicate SliceAccepts(size: nat, bytesPerRow: int, target: int) {
    && size > 0
    && bytesPerRow > 0 && target > 0
    && size % bytesPerRow == 0
    && target <= bytesPerRow
  }

  /** Row `row` of `out`, at stride `target`, is the first `target` bytes of row `row` of `m`, at stride `bytesPerRow`. */
  predicate RowCopied(out: seq<byte>, m: seq<byte>, bytesPerRow: nat, target: nat, row: nat) {
    && row * target + target <= |out|
    && row * bytesPerRow + target <= |m|
    && out[row * target..row * target + target] == m[row * bytesPerRow..row * bytesPerRow + target]
  }

  /** Removing one whole row from a buffer of whole rows leaves whole rows, one fewer. */
  lemma DropRow(size: nat, b: nat)
    requires b > 0 && size > 0 && size % b == 0
    ensures size >= b
    ensures (size - b) % b == 0 && (size - b) / b == size / b - 1
  {
    var q := size / b;
    assert size == q * b;
    if q <= 0 {
      MathUtils.MulMonotone(q, 0, b);
      assert false;
    }
    MathUtils.MulMonotone(1, q, b);
    assert size - b == (q - 1) * b;
    MathUtils.MultipleHasNoRemainder(q - 1, b);
    DivOfMultiple(q - 1, b);
  }

  lemma DivOfMultiple(q: int, b: int)
    requires b > 0
    ensures (q * b) / b == q
  {
    var d, r := (q * b) / b, (q * b) % b;
    MathUtils.MultipleHasNoRemainder(q, b);
    assert q * b == d * b;
    if d < q {
      MathUtils.MulMonotone(d + 1, q, b);
    } else if d > q {
      MathUtils.MulMonotone(q + 1, d, b);
    }
  }

  lemma MulSucc(a: int, b: int)
    ensures (a + 1) * b == a * b + b
  {
  }

  /** A row of the remainder, moved down by one row, is a row of the whole buffer. */
  lemma ShiftRow(m: seq<byte>, rest: seq<byte>, bytesPerRow: nat, target: nat, row: nat)
    requires 0 < target <= bytesPerRow <= |m|
    requires row > 0
    requires RowCopied(rest, m[bytesPerRow..], bytesPerRow, target, row - 1)
    ensures RowCopied(m[..target] + rest, m, bytesPerRow, target, row)
  {
    var out := m[..target] + rest;
    MulSucc(row - 1, target);
    MulSucc(row - 1, bytesPerRow);
    var p := (row - 1) * target;
    var q := (row - 1) * bytesPerRow;
    assert out[p + target..p + target + target] == rest[p..p + target];
    assert m[bytesPerRow..][q..q + target] == m[q + bytesPerRow..q + bytesPerRow + target];
  }

  /** The row-prefix copy itself, one source row at a time. */
  function SliceRows(m: seq<byte>, bytesPerRow: nat, target: nat): (out: seq<byte>)
    requires 0 < target <= bytesPerRow && |m| % bytesPerRow == 0
    ensures |out| == |m| / bytesPerRow * target
    ensures forall row: nat :: row < |m| / bytesPerRow ==> RowCopied(out, m, bytesPerRow, target, row)
    decreases |m|
  {
    if |m| == 0 then []
    else
      DropRow(|m|, bytesPerRow);
      var rest := SliceRows(m[bytesPerRow..], bytesPerRow, target);
      var out := m[..target] + rest;
      MulSucc(|m| / bytesPerRow - 1, target);
      assert forall row: nat :: 0 < row < |m| / bytesPerRow ==> RowCopied(out, m, bytesPerRow, target, row) by {
        forall row: nat | 0 < row < |m| / bytesPerRow
          ensures RowCopied(out, m, bytesPerRow, target, row)
        {
          ShiftRow(m, rest, bytesPerRow, target, row);
        }
      }
      assert 0 * target == 0 && 0 * bytesPerRow == 0;
      assert RowCopied(out, m, bytesPerRow, target, 0);
      out
  }

  /**
   * `sliceMatrix(matrix, bytesPerRow, targetBytesPerRow)`. The checks run in
   * the order empty, positive, divisible, not wider, and the first that fails
   * decides the error. On success the result holds `height` rows of `target`
   * bytes, row `r` being the first `target` bytes of source row `r`.
   */
  function SliceMatrix(m: seq<byte>, bytesPerRow: int, target: int): (r: Result<seq<byte>, SliceError>)
    ensures |m| == 0 ==> r == Failure(EmptyMatrix)
    ensures |m| > 0 && (bytesPerRow <= 0 || target <= 0) ==> r == Failure(NonPositiveRowBytes)
    ensures |m| > 0 && bytesPerRow > 0 && target > 0 && |m| % bytesPerRow != 0 ==>
      r == Failure(NotDivisible(|m|, bytesPerRow))
    ensures |m| > 0 && bytesPerRow > 0 && target > 0 && |m| % bytesPerRow == 0 && target > bytesPerRow ==>
      r == Failure(TargetTooWide(target, bytesPerRow))
    ensures r.Success? <==> SliceAccepts(|m|, bytesPerRow, target)
    ensures r.Success? ==> |r.value| == |m| / bytesPerRow * target
    ensures r.Success? ==>
      forall row: nat :: row < |m| / bytesPerRow ==> RowCopied(r.value, m, bytesPerRow, target, row)
  {
    if |m| == 0 then Failure(EmptyMatrix)
    else if bytesPerRow <= 0 || target <= 0 then Failure(NonPositiveRowBytes)
    else if |m| % bytesPerRow != 0 then Failure(NotDivisible(|m|, bytesPerRow))
    else if target > bytesPerRow then Failure(TargetTooWide(target, bytesPerRow))
    else Success(SliceRows(m, bytesPerRow, target))
  }

  /** Byte `k` of output row `row` is byte `k` of source row `row`. */
  lemma SliceByte(m: seq<byte>, bytesPerRow: int, target: int, row: nat, k: nat)
    requires SliceAccepts(|m|, bytesPerRow, target)
    requires row < |m| / bytesPerRow && k < target
    ensures row * target + k < |SliceMatrix(m, bytesPerRow, target).value|
    ensures row * bytesPerRow + k < |m|
    ensures SliceMatrix(m, bytesPerRow, target).value[row * target + k] == m[row * bytesPerRow + k]
  {
    RowCopiedByte(SliceMatrix(m, bytesPerRow, target).value, m, bytesPerRow, target, row, k);
  }

  /** Row `row` of `a` and of `b`, both at stride `width`, exist and are equal. */
  predicate SameRow(a: seq<byte>, b: seq<byte>, width: nat, row: nat) {
    && row * width + width <= |a|
    && row * width + width <= |b|
    && a[row * width..row * width + width] == b[row * width..row * width + width]
  }

  /** A row that lies inside the first `n` bytes survives cutting both buffers to `n` bytes. */
  lemma PrefixKeepsRow(a: seq<byte>, b: seq<byte>, width: nat, n: nat, row: nat)
    requires SameRow(a, b, width, row)
    requires row * width + width <= n <= |a| && n <= |b|
    ensures SameRow(a[..n], b[..n], width, row)
  {
    var i := row * width;
    assert a[..n][i..i + width] == a[i..i + width];
    assert b[..n][i..i + width] == b[i..i + width];
  }

  /** Byte `k` of a copied row, read at both strides. */
  lemma RowCopiedByte(out: seq<byte>, m: seq<byte>, bytesPerRow: nat, target: nat, row: nat, k: nat)
    requires RowCopied(out, m, bytesPerRow, target, row) && k < target
    ensures row * target + k < |out| && row * bytesPerRow + k < |m|
    ensures out[row * target + k] == m[row * bytesPerRow + k]
  {
    assert out[row * target..row * target + target][k] == out[row * target + k];
    assert m[row * bytesPerRow..row * bytesPerRow + target][k] == m[row * bytesPerRow + k];
  }

  /** Two buffers of `height` rows of `width` bytes that agree row by row are equal. */
  lemma {:induction false} RowsDetermine(a: seq<byte>, b: seq<byte>, width: nat, height: nat)
    requires |a| == |b| == height * width
    requires forall row: nat :: row < height ==> SameRow(a, b, width, row)
    ensures a == b
  {
    if height > 0 {
      var n := (height - 1) * width;
      MulSucc(height - 1, width);
      forall row: nat | row < height - 1
        ensures SameRow(a[..n], b[..n], width, row)
      {
        MathUtils.MulMonotone(row + 1, height - 1, width);
        MulSucc(row, width);
        PrefixKeepsRow(a, b, width, n, row);
      }
      RowsDetermine(a[..n], b[..n], width, height - 1);
      assert SameRow(a, b, width, height - 1);
      assert a == a[..n] + a[n..n + width];
      assert b == b[..n] + b[n..n + width];
    }
  }

  /** With a target as wide as a row nothing is dropped: the copy is byte-identical. */
  lemma SliceFullRowsIsIdentity(m: seq<byte>, bytesPerRow: int)
    requires SliceAccepts(|m|, bytesPerRow, bytesPerRow)
    ensures SliceMatrix(m, bytesPerRow, bytesPerRow) == Success(m)
  {
    var out := SliceMatrix(m, bytesPerRow, bytesPerRow).value;
    var h := |m| / bytesPerRow;
    assert |m| == h * bytesPerRow;
    forall row: nat | row < h
      ensures SameRow(out, m, bytesPerRow, row)
    {
      assert RowCopied(out, m, bytesPerRow, bytesPerRow, row);
    }
    RowsDetermine(out, m, bytesPerRow, h);
  }
}
