/**
 * The deprecated multiprocessing_functions.py decoder: the matrix arrives as 2-byte
 * little-endian unsigned values, cut into rows with the same comprehension as main.py.
 * Its `decode_matrix_dimensions` is the function MainApp.DecodeMatrixDimensions.
 */
module MultiprocessingFunctions {
  import opened Wrappers
  import opened Bytes
  import opened Seqs
  import opened Reshape

  /**
   * `decode_matrix_data(num_rows, num_cols, byte_array)`: `len // 2` values, so an odd length
   * leaves a byte over and the unpack raises; a zero column count is a zero `range` step.
   */
  function DecodeMatrixData(numRows: nat, numCols: nat, byteArray: seq<byte>): (r: Result<seq<seq<int>>, Exception>)
    ensures |byteArray| % 2 == 1 ==> r == Failure(StructError)
    ensures |byteArray| % 2 == 0 && numCols == 0 ==> r == Failure(ValueError)
    ensures r.Success? <==> |byteArray| % 2 == 0 && numCols > 0
    ensures r.Success? ==> r.value == Chunks(UnpackU16LE(byteArray).value, numRows, numCols)
  {
    match UnpackU16LE(byteArray)
    case None => Failure(StructError)
    case Some(flat) =>
      if numCols == 0 then Failure(ValueError) else Success(Chunks(flat, numRows, numCols))
  }

  /**
   * A successful decode has ceil((len / 2) / num_cols) rows; row k holds the little-endian values
   * number k * num_cols up to k * num_cols + num_rows (clipped at the end), each at most 65535.
   */
  lemma DecodedRows(numRows: nat, numCols: nat, byteArray: seq<byte>)
    requires DecodeMatrixData(numRows, numCols, byteArray).Success?
    ensures var m := DecodeMatrixData(numRows, numCols, byteArray).value;
      var n := |byteArray| / 2;
      && (|m| - 1) * numCols < n <= |m| * numCols
      && forall k :: 0 <= k < |m| ==>
           && k * numCols < n
           && |m[k]| == Min(k * numCols + numRows, n) - k * numCols
           && forall j :: 0 <= j < |m[k]| ==>
                var v := k * numCols + j;
                m[k][j] == byteArray[2 * v] as int + 256 * (byteArray[2 * v + 1] as int) && m[k][j] <= 65535
  {
    var flat := UnpackU16LE(byteArray).value;
    var m := Chunks(flat, numRows, numCols);
    ChunkCount(flat, numRows, numCols);
    forall k | 0 <= k < |m|
      ensures k * numCols < |flat|
      ensures |m[k]| == Min(k * numCols + numRows, |flat|) - k * numCols
      ensures forall j :: 0 <= j < |m[k]| ==>
        var v := k * numCols + j;
        m[k][j] == byteArray[2 * v] as int + 256 * (byteArray[2 * v + 1] as int) && m[k][j] <= 65535
    {
      ChunkAt(flat, numRows, numCols, k);
      SliceValues(byteArray, k * numCols, Min(k * numCols + numRows, |flat|));
    }
  }

  /** Each value of a slice of the unpacked list is the little-endian pair at its position. */
  lemma SliceValues(byteArray: seq<byte>, start: nat, stop: nat)
    requires UnpackU16LE(byteArray).Some? && start <= stop <= |UnpackU16LE(byteArray).value|
    ensures var row := UnpackU16LE(byteArray).value[start..stop];
      forall j :: 0 <= j < |row| ==>
        var v := start + j;
        row[j] == byteArray[2 * v] as int + 256 * (byteArray[2 * v + 1] as int) && row[j] <= 65535
  {
  }

  /** A square grid of 16-bit values, sent as little-endian pairs, decodes back to itself. */
  lemma SquareDecodeRoundTrip(grid: seq<seq<int>>, n: nat)
    requires n > 0 && |grid| == n
    requires forall i :: 0 <= i < n ==> |grid[i]| == n
    requires IsU16(Flatten(grid))
    ensures DecodeMatrixData(n, n, PackU16LE(Flatten(grid))) == Success(grid)
  {
    UnpackPackU16LE(Flatten(grid));
    ChunksOfFlatten(grid, n);
  }

  /** An odd-length buffer is never decoded, whatever the dimensions. */
  lemma OddLengthRejected(numRows: nat, numCols: nat, byteArray: seq<byte>)
    requires |byteArray| % 2 == 1
    ensures DecodeMatrixData(numRows, numCols, byteArray) == Failure(StructError)
  {
  }
}
