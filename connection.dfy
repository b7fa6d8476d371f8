/**
 * The connection side of dearpygui_app.py: the dimension and matrix decoders of
 * BLEConnection, the notification handler that feeds completed frames through the
 * assembler into a queue, `stop`, which empties that queue, and the GUI callback that
 * drains the queue and shows only the newest matrix.
 */
module Connection {
  import opened Wrappers
  import opened Bytes
  import opened Seqs
  import opened FrameAssembler

  /** `struct.unpack('<BB', byte_array)`: exactly two bytes, rows first. */
  function GetMatrixDimensions(byteArray: seq<byte>): (r: Result<(byte, byte), Exception>)
    ensures r.Success? <==> |byteArray| == 2
    ensures r.Success? ==> [r.value.0, r.value.1] == byteArray
    ensures r.Failure? ==> r.error == StructError
  {
    if |byteArray| == 2 then Success((byteArray[0], byteArray[1])) else Failure(StructError)
  }

  /**
   * `struct.unpack("<" + rows * columns * "B", byte_array)`: one value per byte when the
   * buffer holds exactly rows * columns bytes; `None * int` before the dimensions are known
   * is a TypeError.
   */
  function DecodeMatrixData(byteArray: seq<byte>, rows: Option<byte>, columns: Option<byte>): (r: Result<seq<byte>, Exception>)
    ensures r.Success? <==> rows.Some? && columns.Some? && |byteArray| == rows.value as int * columns.value as int
    ensures r.Success? ==> r.value == byteArray
    ensures (rows.None? || columns.None?) ==> r == Failure(TypeError)
    ensures rows.Some? && columns.Some? && r.Failure? ==> r.error == StructError
  {
    if rows.None? || columns.None? then Failure(TypeError)
    else if |byteArray| == rows.value as int * columns.value as int then Success(byteArray)
    else Failure(StructError)
  }

  /**
   * What the notification handler pushes for one assembler outcome: nothing while a frame
   * is incomplete, the decoded matrix when one completes; an exception from the assembler or
   * the decoder propagates and nothing is pushed.
   */
  function Pushed(outcome: Result<Option<seq<byte>>, Exception>, rows: Option<byte>, columns: Option<byte>): (r: Result<seq<seq<byte>>, Exception>)
    ensures outcome.Failure? ==> r == Failure(outcome.error)
    ensures outcome == Success(None) ==> r == Success([])
    ensures r.Success? ==> |r.value| <= 1
    ensures r.Success? && r.value != [] <==>
      outcome.Success? && outcome.value.Some? && DecodeMatrixData(outcome.value.value, rows, columns).Success?
    ensures r.Success? && r.value != [] ==> r.value == [outcome.value.value]
  {
    match outcome
    case Failure(e) => Failure(e)
    case Success(None) => Success([])
    case Success(Some(frame)) =>
      match DecodeMatrixData(frame, rows, columns)
      case Failure(e) => Failure(e)
      case Success(values) => Success([values])
  }

  /**
   * The items a sequence of handler calls pushes between them. An exception ends only the
   * call that raised it: the next notification calls the handler again.
   */
  function PushedAll(outcomes: seq<Result<Option<seq<byte>>, Exception>>, rows: byte, columns: byte): (r: seq<seq<byte>>)
  {
    if outcomes == [] then []
    else match Pushed(outcomes[0], Some(rows), Some(columns))
      case Failure(_) => PushedAll(outcomes[1..], rows, columns)
      case Success(items) => items + PushedAll(outcomes[1..], rows, columns)
  }

  /** The frames a sequence of outcomes completes, skipping the calls that raised. */
  function Completed(outcomes: seq<Result<Option<seq<byte>>, Exception>>): (r: seq<seq<byte>>)
  {
    if outcomes == [] then []
    else match outcomes[0]
      case Failure(_) => Completed(outcomes[1..])
      case Success(None) => Completed(outcomes[1..])
      case Success(Some(frame)) => [frame] + Completed(outcomes[1..])
  }

  /** The frames of exactly `size` bytes, in order. */
  function OfSize(frames: seq<seq<byte>>, size: int): (r: seq<seq<byte>>)
    ensures |r| <= |frames|
    ensures forall k :: 0 <= k < |r| ==> |r[k]| == size
  {
    if frames == [] then []
    else (if |frames[0]| == size then [frames[0]] else []) + OfSize(frames[1..], size)
  }

  /**
   * Whatever the assembler raises or completes, the handler pushes exactly the completed
   * frames of rows * columns bytes, in completion order; a frame of another size raises and is dropped.
   */
  lemma {:induction false} PushedAreRightSized(outcomes: seq<Result<Option<seq<byte>>, Exception>>, rows: byte, columns: byte)
    ensures PushedAll(outcomes, rows, columns) == OfSize(Completed(outcomes), rows as int * columns as int)
  {
    if outcomes != [] {
      PushedAreRightSized(outcomes[1..], rows, columns);
      match outcomes[0]
      case Failure(_) =>
      case Success(None) =>
      case Success(Some(frame)) =>
        assert ([frame] + Completed(outcomes[1..]))[1..] == Completed(outcomes[1..]);
    }
  }

  /**
   * When every completed frame has rows * columns bytes, the handler pushes exactly one
   * item per completed frame, that frame's bytes, in completion order, including the frames
   * completed after a call that raised.
   */
  lemma {:induction false} OnePushPerCompletedFrame(outcomes: seq<Result<Option<seq<byte>>, Exception>>, rows: byte, columns: byte)
    requires forall k :: 0 <= k < |outcomes| && outcomes[k].Success? && outcomes[k].value.Some? ==>
               |outcomes[k].value.value| == rows as int * columns as int
    ensures PushedAll(outcomes, rows, columns) == Completed(outcomes)
  {
    if outcomes != [] {
      assert forall k :: 0 <= k < |outcomes[1..]| ==> outcomes[1..][k] == outcomes[k + 1];
      OnePushPerCompletedFrame(outcomes[1..], rows, columns);
    }
  }

  /** A completed frame of the wrong size raises struct.error and is not pushed. */
  lemma WrongSizeFrameNotPushed(frame: seq<byte>, rows: byte, columns: byte)
    requires |frame| != rows as int * columns as int
    ensures Pushed(Success(Some(frame)), Some(rows), Some(columns)) == Failure(StructError)
  {
  }

  /** `queue.Queue` as the code uses it: `put`, `empty` and `get_nowait`, first in first out. */
  class MatrixDataQueue {
    var items: seq<seq<byte>>

    constructor ()
      ensures items == []
    {
      items := [];
    }

    method Put(x: seq<byte>)
      modifies this
      ensures items == old(items) + [x]
    {
      items := items + [x];
    }

    function Empty(): (r: bool)
      reads this
      ensures r <==> |items| == 0
    {
      items == []
    }

    /** The oldest item, removed; on an empty queue the `queue.Empty` exception. */
    method GetNowait() returns (r: Result<seq<byte>, Exception>)
      modifies this
      ensures old(items) == [] ==> r == Failure(QueueEmpty) && items == []
      ensures old(items) != [] ==> r == Success(old(items)[0]) && items == old(items)[1..]
    {
      if items == [] {
        return Failure(QueueEmpty);
      }
      r := Success(items[0]);
      items := items[1..];
    }
  }

  class BLEConnection {
    const dataAssembler: BLEFrameAssembler
    const matrixDataQueue: MatrixDataQueue
    var rows: Option<byte>
    var columns: Option<byte>

    ghost predicate Valid()
      reads this, dataAssembler
    {
      dataAssembler.Valid()
    }

    constructor ()
      ensures Valid() && fresh(dataAssembler) && fresh(matrixDataQueue)
      ensures dataAssembler.State() == EmptyTable && dataAssembler.timeout == 1
      ensures matrixDataQueue.items == [] && rows == None && columns == None
    {
      dataAssembler := new BLEFrameAssembler();
      matrixDataQueue := new MatrixDataQueue();
      rows, columns := None, None;
    }

    /** `self._rows, self._columns = await self._get_matrix_dimensions()` on the value read. */
    method ReceiveDimensions(byteArray: seq<byte>) returns (r: Result<(byte, byte), Exception>)
      modifies this
      ensures r == GetMatrixDimensions(byteArray)
      ensures r.Success? ==> rows == Some(r.value.0) && columns == Some(r.value.1)
      ensures r.Failure? ==> rows == old(rows) && columns == old(columns)
    {
      r := GetMatrixDimensions(byteArray);
      if r.Success? {
        rows, columns := Some(r.value.0), Some(r.value.1);
      }
    }

    /** `_notification_handler_callback`: assemble, and push the decoded matrix of a completed frame. */
    method NotificationHandler(data: seq<byte>, now: int) returns (r: Result<(), Exception>)
      requires Valid()
      modifies dataAssembler, matrixDataQueue
      ensures Valid()
      ensures var (t, outcome) := Submit(old(dataAssembler.State()), dataAssembler.timeout, data, now);
        && dataAssembler.State() == t
        && match Pushed(outcome, rows, columns)
           case Failure(e) => r == Failure(e) && matrixDataQueue.items == old(matrixDataQueue.items)
           case Success(items) => r == Success(()) && matrixDataQueue.items == old(matrixDataQueue.items) + items
    {
      var assembledData := dataAssembler.ConstructData(data, now);
      if assembledData.Failure? {
        return Failure(assembledData.error);
      }
      if assembledData.value.Some? {
        var matrixValues := DecodeMatrixData(assembledData.value.value, rows, columns);
        if matrixValues.Failure? {
          return Failure(matrixValues.error);
        }
        matrixDataQueue.Put(matrixValues.value);
      }
      return Success(());
    }

    /** `stop`: after the connection thread is joined, empty the queue. */
    method Stop()
      modifies matrixDataQueue
      ensures matrixDataQueue.items == []
    {
      while !matrixDataQueue.Empty()
        decreases |matrixDataQueue.items|
      {
        var _ := matrixDataQueue.GetNowait();
      }
    }
  }

  /**
   * The drain in `update_pressure_matrix_callback`: take every queued matrix and keep the
   * last one taken, which is the one shown; `None` (nothing shown) when the queue was empty.
   */
  method LatestMatrixData(queue: MatrixDataQueue) returns (latest: Option<seq<byte>>)
    modifies queue
    ensures latest == Last(old(queue.items))
    ensures queue.items == []
  {
    latest := None;
    ghost var taken: seq<seq<byte>> := [];
    while !queue.Empty()
      invariant taken + queue.items == old(queue.items)
      invariant latest == Last(taken)
      decreases |queue.items|
    {
      var item := queue.GetNowait();
      taken := taken + [item.value];
      latest := Some(item.value);
    }
    assert taken == old(queue.items);
  }
}
