/**
 * The Tkinter program main.py: its matrix decoders, the threshold remap, and the
 * bookkeeping of the device selection list (three parallel lists plus the listbox calls
 * scheduled with `root.after`).
 */
module MainApp {
  import opened Wrappers
  import opened Bytes
  import opened Seqs
  import opened Reshape
  import opened BleCommon
  import Connection

  /**
   * `decode_matrix_dimensions`: unpack two bytes as (rows, columns) and return them the other
   * way round. multiprocessing_functions.py has the identical function.
   */
  function DecodeMatrixDimensions(byteArray: seq<byte>): (r: Result<(byte, byte), Exception>)
    ensures r.Success? <==> |byteArray| == 2
    ensures r.Success? ==> [r.value.1, r.value.0] == byteArray
    ensures r.Failure? ==> r.error == StructError
  {
    if |byteArray| == 2 then Success((byteArray[1], byteArray[0])) else Failure(StructError)
  }

  /** The two programs read the same dimension characteristic in opposite orders. */
  lemma DimensionsSwapped(byteArray: seq<byte>)
    ensures match Connection.GetMatrixDimensions(byteArray)
      case Success((a, b)) => DecodeMatrixDimensions(byteArray) == Success((b, a))
      case Failure(e) => DecodeMatrixDimensions(byteArray) == Failure(e)
  {
  }

  /**
   * `decode_matrix_data`: unpack exactly rows * columns bytes, then cut the flat tuple with
   * the comprehension of the Reshape module; a zero column count is a zero `range` step.
   */
  function DecodeMatrixData(byteArray: seq<byte>, rows: nat, columns: nat): (r: Result<seq<seq<byte>>, Exception>)
    ensures |byteArray| != rows * columns ==> r == Failure(StructError)
    ensures |byteArray| == rows * columns && columns == 0 ==> r == Failure(ValueError)
    ensures r.Success? <==> |byteArray| == rows * columns && columns > 0
    ensures r.Success? ==> r.value == Chunks(byteArray, rows, columns)
  {
    if |byteArray| != rows * columns then Failure(StructError)
    else if columns == 0 then Failure(ValueError)
    else Success(Chunks(byteArray, rows, columns))
  }

  /**
   * A successful decode has ceil(n / columns) rows and row k is the slice
   * `flat[k * columns : k * columns + rows]` of the unpacked bytes.
   */
  lemma DecodedRows(byteArray: seq<byte>, rows: nat, columns: nat)
    requires DecodeMatrixData(byteArray, rows, columns).Success?
    ensures var m := DecodeMatrixData(byteArray, rows, columns).value;
      && (|m| - 1) * columns < |byteArray| <= |m| * columns
      && forall k :: 0 <= k < |m| ==>
           k * columns < |byteArray| && m[k] == byteArray[k * columns .. Min(k * columns + rows, |byteArray|)]
  {
    var m := DecodeMatrixData(byteArray, rows, columns).value;
    ChunkCount(byteArray, rows, columns);
    forall k | 0 <= k < |m|
      ensures k * columns < |byteArray| && m[k] == byteArray[k * columns .. Min(k * columns + rows, |byteArray|)]
    {
      ChunkAt(byteArray, rows, columns, k);
    }
  }

  /** For a square matrix the decode is the row-major grid: its rows joined give the bytes back. */
  lemma SquareDecodeRoundTrip(grid: seq<seq<byte>>, n: nat)
    requires n > 0 && |grid| == n
    requires forall i :: 0 <= i < n ==> |grid[i]| == n
    ensures DecodeMatrixData(Flatten(grid), n, n) == Success(grid)
  {
    FlattenLength(grid, n);
    ChunksOfFlatten(grid, n);
  }

  /** A grid of `|grid|` rows of `cols` items flattens to `|grid| * cols` items. */
  lemma {:induction false} FlattenLength<T>(grid: seq<seq<T>>, cols: nat)
    requires forall i :: 0 <= i < |grid| ==> |grid[i]| == cols
    ensures |Flatten(grid)| == |grid| * cols
  {
    if grid != [] {
      FlattenLength(grid[1..], cols);
      ShiftByStep(|grid|, cols);
    }
  }

  // ---------------------------------------------------------------------------------------
  // remap_matrix

  /** Every row has `width` items. */
  predicate Rectangular(m: seq<seq<int>>, width: nat) {
    forall i :: 0 <= i < |m| ==> |m[i]| == width
  }

  /**
   * `remap_matrix(matrix, threshold)`: subtract the threshold, clamp negatives to 0, double,
   * and flip each row left to right. `np.fliplr` needs a 2-d array, so an empty list is a
   * ValueError, and so is a ragged list, which numpy cannot make an array of.
   */
  function RemapMatrix(m: seq<seq<int>>, threshold: int): (r: Result<seq<seq<int>>, Exception>)
    ensures r.Success? <==> |m| > 0 && Rectangular(m, |m[0]|)
    ensures r.Failure? ==> r.error == ValueError
  {
    if |m| == 0 || !Rectangular(m, |m[0]|) then Failure(ValueError)
    else
      Success(seq(|m|, i requires 0 <= i < |m| =>
        seq(|m[0]|, j requires 0 <= j < |m[0]| => 2 * Max(m[i][|m[0]| - 1 - j] - threshold, 0))))
  }

  /** The remapped matrix has the input's shape and cell (i, j) is the remap of cell (i, w-1-j). */
  lemma RemapCells(m: seq<seq<int>>, threshold: int)
    requires |m| > 0 && Rectangular(m, |m[0]|)
    ensures var r := RemapMatrix(m, threshold).value;
      && |r| == |m| && Rectangular(r, |m[0]|)
      && forall i, j :: 0 <= i < |m| && 0 <= j < |m[0]| ==>
           r[i][j] == 2 * Max(m[i][|m[0]| - 1 - j] - threshold, 0) && r[i][j] >= 0
  {
  }

  /** Flipping twice undoes the flip: with threshold 0 on non-negative cells, remap twice is x4. */
  lemma RemapTwice(m: seq<seq<int>>)
    requires |m| > 0 && Rectangular(m, |m[0]|)
    requires forall i, j :: 0 <= i < |m| && 0 <= j < |m[i]| ==> m[i][j] >= 0
    ensures var r := RemapMatrix(m, 0).value;
      var rr := RemapMatrix(r, 0);
      && rr.Success?
      && forall i, j :: 0 <= i < |m| && 0 <= j < |m[0]| ==> rr.value[i][j] == 4 * m[i][j]
  {
    var w := |m[0]|;
    var r := RemapMatrix(m, 0).value;
    RemapCells(m, 0);
    RemapCells(r, 0);
    forall i, j | 0 <= i < |m| && 0 <= j < w
      ensures RemapMatrix(r, 0).value[i][j] == 4 * m[i][j]
    {
      assert r[i][w - 1 - j] == 2 * m[i][j];
    }
  }

  // ---------------------------------------------------------------------------------------
  // The device selection list

  /** Where `devices_listbox.insert` puts a line. */
  datatype ListPosition = At(index: nat) | End

  /** The listbox calls scheduled with `root.after(0, ...)`. */
  datatype ListboxCall = Delete(index: nat) | Insert(position: ListPosition, text: string)

  /** `str(x)` for an optional string: `None` prints as "None". */
  function Str(s: Option<string>): string {
    if s.None? then "None" else s.value
  }

  /** `"{:<25}".format(s)`: left-aligned, padded with spaces to at least 25 characters. */
  function PadRight25(s: string): (r: string)
    ensures |r| == Max(|s|, 25)
    ensures r[..|s|] == s && forall k :: |s| <= k < |r| ==> r[k] == ' '
  {
    if |s| >= 25 then s else s + seq(25 - |s|, _ => ' ')
  }

  /**
   * `" {:<25} : {}".format(str(device.name), device.address)`: a space, the name left-aligned in
   * a column of at least 25 characters, " : " and the address.
   */
  function DeviceString(device: Device): (r: string)
    ensures var n := Str(device.name); var w := Max(|n|, 25);
      && |r| == w + 4 + |device.address|
      && r[0] == ' '
      && r[1..1 + |n|] == n
      && (forall k :: 1 + |n| <= k < 1 + w ==> r[k] == ' ')
      && r[1 + w..w + 4] == " : "
      && r[w + 4..] == device.address
  {
    " " + PadRight25(Str(device.name)) + " : " + device.address
  }

  /** The three parallel lists `_devices[0]`, `_devices[1]` and `_devices[2]`. */
  datatype DeviceLists = DeviceLists(addresses: seq<string>, names: seq<Option<string>>, services: seq<bool>)

  /** Equal lengths and no address listed twice. */
  predicate ListsInv(d: DeviceLists) {
    && |d.addresses| == |d.names| == |d.services|
    && Distinct(d.addresses)
  }

  /** The new lists and the scheduled listbox calls of one `_device_detection_callback`. */
  function Detect(d: DeviceLists, device: Device, adv: Advertisement): (r: (DeviceLists, seq<ListboxCall>))
    requires ListsInv(d)
    ensures ListsInv(r.0)
  {
    if device.address in d.addresses then
      var i := IndexOf(d.addresses, device.address);
      if d.names[i].None? then
        var services := if !d.services[i] && AdvertisesMatrixService(adv) then d.services[i := true] else d.services;
        (DeviceLists(d.addresses, d.names[i := adv.localName], services),
         [Delete(i), Insert(At(i), DeviceString(device))])
      else (d, [])
    else
      var fresh_ := DeviceLists(d.addresses + [device.address], d.names + [adv.localName],
                                d.services + [AdvertisesMatrixService(adv)]);
      assert Distinct(fresh_.addresses) by {
        forall i, j | 0 <= i < j < |fresh_.addresses| ensures fresh_.addresses[i] != fresh_.addresses[j] {
          if j == |d.addresses| {
            assert fresh_.addresses[i] in d.addresses;
          }
        }
      }
      (fresh_, [Insert(End, DeviceString(device))])
  }

  /** A new address is appended to all three lists and its line goes to the end of the listbox. */
  lemma DetectNewAddress(d: DeviceLists, device: Device, adv: Advertisement)
    requires ListsInv(d) && device.address !in d.addresses
    ensures var (r, calls) := Detect(d, device, adv);
      && r.addresses == d.addresses + [device.address]
      && r.names == d.names + [adv.localName]
      && r.services == d.services + [MATRIX_SERVICE_UUID in adv.serviceUuids]
      && calls == [Insert(End, DeviceString(device))]
  {
  }

  /**
   * A repeated address whose stored name is `None` takes the advertised name, its line is
   * replaced in place, and the service flag only ever turns on; a repeated address with a
   * name changes nothing.
   */
  lemma DetectRepeatedAddress(d: DeviceLists, device: Device, adv: Advertisement, i: nat)
    requires ListsInv(d) && i < |d.addresses| && d.addresses[i] == device.address
    ensures var (r, calls) := Detect(d, device, adv);
      if d.names[i].None? then
        && r.addresses == d.addresses
        && r.names == d.names[i := adv.localName]
        && r.services == d.services[i := d.services[i] || MATRIX_SERVICE_UUID in adv.serviceUuids]
        && calls == [Delete(i), Insert(At(i), DeviceString(device))]
      else r == d && calls == []
  {
    var j := IndexOf(d.addresses, device.address);
    assert j == i;
  }

  /** The App's device bookkeeping: the three lists and the listbox calls scheduled so far. */
  class App {
    var addresses: seq<string>
    var names: seq<Option<string>>
    var services: seq<bool>
    var scheduled: seq<ListboxCall>

    function Lists(): DeviceLists
      reads this
    {
      DeviceLists(addresses, names, services)
    }

    ghost predicate Valid()
      reads this
    {
      ListsInv(Lists())
    }

    constructor ()
      ensures Valid() && Lists() == DeviceLists([], [], []) && scheduled == []
    {
      addresses, names, services, scheduled := [], [], [], [];
    }

    /** `_device_detection_callback(device, advertising_data)`, list bookkeeping only. */
    method DeviceDetectionCallback(device: Device, adv: Advertisement)
      requires Valid()
      modifies this
      ensures Valid()
      ensures var (lists, calls) := Detect(old(Lists()), device, adv);
        Lists() == lists && scheduled == old(scheduled) + calls
    {
      if device.address in addresses {
        var index := IndexOf(addresses, device.address);
        if names[index].None? {
          names := names[index := adv.localName];
          var deviceString := DeviceString(device);
          scheduled := scheduled + [Delete(index), Insert(At(index), deviceString)];
          if !services[index] && MATRIX_SERVICE_UUID in adv.serviceUuids {
            services := services[index := true];
          }
        }
      } else {
        var allowConnection := MATRIX_SERVICE_UUID in adv.serviceUuids;
        addresses := addresses + [device.address];
        names := names + [adv.localName];
        services := services + [allowConnection];
        var deviceString := DeviceString(device);
        scheduled := scheduled + [Insert(End, deviceString)];
      }
    }
  }
}
