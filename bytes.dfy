/** Bytes and the `struct` little-endian formats the code unpacks. */
module Bytes {
  import opened Wrappers

  /** One item of a Python `bytes` or `bytearray`. */
  type byte = b: int | 0 <= b < 256

  /** `b''.join(parts)` and, on lists of rows, the row-major flattening of a grid. */
  function Flatten<T>(parts: seq<seq<T>>): seq<T> {
    if parts == [] then [] else parts[0] + Flatten(parts[1..])
  }

  /**
   * `struct.unpack('<' + 'H' * (len(data) // 2), data)`: the unpack fails unless the buffer
   * holds exactly that many 2-byte items, so an odd length is a struct.error.
   */
  function UnpackU16LE(data: seq<byte>): (r: Option<seq<int>>)
    ensures r.Some? <==> |data| % 2 == 0
    ensures r.Some? ==> |r.value| == |data| / 2
    ensures r.Some? ==> forall k :: 0 <= k < |r.value| ==>
              r.value[k] == data[2 * k] as int + 256 * (data[2 * k + 1] as int) && 0 <= r.value[k] <= 65535
  {
    if |data| == 0 then Some([])
    else if |data| == 1 then None
    else match UnpackU16LE(data[2..])
      case None => None
      case Some(rest) => Some([data[0] as int + 256 * (data[1] as int)] + rest)
  }

  predicate IsU16(values: seq<int>) {
    forall k :: 0 <= k < |values| ==> 0 <= values[k] <= 65535
  }

  /** `struct.pack('<' + 'H' * len(values), *values)`, the sender's encoding. */
  function PackU16LE(values: seq<int>): (r: seq<byte>)
    requires IsU16(values)
    ensures |r| == 2 * |values|
  {
    if values == [] then []
    else [values[0] % 256, values[0] / 256] + PackU16LE(values[1..])
  }

  /** Unpacking what was packed gives the values back. */
  lemma {:induction false} UnpackPackU16LE(values: seq<int>)
    requires IsU16(values)
    ensures UnpackU16LE(PackU16LE(values)) == Some(values)
  {
    if values != [] {
      var p := PackU16LE(values);
      assert p[2..] == PackU16LE(values[1..]);
      UnpackPackU16LE(values[1..]);
      assert values == [values[0]] + values[1..];
    }
  }
}
