/**
 * The fragment reassembler of dearpygui_app.py (class BLEFrameAssembler).
 *
 * A notification carries a 3-byte header (frame id, total parts, part number) and a
 * payload. The assembler keeps three dictionaries keyed by frame id: the slot list of
 * each pending frame, the part count it was created with and the time it was first seen.
 * `Submit` is the whole effect of one `construct_data` call on those dictionaries, stated
 * on a `Table` value; the class below is proved to do exactly that.
 */
module FrameAssembler {
  import opened Wrappers
  import opened Bytes

  /** A slot is empty (`None`) or holds the payload of one fragment. */
  type Slot = Option<seq<byte>>

  /** The three dictionaries of an assembler. */
  datatype Table = Table(
    frames: map<byte, seq<Slot>>,
    expectedParts: map<byte, int>,
    timestamps: map<byte, int>)

  const EmptyTable := Table(map[], map[], map[])

  /** The dictionaries share one key set and every slot list has its expected length. */
  predicate Inv(t: Table) {
    && t.frames.Keys == t.expectedParts.Keys == t.timestamps.Keys
    && forall id :: id in t.frames ==> |t.frames[id]| == t.expectedParts[id]
  }

  /** The header fields and payload of one notification. */
  datatype Fragment = Fragment(frameId: byte, totalParts: byte, partNumber: byte, payload: seq<byte>)

  /** The fixed 3-byte header: anything shorter is not a fragment. */
  function ParseFragment(data: seq<byte>): (r: Option<Fragment>)
    ensures r.None? <==> |data| < 3
    ensures r.Some? ==> data == [r.value.frameId, r.value.totalParts, r.value.partNumber] + r.value.payload
  {
    if |data| < 3 then None else Some(Fragment(data[0], data[1], data[2], data[3..]))
  }

  /** The ids whose first fragment is more than `timeout` older than `now`. */
  function ExpiredIds(timestamps: map<byte, int>, now: int, timeout: int): (r: set<byte>)
    ensures r <= timestamps.Keys
    ensures forall id :: id in timestamps ==> (id in r <==> now - timestamps[id] > timeout)
  {
    set id | id in timestamps && now - timestamps[id] > timeout
  }

  /** `_cleanup_old_frames`: drop every expired id from all three dictionaries. */
  function Cleanup(t: Table, now: int, timeout: int): (r: Table)
    ensures Inv(t) ==> Inv(r)
    ensures Inv(t) ==> forall id :: id in t.timestamps ==> (id in r.timestamps <==> now - t.timestamps[id] <= timeout)
    ensures forall id :: id in r.frames ==> id in t.frames && r.frames[id] == t.frames[id]
    ensures forall id :: id in r.expectedParts ==> id in t.expectedParts && r.expectedParts[id] == t.expectedParts[id]
    ensures forall id :: id in r.timestamps ==> id in t.timestamps && r.timestamps[id] == t.timestamps[id]
  {
    var expired := ExpiredIds(t.timestamps, now, timeout);
    Table(t.frames - expired, t.expectedParts - expired, t.timestamps - expired)
  }

  predicate AllFilled(slots: seq<Slot>) {
    forall i :: 0 <= i < |slots| ==> slots[i].Some?
  }

  /** `b''.join(slots)` once no slot is empty. */
  function Join(slots: seq<Slot>): seq<byte>
    requires AllFilled(slots)
  {
    if slots == [] then [] else slots[0].value + Join(slots[1..])
  }

  function EmptySlots(n: nat): (r: seq<Slot>)
    ensures |r| == n && forall i :: 0 <= i < n ==> r[i].None?
  {
    seq(n, _ => None)
  }

  /** Lines 62-65: a fragment of an id with no entry creates its empty slots, count and timestamp. */
  function Admit(t: Table, f: Fragment, now: int): (r: Table)
    requires Inv(t)
    ensures Inv(r) && f.frameId in r.frames
  {
    if f.frameId in t.frames then t
    else Table(t.frames[f.frameId := EmptySlots(f.totalParts)],
               t.expectedParts[f.frameId := f.totalParts],
               t.timestamps[f.frameId := now])
  }

  /** Lines 68-82: store the payload; a frame with no empty slot left is joined and retired. */
  function Store(t: Table, f: Fragment): (r: (Table, Option<seq<byte>>))
    requires Inv(t) && f.frameId in t.frames && f.partNumber < |t.frames[f.frameId]|
    ensures Inv(r.0)
  {
    var id := f.frameId;
    var stored := t.frames[id][f.partNumber := Some(f.payload)];
    if AllFilled(stored) then
      (Table(t.frames - {id}, t.expectedParts - {id}, t.timestamps - {id}), Some(Join(stored)))
    else
      (t.(frames := t.frames[id := stored]), None)
  }

  /**
   * One `construct_data(data)` at time `now`: the new dictionaries, and either the value
   * returned (a completed payload or None) or the IndexError raised when a fragment names a
   * part beyond the slot list created by an earlier fragment of the same id.
   */
  function Submit(t: Table, timeout: int, data: seq<byte>, now: int): (r: (Table, Result<Option<seq<byte>>, Exception>))
    requires Inv(t)
    ensures Inv(r.0)
  {
    var cleaned := Cleanup(t, now, timeout);
    match ParseFragment(data)
    case None => (cleaned, Success(None))
    case Some(f) =>
      if f.partNumber >= f.totalParts then (cleaned, Success(None))
      else
        var admitted := Admit(cleaned, f, now);
        if f.partNumber >= |admitted.frames[f.frameId]| then (admitted, Failure(IndexError))
        else
          var (stored, payload) := Store(admitted, f);
          (stored, Success(payload))
  }

  class BLEFrameAssembler {
    var frames: map<byte, seq<Slot>>
    var expectedParts: map<byte, int>
    var timestamps: map<byte, int>
    const timeout: int

    function State(): Table
      reads this
    {
      Table(frames, expectedParts, timestamps)
    }

    ghost predicate Valid()
      reads this
    {
      Inv(State())
    }

    constructor (timeout: int := 1)
      ensures Valid() && State() == EmptyTable && this.timeout == timeout
    {
      frames, expectedParts, timestamps := map[], map[], map[];
      this.timeout := timeout;
    }

    method ConstructData(data: seq<byte>, now: int) returns (result: Result<Option<seq<byte>>, Exception>)
      requires Valid()
      modifies this
      ensures Valid()
      ensures (State(), result) == Submit(old(State()), timeout, data, now)
    {
      CleanupOldFrames(now);
      ghost var cleaned := State();

      if |data| < 3 {
        return Success(None);
      }
      var frameId, totalParts, partNumber, payload := data[0], data[1], data[2], data[3..];
      var f := Fragment(frameId, totalParts, partNumber, payload);
      assert ParseFragment(data) == Some(f);

      if partNumber >= totalParts {
        return Success(None);
      }

      if frameId !in frames {
        frames := frames[frameId := EmptySlots(totalParts)];
        expectedParts := expectedParts[frameId := totalParts];
        timestamps := timestamps[frameId := now];
      }
      assert State() == Admit(cleaned, f, now);

      if partNumber >= |frames[frameId]| {
        return Failure(IndexError);
      }
      var complete := StoreFragment(f);
      return Success(complete);
    }

    /** Lines 68-82: fill the slot, and join and retire the frame once no slot is empty. */
    method StoreFragment(f: Fragment) returns (complete: Option<seq<byte>>)
      requires Valid() && f.frameId in frames && f.partNumber < |frames[f.frameId]|
      modifies this
      ensures Valid()
      ensures (State(), complete) == Store(old(State()), f)
    {
      var frameId := f.frameId;
      ghost var admitted := State();
      frames := frames[frameId := frames[frameId][f.partNumber := Some(f.payload)]];
      if AllFilled(frames[frameId]) {
        complete := Some(Join(frames[frameId]));
        frames := frames - {frameId};
        expectedParts := expectedParts - {frameId};
        timestamps := timestamps - {frameId};
        assert frames == admitted.frames - {frameId};
      } else {
        complete := None;
      }
    }

    method CleanupOldFrames(currentTime: int)
      modifies this
      ensures State() == Cleanup(old(State()), currentTime, timeout)
    {
      var expired := ExpiredIds(timestamps, currentTime, timeout);
      var pending := expired;
      while pending != {}
        invariant pending <= expired
        invariant frames == old(frames) - (expired - pending)
        invariant expectedParts == old(expectedParts) - (expired - pending)
        invariant timestamps == old(timestamps) - (expired - pending)
        decreases pending
      {
        var fid :| fid in pending;
        frames := frames - {fid};
        expectedParts := expectedParts - {fid};
        timestamps := timestamps - {fid};
        pending := pending - {fid};
      }
    }
  }

  // ---------------------------------------------------------------------------------------
  // What one call does

  /** A fragment that is too short or names a part outside its own count only triggers expiry. */
  lemma RejectedFragmentOnlyExpires(t: Table, timeout: int, data: seq<byte>, now: int)
    requires Inv(t)
    requires |data| < 3 || data[2] >= data[1]
    ensures Submit(t, timeout, data, now) == (Cleanup(t, now, timeout), Success(None))
  {
  }

  /**
   * Expiry runs on every call and is the only way a call changes the entry of an id other
   * than the fragment's own: such an entry survives iff it is not older than `timeout`
   * (strict comparison), and survives unchanged.
   */
  lemma OtherFramesOnlyExpire(t: Table, timeout: int, data: seq<byte>, now: int, id: byte)
    requires Inv(t)
    requires |data| < 3 || data[0] != id
    ensures var r := Submit(t, timeout, data, now).0;
      && (id in r.frames <==> id in t.frames && now - t.timestamps[id] <= timeout)
      && (id in r.frames ==>
            r.frames[id] == t.frames[id] && r.expectedParts[id] == t.expectedParts[id] &&
            r.timestamps[id] == t.timestamps[id])
  {
  }

  /**
   * A valid fragment of an id with no live entry (never seen, or expired by this very call)
   * starts a fresh frame of `totalParts` slots stamped `now`; a one-part frame completes at once.
   */
  lemma {:induction false} NewFrameId(t: Table, timeout: int, data: seq<byte>, now: int)
    requires Inv(t)
    requires |data| >= 3 && data[2] < data[1]
    requires data[0] !in t.frames || now - t.timestamps[data[0]] > timeout
    ensures var (r, out) := Submit(t, timeout, data, now);
      && (data[1] == 1 ==> out == Success(Some(data[3..])) && data[0] !in r.frames)
      && (data[1] > 1 ==>
            && out == Success(None)
            && data[0] in r.frames
            && |r.frames[data[0]]| == r.expectedParts[data[0]] == data[1]
            && r.timestamps[data[0]] == now
            && r.frames[data[0]][data[2]] == Some(data[3..])
            && forall i :: 0 <= i < data[1] && i != data[2] ==> r.frames[data[0]][i] == None)
  {
    var id, total, part := data[0], data[1], data[2];
    var cleaned := Cleanup(t, now, timeout);
    assert id !in cleaned.frames;
    var f := Fragment(id, total, part, data[3..]);
    assert ParseFragment(data) == Some(f);
    assert Admit(cleaned, f, now).frames[id] == EmptySlots(total);
    var stored := EmptySlots(total)[part := Some(data[3..])];
    if total == 1 {
      assert stored == [Some(data[3..])];
      assert stored[1..] == [];
      assert AllFilled(stored);
      assert Join(stored) == data[3..] + Join(stored[1..]);
      var admitted := Admit(cleaned, f, now);
      assert admitted.frames[id][part := Some(f.payload)] == stored;
      assert Join(stored) == data[3..];
      assert Store(admitted, f).1 == Some(data[3..]);
    } else {
      var other := if part == 0 then 1 else 0;
      assert stored[other].None?;
    }
  }

  /**
   * A valid fragment of a live id keeps the first-seen part count and timestamp, overwrites
   * its slot (last write wins), and completes the frame iff no slot is empty afterwards;
   * a part number past the existing slot list raises IndexError and changes nothing more
   * than expiry did.
   */
  lemma KnownFrameId(t: Table, timeout: int, data: seq<byte>, now: int)
    requires Inv(t)
    requires |data| >= 3 && data[2] < data[1]
    requires data[0] in t.frames && now - t.timestamps[data[0]] <= timeout
    ensures var (r, out) := Submit(t, timeout, data, now);
      var id, part, slots := data[0], data[2], t.frames[data[0]];
      && (part >= |slots| ==> r == Cleanup(t, now, timeout) && out == Failure(IndexError))
      && (part < |slots| ==>
            var stored := slots[part := Some(data[3..])];
            && (AllFilled(stored) ==> out == Success(Some(Join(stored))) && id !in r.frames)
            && (!AllFilled(stored) ==>
                  && out == Success(None)
                  && r.frames[id] == stored
                  && r.expectedParts[id] == t.expectedParts[id]
                  && r.timestamps[id] == t.timestamps[id]))
  {
  }

  // ---------------------------------------------------------------------------------------
  // A whole frame, fragment by fragment

  /** Successive `construct_data` calls, the k-th at `times[k]`: final table and every outcome. */
  function Replay(t: Table, timeout: int, packets: seq<seq<byte>>, times: seq<int>): (r: (Table, seq<Result<Option<seq<byte>>, Exception>>))
    requires Inv(t) && |packets| == |times|
    ensures Inv(r.0) && |r.1| == |packets|
    decreases |packets|
  {
    if packets == [] then (t, [])
    else
      var (next, out) := Submit(t, timeout, packets[0], times[0]);
      var (last, outs) := Replay(next, timeout, packets[1..], times[1..]);
      (last, [out] + outs)
  }

  /** The fragments of one frame with parts `payloads`, sent in the part order `order`. */
  function FramePackets(id: byte, payloads: seq<seq<byte>>, order: seq<nat>): (r: seq<seq<byte>>)
    requires 1 <= |payloads| <= 255
    requires forall k :: 0 <= k < |order| ==> order[k] < |payloads|
    ensures |r| == |order|
  {
    if order == [] then []
    else [[id, |payloads|, order[0]] + payloads[order[0]]] + FramePackets(id, payloads, order[1..])
  }

  /** `order` lists each of 0 .. n-1 exactly once. */
  ghost predicate IsPermutation(order: seq<nat>, n: nat) {
    && |order| == n
    && (forall k :: 0 <= k < n ==> order[k] < n)
    && (forall j, k :: 0 <= j < k < n ==> order[j] != order[k])
    && (forall i :: 0 <= i < n ==> i in order)
  }

  /** The slot list of a frame whose parts `seen` have arrived. */
  function Partial(payloads: seq<seq<byte>>, seen: set<nat>): (r: seq<Slot>)
    ensures |r| == |payloads|
  {
    seq(|payloads|, i requires 0 <= i < |payloads| => if i in seen then Some(payloads[i]) else None)
  }

  lemma {:induction false} JoinAllParts(slots: seq<Slot>, payloads: seq<seq<byte>>)
    requires |slots| == |payloads|
    requires forall i :: 0 <= i < |slots| ==> slots[i] == Some(payloads[i])
    ensures AllFilled(slots) && Join(slots) == Flatten(payloads)
  {
    if slots != [] {
      JoinAllParts(slots[1..], payloads[1..]);
    }
  }

  /** The fragment of part `part` of a frame whose parts are `payloads`. */
  function PartPacket(id: byte, payloads: seq<seq<byte>>, part: nat): seq<byte>
    requires |payloads| <= 255 && part < |payloads|
  {
    [id, |payloads|, part] + payloads[part]
  }

  /** A live frame gets one more part stored; another part is still missing afterwards. */
  lemma StoreMiddlePart(t: Table, timeout: int, id: byte, payloads: seq<seq<byte>>,
                        seen: set<nat>, part: nat, missing: nat, now: int)
    requires Inv(t) && |payloads| <= 255 && part < |payloads| && missing < |payloads|
    requires id in t.frames && t.frames[id] == Partial(payloads, seen)
    requires now - t.timestamps[id] <= timeout
    requires missing !in seen && missing != part
    ensures var (r, out) := Submit(t, timeout, PartPacket(id, payloads, part), now);
      && out == Success(None)
      && id in r.frames && r.frames[id] == Partial(payloads, seen + {part})
      && r.timestamps[id] == t.timestamps[id]
  {
    var data := PartPacket(id, payloads, part);
    KnownFrameId(t, timeout, data, now);
    var stored := t.frames[id][part := Some(payloads[part])];
    assert stored == Partial(payloads, seen + {part});
    assert stored[missing].None?;
  }

  /** A live frame gets its last missing part: the call returns all parts joined in index order. */
  lemma StoreLastPart(t: Table, timeout: int, id: byte, payloads: seq<seq<byte>>,
                      seen: set<nat>, part: nat, now: int)
    requires Inv(t) && |payloads| <= 255 && part < |payloads|
    requires id in t.frames && t.frames[id] == Partial(payloads, seen)
    requires now - t.timestamps[id] <= timeout
    requires forall i :: 0 <= i < |payloads| ==> i in seen || i == part
    ensures var (r, out) := Submit(t, timeout, PartPacket(id, payloads, part), now);
      out == Success(Some(Flatten(payloads))) && id !in r.frames
  {
    var data := PartPacket(id, payloads, part);
    KnownFrameId(t, timeout, data, now);
    var stored := t.frames[id][part := Some(payloads[part])];
    forall i | 0 <= i < |payloads| ensures stored[i] == Some(payloads[i]) {
    }
    JoinAllParts(stored, payloads);
  }

  /** One step of a replay: the first call, then the rest from the table it leaves. */
  lemma ReplayCons(t: Table, timeout: int, packets: seq<seq<byte>>, times: seq<int>)
    requires Inv(t) && |packets| == |times| && packets != []
    ensures var (next, out) := Submit(t, timeout, packets[0], times[0]);
      var (last, outs) := Replay(next, timeout, packets[1..], times[1..]);
      Replay(t, timeout, packets, times) == (last, [out] + outs)
  {
  }

  /** Outcomes that are `None` up to the last, which is the frame. */
  predicate NoneUntilLast(outs: seq<Result<Option<seq<byte>>, Exception>>, frame: seq<byte>) {
    && |outs| >= 1
    && outs[|outs| - 1] == Success(Some(frame))
    && forall k :: 0 <= k < |outs| - 1 ==> outs[k] == Success(None)
  }

  lemma ConsNone(outs: seq<Result<Option<seq<byte>>, Exception>>, frame: seq<byte>)
    requires NoneUntilLast(outs, frame)
    ensures NoneUntilLast([Success(None)] + outs, frame)
  {
    var all := [Success(None)] + outs;
    forall k | 0 <= k < |all| - 1 ensures all[k] == Success(None) {
      if k > 0 {
        assert all[k] == outs[k - 1];
      }
    }
  }

  /**
   * The inductive step: with the parts `done` stored (and stamped `stamp`), the remaining
   * fragments, each arriving within `timeout` of `stamp`, return nothing until the last one,
   * which returns the concatenation of all parts in index order and retires the id.
   */
  lemma {:induction false} ReplayPending(
    t: Table, timeout: int, id: byte, payloads: seq<seq<byte>>,
    done: seq<nat>, rest: seq<nat>, times: seq<int>)
    requires Inv(t)
    requires 1 <= |payloads| <= 255
    requires IsPermutation(done + rest, |payloads|) && |rest| >= 1
    requires forall k :: 0 <= k < |rest| ==> rest[k] < |payloads|
    requires |times| == |rest|
    requires id in t.frames && t.frames[id] == Partial(payloads, set k | k in done)
    requires forall k :: 0 <= k < |times| ==> times[k] - t.timestamps[id] <= timeout
    ensures var (r, outs) := Replay(t, timeout, FramePackets(id, payloads, rest), times);
      && outs[|outs| - 1] == Success(Some(Flatten(payloads)))
      && (forall k :: 0 <= k < |outs| - 1 ==> outs[k] == Success(None))
      && id !in r.frames
    decreases |rest|
  {
    ReplayPendingOutcomes(t, timeout, id, payloads, done, rest, times);
  }

  /** With one part pending, every other part has been seen. */
  lemma LastPendingPart(done: seq<nat>, rest: seq<nat>, n: nat, seen: set<nat>)
    requires IsPermutation(done + rest, n) && |rest| == 1 && seen == set k | k in done
    ensures forall i :: 0 <= i < n ==> i in seen || i == rest[0]
  {
    var order := done + rest;
    forall i | 0 <= i < n ensures i in seen || i == rest[0] {
      assert i in order;
    }
  }

  /** With two or more parts pending, the last pending part is still missing after the next. */
  lemma MissingPendingPart(done: seq<nat>, rest: seq<nat>, n: nat)
    requires IsPermutation(done + rest, n) && |rest| >= 2
    ensures var missing := rest[|rest| - 1];
      missing !in (set k | k in done) && missing != rest[0] && missing < n
  {
    var order := done + rest;
    var missing := rest[|rest| - 1];
    assert missing == order[n - 1];
    assert rest[0] == order[|done|];
    forall k | 0 <= k < |done| ensures done[k] != missing {
      assert done[k] == order[k];
    }
  }

  lemma SeenGrows(done: seq<nat>, part: nat)
    ensures (set k | k in done + [part]) == (set k | k in done) + {part}
  {
  }

  lemma PermutationShift(done: seq<nat>, rest: seq<nat>, n: nat)
    requires IsPermutation(done + rest, n) && |rest| >= 1
    ensures IsPermutation((done + [rest[0]]) + rest[1..], n)
  {
    assert (done + [rest[0]]) + rest[1..] == done + rest;
  }

  lemma {:induction false} ReplayPendingOutcomes(
    t: Table, timeout: int, id: byte, payloads: seq<seq<byte>>,
    done: seq<nat>, rest: seq<nat>, times: seq<int>)
    requires Inv(t)
    requires 1 <= |payloads| <= 255
    requires IsPermutation(done + rest, |payloads|) && |rest| >= 1
    requires forall k :: 0 <= k < |rest| ==> rest[k] < |payloads|
    requires |times| == |rest|
    requires id in t.frames && t.frames[id] == Partial(payloads, set k | k in done)
    requires forall k :: 0 <= k < |times| ==> times[k] - t.timestamps[id] <= timeout
    ensures var (r, outs) := Replay(t, timeout, FramePackets(id, payloads, rest), times);
      NoneUntilLast(outs, Flatten(payloads)) && id !in r.frames
    decreases |rest|, 1
  {
    if |rest| == 1 {
      ReplayLastPending(t, timeout, id, payloads, done, rest, times);
    } else {
      ReplayMiddlePending(t, timeout, id, payloads, done, rest, times);
    }
  }

  /** The last pending fragment completes the frame. */
  lemma ReplayLastPending(
    t: Table, timeout: int, id: byte, payloads: seq<seq<byte>>,
    done: seq<nat>, rest: seq<nat>, times: seq<int>)
    requires Inv(t)
    requires 1 <= |payloads| <= 255
    requires IsPermutation(done + rest, |payloads|) && |rest| == 1
    requires forall k :: 0 <= k < |rest| ==> rest[k] < |payloads|
    requires |times| == |rest|
    requires id in t.frames && t.frames[id] == Partial(payloads, set k | k in done)
    requires forall k :: 0 <= k < |times| ==> times[k] - t.timestamps[id] <= timeout
    ensures var (r, outs) := Replay(t, timeout, FramePackets(id, payloads, rest), times);
      NoneUntilLast(outs, Flatten(payloads)) && id !in r.frames
  {
    var seen := set k | k in done;
    var packets := FramePackets(id, payloads, rest);
    assert packets[0] == PartPacket(id, payloads, rest[0]);
    ReplayCons(t, timeout, packets, times);
    LastPendingPart(done, rest, |payloads|, seen);
    StoreLastPart(t, timeout, id, payloads, seen, rest[0], times[0]);
    assert packets[1..] == [];
  }

  /** A fragment that is not the last pending one returns `None`; the rest complete the frame. */
  lemma {:induction false} ReplayMiddlePending(
    t: Table, timeout: int, id: byte, payloads: seq<seq<byte>>,
    done: seq<nat>, rest: seq<nat>, times: seq<int>)
    requires Inv(t)
    requires 1 <= |payloads| <= 255
    requires IsPermutation(done + rest, |payloads|) && |rest| >= 2
    requires forall k :: 0 <= k < |rest| ==> rest[k] < |payloads|
    requires |times| == |rest|
    requires id in t.frames && t.frames[id] == Partial(payloads, set k | k in done)
    requires forall k :: 0 <= k < |times| ==> times[k] - t.timestamps[id] <= timeout
    ensures var (r, outs) := Replay(t, timeout, FramePackets(id, payloads, rest), times);
      NoneUntilLast(outs, Flatten(payloads)) && id !in r.frames
    decreases |rest|, 0
  {
    var packets := FramePackets(id, payloads, rest);
    assert packets[0] == PartPacket(id, payloads, rest[0]);
    MiddleStep(t, timeout, id, payloads, done, rest, times[0]);
    var next := Submit(t, timeout, packets[0], times[0]).0;
    PermutationShift(done, rest, |payloads|);
    assert packets[1..] == FramePackets(id, payloads, rest[1..]);
    ReplayPendingOutcomes(next, timeout, id, payloads, done + [rest[0]], rest[1..], times[1..]);
    ReplayAfterNone(t, timeout, packets, times, id, Flatten(payloads));
  }

  /** A first call that returns `None` adds one `None` in front of the outcomes of the rest. */
  lemma ReplayAfterNone(t: Table, timeout: int, packets: seq<seq<byte>>, times: seq<int>, id: byte, frame: seq<byte>)
    requires Inv(t) && |packets| == |times| && packets != []
    requires Submit(t, timeout, packets[0], times[0]).1 == Success(None)
    requires var (r, outs) := Replay(Submit(t, timeout, packets[0], times[0]).0, timeout, packets[1..], times[1..]);
      NoneUntilLast(outs, frame) && id !in r.frames
    ensures var (r, outs) := Replay(t, timeout, packets, times);
      NoneUntilLast(outs, frame) && id !in r.frames
  {
    ReplayCons(t, timeout, packets, times);
    var next := Submit(t, timeout, packets[0], times[0]).0;
    ConsNone(Replay(next, timeout, packets[1..], times[1..]).1, frame);
  }

  /** The first of two or more pending parts is stored and returns `None`. */
  lemma MiddleStep(t: Table, timeout: int, id: byte, payloads: seq<seq<byte>>,
                   done: seq<nat>, rest: seq<nat>, now: int)
    requires Inv(t) && |payloads| <= 255
    requires IsPermutation(done + rest, |payloads|) && |rest| >= 2 && rest[0] < |payloads|
    requires id in t.frames && t.frames[id] == Partial(payloads, set k | k in done)
    requires now - t.timestamps[id] <= timeout
    ensures var (r, out) := Submit(t, timeout, PartPacket(id, payloads, rest[0]), now);
      && out == Success(None)
      && id in r.frames && r.frames[id] == Partial(payloads, set k | k in done + [rest[0]])
      && r.timestamps[id] == t.timestamps[id]
  {
    var n := |payloads|;
    MissingPendingPart(done, rest, n);
    StoreMiddlePart(t, timeout, id, payloads, (set k | k in done), rest[0], rest[|rest| - 1], now);
    SeenGrows(done, rest[0]);
  }

  /** The first fragment of a frame whose id is not live opens it with only that part stored. */
  lemma StoreFirstPart(t: Table, timeout: int, id: byte, payloads: seq<seq<byte>>, part: nat, now: int)
    requires Inv(t) && 2 <= |payloads| <= 255 && part < |payloads|
    requires id !in t.frames || now - t.timestamps[id] > timeout
    ensures var (r, out) := Submit(t, timeout, PartPacket(id, payloads, part), now);
      && out == Success(None)
      && id in r.frames && r.frames[id] == Partial(payloads, {part})
      && r.timestamps[id] == now
  {
    var data := PartPacket(id, payloads, part);
    assert data[3..] == payloads[part];
    NewFrameId(t, timeout, data, now);
    var r := Submit(t, timeout, data, now).0;
    assert r.frames[id] == Partial(payloads, {part});
  }

  /** A one-part frame completes on its only fragment. */
  lemma StoreOnlyPart(t: Table, timeout: int, id: byte, payload: seq<byte>, now: int)
    requires Inv(t)
    requires id !in t.frames || now - t.timestamps[id] > timeout
    ensures var (r, out) := Submit(t, timeout, PartPacket(id, [payload], 0), now);
      out == Success(Some(Flatten([payload]))) && id !in r.frames
  {
    var data := PartPacket(id, [payload], 0);
    assert data[3..] == payload;
    NewFrameId(t, timeout, data, now);
    assert Flatten([payload]) == payload + Flatten([]);
  }

  /**
   * Fragments covering parts 0 .. n-1 of one frame id exactly once, in any order, each within
   * `timeout` of the first, starting from a table where the id is not live: every call but the
   * last returns nothing, the last returns the parts joined in index order, and the id is retired.
   */
  lemma {:induction false} FrameCompletesOnLastPart(
    t: Table, timeout: int, id: byte, payloads: seq<seq<byte>>, order: seq<nat>, times: seq<int>)
    requires Inv(t)
    requires 1 <= |payloads| <= 255
    requires IsPermutation(order, |payloads|)
    requires |times| == |order| && timeout >= 0
    requires forall k :: 0 <= k < |times| ==> times[k] - times[0] <= timeout
    requires id !in t.frames || times[0] - t.timestamps[id] > timeout
    ensures var (r, outs) := Replay(t, timeout, FramePackets(id, payloads, order), times);
      && outs[|outs| - 1] == Success(Some(Flatten(payloads)))
      && (forall k :: 0 <= k < |outs| - 1 ==> outs[k] == Success(None))
      && id !in r.frames
  {
    var n := |payloads|;
    var packets := FramePackets(id, payloads, order);
    assert packets[0] == PartPacket(id, payloads, order[0]);
    ReplayCons(t, timeout, packets, times);
    if n == 1 {
      assert order == [0] by { assert 0 in order; }
      assert payloads == [payloads[0]];
      StoreOnlyPart(t, timeout, id, payloads[0], times[0]);
      assert packets[1..] == [];
    } else {
      OpenThenReplay(t, timeout, id, payloads, order, times);
      var next := Submit(t, timeout, packets[0], times[0]).0;
      ConsNone(Replay(next, timeout, packets[1..], times[1..]).1, Flatten(payloads));
    }
  }

  /** The frame opened by its first fragment is completed by the others. */
  lemma OpenThenReplay(
    t: Table, timeout: int, id: byte, payloads: seq<seq<byte>>, order: seq<nat>, times: seq<int>)
    requires Inv(t)
    requires 2 <= |payloads| <= 255
    requires IsPermutation(order, |payloads|)
    requires |times| == |order|
    requires forall k :: 0 <= k < |times| ==> times[k] - times[0] <= timeout
    requires id !in t.frames || times[0] - t.timestamps[id] > timeout
    ensures var packets := FramePackets(id, payloads, order);
      var next := Submit(t, timeout, packets[0], times[0]).0;
      var (r, outs) := Replay(next, timeout, packets[1..], times[1..]);
      NoneUntilLast(outs, Flatten(payloads)) && id !in r.frames
      && Submit(t, timeout, packets[0], times[0]).1 == Success(None)
  {
    var n := |payloads|;
    var packets := FramePackets(id, payloads, order);
    assert packets[0] == PartPacket(id, payloads, order[0]);
    StoreFirstPart(t, timeout, id, payloads, order[0], times[0]);
    var next := Submit(t, timeout, packets[0], times[0]).0;
    assert next.frames[id] == Partial(payloads, set k | k in [order[0]]) by {
      assert (set k | k in [order[0]]) == {order[0]};
    }
    assert IsPermutation([order[0]] + order[1..], n) by {
      assert [order[0]] + order[1..] == order;
    }
    assert packets[1..] == FramePackets(id, payloads, order[1..]);
    ReplayPendingOutcomes(next, timeout, id, payloads, [order[0]], order[1..], times[1..]);
  }

  /** The two parts of the frame in the scenario below: "AA" and "BB". */
  function PairPayloads(): (r: seq<seq<byte>>)
    ensures |r| == 2
  {
    [[65, 65], [66, 66]]
  }

  /** Part 1 of frame 5 into an empty assembler opens the frame with only part 1 stored. */
  lemma PairFirstCall()
    ensures var (t1, o1) := Submit(EmptyTable, 1, [5, 2, 1, 66, 66], 0);
      && o1 == Success(None)
      && t1.frames.Keys == {5}
      && t1.frames[5] == Partial(PairPayloads(), {1})
      && t1.timestamps[5] == 0
  {
    assert PartPacket(5, PairPayloads(), 1) == [5, 2, 1, 66, 66];
    StoreFirstPart(EmptyTable, 1, 5, PairPayloads(), 1, 0);
  }

  /** Part 0 of frame 5 completes it: "AA" + "BB", and nothing is left in the tables. */
  lemma PairSecondCall(t1: Table)
    requires Inv(t1) && t1.frames.Keys == {5}
    requires t1.frames[5] == Partial(PairPayloads(), {1}) && t1.timestamps[5] == 0
    ensures var (t2, o2) := Submit(t1, 1, [5, 2, 0, 65, 65], 0);
      o2 == Success(Some([65, 65, 66, 66])) && t2 == EmptyTable
  {
    var payloads: seq<seq<byte>> := PairPayloads();
    var data: seq<byte> := [5, 2, 0, 65, 65];
    assert PartPacket(5, payloads, 0) == data;
    StoreLastPart(t1, 1, 5, payloads, {1}, 0, 0);
    PairJoined();
    var t2 := Submit(t1, 1, data, 0).0;
    forall id: byte | id != 5 ensures id !in t2.frames {
      OtherFramesOnlyExpire(t1, 1, data, 0, id);
    }
    assert t2.frames.Keys == {};
  }

  lemma PairJoined()
    ensures Flatten(PairPayloads()) == [65, 65, 66, 66]
  {
    var payloads: seq<seq<byte>> := PairPayloads();
    var tail: seq<seq<byte>> := [[66, 66]];
    assert payloads[1..] == tail && tail[1..] == [];
  }

  /** Parts 1 then 0 of frame 5, "BB" then "AA", complete on the second call with "AABB". */
  lemma OutOfOrderPairScenario()
    ensures Submit(EmptyTable, 1, [5, 2, 1, 66, 66], 0).1 == Success(None)
    ensures var t1 := Submit(EmptyTable, 1, [5, 2, 1, 66, 66], 0).0;
      Submit(t1, 1, [5, 2, 0, 65, 65], 0).1 == Success(Some([65, 65, 66, 66]))
    ensures var t1 := Submit(EmptyTable, 1, [5, 2, 1, 66, 66], 0).0;
      Submit(t1, 1, [5, 2, 0, 65, 65], 0).0 == EmptyTable
  {
    PairFirstCall();
    PairSecondCall(Submit(EmptyTable, 1, [5, 2, 1, 66, 66], 0).0);
  }
}
