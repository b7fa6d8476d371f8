# BLE Matrix Streamer, modelled in Dafny

BLE Matrix Streamer reads frames from a pressure-sensing matrix over Bluetooth Low Energy and shows
them. The device splits each frame into notifications of at most one packet each. Every packet
starts with a three-byte header: frame id, total parts, part number. The host rebuilds the frame
from the packets, decodes it into a grid of readings, colours the grid and draws it.

The project models the deterministic core of the host:

- **The fragment reassembler** `BLEFrameAssembler` (module `FrameAssembler`). It holds three
  tables keyed by frame id, and every call:
  - expires old entries;
  - parses the header;
  - rejects short packets and bad part numbers;
  - stores the payload;
  - returns the joined frame once every part has arrived.

  The class works in place on `map` fields. Its `ConstructData` is proved equal to the pure step
  function `Submit`, so the lemmas about `Submit` hold for the class too. They cover:
  - the shared-key invariant;
  - expiry;
  - first-seen slot counts;
  - last-write-wins storing;
  - the IndexError when a later packet declares more parts;
  - completion. When the frame's id has no live entry and every part arrives within the timeout
    of the first, any permutation of the frame's parts returns the frame exactly once, on the
    last part.
- **The connection pipeline** (module `Connection`):
  - dimensions and matrix decoding;
  - the notification handler, which pushes exactly one decoded matrix per completed frame;
  - `stop`, which empties the queue;
  - the GUI drain, which returns the last queued matrix and leaves the queue empty.
- **The scanner's device table** (module `Scanner`):
  - the detection callback, including its merge quirk: a device seen again with a real name has
    its name overwritten by `None`;
  - one sweep of stale-device removal, with its delete callbacks as an event log.
- **The tkinter front end** (module `MainApp`):
  - the swapped dimension decoder;
  - the matrix decoder with its `[i:i+rows]` step-`columns` reshape, kept as written. The reshape
    (module `Reshape`) is shared with the multiprocessing variant;
  - `remap_matrix`;
  - the three parallel device lists and the listbox calls the callback schedules.
- **The command-line investigator** (module `Investigator`):
  - `is_byte` over the hexadecimal grammar of `int(text, 16)`;
  - the comma-separated parse loop of `write`, with a round trip from byte values to prompt text
    and back;
  - `strip_tuple`;
  - the branches of `decode_data`.
- **The matrix widget** (module `MatrixView`):
  - the 4096-entry colour map;
  - the row-major grid of rectangles and their coordinates;
  - the `edit_rectangle` index check;
  - the size check and colour lookup;
  - `update_matrix`, which stops at the first missing cell.

  The canvas is a class whose methods append to a log of calls.
- **The multiprocessing variant's 16-bit decoder** (module `MultiprocessingFunctions`).

These modules are not from a source file:

- `Wrappers`: Option and Result, with a datatype of the Python exceptions that matter.
- `Seqs`: small sequence helpers.
- `Bytes`: the byte type, concatenation, and little-endian 16-bit unpacking.
- `BleCommon`: the service UUID and advertisement records.

Notes on how the model reads the code:

- `time.time()` is an integer parameter `now`, and the default timeout of 1.0 s is 1.
- A rejected packet still runs the expiry of line 45 of dearpygui_app.py. This model follows the
  code: the result is the table after expiry, not an unchanged table.
- multiprocessing_functions.py:22-24 is the same function as main.py:60-62. Both are modelled by
  `MainApp.DecodeMatrixDimensions`.
- `BLEScanner` stores the service flag as the string `str(bool)`, so `"False"` is truthy. The model
  keeps the flag as `Option<bool>`, where only `None` is falsy.

## Model

| member | source | states |
|---|---|---|
| FrameAssembler.ParseFragment | dearpygui_app.py:47-54 | A packet is rejected exactly when it is shorter than 3 bytes. Otherwise id, total, part and payload are its bytes 0, 1, 2 and 3.. in that order. |
| FrameAssembler.Admit | dearpygui_app.py:61-65 | After admitting a fragment, its id has an entry and the three tables still share one key set, with slot count equal to expected parts. |
| FrameAssembler.Store | dearpygui_app.py:67-82 | Storing a payload and removing a completed frame keep the shared-key and slot-count invariant. |
| FrameAssembler.Submit | dearpygui_app.py:41-82 | Any call, whatever the packet, keeps the shared-key and slot-count invariant. |
| FrameAssembler.BLEFrameAssembler.constructor | dearpygui_app.py:35-39 | Starts with three empty tables and the given timeout (default 1). |
| FrameAssembler.BLEFrameAssembler.ConstructData | dearpygui_app.py:41-82 | The in-place update of the three dicts gives the new state and result of `Submit`, and keeps the invariant. |
| FrameAssembler.BLEFrameAssembler.StoreFragment | dearpygui_app.py:68-82 | Filling a slot, and joining and retiring a frame with no empty slot left, gives the state and payload of `Store` and keeps the invariant. |
| FrameAssembler.ExpiredIds | dearpygui_app.py:85-86 | The expired ids are exactly the stored ids whose first-seen time is strictly more than `timeout` before `now`. |
| FrameAssembler.Cleanup | dearpygui_app.py:84-91 | Keeps the shared-key and slot-count invariant. An id survives iff it is not expired, and every surviving entry of the three tables is unchanged. |
| FrameAssembler.BLEFrameAssembler.CleanupOldFrames | dearpygui_app.py:84-91 | The loop removes exactly the ids with `now - t > timeout` from all three tables. |
| FrameAssembler.RejectedFragmentOnlyExpires | dearpygui_app.py:45-59 | A packet shorter than 3 bytes, or with part number >= total parts (so any total of 0), returns None. Its only effect is the expiry. |
| FrameAssembler.OtherFramesOnlyExpire | dearpygui_app.py:84-91 | Every id other than the packet's survives iff it was present and not strictly older than the timeout. A survivor's slots, expected parts and timestamp are unchanged. |
| FrameAssembler.NewFrameId | dearpygui_app.py:61-82 | An unseen or expired id gets `total` slots, expected parts `total` and timestamp `now`, with only the given part filled. A one-part frame returns its payload at once and leaves no entry. |
| FrameAssembler.KnownFrameId | dearpygui_app.py:61-82 | A live id keeps its first-seen slot count and timestamp, and the part overwrites its slot. A part beyond the stored slot count raises IndexError. A filled list returns its join and removes the id; otherwise the call returns None. |
| FrameAssembler.JoinAllParts | dearpygui_app.py:71-72 | Slots holding every payload are all filled, and their join is the payloads concatenated in index order. |
| FrameAssembler.StoreFirstPart | dearpygui_app.py:61-68 | The first part of a fresh multi-part frame leaves exactly that part filled and stamps the frame with `now`. |
| FrameAssembler.StoreOnlyPart | dearpygui_app.py:61-80 | A one-part frame completes on its only packet. |
| FrameAssembler.StoreMiddlePart | dearpygui_app.py:67-82 | A part arriving while another part is still missing adds it to the filled set and returns None. |
| FrameAssembler.StoreLastPart | dearpygui_app.py:67-80 | The part that fills the last empty slot returns the whole frame and removes its entry. |
| FrameAssembler.ReplayPending | dearpygui_app.py:41-82 | The remaining parts of a partly received frame, in any order and within the timeout, return None until the last one, which returns the full payload. |
| FrameAssembler.FrameCompletesOnLastPart | dearpygui_app.py:41-82 | The parts of a frame sent in any permutation within the timeout give None, ..., None, then the concatenation of the payloads in part order. No entry is left behind. |
| FrameAssembler.OutOfOrderPairScenario | dearpygui_app.py:41-82 | Frame 5 of two parts, sent as part 1 "BB" then part 0 "AA", returns None and then "AABB", and leaves the tables empty. |
| Connection.GetMatrixDimensions | dearpygui_app.py:220-223 | Succeeds iff exactly 2 bytes arrive: rows is byte 0, columns is byte 1. Any other length is struct.error. |
| Connection.DecodeMatrixData | dearpygui_app.py:225-228 | Succeeds iff the dimensions are known and the frame holds rows*columns bytes, yielding the bytes as values in order. Unknown dimensions are a TypeError and a wrong length is struct.error. |
| Connection.Pushed | dearpygui_app.py:231-236 | One handler call pushes at most one item. An exception from the assembler propagates and pushes nothing. An incomplete frame pushes nothing. Exactly when a frame completes and decodes, its bytes are the one item pushed. |
| Connection.PushedAreRightSized | dearpygui_app.py:231-236 | Over any sequence of calls, including calls that raised, the items pushed are exactly the completed frames of rows*columns bytes, in completion order. |
| Connection.OnePushPerCompletedFrame | dearpygui_app.py:231-236 | When completed frames have the right size, the handler pushes exactly one decoded matrix per completed frame, in completion order, and nothing for incomplete ones. Frames completed after a call that raised are included. |
| Connection.WrongSizeFrameNotPushed | dearpygui_app.py:231-236 | A completed frame of the wrong size raises struct.error, and nothing is pushed. |
| Connection.MatrixDataQueue.Put | dearpygui_app.py:236 | `put` appends at the back of the queue. |
| Connection.MatrixDataQueue.GetNowait | dearpygui_app.py:253-254 | `get_nowait` removes and returns the front item. On an empty queue it raises `queue.Empty`. |
| Connection.BLEConnection.ReceiveDimensions | dearpygui_app.py:203 | The decoded dimensions are stored as the connection's rows and columns. On failure they are unchanged. |
| Connection.BLEConnection.NotificationHandler | dearpygui_app.py:231-236 | The assembler takes the step `Submit` prescribes. The queue grows by what `Pushed` says about its outcome, and an exception leaves the queue unchanged. |
| Connection.BLEConnection.Stop | dearpygui_app.py:249-254 | The drain loop leaves the queue empty. |
| Connection.LatestMatrixData | dearpygui_app.py:374-382 | The drain returns the last item of the queue, or None when the queue was empty, and leaves the queue empty. |
| Scanner.ShownName | dearpygui_app.py:131 | A missing or empty local name shows as "Unknown"; any other name shows as itself. |
| Scanner.BLEScanner.DeviceFound | dearpygui_app.py:124-143 | The table and callback log change as `Sighting` prescribes. Name and service are refreshed only when stored as "Unknown" or falsy; otherwise `None` is stored. |
| Scanner.BLEScanner.RemoveStaleDevices | dearpygui_app.py:150-156 | Removes exactly the devices last seen at least 20 s ago. It calls delete once per removed address and lists each address once. Every remaining device is younger than 20 s and unchanged, and every such device remains. |
| Scanner.BLEScanner.CollectStale | dearpygui_app.py:150-154 | Leaves the table alone and collects each stale address exactly once, firing one delete callback per collected address in order. |
| Scanner.BLEScanner.PopAll | dearpygui_app.py:155-156 | Removes exactly the collected addresses from the table and fires no callback. |
| Scanner.NewAddressRecorded | dearpygui_app.py:137-143 | A new address is stored with its shown name, its service flag and `now`, and fires one new-device callback. |
| Scanner.UnknownNameRefreshed | dearpygui_app.py:129-143 | A device stored as "Unknown" with its service flag set takes the advertised name with one name-update callback, and its flag is cleared to None. |
| Scanner.SecondSightingForgetsName | dearpygui_app.py:129-143 | Seeing a named device a second time overwrites both its name and service flag with None, and fires no callback. |
| Scanner.ThirdSightingRefreshesOnlyService | dearpygui_app.py:129-143 | On the third sighting the cleared service flag is refreshed with one callback. The name stays None. |
| Scanner.Sighting | dearpygui_app.py:124-143 | A sighting adds or replaces only its own address, stamped with `now`, leaving every other entry as it was. A new address fires exactly one NewDevice callback; a known one fires at most two updates for that address. Its stored name is set, to the shown name with an UpdateName callback, exactly when the old name was "Unknown"; its service flag is set, to the advertised test with an UpdateService callback, exactly when the old flag was falsy. |
| Scanner.RecentSightingSurvivesSweep | dearpygui_app.py:124-156 | A device seen at time t survives every sweep before t + 20. |
| MainApp.DecodeMatrixDimensions | main.py:60-62 | Succeeds iff exactly 2 bytes arrive, and returns them swapped: (byte 1, byte 0). |
| MainApp.DimensionsSwapped | main.py:60-62 | The main.py decoder returns the dearpygui decoder's pair in the opposite order and fails in the same cases. |
| MainApp.DecodeMatrixData | main.py:65-71 | A length other than rows*columns is struct.error. Zero columns is a ValueError from `range`. Succeeds iff the length is rows*columns and columns is non-zero, giving the chunks of the bytes. |
| MainApp.DecodedRows | main.py:69 | The result has ceil(n/columns) chunks, and chunk k is `bytes[k*columns : k*columns+rows]`, clipped at the end. |
| MainApp.SquareDecodeRoundTrip | main.py:65-71 | For a square n x n grid, decoding its row-major bytes gives back the grid. |
| MainApp.RemapMatrix | main.py:24-29 | Succeeds iff the matrix is non-empty and rectangular; otherwise numpy raises ValueError. |
| MainApp.RemapCells | main.py:24-29 | Shape is kept, and cell [i][j] is `2*max(m[i][w-1-j] - threshold, 0)` (left-right flip), never negative. |
| MainApp.RemapTwice | main.py:24-29 | For non-negative input and threshold 0, remapping twice undoes the flip and multiplies every cell by 4. |
| MainApp.PadRight25 | main.py:169 | `{:<25}` keeps the text and pads it with spaces to at least 25 characters. |
| MainApp.DeviceString | main.py:169 | The listbox line is a space, `str(name)` left-aligned in a column of at least 25 spaces, " : " and the address, in that order and nothing else. |
| MainApp.Detect | main.py:161-185 | After every detection the three lists have equal length and the addresses are distinct. |
| MainApp.DetectNewAddress | main.py:176-185 | A new address appends address, local name and service flag to the lists, and schedules one insert at the end. |
| MainApp.DetectRepeatedAddress | main.py:163-174 | For a repeated address with no name: the name is set, the flag is or-ed with the service test, and the entry is replaced in the listbox at its index. With a name, nothing changes. |
| MainApp.App.DeviceDetectionCallback | main.py:161-185 | The in-place list updates and scheduled listbox calls are those of `Detect`, and the invariant holds again. |
| Reshape.Chunks | main.py:69 | The comprehension gives no chunks exactly for an empty list. |
| Reshape.ChunkCount | main.py:69 | The number of chunks is ceil(n/cols), stated as `(|r|-1)*cols < n <= |r|*cols`. |
| Reshape.ChunkAt | main.py:69 | Chunk k starts at `k*cols` and holds `flat[k*cols : k*cols+rows]`, clipped at the end. |
| Reshape.FlattenSquareChunks | main.py:69 | When rows == cols, concatenating the chunks gives back the flat list. |
| Reshape.ChunksOfFlatten | main.py:69 | When rows == cols, chunking the concatenation of equal-length rows gives back those rows. |
| Reshape.OverlappingChunksExample | multiprocessing_functions.py:17 | With rows > cols, consecutive chunks overlap: [1..6] with rows 3 and cols 2 gives [[1,2,3],[3,4,5],[5,6]]. |
| Reshape.GappedChunksExample | main.py:69 | With rows < cols, values are skipped: [1,2,3,4] with rows 1 and cols 2 gives [[1],[3]]. |
| Investigator.StripPadding | ble_investigator_app.py:40 | `strip` removes exactly the surrounding characters of the given set. |
| Investigator.IsByte | ble_investigator_app.py:93-98 | True iff the text parses as a base-16 integer in 0..0xFF. A parse failure is False. |
| Investigator.HexValueOfFormatHex | ble_investigator_app.py:95 | The value of a number's hexadecimal digits is that number. |
| Investigator.ParseFormattedHex | ble_investigator_app.py:95 | `int(text, 16)` of a number's hex digits, with or without 0x/0X and surrounded by whitespace, is that number. |
| Investigator.IsByteFormatHex | ble_investigator_app.py:93-98 | A number's hex digits, with or without 0x, form a byte iff the number is at most 255. |
| Investigator.NonBytes | ble_investigator_app.py:93-98 | "", "0x", "zz", "-1" and "100" are rejected. |
| Investigator.Split | ble_investigator_app.py:40 | `split(",")` gives at least one piece, and no piece contains the separator. |
| Investigator.JoinSplit | ble_investigator_app.py:40 | Joining the pieces of a split with the separator gives back the text. |
| Investigator.SplitJoin | ble_investigator_app.py:40 | Splitting a join of separator-free pieces gives back the pieces. |
| Investigator.Pieces | ble_investigator_app.py:40 | One stripped piece per comma-separated field. |
| Investigator.AcceptedValuesAppend | ble_investigator_app.py:43-48 | One more piece appends its value when it is a byte, and nothing otherwise. |
| Investigator.AllBytesAppend | ble_investigator_app.py:43-48 | All pieces plus one more are bytes iff all of them were and the new one is. |
| Investigator.ParseByteString | ble_investigator_app.py:38-53 | The loop collects the value of every accepted piece in input order. The flag is set iff some piece is rejected, and the bytes are written iff the flag is clear. |
| Investigator.FormatByteParses | ble_investigator_app.py:46 | "0xHH", with any surrounding whitespace, parses back to the byte. |
| Investigator.WriteRoundTrip | ble_investigator_app.py:38-53 | Typing a non-empty list of bytes as "0xHH, 0xHH, ..." makes the parse accept every piece and collect exactly those bytes. |
| Investigator.EmptyByteStringRejected | ble_investigator_app.py:38-53 | An empty input is one empty piece, which is not a byte, so nothing is written. |
| Investigator.JoinIntsEnds | ble_investigator_app.py:120 | The ", "-joined text starts with the first value's first character and ends with the last value's last digit. |
| Investigator.StripTuple | ble_investigator_app.py:118-123 | `strip_tuple` gives "" for (), "x" for (x,) and the elements joined by ", " for longer tuples. |
| Investigator.ParseHexInt | ble_investigator_app.py:95 | Whitespace-only text is a ValueError (None). Stripped text made only of hex digits parses to their value. A negative result needs a leading "-". |
| Investigator.DecodeData | ble_investigator_app.py:126-148 | Raises exactly for "utf-8" text the decoder rejects (UnicodeDecodeError) and for "uint16_t" data of odd length (struct.error). The raw bytes are returned unchanged, and only in "custom" mode or for an unknown mode. |
| Investigator.AsInts | ble_investigator_app.py:130 | Unpacking 'B' per byte gives one value per byte, in order. |
| Investigator.Utf8Mode | ble_investigator_app.py:127-128 | "utf-8" gives the decoded text, or the decoder's exception. |
| Investigator.Uint8Mode | ble_investigator_app.py:129-131 | "uint8_t" prints one decimal value per byte, in order. |
| Investigator.Uint16Mode | ble_investigator_app.py:132-134 | "uint16_t" prints the len/2 little-endian values `b[2k] + 256*b[2k+1]`. An odd length raises struct.error. |
| Investigator.CustomMode | ble_investigator_app.py:135-145 | "custom" prints the unpacked values. If the format does not fit, it returns the input bytes. |
| Investigator.UnknownModeIsRaw | ble_investigator_app.py:146-147 | Any other mode returns the input unchanged. |
| MultiprocessingFunctions.DecodeMatrixData | multiprocessing_functions.py:10-19 | An odd length is struct.error, and zero columns is a ValueError. Succeeds iff the length is even and columns is non-zero, giving the chunks of the unpacked 16-bit values. |
| MultiprocessingFunctions.DecodedRows | multiprocessing_functions.py:15-17 | ceil((n/2)/cols) chunks. Chunk k takes the 16-bit values from k*cols, up to rows of them, each `b[2v] + 256*b[2v+1] <= 65535`; the last chunk may be shorter. |
| MultiprocessingFunctions.SquareDecodeRoundTrip | multiprocessing_functions.py:10-19 | For a square grid of 16-bit values, decoding its little-endian encoding gives back the grid. |
| MultiprocessingFunctions.OddLengthRejected | multiprocessing_functions.py:15 | An odd-length buffer fails to unpack. |
| Bytes.UnpackU16LE | multiprocessing_functions.py:15 | Succeeds iff the length is even, giving len/2 values `b[2k] + 256*b[2k+1]`, each in 0..65535. |
| Bytes.UnpackPackU16LE | multiprocessing_functions.py:15 | Unpacking the little-endian encoding of 16-bit values gives them back. |
| MatrixView.CreateColourmap | matrix.py:37-41 | Exactly 4096 entries, where entry i is the interpolated colour of i. |
| MatrixView.CellAt | matrix.py:62-71 | `draw` visits rows*columns cells in row-major order: cell number r*columns+c is (r, c). |
| MatrixView.CellsInGrid | matrix.py:63-64 | Every visited cell lies inside the grid. |
| MatrixView.EditOps | matrix.py:77-80 | An edit issues one fill iff `row*columns+col` indexes the rectangle list, and that fill targets that rectangle with the given colour; otherwise nothing. |
| MatrixView.EditHitsDrawnCell | matrix.py:77-80 | After `draw`, editing cell (r, c) fills the rectangle drawn for (r, c), which spans that cell's coordinates. |
| MatrixView.EditWrapsToNextRow | matrix.py:77-80 | The index check does not bound the column, so column `columns` of row r fills cell (r+1, 0). |
| MatrixView.EditOutOfRangeIgnored | matrix.py:77-80 | An index outside the rectangle list changes nothing. |
| MatrixView.PyIndex | matrix.py:86 | Python list indexing accepts exactly -len <= v < len, and negative values count from the end. |
| MatrixView.CheckMatrixSize | matrix.py:99-104 | A wrong row count is False without indexing. With the right count, 15 rows or fewer raise IndexError; otherwise the result is whether row 15 has `columns` entries. |
| MatrixView.MatchColours | matrix.py:82-91 | The only exception is IndexError. A colour matrix, when one is built, has the input's shape. |
| MatrixView.MatchColoursCases | matrix.py:82-91 | Three outcomes, each iff its condition holds. The size check's IndexError escapes. A failed check or an out-of-range value gives None. Otherwise cell [i][j] is `colour_map[matrix[i][j]]` and the shape is kept. |
| MatrixView.MatchColoursFullGrid | matrix.py:82-91 | For a well-formed grid of more than 15 rows with values in 0..4095, every cell gets its colour. |
| MatrixView.UpdateEffect | matrix.py:93-97 | At most one edit per visited cell, and a walk that raises has visited at least one cell. |
| MatrixView.UpdateEffectCompletes | matrix.py:93-97 | The walk finishes without IndexError iff the colour matrix holds every visited cell. |
| MatrixView.UpdateEffectAppend | matrix.py:94-97 | Visiting one more cell while the walk is running issues that cell's edit, or stops the walk when the colour matrix lacks the cell. |
| MatrixView.UpdateEffectStopped | matrix.py:94-97 | Once `colour_matrix[row][column]` has raised, no later cell is visited. |
| MatrixView.UpdateFullMatrix | matrix.py:94-97 | A colour matrix covering every cell visits all of them, in order, without raising. |
| MatrixView.UpdateAfterDraw | matrix.py:62-97 | After `draw`, an update with a large enough colour matrix fills the k-th drawn rectangle with the colour of the k-th cell in row-major order. |
| MatrixView.Matrix.constructor | matrix.py:45-60 | Cell sizes are the floor division of the canvas size. The colour map is created and the grid drawn. The rectangle ids are consecutive, and the pressure circle takes the next id. |
| MatrixView.Matrix.Draw | matrix.py:62-75 | One rectangle per cell in row-major order: cell (r,c) spans from (c*w+1, r*h+1) to (c*w+1+w, r*h+1+h). Then the pressure circle; the rectangle ids are consecutive. |
| MatrixView.Matrix.EditRectangle | matrix.py:77-80 | Fills `rectangles[row*columns+col]` when that index is in range. Otherwise nothing is issued. |
| MatrixView.Matrix.UpdateMatrix | matrix.py:93-97 | Nothing for None or an empty matrix. Otherwise it edits the cells in row-major order and stops with IndexError at the first cell the matrix lacks. |

## Left out

- The bleak BLE transport:
  - scanning, connecting, GATT reads and notifications, and disconnecting are foreign async I/O;
  - the failure path of `_ble_connect_stream`, which prints and deletes the matrix, follows from
    those calls.
- Threads, asyncio loops, `threading.Lock`/`Event` and `multiprocessing`. Every operation is
  modelled as one atomic step, so no interleaving of two threads is modelled.
- Scanner.BLEScanner.DeviceFound: `_device_found_cb` reads the table without the lock
  (dearpygui_app.py:129-135) and takes it only for the write (lines 142-143). A sweep
  (lines 150-156) running in between can remove the address. The lookup at line 130 or 133
  then raises KeyError, or the write at line 143 restores a device the sweep just deleted.
  This race is not modelled, because the model runs the callback as one step.
- GUI code (dearpygui and tkinter widgets). Canvas and listbox calls are kept as logs of calls;
  callbacks are event logs.
- Floating point:
  - `interpolate_colours`, which is a parameter of `MatrixView.CreateColourmap`;
  - `plot_centre_of_pressure`, and the pressure circle's coordinates;
  - the `scale_tuple` rounding;
  - the data-rate counter;
  - frame-rate gating;
  - viewport sizing.
- `print` and `input()`:
  - the custom unpacking format asked for with `input()` when none was passed is not modelled;
  - UTF-8 decoding and `struct.unpack` with a user-supplied format are parameters of
    `Investigator.DecodeData`. Custom formats are modelled as producing integers only.
- Investigator.ParseHexInt: the `int(text, 16)` grammar is modelled without underscores between
  digits, non-ASCII digits and non-ASCII whitespace.
- Scanner.BLEScanner.RemoveStaleDevices: visits the table in an arbitrary order. Python iterates
  dicts in insertion order, so the order of the delete callbacks is not pinned down.
- Scanner.BLEScanner.DeviceFound: the service flag is not kept as the string `str(bool)`. It is
  modelled by its truthiness, which is all the code uses.
- MainApp.RemapMatrix: numpy's fixed-width integer overflow is not modelled; values are unbounded
  integers.
- MatrixView.Matrix.constructor: requires positive row and column counts. With zero,
  `canvas_width // columns` raises ZeroDivisionError, which is not modelled.
- MatrixView.MatchColoursCases: matrix values are integers. numpy element types are not
  distinguished.
- The loop in `_remove_stale_devices` that repeats the sweep every 0.5 s: one sweep is modelled.
