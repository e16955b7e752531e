# RS-BTWATTCH2 wattmeter client: protocol and live table

`py_btwattch2.py` drives a Ratoc RS-BTWATTCH2 Bluetooth wattmeter. It does two things.

It talks to the device over BLE:
- It frames commands as header byte 0xAA, a big-endian 16-bit payload length, the payload, and a CRC-8 trailer (polynomial 0x85, initial value 0).
- It switches the outlet on and off, sets the device clock, and requests measurements.
- It reassembles the notifications the device answers with, and decodes energy-usage reports into voltage, current, wattage and a timestamp.

It shows the reports in a Tk window:
- A `Treeview` holds the reports.
- `add_row` inserts each new report by binary search on the column the table is currently sorted by.
- Clicking a column heading re-sorts every row by that column, in the direction opposite to the previous sort.

The project models both halves, one module each:
- `Common`: bytes, Python's exceptions as error values, and a few sequence lemmas.
- `Checksum`: the recursive `crc8`, proved equal to a bitwise reference definition. It also proves that a frame's checksum vanishes and that the trailer is unique.
- `Frame`: `cmd`, its `OverflowError` for long payloads, and the frame parser that inverts it.
- `Device`: the `BTWATTCH2` commands (`on`, `off`, `measure`, `set_rtc`) as a class whose transmit characteristic is modelled by the log `sent`.
- `Notification`: the energy-usage decoder and `_format_message` as written. This includes the buffered-byte state the closure captures.
- `CheckedReassembly`: a reassembler that finds the end of a frame by its declared length and checks the trailer. It delivers every frame however the frame is split (see Findings).
- `StringOrder`: Python's `str` ordering, in which every cell of the tree is compared.
- `Bisect`: `bisect_left` and `bisect_right` as loops, proved against reference lower and upper bounds. It also covers the reversed-list trick `add_row` uses for descending columns.
- `LiveTable`:
  - the tree as a class with the sort state `selected_column` and `column_reversed`;
  - `add_row`, `sort_column` (a stable sort followed by the `move` loop) and the clear button;
  - the invariant they keep: rows ordered by the selected column, item identifiers unique.

Two choices in the code are modelled as written, although another reading would be more natural:
- Every column is ordered as text, the numeric columns too. `Treeview.set` returns strings and the search key is `str(...)`, so `add_row` and `sort_column` compare strings (`StringOrder.Below`), not numbers. With text order, `"10.5"` sorts before `"9.8"`.
- `_format_message` does not read the frame's declared length and does not check its trailer. It is modelled as written in `Notification`. A handler that reassembles by the declared length and checks the trailer is `CheckedReassembly`. The difference between the two is the finding below.

## Model

| member | source | states |
|---|---|---|
| Checksum.Crc1IsShifts | py_btwattch2.py:23-29 | `crc1(crc, times)` shifts the register `8 - times` more times, each time xoring in 0x85 when the top bit falls out |
| Checksum.Crc8IsReference | py_btwattch2.py:21-32 | the fold of `crc1` over the payload from 0 equals the bitwise CRC-8 reference definition with polynomial 0x85 |
| Checksum.Crc8OfEmpty | py_btwattch2.py:32 | the checksum of no bytes is the initial value 0 |
| Checksum.Crc8OfMeasurementRequest | py_btwattch2.py:17-32 | the checksum of the measurement request `08` is 0xB3 |
| Checksum.ShiftsZeroIff | py_btwattch2.py:23-29 | the shift register maps only 0 to 0, over any number of rounds |
| Checksum.SelfCheck | py_btwattch2.py:21-32 | the checksum of a payload followed by its own checksum is 0 |
| Checksum.TrailerIsUnique | py_btwattch2.py:21-32 | a trailer byte makes the checksum vanish if and only if it is the payload's checksum |
| Frame.BigEndian16 | py_btwattch2.py:72 | `to_bytes(2, 'big')` succeeds exactly when the length is below 65536, otherwise raises `OverflowError`, and its two bytes read back to the length |
| Frame.Cmd | py_btwattch2.py:70-73 | `cmd` succeeds exactly when the payload is shorter than 65536 bytes, otherwise raises `OverflowError`; a built frame is 0xAA, the length, the payload and its checksum |
| Frame.FrameChecksumVanishes | py_btwattch2.py:70-73 | the checksum over a built frame's payload and trailer is 0 |
| Frame.ParseCmd | py_btwattch2.py:70-73 | parsing a frame `cmd` built gives back its payload |
| Frame.CmdParse | py_btwattch2.py:70-73 | every frame that parses is what `cmd` builds from the parsed payload, so framing and parsing are inverse |
| Frame.BigEndian16OfRead | py_btwattch2.py:72 | writing the length read from two bytes gives back those two bytes |
| Frame.MeasureFrame | py_btwattch2.py:98-99 | the measurement request is the frame `AA 00 01 08 B3` |
| Device.ByteArray | py_btwattch2.py:89-90 | `bytearray` of a tuple succeeds exactly when every item is in 0..255, keeping the items, and otherwise raises `ValueError` |
| Device.SetRtcPayload | py_btwattch2.py:88-90 | the clock payload is 8 bytes with tag 0x01, from which the clock reads back unchanged; it fails with `ValueError` exactly when a field does not fit in a byte |
| Device.ClockReadingFits | py_btwattch2.py:88-90 | for a real clock reading the payload can be built if and only if the year is 1900..2155 |
| Device.Wattchecker.Write | py_btwattch2.py:75-83 | `write` sends exactly the frame `cmd` builds, or nothing when `cmd` raises |
| Device.Wattchecker.On | py_btwattch2.py:92-93 | `on` sends one frame, and that frame carries `A7 01` |
| Device.Wattchecker.Off | py_btwattch2.py:95-96 | `off` sends one frame, and that frame carries `A7 00` |
| Device.Wattchecker.Measure | py_btwattch2.py:98-99 | `measure` sends the frame `AA 00 01 08 B3` |
| Device.Wattchecker.SetRtc | py_btwattch2.py:85-90 | `set_rtc` at a given clock reading sends a 12-byte frame of the clock payload, or raises `ValueError` and sends nothing |
| Notification.LittleEndianRoundTrip | py_btwattch2.py:110-112 | reading a value written as `k` little-endian bytes gives it back, for every value below 256 to the power `k` |
| Notification.LittleEndianOfBytes | py_btwattch2.py:110-112 | writing the value read from bytes gives back those bytes |
| Notification.LittleEndianInjective | py_btwattch2.py:110-112 | different byte strings of one length read as different values |
| Notification.DecodeSpec | py_btwattch2.py:109-114 | the decoder yields a sample exactly when the frame holds its three fields at bytes 5, 11 and 17 and its date at bytes 23-28, and the date is valid |
| Notification.DecodeErrors | py_btwattch2.py:109-114 | the decoder raises `IndexError` exactly on frames shorter than 29 bytes and `ValueError` exactly on impossible dates |
| Notification.SampleFieldsBounded | py_btwattch2.py:110-112 | every decoded field is below 2**48 |
| Notification.ReportFrameCarries | py_btwattch2.py:109-113 | the frame `cmd` builds from a report's payload carries that report, and byte 3 is 0x08 |
| Notification.DecodeReport | py_btwattch2.py:109-113 | decoding the frame of a report gives the report back |
| Notification.DecodeInjective | py_btwattch2.py:109-113 | two frames that decode to the same sample agree on every byte the decoder reads |
| Notification.Reassembler.OnNotification | py_btwattch2.py:101-120 | one notification changes the buffer and the callback's record as `React` says: a fragment that starts with 0xAA is appended; any other fragment completes the frame, which is decoded when byte 3 is 0x08, after which the buffer is cleared; an exception leaves the buffer as it was |
| Notification.HeaderFragmentIsBuffered | py_btwattch2.py:104-106 | a notification that starts with 0xAA is appended to the buffer and nothing is emitted |
| Notification.ContinuationCompletes | py_btwattch2.py:107-118 | any other notification emits a sample if and only if the joined bytes are a decodable energy-usage report, emits the decoded sample, and empties the buffer, unless the handler raised, in which case the buffer is kept |
| Notification.RaisedKeepsBuffer | py_btwattch2.py:103-118 | when the handler raises, the buffer is unchanged |
| Notification.TwoFragmentDelivery | py_btwattch2.py:101-120 | a report in two notifications whose second does not start with 0xAA is emitted once, on the second, and the buffer ends empty |
| Notification.WholeFrameIsOnlyBuffered | py_btwattch2.py:104-106 | a whole frame in a single notification is only buffered, never decoded |
| Notification.ContinuationStartingWithHeader | py_btwattch2.py:104-108 | a report whose continuation starts with 0xAA is buffered, not emitted; the next report's bytes are then decoded as the old report, and the new report is lost |
| Notification.WattageByteIsHeader | py_btwattch2.py:112 | byte 20 of a report frame is 0xAA when the integer watt value is 170 modulo 256 |
| Notification.ReportsAt170WattsAreDelayed | py_btwattch2.py:104-106 | such a report split after 20 bytes is emitted only when the next report completes, and that next report is lost |
| CheckedReassembly.Feed | py_btwattch2.py:101-108 | the length-delimited buffer always holds the start of a frame; a completed frame is exactly the buffer plus the notification, and its length matches its length field |
| CheckedReassembly.CmdIsFramed | py_btwattch2.py:70-73 | every frame `cmd` builds has the length its length field declares |
| CheckedReassembly.FeedPrefix | py_btwattch2.py:101-108 | the next piece of a frame is collected while the bytes are shorter than the frame, and completes the frame when they reach its end |
| CheckedReassembly.AnySplitDelivers | py_btwattch2.py:101-120 | however a frame is split into non-empty notifications, every notification but the last only extends the buffer, and the last completes the frame and empties the buffer |
| CheckedReassembly.AnySplitOfCmdDelivers | py_btwattch2.py:101-120 | in particular every frame `cmd` builds is delivered however it is split |
| CheckedReassembly.ReportInTwoNotifications | py_btwattch2.py:101-120 | a report split anywhere into two notifications, including after byte 20, is emitted once on the second and the buffer ends empty |
| CheckedReassembly.ReportInOneNotification | py_btwattch2.py:101-120 | a report in a single notification is emitted at once |
| CheckedReassembly.CompletedReportIsEmitted | py_btwattch2.py:109-114 | a completed frame that parses and carries a report is decoded to that report |
| CheckedReassembly.CorruptTrailerIsDropped | py_btwattch2.py:101-120 | a frame whose trailer is not the checksum of its payload is collected completely and then dropped |
| StringOrder.BelowIrreflexive | py_btwattch2.py:179-182 | no string is less than itself under `str <` |
| StringOrder.BelowTransitive | py_btwattch2.py:179-182 | `str <` is transitive |
| StringOrder.BelowTotal | py_btwattch2.py:179-182 | any two different strings are ordered one way or the other |
| StringOrder.NotAfterTransitive | py_btwattch2.py:179-190 | "not after" is transitive in either direction of a column |
| Bisect.LowerBound | py_btwattch2.py:182 | the reference insertion point: every earlier item sorts before the key, and the item there does not |
| Bisect.UpperBound | py_btwattch2.py:179 | the reference insertion point after equal keys: no earlier item sorts after the key, and the item there does |
| Bisect.LowerBoundSplits | py_btwattch2.py:182 | in a sorted list no item from the lower bound on sorts before the key |
| Bisect.UpperBoundSplits | py_btwattch2.py:179 | in a sorted list every item from the upper bound on sorts after the key |
| Bisect.BisectLeft | py_btwattch2.py:182 | `bisect_left` on an ascending list returns the lower bound |
| Bisect.BisectRight | py_btwattch2.py:179 | `bisect_right` on an ascending list returns the upper bound |
| Bisect.Reverse | py_btwattch2.py:179 | `col[::-1]` puts item `i` at position `len - 1 - i` |
| Bisect.ReverseOfDescending | py_btwattch2.py:178-179 | a descending column read backwards is ascending, so `bisect_right` may search it |
| Bisect.DescendingLowerBound | py_btwattch2.py:178-180 | `len(col) - bisect_right(col[::-1], key)` is the first place in the descending column whose item does not sort before the key |
| Bisect.SortedInsertLower | py_btwattch2.py:182-184 | inserting the key at the lower bound keeps a sorted column sorted |
| LiveTable.Column | py_btwattch2.py:175 | the selected column lists the cell of every row, top to bottom |
| LiveTable.ColumnOfInsert | py_btwattch2.py:175-184 | inserting a row inserts its cell into the column at the same place |
| LiveTable.InsertKeepsOrder | py_btwattch2.py:173-184 | inserting a row where `add_row` does keeps the rows sorted by the selected column, in either direction |
| LiveTable.InsertBeforeEqualKeys | py_btwattch2.py:178-182 | a new row goes before every row with an equal cell, in both directions |
| LiveTable.InsertIndexSplits | py_btwattch2.py:178-182 | in a sorted table, every row above the insertion point sorts before the new cell and no row below it does |
| LiveTable.GreatestKeyAscending | py_btwattch2.py:182 | in ascending order a cell greater than all others goes last |
| LiveTable.GreatestKeyDescending | py_btwattch2.py:178-180 | in descending order a cell not less than any other goes first |
| LiveTable.InsertKeepsIdsDistinct | py_btwattch2.py:184 | inserting an item with a fresh identifier keeps identifiers unique |
| LiveTable.SortBySorted | py_btwattch2.py:189-190 | the sort orders the rows by the clicked column in the requested direction |
| LiveTable.SortByPermutes | py_btwattch2.py:189-190 | the sort rearranges the rows and neither adds nor drops one |
| LiveTable.SortByStable | py_btwattch2.py:189-190 | the sort is stable in both directions: rows with equal cells keep their relative order, as `list.sort(reverse=True)` does |
| LiveTable.WithCellConcat | py_btwattch2.py:189-190 | the rows with a given cell, in order, split over a concatenation |
| LiveTable.Position | py_btwattch2.py:193 | the position of an item in the tree: the first row with that identifier, or the end |
| LiveTable.PermutationKeepsIdsDistinct | py_btwattch2.py:189-193 | rearranging rows with unique identifiers keeps them unique |
| LiveTable.OnePerId | py_btwattch2.py:193 | with unique identifiers every row is found at the position of its identifier |
| LiveTable.MoveStep | py_btwattch2.py:192-193 | when the first `i` rows are already in sorted place, `move(item_id, '', i)` of the next sorted item places `i + 1` rows |
| LiveTable.ReinsertStep | py_btwattch2.py:193 | moving the next wanted item from below into place `i` extends the placed prefix and keeps the rest a rearrangement |
| LiveTable.MoveAll | py_btwattch2.py:192-193 | the `move` loop over the sorted list leaves the tree in exactly that order |
| LiveTable.SortRows | py_btwattch2.py:189-193 | the tree after the sort and the `move` loop is the stable sort of its rows |
| LiveTable.SearchColumn | py_btwattch2.py:178-182 | the index `add_row` computes, by either branch, is the lower bound of the key in the column |
| LiveTable.InsertKeepsInvariant | py_btwattch2.py:173-184 | `add_row` keeps the rows ordered by the selected column, with unique identifiers |
| LiveTable.SortKeepsInvariant | py_btwattch2.py:186-196 | `sort_column` keeps that invariant, now for the clicked column and the new direction |
| LiveTable.Table.constructor | py_btwattch2.py:131-134 | the window starts with an empty tree ordered by the datetime column, descending |
| LiveTable.Table.AddRow | py_btwattch2.py:173-184 | `add_row` inserts the new item at the lower bound of its cell in the selected column, keeps the sort state, and keeps the invariant |
| LiveTable.Table.SortColumn | py_btwattch2.py:186-196 | `sort_column` flips the direction, selects the clicked column, leaves the rows in their stable sort by it, and keeps the invariant |
| LiveTable.Table.Clear | py_btwattch2.py:238-239 | the clear button empties the tree and keeps the sort state |

## Left out

- BLE transport: connecting, service discovery, enabling and disabling notifications, and the asyncio loop (`py_btwattch2.py:40-68`, `75-83`). `write` is modelled as appending the frame to the log `sent`. Whether it runs as a task or to completion is not modelled.
- `set_rtc`'s wait for the next whole second and its reading of the wall clock (`py_btwattch2.py:86-88`). The clock reading is a parameter.
- The measuring thread, its start/stop event and the window-close handler (`py_btwattch2.py:136-140`, `198-212`, `261-268`). This is concurrency and timing.
- Floating point. The decoded units are exact quotients (`Notification.Volts`, `Milliamps`, `Watts`). `round`, `int` and `str` in `add_row` (`py_btwattch2.py:174-179`) are not modelled. A measurement enters the table as the text of its four cells, and the model takes that text to be `str` of the value.
- Tk's own text form of cell values is not modelled. The model assumes `Treeview.set` returns the same text that `str(to_insert)` produces.
- `datetime` validation beyond the Gregorian ranges of year, month, day, hour, minute and second (`Notification.ValidDateTime`).
- `Treeview.move` is modelled as taking the item out and inserting it at the index in the same list (`LiveTable.Move`). Tk widget state other than the order of the rows and their cells is not modelled.
- The user interface: device discovery and selection, the buttons, the scrollbars, the column setup and the window (`py_btwattch2.py:122-168`, `214-245`, `269-295`). `Table.Clear` is the only button handler modelled apart from the heading commands.
- CSV export (`py_btwattch2.py:246-259`). This is file I/O. Its header labels the second column `voltage[V]` although that column holds wattage (compare line `293`). The defect is recorded here but not modelled.
- `print_measurement` (`py_btwattch2.py:34-37`), the default callback. It is console output. The model's callback just records the samples (`Reassembler.emitted`).
- Frames other than energy-usage reports (`py_btwattch2.py:115-116`). The source does nothing with them, and the model reports them as `Ignored`.
- LiveTable.Table.SortColumn: requires the column to be one of the four columns. Every heading command passes one of them.

## Findings

| source | as written | input that shows it | evidently intended | confidence | as-written member | corrected member |
|---|---|---|---|---|---|---|
| py_btwattch2.py:104-106 | a notification is taken as the start of a new frame whenever its first byte is 0xAA, so a continuation fragment that happens to start with 0xAA is appended | an energy-usage report whose integer watt reading is 170 modulo 256 (so frame byte 20, byte 3 of the wattage field, is 0xAA), delivered as its first 20 bytes (the payload of one notification at the default ATT MTU of 23) and then the rest. The source never states the frame length; this model's report frame is 30 bytes (the 26-byte payload `EnergyUsagePayload`), and any report frame longer than 20 bytes shows the defect: the report is not emitted, the next report's bytes are appended after it and decoded as the old report, and the next report is lost | frames are reassembled by their declared length, so every report is emitted once however it is split; the corrected handler also drops frames whose trailer is not the checksum | not executed | Notification.ReportsAt170WattsAreDelayed | CheckedReassembly.ReportInTwoNotifications |

The corrected handler (`CheckedReassembly.Deliver`) keeps the source's decoder and its error cases. It differs from `_format_message` in three ways:
- It finds frame boundaries from the length field.
- It drops bytes that cannot start a frame.
- It ignores frames whose checksum does not vanish.
