# f1srv: fast representations against the values they stand for

f1srv serves Redis data types from a flat store of rows. Nearly every type has a fast representation laid
over a simple one: a list half in rows and half in a power-of-two ring, a HyperLogLog as run-length opcodes or
packed six-bit registers, a hash whose lazy expiry hides behind redundant counters, a stream flattened into
nested listpacks. This project models those representations as the program builds them, loop by loop and
field by field, and proves that each always agrees with the plain value it stands for.

The store is a map from (key, kind) to bytes whose only refusal is of keys and values over 65535 bytes (and of the
empty key), and every command, or every window operation under its lock, is one step.

## Layout

- Lists: `RowStore` (rows, and a Put that refuses), `Slots` (ring arithmetic), `ListRing` (the ring on the heap,
  slices as objects), `ListWindow` (bounds, band, pushes, pops, resident edits), `ListRows` (the row-per-element
  bodies), `ListSpec` and `ListPushes` (the plain deque), `ListCells` (the deque together with what else a client can
  come to notice: first position, resident window, bounds in the header row, rows no element reads, excess of the
  running size), `ListPipes` and `ListPops` (pipelined pushes and pops folded into one), `ListKeys` (runs over many keys), `ListLimits`
  (runs in which the store refuses a value), `ListView`, `ListRemoval`, `Scan` (values read off the
  representations), `HotList` (one key: rows, header and window), `ListCommands` (the representation over whole
  runs and moves), `ListSeen` (when filtered searches answer as the plain list), `ListLatch` (the sticky size flag),
  `ListSize` (byte accounting), `ListLaws` and `PosLaws` (the commands by index).
- HyperLogLog: `HllDense`, `HllSparse`, `Hll`, `HllUnion`, `HllCommands`, `HllLaws` (the bytes).
- DUMP and RESTORE: `Rdb`, `Listpack`, `Crc`, `Dump`, `StreamNode`, `StreamDump`, `StreamWalk`; the bytes and the encodings of
  other servers: `FormatLaws`, `ListpackLaws`, `DumpLaws`, `StreamLaws`, `NodeLaws`, `CrcLaws`.
- Hashes with field deadlines: `HashCells` (what commands mean), `HashLaws` and `HashSetLaws` (what a client can tell), `HashTally` (counters), `HashStore` (rows and
  counters), `HashCommands`, `HashCarry` (rows and counters re-keyed), `HashRename`, `HashRuns` (whole runs).
- `Lcs`, `HdrShape`, `Hdr` and `HdrMerge`, `Resp`, `RespConn`, `RespLimits` and `RespLaws`, `Watch`, `WatchRuns` and `WatchLaws`,
  `Geo` and `GeoCells`.
- Shared: `Bytes`, `Decimal`, `Words`, `Digits`, `Powers`, `Division`, `Pipeline`, `RowKeys`.

Commands and formats are defined once, as functions the loops are proved against. The modules named `Laws` say what
those functions mean without them: by index, by byte and division, by what later replies show, or by the steps of a run.

State the program updates in place is a class or an array here, and its loops are loops. A slice in the ring is
a heap object, so that in-place reuse, moves by reference and slices handed to a popper are questions of
aliasing that the proofs answer. Machine words that are shifted and masked are sequences of bits (`Words`), or
numbers with a bitwise and and or defined on their digits (`Digits`).

## Where the program does not do what one might expect

Each of these has a lemma or a method with a concrete input and a lemma, or a method contract, with the exact
condition.

- The store refuses an element over 65535 bytes. A push of one is an error and leaves the list as it was
  (`ListLimits.PushRefused`; exactly when: `ListCells.PushExact`). LINSERT on rows drops the error, counts the value
  and shows an empty element in its place (`ListLimits.InsertLost`; exactly when: `ListCells.InsertExact`). A resident
  list takes it, and whatever retires the window loses it: a pop the window declines, a move, an eviction
  (`ListLimits.RetiredLost`; exactly when: `ListCells.RetiredExact`, `PopExact`, `RotateExact`, `MoveExact`).
- A push that is refused after some elements leaves their rows behind, and a later refused LINSERT at that place
  brings one of them into the list (`ListLimits.StrayShows`; `ListCells.InsertExact`).
- Folding pipelined pushes is not always the commands one after another, as its comment says: after a refused
  element the commands behind it fail too, and the elements before it in its own command stay
  (`ListLimits.FoldedDiffers`). On a resident list the elements before it are answered with lengths and are in no
  list afterwards (`ListLimits.AcknowledgedLost`). Exactly when the fold goes unnoticed: `ListPipes.FoldExact`.
- HSET stops at a value or a row key that is too long without counting the fields it has made, and the refused field
  loses its deadline (`HashCommands.HeaderBehind`, `RefusedUntimes`; exactly when the counters stay exact:
  `HashStore.Rows.HSet`, `HashCommands.Step`). The same happens to every field made under the empty key. While the
  header is behind, HLEN counts too few and HGETALL frames fewer pairs than it streams, by how much:
  `HashStore.Rows.HLen`, `HGetAll`.
- RENAME, RENAMENX and COPY drop what the store says of the new name. RENAME of a hash to the empty name replies OK,
  moves the rows and leaves the header (`HashRename.RenameEmpty`); to a name so long that no row lands it replies OK,
  moves nothing and takes every deadline off, so that dead fields live again (`HashRename.RenameRevives`); a string
  renamed to either is lost (`HashRename.StringLost`). The counters stay exact if and only if the fields land exactly
  when the header does: `HashRename.Rename`, `RenameNx`, `Copy`, `HashRuns.Step`. A name that is neither empty nor
  longer than the old one is always safe (`HashRename.ShorterKeeps`).
- LMOVE onto a missing key makes a list without a header row. A pop of it that the window declines, such as one of
  its only element, replies nil and keeps the element (`ListKeys.MovedThenPopped`; exactly when:
  `ListCells.PopExact`, and which moves bring it about: `ListCells.MoveUnlists`).
- LPOS with a MAXLEN that, counted from the list's first or last position, passes the end of the int64s examines
  nothing (`ListKeys.LimitWraps`; exactly when: `ListCells.PosExact`).
- LREM with count -2^63, which is its own negation, takes one match from a resident list and panics on rows
  (`ListRemoval.LeastCountStops`; exactly when: `ListRemoval.LeastCountExact` for the ring,
  `ListRows.RemoveRun` for the rows).
- An empty element may sit in a nil ring slot or show for a missing row, and LPOS, LINSERT and LREM then miss it
  (`ListSeen.EmptyMissed`; exactly when, for every rank, count and limit: `ListSeen.PosSeenExactly`,
  `FirstIndexSeen`, `RemovedSeenExactly`).
- The flag that says a list has ever been large clears while the list lives when its single small element is
  rotated onto itself (`ListLatch.FlagClears`; exactly when: `ListLatch.ActKeeps`).
- A declared length of 2^64 + 1 is taken for 1, and one of 2^63 - 1 brings the server down
  (`RespLimits.LengthWraps`, `LengthCrashes`; exactly when a command is the one that was written:
  `RespLimits.CommandExact`, exactly when the server goes down: `RespLimits.CrashExact`).
- HDEL counts fields whose deadline has passed but which nothing has reaped, and DEL counts a hash of nothing else
  (`HashCommands.DeadFieldCounted`, `DeadHashDropped`; exactly when: `DeleteReplyExact`, `DropReplyExact`).
- RENAME, RENAMENX and COPY take a hash of dead fields for a living key, and RENAME then destroys the destination
  (`HashRename.ShadeOverwrites`; exactly when: `RenameExact`, `RenameNxExact`, `CopyExact`).
- A sparse HyperLogLog whose opcodes reach 16384 registers and go on with a run of a value is counted, though no
  union takes it (`HllUnion.LooseStream`; exactly when: `HllUnion.RegHisto`, `HllUnion.Merge`).
- A histogram whose range ends exactly at the top of its last bucket drops every sample that reaches it
  (`Hdr.StallsDropped`; exactly when: `Hdr.CountedWhen`). The comment on `RecordValue` says such samples are
  clamped so that no stall is dropped; the model follows the code.
- Merging histograms compares only how many counters they have, and samples may then change bands
  (`Hdr.UnitsDiffer`; exactly which shapes merge rightly: `HdrMerge.MergeExact`; exactly when one histogram does:
  `Hdr.Histogram.Merge`).
- A hash body that declares 2^63 fields loads as an empty hash, since the count is doubled in 64 bits
  (`Dump.CountWraps`; exactly when: `Dump.CountExact`).
- A pending stream entry whose consumer is not listed loses its owner in a dump (`StreamDump.OwnerLost`; exactly
  when: `OwnersRoundTrip`). The node builder drops a lone last field (`StreamNode.OddFieldLost`; exactly when:
  `NodeExact`); XADD refuses odd field lists, so that is a fact about the function and not about a stream.

## Model

| member | source | states |
|---|---|---|
| `ListCommands.Run` | f1srv/list.go:343-949 | every run of pushes, pops, LRANGE, LPOS, LINSERT, LREM, rotations, moves and window retirements over any number of keys, with windows admitted and re-admitted along the way, values of every length and no memory shared, leaves and replies exactly what the reference of ListKeys does |
| `ListCommands.Step` | f1srv/list.go:1187-1951 | one command on rows, header and window together: deque, first position, residency, header bounds, stray rows, size and reply are those of the value-level command |
| `ListCommands.Serve` | f1srv/list.go:1187-1951 | one request, a move between two keys included, changes the keys it names as the reference says and no other |
| `ListKeys.RunIsPlain` | f1srv/list.go:343-949 | a run in which no request is an odd one is, state by state and reply by reply, the run of plain deques, and every running size stays exactly its elements' |
| `ListKeys.RequestExact` | f1srv/list.go:343-949 | a request leaves and replies what plain deques do if and only if it is not an odd one: a push or row insert of a value the store refuses, whatever retires a window that holds one, a declined pop of a key without header row, or a search limit past the int64s with something to find |
| `ListCells.ActExact` | f1srv/list.go:1187-1951 | the same for one key and every command on it |
| `ListCells.PushExact` | f1srv/list.go:343-416 | a push is the deque push if and only if the store takes all of it or the list it asks for is missing; otherwise the deque stays and the reply is the error, or 0 for an X push onto a resident key without header row |
| `ListCells.PipePlain` | f1srv/list.go:495-585 | a folded pipeline is the deque pushes one after another if and only if the same holds of all its elements |
| `ListCells.InsertExact` | f1srv/list.go:1756-1819 | an insert among rows is the deque insert if and only if the store takes the value |
| `ListCells.RetiredExact` | f1srv/listwinreg.go:65-102 | a retired list is the same deque if and only if the store takes every element |
| `ListCells.RotateExact` | f1srv/list.go:2239-2369 | a rotation is the deque's if and only if the window gives the element up or the store takes every element |
| `ListCells.PopExact` | f1srv/list.go:835-949 | LPOP and RPOP are the deque pop if and only if the window takes them, or the key is not resident without a header row and the store takes every element |
| `ListCells.PosExact` | f1srv/list.go:1322-1336 | LPOS is the plain search if and only if its limit stays within the int64s or there is nothing to report |
| `ListCells.MoveExact` | f1srv/list.go:2239-2369 | LMOVE between two keys is a deque pop and a deque push if and only if it goes through the windows or retires none that holds an element the store refuses |
| `ListCells.MoveUnlists` | f1srv/list.go:2203-2217 | a move leaves the destination resident without a header row if and only if it goes through the windows onto a key that has none, or finds it so and moves nothing |
| `ListCells.ActCoherent` | f1srv/list.go:343-949 | commands on one key keep it coherent and never take its header row from under a resident list |
| `ListCells.ActSize` | f1srv/list.go:376-395 | a command that is the deque's never leaves the running size further ahead of the elements |
| `ListPipes.FoldExact` | f1srv/list.go:495-585 | folded pushes leave the list and the replies of the commands run one by one if and only if the store takes every element, or the list asked for is missing, or every command from the first refused element on has one and that element opens its command (on a resident list: is in the first) |
| `ListPipes.EachKeeps` | f1srv/list.go:343-416 | pushes one by one keep the key coherent and as long as it was, and the error answers exactly those with a refused element |
| `ListLimits.PushRefused` | f1srv/list.go:386-390 | a push of an element over 65535 bytes onto an empty server, folded or not, is an error and makes no list |
| `ListLimits.InsertLost` | f1srv/list.go:1809-1814 | LINSERT of such a value before the only element of a row list replies 2 and shows an empty element |
| `ListLimits.RetiredLost` | f1srv/listwinreg.go:88-92 | on a resident list it lands; the pop that empties the list returns an empty element for it |
| `ListLimits.FoldedDiffers` | f1srv/list.go:531-565 | three pipelined pushes, the second refused: folded 1, error, error and one element; one by one 1, error, 2 and two |
| `ListLimits.AcknowledgedLost` | f1srv/list.go:515-565 | a pipeline that meets a resident list: its first push is answered with a length and its element is in no list |
| `ListLimits.StrayShows` | f1srv/list.go:376-390 | the element before a refused one leaves a row that a later refused LINSERT brings into the list |
| `ListKeys.MovedThenPopped` | f1srv/list.go:866-882 | push two elements, move one onto a missing key, pop it there: the reply is nil and the element stays |
| `ListKeys.LimitWraps` | f1srv/list.go:1325-1336 | push two elements, pop the first, search the second with MAXLEN 2^63 - 1: nothing is found |
| `HotList.HotList.Push` | f1srv/list.go:275-416 | LPUSH/RPUSH/LPUSHX/RPUSHX of any lengths, hot or cold: a run the store takes lands at the chosen end, an LPUSH run reversed, and the reply is the new length; any other is the error, with the rows before the refused element left at the header row's bounds |
| `HotList.HotList.PushBody` | f1srv/list.go:343-416 | the row-per-element push body from the header row's bounds, stale ones while a window is resident, with admission of a window on repeat traffic |
| `HotList.HotList.PushCoalesced` | f1srv/list.go:495-585 | a folded pipeline of pushes, through the window or over rows, with the undone reservation, the header row and the replies of a run that is cut short |
| `HotList.HotList.Strew` | f1srv/list.go:376-390 | the rows a refused push leaves lie beside the list and change none of it |
| `HotList.HotList.PushWindow` | f1srv/list.go:275-329 | a resident push changes the list as the deque push does and latches the size flag |
| `HotList.HotList.Admit` | f1srv/list.go:257-262 | making a list hot changes nothing a client can see |
| `HotList.HotList.DrainEvict` | f1srv/listwinreg.go:65-102 | retiring a window leaves rows and header that alone stand for the list at the same positions, but for the elements the store refuses, in whose place the row that was there shows, or none |
| `ListWindow.ListWindow.Flushed` | f1srv/listwinreg.go:88-92 | the flush loop writes every resident position and no other; rows then read as the window did wherever the store takes the value, and as before elsewhere |
| `HotList.HotList.Pop` | f1srv/list.go:835-949 | LPOP/RPOP with and without count: through the window while the list survives, nil for a key without header row that the window declines, on rows otherwise |
| `HotList.HotList.PopHot` | f1srv/list.go:729-807 | a window pop takes the run off one end or declines; it declines exactly a pop that would empty the list, and the slices handed out are no longer part of the list |
| `HotList.HotList.PopPipelined` | f1srv/list.go:618-651 | a pipeline of n pops, claimed at once where the window takes them all, leaves rows, header and window as n pops one after another do, with their replies |
| `ListPops.PopsExact` | f1srv/list.go:818-829 | folded pops are the pops one after another on every coherent list: deque, first position, residency, header bounds, stray rows, size and replies |
| `HotList.HotList.PopCold` | f1srv/list.go:835-949 | the row path pops, and drops header and key when the list empties |
| `HotList.HotList.PopFramedLate` | f1srv/list.go:729-807 | a reply framed after another connection has pushed still carries the popped bytes: the slices are not shared with the ring |
| `HotList.HotList.LRange` | f1srv/list.go:1037-1113 | LRANGE reads ring and rows into the elements whose indexes lie between its two bounds, each counted from the end if negative |
| `ListLaws.RangeReports` | f1srv/list.go:1080-1113 | for every start and stop LRANGE reports the element at an index if and only if the index is between the two, in list order |
| `ListLaws.PushStands` | f1srv/list.go:343-416 | where every old and new element stands after a push: the last of an LPUSH first, the last of an RPUSH last |
| `ListLaws.PopReports` | f1srv/list.go:831-949 | which elements a pop reports, in which order, and where the others stand |
| `ListLaws.LargeIs` | f1srv/list.go:51-57 | a list counts as large from more than 8192 bytes on until it is gone |
| `ListLaws.MoveStands` | f1srv/list.go:2321-2369 | LMOVE takes the element at one end of the source and stands it at one end of the destination, the others keeping their order |
| `ListLaws.RotateStands` | f1srv/list.go:2321-2369 | LMOVE of a list onto itself turns it by one, or leaves it as it is for equal ends |
| `ListLaws.InsertStands` | f1srv/list.go:1698-1819 | the value comes next to the first element equal to the pivot, on the side asked for |
| `ListLaws.RemStays` | f1srv/list.go:1831-1951 | LREM leaves an element if and only if it differs from the victim or has as many of the same before it as a positive count takes, or behind it as a negative one does |
| `PosLaws.PosReports` | f1srv/list.go:1187-1309 | LPOS reports exactly the indexes within reach that hold the target with at least rank - 1 and, for a count, fewer than rank - 1 + count of the same before them, or behind them for a negative rank, from the head up or the tail down |
| `HotList.HotList.LPos` | f1srv/list.go:1187-1309 | LPOS answers as element-by-element comparison of what it sees within the int64 limits, and as the plain list whenever it sees all |
| `HotList.HotList.LInsert` | f1srv/list.go:1698-1819 | LINSERT, hot or cold, inserts at the first pivot it sees; on rows the size counts a refused value whose row is not there |
| `HotList.HotList.LRem` | f1srv/list.go:1831-1951 | LREM, hot or cold, removes the first, last or all matches it sees, for every count above -2^63; at -2^63 it takes one match from the ring and panics on rows that hold one |
| `HotList.HotList.Rotate` | f1srv/list.go:2239-2369 | LMOVE of a list onto itself: pop then push through the window, or over rows when the window does not give the element up |
| `HotList.HotList.PopFast` | f1srv/list.go:2239-2288 | the window gives one element up exactly when the list stays alive and the element is at most 65535 bytes; a longer one is pushed back and the list is unchanged, flag, size and position included |
| `HotList.HotList.AdmitAndPush` | f1srv/list.go:2203-2217 | a destination, even a missing one, is made resident and takes the element in its ring, its header row as it was |
| `ListCommands.Move` | f1srv/list.go:2321-2369 | LMOVE between two keys, with disjoint memory throughout: through both windows, or over rows |
| `ListCommands.MoveHot` | f1srv/list.go:2239-2314 | the two-window move, taken exactly when the source gives the element up; otherwise neither list changes |
| `ListCommands.MoveCold` | f1srv/list.go:2037-2090 | the row move, which may empty the source |
| `ListPushes.PushEachIsOne` | f1srv/list.go:495-585 | on the plain deque, for every partition of the elements into commands, pushing one command after another equals one push of all, and reply k is the base length plus bnd[k] |
| `ListWindow.ListWindow.constructor` | f1srv/listwindow.go:149-165 | a fresh window has a power-of-two capacity above the span and every position in the band |
| `ListWindow.NextPow2` | f1srv/listwindow.go:136-142 | the result is a power of two that reaches n |
| `ListWindow.ListWindow.ContractPreblock` | f1srv/listwindow.go:103-129 | after a pop the band holds exactly the band positions the pop left |
| `ListWindow.ListWindow.RingEnsure` | f1srv/listwindow.go:180-184 | growth keeps every live position and leaves room for the run, strictly |
| `ListWindow.ListWindow.RingPutRun` | f1srv/listwindow.go:169-173 | a run is stored at its positions and no other live position changes |
| `ListWindow.ListWindow.AppendTail` | f1srv/listwindow.go:225-236 | a run appended at the tail, positions re-pushed after a pop included, extends the sequence |
| `ListWindow.ListWindow.AppendHead` | f1srv/listwindow.go:243-254 | a run prepended at the head extends the sequence in front |
| `ListWindow.ListWindow.AddBytes` | f1srv/listwindow.go:197-202 | the running size moves by delta and the flag latches past 8192 |
| `ListWindow.ListWindow.PushRun` | f1srv/list.go:275-329 | a window push of a run at either end, with its size accounting |
| `ListWindow.ListWindow.PopClaim` | f1srv/list.go:729-807 | the critical section of a pop: bounds, claimed slices, deleted rows and contracted band |
| `ListWindow.ListWindow.PopRun` | f1srv/list.go:729-807 | a window pop leaves the deque without the run, returns the run in order, and keeps size and flag |
| `ListView.PopIs` | f1srv/list.go:729-807 | the bounds, rows, slots and band a pop leaves read as the list without the run |
| `ListWindow.ListWindow.PosScan` | f1srv/list.go:1322-1419 | the three-segment scan over resident head, band rows and resident tail reports exactly what comparing every element reports, for every rank, count and length limit, forward and backward, int64 limits that cross included |
| `ListSpec.ExaminedIs` | f1srv/list.go:1325-1336 | the limit set in int64 arithmetic is the limit asked for, or leaves nothing to search when it passes the int64s |
| `ListWindow.ListWindow.Promote` | f1srv/list.go:1525-1543 | moving the band into the ring keeps the list |
| `ListWindow.ListWindow.InsertResident` | f1srv/list.go:1553-1598 | the resident LINSERT: the slot opened on the shorter side, the size tracked |
| `ListWindow.ListWindow.RemoveResident` | f1srv/list.go:1608-1668 | the resident LREM for every int64 count: matches chosen by bounded scans, survivors compacted, size tracked |
| `ListWindow.ListWindow.CompactRing` | f1srv/list.go:1608-1668 | the in-place compaction keeps the unchosen elements in order and counts the bytes of the chosen |
| `ListWindow.ListWindow.ReadRange` | f1srv/list.go:91-100 | each index read from ring or row by residency is the element there |
| `ListRing.ListRing.Put` | f1srv/listring.go:86-91 | a store changes its own slot and no other; no bytes stored into a nil slot leave it nil |
| `ListRing.ListRing.Get` | f1srv/listring.go:104-106 | a slot yields its bytes, or nil when detached |
| `ListRing.ListRing.TakeSlot` | f1srv/listring.go:128-133 | a detached slice belongs to the caller alone |
| `ListRing.ListRing.Move` | f1srv/listring.go:169-178 | a slice moves by reference and its source slot detaches; a self-move changes nothing |
| `ListRing.ListRing.Grow` | f1srv/listring.go:143-159 | doubling re-seats every live position by reference |
| `ListRing.ListRing.ShiftDown` | f1srv/listring.go:185-189 | the run slides one position down, everything else in a ring-length stays |
| `ListRing.ListRing.ShiftUp` | f1srv/listring.go:196-200 | the run slides one position up, everything else in a ring-length stays |
| `ListRing.ListRing.ScanSigForward` | f1srv/listring.go:210-234 | the signature-filtered scan in runs that do not wrap equals the element-by-element scan, for every pair of signature functions |
| `ListRing.ListRing.ScanSigBackward` | f1srv/listring.go:238-264 | the same, descending |
| `ListRing.ListRing.SignatureRulesOut` | f1srv/listring.go:97-99 | a differing signature means differing bytes: the filter never decides a match |
| `ListRing.ListRing.Index` | f1srv/listring.go:86-91 | `pos & mask` is the slot of the position in every ring |
| `Slots.MaskIsSlot` | f1srv/listring.go:86-91 | masking with capacity minus one is reduction by whole turns, negative positions included |
| `Slots.SlotInjective` | f1srv/listring.go:86-91 | positions less than a capacity apart never share a slot |
| `ListRows.ExtendRun` | f1srv/list.go:376-395 | the row push loop extends rows, bounds, size and flag up to the first element the store refuses |
| `ListRows.ExtendedIs` | f1srv/list.go:376-395 | what it extended by elements the store takes is the list with the run pushed, its size as exact as before |
| `ListRows.PopRun` | f1srv/list.go:835-949 | the row pop loop takes the run in reply order |
| `ListRows.InsertAt` | f1srv/list.go:1756-1819 | the row insert shifts the shorter side and fills the gap, or leaves it to a stray row or to none when the store refuses the value |
| `ListRows.Compact` | f1srv/list.go:1831-1951 | the row compaction keeps the unchosen rows in order and counts the bytes of the chosen |
| `ListRows.RemoveRun` | f1srv/list.go:1831-1951 | LREM on rows is the deque removal, or a panic exactly for count -2^63 and a match |
| `ListRows.PosRows` | f1srv/list.go:1187-1309 | LPOS on rows is the element-by-element search of the examined range |
| `ListRemoval.ChosenRemoves` | f1srv/list.go:1608-1668 | dropping the chosen positions is removing the first, the last or all matches |
| `ListRemoval.ScanChosen` | f1srv/list.go:1608-1668 | the positions a bounded scan collects, in either direction, are the ones LREM has to drop |
| `ListRemoval.LeastCountExact` | f1srv/list.go:1624-1639 | LREM with count -2^63 takes what it should from a resident list if and only if there is at most one match |
| `ListRemoval.LeastCountStops` | f1srv/list.go:1624-1639 | two equal elements: count -2^63 takes one of them |
| `ListRemoval.KeptSize` | f1srv/list.go:1831-1951 | the bytes dropped are exactly those the list loses |
| `Scan.ScanUpReports` | f1srv/list.go:1322-1419 | a forward scan with skip and count reports the matches in order, after the skipped ones, as many as wanted |
| `Scan.ScanDownReports` | f1srv/list.go:1322-1419 | a backward scan reports them from the other end |
| `ListSeen.PosSeen` | f1srv/list.go:1322-1419 | LPOS through the window equals LPOS on the plain list for every target it sees whole, non-empty ones always |
| `ListSeen.PosSeenExactly` | f1srv/list.go:1322-1419 | for every rank, count and range LPOS answers as on the plain list if and only if the target is non-empty, or at most rank - 1 elements match, or no nil slot is among the matches it passes over and reports |
| `ListSeen.FirstIndexSeen` | f1srv/list.go:1553-1598 | LINSERT finds the plain list's pivot if and only if the target is non-empty or the first empty element is not in a nil slot |
| `ListSeen.RemovedSeen` | f1srv/list.go:1608-1668 | LREM through the window equals LREM on the plain list when the target is seen whole |
| `ListSeen.RemovedSeenExactly` | f1srv/list.go:1608-1668 | for every count LREM leaves the plain list's result if and only if the target is non-empty or every run of empty elements loses equally many |
| `ListSeen.AllLossesSame` | f1srv/list.go:1608-1668 | with count 0 that is: no nil slot at all |
| `ListSeen.EmptyMissed` | f1srv/listring.go:86-91 | a list of one empty element in a nil slot: LPOS, LINSERT and LREM all miss it |
| `Listpack.PackTakes` | f1srv/list.go:1958-2009 | the running size of a list, 7 plus the entry sizes, is the byte length of the listpack its dump builds |
| `Listpack.EntryTakes` | f1srv/list.go:1958-2009 | the accounting of one element is the byte length of its listpack entry, in every integer and string form |
| `Decimal.TryIntegerExact` | f1srv/list.go:2016-2028 | an element is charged as an integer exactly when it is the decimal text of an int64 |
| `ListLatch.RunLatched` | f1srv/list.go:376-395 | in every run a list past 8192 bytes has its flag set, and a missing list has none |
| `ListLatch.ActKeeps` | f1srv/list.go:376-395 | a command that leaves a large list alive keeps the flag if and only if it is not the rotation of a single element that is small once it lies in a row |
| `ListLatch.RotateKeeps` | f1srv/list.go:2354-2369 | a rotation keeps the flag if and only if another element stays behind or the one element is over the budget itself |
| `ListLatch.RunKeeps` | f1srv/list.go:376-395 | over any run without such a rotation a list once over the budget stays large while it lives |
| `ListLatch.FlagClears` | f1srv/list.go:2354-2369 | the flag does clear: push a long and a one-byte element, pop the long one, rotate |
| `RowKeys.ElementKeyInjective` | f1srv/list.go:68-79 | two element rows share a key exactly when they are one position of one list |
| `RowKeys.NamedIs` | f1srv/list.go:68-79 | the list keys whose row keys are within the store's limit are those of 1 to 65524 bytes |
| `RowKeys.PrefixIsOwn` | f1srv/hash.go:362-370 | a scan bounded by a key's prefix meets that key's rows and no other's |
| `RowKeys.FramedInjective` | f1srv/hash.go:39-48 | a composite key belongs to one key and one suffix |
| `RowKeys.UvarintIs` | f1srv/hash.go:39-48 | the length in front of a key is seven bits a byte, lowest first, the high bit on all but the last |
| `RowKeys.FramedIs` | f1srv/hash.go:39-48 | a row key is length, key and suffix, and within the store's limit just when these are at most 65535 bytes together |
| `RowStore.LimitsAre` | engine/f1raw/f1raw.go:842-847 | the store takes exactly keys of 1 to 65535 bytes and values of at most 65535 |
| `HashStore.LandsIs` | engine/f1raw/coll.go:138-144 | which fields of a hash have row keys the store takes, in bytes |
| `Hll.SparseSet` | f1srv/hll.go:249-371 | on any well-formed sparse blob the register rises to the maximum, all others and the count of 16384 stay, and 1 is returned exactly when it rose; a blob that grows and stays sparse has at most 3000 bytes; a failure means the blob does not cover 16384 |
| `Hll.SetRun` | f1srv/hll.go:249-371 | the in-place cases, the splice and the promotion each raise exactly the one register |
| `Hll.SplitRaises` | f1srv/hll.go:314-371 | splitting a run into up to five bytes raises one register of the whole stream |
| `HllSparse.SplitSpells` | f1srv/hll.go:314-355 | the split opcodes spell the old run with one register changed |
| `HllSparse.Locate` | f1srv/hll.go:254-297 | the walk finds the opcode covering a register and the one before it, or reports that none does |
| `HllSparse.MergeValues` | f1srv/hll.go:376-411 | merging equal neighbours keeps the registers and never lengthens the stream |
| `HllSparse.MergeKeeps` | f1srv/hll.go:376-411 | one merge of adjacent runs keeps the decoding |
| `Hll.Updated` | f1srv/hll.go:376-411 | the rewritten blob decodes to the spliced stream and its cached cardinality is invalid |
| `Hll.Promote` | f1srv/hll.go:414-421 | promotion keeps the registers and then raises one, failing exactly on a blob that does not cover 16384 |
| `Hll.ToDense` | f1srv/hll.go:425-462 | the dense form stands for the same registers and carries the header over; it fails exactly when the stream does not cover 16384 |
| `Hll.Densify` | f1srv/hll.go:425-462 | the opcode loop writes exactly the registers the stream spells |
| `Hll.DenseSet` | f1srv/hll.go:170-177 | a dense register rises to the maximum and 1 is returned exactly when it rose |
| `HllDense.SetUpdates` | f1srv/hll.go:142-167 | writing a packed six-bit register changes that register and no other of 16384 |
| `Hll.CreateIsEmpty` | f1srv/hll.go:96-113 | a new sketch covers 16384 zero registers |
| `Hll.Invalidate` | f1srv/hll.go:61-61 | the cache flag is set and nothing else changes |
| `HllUnion.Merge` | f1srv/hll.go:481-520 | max becomes the pointwise maximum of itself and the sketch, dense or sparse; it fails exactly on a blob that does not cover 16384 |
| `HllUnion.RegHisto` | f1srv/hll.go:568-612 | sparse, dense and raw blobs of one vector give one histogram; a sparse blob is taken exactly when its opcodes reach 16384 with nothing or a run of a value to follow, and the histogram is that of the opcodes before it |
| `HllUnion.SparseHistogram` | f1srv/hll.go:582-607 | the opcode loop stops at the one point where the count can end |
| `HllUnion.LooseStream` | f1srv/hll.go:596-601 | a stream of 16385 registers that is counted |
| `HllUnion.HistogramCounts` | f1srv/hll.go:568-612 | the histogram of any sketch sums to 16384 |
| `HllCommands.PatLen` | f1srv/hll.go:229-241 | the index is the hash modulo 16384, and the count one more than the number of times two divides the rest, or 51 if the rest is zero |
| `HllLaws.GroupIs` | f1srv/hll.go:142-168 | three bytes hold four registers of six bits, lowest first |
| `HllLaws.DenseIs` | f1srv/hll.go:77-91 | a dense sketch is accepted just when it holds exactly six bits for each of the 16384 registers behind its header |
| `HllLaws.SignedIs` | f1srv/hll.go:713-727 | a count past the int64s is replied as the int64 congruent to it |
| `HllLaws.OpcodesAre` | f1srv/hll.go:117-135 | the three opcodes of the sparse encoding, byte by byte |
| `HllLaws.CreateIs` | f1srv/hll.go:96-113 | a new sketch in its eighteen bytes |
| `HllLaws.CacheIs` | f1srv/hll.go:59-72 | the cached cardinality is eight bytes, least significant first, valid while the top bit is clear |
| `HllCommands.PatternFits` | f1srv/hll.go:229-241 | every hash names a register and a count of 1 to 51 |
| `HllCommands.MaxUnique` | f1srv/hll.go:466-520 | what was added settles the registers: order and encoding have no say |
| `HllCommands.CacheRoundTrip` | f1srv/hll.go:64-72 | a cardinality written to the header is the one read back |
| `HllCommands.SetRegister` | f1srv/hll.go:466-476 | adding a pattern to a sketch of either encoding raises its register to the maximum |
| `HllCommands.WriteMax` | f1srv/hll.go:797-825 | writing the merged maximum back, in either encoding, gives exactly those registers |
| `HllCommands.Keyspace.PfAdd` | f1srv/hll.go:635-683 | PFADD keeps every sketch the maximum of what was added, and replies 1 exactly when the key is new or a register rose; a new key that is empty or too long is an error and changes nothing |
| `HllCommands.Keyspace.PfCount` | f1srv/hll.go:685-728 | PFCOUNT replies the estimate of the current registers whether cached or not, and leaves a cache that is right |
| `HllCommands.Keyspace.FoldKeys` | f1srv/hll.go:732-761 | the union loop gathers the maximum over the keys, or stops at the first key that cannot take part |
| `HllCommands.Keyspace.PfCountUnion` | f1srv/hll.go:732-761 | PFCOUNT of several keys is the estimate over everything added to any of them |
| `HllCommands.Keyspace.PfMerge` | f1srv/hll.go:763-831 | PFMERGE leaves the destination with everything added to any key, itself included, or reports the first fault, or the refused destination, and changes nothing |
| `HllCommands.Keyspace.ToDenseKey` | f1srv/hll.go:833-896 | TODENSE changes the encoding and nothing else |
| `HllCommands.Keyspace.Run` | f1srv/hll.go:635-896 | over every run, keys of every length, each sketch is the pointwise maximum of what its commands added, valid caches hold the estimate of the current histogram, and every reply depends on what was added alone |
| `Dump.RestoreUndoesDump` | f1srv/dump.go:175-204 | for every string, hash, set, sorted set and list the sealed dump passes the footer check and loads back as the value |
| `Dump.LoadUndoesBody` | f1srv/dump.go:924-1029 | loading undoes dumping for every value of every type |
| `Dump.Build` | f1srv/dump.go:210-381 | the dump walks write exactly the body of the value, whose bytes `DumpLaws.BodyIs` spells out |
| `DumpLaws.BodyIs` | f1srv/dump.go:210-381 | type byte, count and strings of every dump, in order |
| `DumpLaws.LoadKin` | f1srv/dump.go:924-1036 | hashes and sets as listpacks and plain lists, which other servers write, load as their elements; a hash of an odd number is refused |
| `DumpLaws.QuicklistLoads` | f1srv/dump.go:1403-1436 | a list in any number of nodes, plain and packed mixed, loads as the elements of the nodes in turn |
| `Dump.LoadValue` | f1srv/dump.go:924-1029 | the loader, error returns and the wrapping field count of a hash included, is the reader function the round trip is about |
| `Dump.CountExact` | f1srv/dump.go:935-949 | a hash is read as its count declares if and only if twice the count is below 2^64 or the strings it wraps to do not all parse |
| `Dump.CountWraps` | f1srv/dump.go:935-949 | a declared count of 2^63 loads as an empty hash |
| `Dump.LoadQuicklist` | f1srv/dump.go:1403-1433 | list nodes, plain and packed, flatten in order |
| `Rdb.LenRoundTrip` | f1srv/dump.go:1843-1968 | every length below 2^64 reads back through its form, leaving what follows |
| `FormatLaws.LenIs` | f1srv/dump.go:1843-1861 | the bytes of a length in each of its four forms, by arithmetic |
| `FormatLaws.ReadLenIs` | f1srv/dump.go:1940-1968 | what arbitrary bytes read as a length, or that they do not |
| `FormatLaws.IntEncodeIs` | f1srv/dump.go:1813-1841 | the decimal text of a 32-bit integer is written as a tag and the fewest of one, two or four bytes in two's complement, least significant first |
| `FormatLaws.OtherText` | f1srv/dump.go:1803-1811 | any other string is its length and its bytes |
| `FormatLaws.DigitsAre` | f1srv/dump.go:1813-1841 | decimal text has no leading zero and its digits are the quotients by powers of ten |
| `FormatLaws.SignsParse` | f1srv/list.go:2016-2028 | digits behind a plus parse as the number and behind a minus as its negation, up to the bounds of int64 and no further |
| `ListpackLaws.ReadIntIs` | f1srv/dump.go:1863-1930 | what arbitrary bytes behind an integer tag read as |
| `ListpackLaws.IntFormIs` | f1srv/dump.go:658-680 | the six integer forms of a listpack, byte by byte, and which number takes which |
| `ListpackLaws.StrFormIs` | f1srv/dump.go:684-697 | the three text forms |
| `ListpackLaws.FormIs` | f1srv/dump.go:645-654 | an element takes an integer form just when it is the text of an int64 |
| `ListpackLaws.BacklenIs` | f1srv/dump.go:701-715 | back-lengths are groups of seven bits readable from behind |
| `ListpackLaws.GetIntIs` | f1srv/dump.go:1715-1783 | what arbitrary bytes read as an integer element |
| `ListpackLaws.GetTextIs` | f1srv/dump.go:1715-1783 | what arbitrary bytes read as a text element |
| `ListpackLaws.PackIs` | f1srv/dump.go:344-381 | total length, capped count, entries and terminator of a listpack |
| `Rdb.StrRoundTrip` | f1srv/dump.go:1803-1936 | every string reads back, stored as text or as an 8, 16 or 32 bit integer |
| `Rdb.IntRoundTrip` | f1srv/dump.go:1813-1839 | an integer encoding gives back the exact text |
| `Rdb.ManyRoundTrip` | f1srv/dump.go:924-1029 | a reader that undoes a writer on each value undoes it on a run of them |
| `Rdb.AppendAll` | f1srv/dump.go:210-335 | the dump loops append one encoding after another |
| `Rdb.ReadAll` | f1srv/dump.go:924-1029 | the load loops read one value after another and stop at the first that does not parse |
| `Listpack.FormComesBack` | f1srv/dump.go:645-715 | every element, integer or string form, reads back, and no entry starts with the 0xFF terminator |
| `Listpack.PackRoundTrip` | f1srv/dump.go:1690-1709 | decoding a listpack gives back the elements it was packed from |
| `Listpack.Decode` | f1srv/dump.go:1690-1709 | the cursor loop, truncated input included, is the recursive decoding |
| `Listpack.PackIsText` | f1srv/dump.go:358-375 | no listpack is mistaken for an integer string |
| `StreamNode.NodeRoundTrip` | f1srv/dump.go:1271-1376 | parsing a built node gives back the entry, less an odd last field |
| `StreamNode.NodeExact` | f1srv/dump.go:591-621 | the entry comes back whole if and only if its fields pair up |
| `StreamNode.OddFieldLost` | f1srv/dump.go:591-621 | an entry of one field comes back with none |
| `StreamNode.IntEntryIs` | f1srv/dump.go:626-630 | an integer appended as such is its decimal text appended as an element |
| `StreamNode.BuildNode` | f1srv/dump.go:591-621 | the appending loop builds exactly the node |
| `StreamNode.ParseNode` | f1srv/dump.go:1271-1376 | the cursor loop, deleted items, own-field items and every error return included, is the parse function |
| `NodeLaws.NodeReads` | f1srv/dump.go:1271-1376 | every node another server may write, with any number of items, deleted ones, own or shared fields and relative identifiers, parses to its live entries in order |
| `NodeLaws.NodeWrites` | f1srv/dump.go:591-623 | the node this server writes is one item with shared fields at distance zero |
| `StreamDump.OwnersRoundTrip` | f1srv/dump.go:1126-1190 | pending owners come back if and only if every owner is a listed consumer |
| `StreamDump.OwnerLost` | f1srv/dump.go:1126-1190 | a pending entry of a group without consumers loses its owner |
| `StreamDump.GroupGet` | f1srv/dump.go:486-584 | a group with consumers, times and owned pending entries reads back |
| `StreamDump.EntryGet` | f1srv/dump.go:389-481 | a stream node reads back as its entry |
| `StreamDump.StreamRoundTrip` | f1srv/dump.go:1038-1216 | a whole stream reads back: entries, metadata, groups, consumers and pending owners |
| `StreamLaws.StreamSpells` | f1srv/dump.go:389-481 | a stream's dump is its fields, groups, pending entries and consumers, each once and in this order |
| `StreamLaws.FixedAre` | f1srv/dump.go:634-641 | identifiers have their most significant byte first, times their least |
| `StreamWalk.BuildStream` | f1srv/dump.go:389-481 | the stream dump loops write exactly the stream body |
| `StreamWalk.AppendGroup` | f1srv/dump.go:486-584 | one group, its pending list and its consumers written in order |
| `StreamWalk.CollectOwned` | f1srv/dump.go:556-584 | the identifiers a consumer owns, in pending order |
| `StreamWalk.ResolveOwners` | f1srv/dump.go:1151-1190 | the index-driven owner pass marks each pending entry by its last claimant |
| `StreamWalk.LoadGroup` | f1srv/dump.go:1100-1216 | the group reader |
| `StreamWalk.LoadStream` | f1srv/dump.go:1038-1216 | the stream loader at type 21, error paths included, is the reader function |
| `StreamWalk.RestoreUndoesDump` | f1srv/dump.go:389-481 | a sealed stream dump passes the footer check and loads back as the stream |
| `Crc.Crc64` | f1srv/dump.go:163-169 | the table-driven checksum is the bit-at-a-time reflected CRC |
| `CrcLaws.CrcDivides` | f1srv/dump.go:129-169 | the checksum is the remainder of the message by the Jones polynomial under long division, read in the mirror |
| `CrcLaws.SealIs` | f1srv/dump.go:833-839 | version 11 and the checksum of all before it, least significant byte first |
| `CrcLaws.FooterIs` | f1srv/dump.go:843-859 | a footer is accepted just for versions 1 to 80 and the right checksum |
| `Crc.BuildTable` | f1srv/dump.go:134-147 | each table entry is eight single-bit steps |
| `Crc.TableStep` | f1srv/dump.go:163-169 | one table lookup is eight single-bit steps of the whole state |
| `Crc.Reflect` | f1srv/dump.go:151-160 | bit i goes to bit 63 - i |
| `Crc.StepsInjective` | f1srv/dump.go:134-147 | a byte step is injective on the state |
| `Crc.FoldBijective` | f1srv/dump.go:134-169 | a byte step is a bijection on the state, with its inverse given |
| `Crc.CrcSeparates` | f1srv/dump.go:163-169 | strings that differ in exactly one byte have different checksums |
| `Crc.SealPasses` | f1srv/dump.go:833-859 | a sealed payload passes and comes back |
| `Crc.OneByteRejected` | f1srv/dump.go:843-859 | a blob that passes stops passing when any one byte of value, version or checksum changes |
| `HashRuns.Run` | f1srv/hash_ttl.go:74-316 | every run of hash commands, RENAME, RENAMENX and COPY in which no command drifts (no HSET or HSETNX is stopped after it has made a field, no rename or copy parts a hash from its header) keeps every counter exact and leaves exactly the fields, deadlines and replies of the plain map of cells, dead fields included |
| `HashRuns.Step` | f1srv/rename.go:40-282 | one such command, names and values of every length: the fields, deadlines and reply are those of the plain map, and the counters are exact afterwards if and only if it does not drift |
| `HashRuns.FittingRun` | f1srv/rename.go:92-109 | from rows the store holds, no command drifts in any run whose pairs fit the store and whose new names are neither empty nor longer than the old |
| `HashRuns.ExecHeld` | engine/f1raw/coll.go:138-144 | no command makes a row that the store would refuse |
| `HashCommands.Run` | f1srv/hash.go:82-502 | at times that do not fall, every run without such a stop leaves the cells of the plain map, its living fields are those of the live map, and each reply is the live map's if and only if it is not a HDEL or DEL that counts dead fields |
| `HashCommands.ExecIgnoresDead` | f1srv/hash_ttl.go:141-162 | no command's answer or living result depends on dead fields that nothing has reaped, HDEL's and DEL's counts aside |
| `HashCommands.DeleteReplyExact` | f1srv/hash.go:251-300 | HDEL replies as the live map if and only if it names no dead unreaped field; otherwise it counts too many |
| `HashCommands.DeadFieldCounted` | f1srv/hash.go:275-288 | a field past its deadline that nothing touched: HDEL counts it, the live map does not |
| `HashCommands.DropReplyExact` | f1srv/dispatch.go:920-943 | DEL replies as the live map if and only if the hash is not one of dead fields only |
| `HashCommands.DeadHashDropped` | f1srv/dispatch.go:920-943 | a hash of one dead field: DEL says it was there, the live map that it was not |
| `HashCommands.ReplyExact` | f1srv/hash.go:82-502 | every command replies as the live map if and only if it does not count dead fields |
| `HashCommands.Settled` | f1srv/hash_ttl.go:49-97 | the cells settle every row, index entry, header, hint and the global counter |
| `HashCommands.Step` | f1srv/hash.go:82-502 | one command has the plain map's effect and reply, and the counters are exact after it if and only if it is not an HSET or HSETNX stopped after it has made a field |
| `HashCommands.HeaderBehind` | f1srv/hash.go:101-106 | HSET of a field and then of one whose value is too long, on an empty server: the error; then HGET finds the first field, HLEN replies 0, and HGETALL frames no pair and streams one |
| `HashCommands.RefusedUntimes` | f1srv/hash.go:99-106 | a refused HSET takes the deadline off its field |
| `HashCommands.FittingKeeps` | f1srv/hash.go:82-121 | where every pair fits the store and no key is empty, no command is such a stop |
| `HashStore.Rows.GateSound` | f1srv/hash_ttl.go:168-173 | a closed gate, global or per hash, means there is no deadline row to look at |
| `HashStore.Rows.SetFieldTtl` | f1srv/hash_ttl.go:74-82 | a deadline is set and both counters move exactly when it is new |
| `HashStore.Rows.ClearFieldTtl` | f1srv/hash_ttl.go:88-97 | a deadline is cleared and both counters move exactly when there was one |
| `HashStore.Rows.ReapField` | f1srv/hash_ttl.go:103-112 | row, index entry, deadline and all three counters go together; a header that counts none stays at none |
| `HashStore.Rows.DiscardTtl` | f1srv/hash_ttl.go:120-133 | before a set a dead field goes whole and a live one only loses its deadline, mid-command counts included |
| `HashStore.Rows.FieldExpired` | f1srv/hash_ttl.go:141-162 | the lazy check reaps exactly a dead field, and the header stays as far behind as it was unless no row is left to be behind of |
| `HashStore.Rows.ReapExpired` | f1srv/hash_ttl.go:181-219 | the sweep removes exactly the dead fields of a hash, header behind or not |
| `HashStore.Rows.DropTtls` | f1srv/hash_ttl.go:227-250 | dropping a hash releases exactly its deadline rows |
| `HashStore.Rows.HSet` | f1srv/hash.go:82-121 | HSET, repeated fields included, writes each field and replies the number not alive before, or stops with the error at the first pair the store refuses; the counters are exact afterwards if and only if it was not stopped or had made no field, and otherwise the header is behind by what it made |
| `HashStore.Rows.HSetNx` | f1srv/hash.go:164-204 | HSETNX writes exactly when the field is not alive and the store takes it, and keeps the counters exact but under the empty key |
| `HashStore.Rows.HGet` | f1srv/hash.go:206-226 | HGET answers from the live field and reaps a dead one, however far the header is behind |
| `HashStore.Rows.HExists` | f1srv/hash.go:302-318 | HEXISTS answers from the live field and reaps a dead one, however far the header is behind |
| `HashStore.Rows.HDel` | f1srv/hash.go:251-300 | HDEL deletes the named rows and replies how many were there, however far the header is behind; the header then is as far behind as it was, or has no row to count |
| `HashStore.Rows.HDelCoalesced` | f1srv/delcoalesce.go:113-176 | for every partition into commands the coalesced delete leaves the rows, deadlines, index and counters, and gives the replies, of the commands run one by one |
| `HashStore.Rows.HLen` | f1srv/hash.go:320-335 | HLEN counts the living fields, less what the header is behind, and never less than none |
| `HashStore.Rows.HGetAll` | f1srv/hash.go:385-502 | HGETALL streams the living fields under a header that counts exactly them, less what the hash's header is behind |
| `HashStore.Rows.StepFields` | f1srv/hash_ttl.go:421-625 | HEXPIRE with NX, XX, GT, LT, HPEXPIRETIME, HPERSIST and HGETEX act field by field as `OnCell` says, which `HashLaws` pins by what later looks find |
| `HashStore.Rows.ExpireField` | f1srv/hash_ttl.go:421-519 | one field of HEXPIRE: missing and past cases; otherwise GT leaves the later of the two deadlines and LT the earlier, none counting as infinite, NX moves exactly a field without one and XX one with, and the reply tells whether it moved |
| `HashLaws.Conditions` | f1srv/hash_ttl.go:501-519 | the same of the field's value and deadline |
| `HashLaws.UntilDeadline` | f1srv/hash_ttl.go:141-162 | HGET finds a field until its deadline and not from then on; HPEXPIRETIME tells the deadline |
| `HashLaws.ExpireTimes` | f1srv/hash_ttl.go:421-498 | after HEXPIRE or HGETEX with a time, every later look finds the value until that time and no longer |
| `HashLaws.PersistStays` | f1srv/hash_ttl.go:584-625 | after HPERSIST or HGETEX PERSIST every later look finds the field, and the reply tells whether it had a deadline |
| `HashLaws.PutStays` | f1srv/hash.go:82-121 | after HSET every later look finds the new value, and the reply counts a field that was not there |
| `HashSetLaws.SetFinds` | f1srv/hash.go:82-121 | after an HSET of any number of pairs the store takes, HGET at every later time finds each named field with the value last given to it and every other as before; the reply is the number of distinct fields that were not there |
| `HashSetLaws.SetStops` | f1srv/hash.go:82-121 | when the store refuses a pair, exactly the pairs before it are written and the command fails |
| `HashSetLaws.NewFinds` | f1srv/hash.go:164-204 | HSETNX writes exactly a field that HGET does not find, and for good |
| `HashSetLaws.DeleteCounts` | f1srv/hash.go:251-300 | HDEL replies the number of distinct named fields that have a row |
| `HashLaws.GoneStays` | f1srv/hash_ttl.go:630-681 | after HDEL or HGETDEL no later look finds the field; HGETDEL replies as HGET |
| `HashLaws.LookingKeeps` | f1srv/hash.go:206-318 | HGET, HEXISTS, HPEXPIRETIME and HGETEX without options change nothing a later look can tell |
| `HashStore.Rows.GetExField` | f1srv/hash_ttl.go:687-810 | one field of HGETEX: keep, persist and retime cases |
| `HashStore.Rows.HGetDel` | f1srv/hash_ttl.go:630-681 | HGETDEL returns the live values and removes the fields |
| `HashStore.Rows.Drop` | f1srv/dispatch.go:932-942 | dropping a hash removes its rows, deadlines and counters |
| `HashTally.TallyUnique` | f1srv/hash.go:53-72 | rows settle counters: two exact counter tables agree |
| `HashRename.PropagateTtls` | f1srv/hash_ttl.go:261-316 | the deadline rows the store takes follow the fields to the new key, a move drops all of the old key's, the global counter stays exact, and the hints do if and only if the deadlines land exactly when the hint does |
| `HashRename.CarryRows` | f1srv/rename.go:170-212 | every field row the store takes is published under the new key, and dropped under the old one by a move; the others stay |
| `HashRename.MoveHash` | f1srv/rename.go:114-121 | values, deadlines, index and headers of a hash move as far as the store takes them; the counters are exact afterwards if and only if the fields land exactly when the header does |
| `HashRename.CopyHash` | f1srv/copy.go:116-124 | the same of a copy, which leaves the source as it was |
| `HashRename.Rename` | f1srv/rename.go:40-109 | RENAME for every pair of names: missing source, same name, overwrite and refused names; what the two headers count, and exactly when the counters are right |
| `HashRename.MoveString` | f1srv/rename.go:116-119 | a string moves or is copied where the store takes the name, and a move deletes it where it does not |
| `HashRename.RenameNx` | f1srv/rename.go:68-90 | RENAMENX: refused when the destination exists, and otherwise RENAME |
| `HashRename.Copy` | f1srv/copy.go:32-109 | COPY with and without REPLACE, for every pair of names, and exactly when the counters are right |
| `HashRename.RenameExact` | f1srv/rename.go:40-109 | RENAME acts as on the live fields if and only if the source is not a hash of dead fields only and no dead field of it stays behind |
| `HashRename.RenameNxExact` | f1srv/rename.go:68-90 | RENAMENX does under the same condition when neither name is such a hash, the destination mattering only when the source exists |
| `HashRename.CopyExact` | f1srv/copy.go:32-98 | the exact condition for COPY, with and without REPLACE |
| `HashRename.ShadeOverwrites` | f1srv/rename.go:96-109 | a dead field renamed over a living one destroys it, though on the live fields the source is not there |
| `HashRename.RenameEmpty` | f1srv/rename.go:273-282 | HSET of one field and RENAME to the empty name: OK, the old header counts one field and has no row, the row is under the empty name without a header |
| `HashRename.RenameRevives` | f1srv/hash_ttl.go:297-313 | a dead field renamed to a name under which it does not land: OK, and it is back under the old name without a deadline |
| `HashRename.StringLost` | f1srv/rename.go:116-119 | a string renamed to the empty name: OK, and it is gone |
| `HashRename.ShorterKeeps` | f1srv/rename.go:170-282 | a hash whose rows the store holds keeps exact counters under every name that is neither empty nor longer |
| `HashCarry.Recounted` | f1srv/rename.go:170-282 | counters of re-keyed rows are exact if and only if those of the two keys are |
| `HashCarry.HintMoves` | f1srv/hash_ttl.go:261-316 | the hint written for all deadlines met, landed or not, is exact if and only if all land under a key that has a hint, or none under one that has not |
| `HashCarry.HeaderMoves` | f1srv/rename.go:273-282 | the same of the header, and what it counts for either key |
| `Lcs.ComputeLcs` | f1srv/lcs.go:119-170 | a longest common subsequence, proved against every common subsequence, with diagonal blocks strictly descending in both strings, no two joinable, that spell it and whose lengths add up to it |
| `Lcs.FillGrid` | f1srv/lcs.go:124-138 | the flat grid holds the recurrence at every cell |
| `Lcs.Backtrack` | f1srv/lcs.go:141-170 | the walk back yields an embedded string of the optimal length and its blocks |
| `Lcs.NoneLonger` | f1srv/lcs.go:128-138 | no common subsequence of two prefixes is longer than the recurrence says |
| `HdrShape.IndexForIs` | bench/hdr.go:110-124 | a value has a counter if and only if it lies below the top of the last bucket, and it is the flat index |
| `HdrShape.BucketIs` | bench/hdr.go:89-95 | the bucket is the number of bits past the first bucket's |
| `HdrShape.IndexBack` | bench/hdr.go:177-185 | reading an index back gives the bottom of the value's band |
| `HdrShape.BandHolds` | bench/hdr.go:211-217 | a value lies in its band, no wider than the unit or one part in 10 to the significant figures |
| `HdrShape.SameIndex` | bench/hdr.go:211-217 | two values share a counter if and only if one lies in the other's band |
| `HdrShape.CountBits` | bench/hdr.go:309-316 | the shift loop counts the bits |
| `Hdr.CountedWhen` | bench/hdr.go:128-147 | a sample is counted if and only if the range does not end exactly at the top of the last bucket or the sample stays below it |
| `Hdr.StallsDropped` | bench/hdr.go:51-69 | from 1 to 2048 with three figures every sample of 2048 or more is dropped |
| `Hdr.NewShape` | bench/hdr.go:37-86 | clamped arguments give enough sub-buckets, units no coarser than the lowest value and the fewest buckets that reach the highest |
| `Hdr.BucketCount` | bench/hdr.go:60-69 | the doubling loop finds the fewest buckets |
| `Hdr.Histogram.RecordValues` | bench/hdr.go:151-173 | counters, total and extremes are those of the clamped samples |
| `Hdr.Histogram.ValueAtRank` | bench/hdr.go:188-207 | the walk returns the top of the band that holds the sample of the target rank |
| `Hdr.Histogram.Merge` | bench/hdr.go:280-294 | merging, with itself too, is recording both sample lists if and only if the other's counters are its samples' in this shape too, which for shapes of the same figures is that its maximum is within the range here; with other numbers of counters nothing happens |
| `HdrMerge.MergeExact` | bench/hdr.go:280-294 | for shapes with equally many counters every histogram of one whose samples are in range merges rightly into the other if and only if sub-buckets, units and buckets are equal, or the first value they index differently is one that never comes |
| `HdrMerge.DisagreeAt` | bench/hdr.go:91-124 | that first value is indexed differently |
| `HdrMerge.AgreeBelow` | bench/hdr.go:91-124 | every value below it is indexed alike |
| `Hdr.SameBands` | bench/hdr.go:280-294 | shapes that differ only in figures or range count alike, within the smaller range |
| `Hdr.UnitsDiffer` | bench/hdr.go:280-294 | units of one and of two with equally many counters: a sample of 2 changes bands in the merge |
| `Hdr.BandCut` | bench/hdr.go:177-217 | the samples counted up to an index are exactly those up to the top of its band |
| `Resp.VerdictStable` | f1srv/conn.go:281-348 | a command, an error or a crash, once seen, never changes as more bytes arrive, for the int64 parser and for a reader without limits |
| `Resp.ArrayReads` | f1srv/conn.go:450-482 | parsing an array reply returns its strings and takes all of its bytes, for every reply of a size a Go slice can have |
| `RespLaws.WireIs` | f1srv/conn.go:434-440 | the bytes of bulk strings and array headers |
| `RespLaws.InlineReads` | f1srv/conn.go:322-348 | words with single spaces between them, ended by CR LF or LF, are judged as exactly those words and take exactly that line |
| `RespLaws.NegativeCount` | f1srv/conn.go:288-294 | an array of negative length is an empty command of exactly its line |
| `RespLaws.DollarWanted` | f1srv/conn.go:296-302 | where a string should begin, anything but a dollar sign is a protocol error |
| `RespLaws.NullReads` | f1srv/conn.go:303-311 | a string of length -1 is an empty argument |
| `Resp.PrefixWaits` | f1srv/conn.go:281-319 | every strict prefix of an array is waited on |
| `Resp.SplitAnywhere` | f1srv/conn.go:203-268 | bytes split at any point give the commands of the whole |
| `Resp.ReadsAreWhole` | f1srv/conn.go:203-268 | however a stream is cut into reads its commands are the same |
| `RespLimits.CommandExact` | f1srv/conn.go:281-348 | a command the server runs is the one the client wrote if and only if every number in it fits: counts and lengths within an int64 or meaning nothing either way, and strings that end within one |
| `RespLimits.FramedAgrees` | f1srv/conn.go:281-348 | bytes whose numbers all fit are judged as by a reader without limits, waiting and errors included |
| `RespLimits.CrashExact` | f1srv/conn.go:304-316 | the server goes down if and only if it reaches a length whose string would end past every int64 |
| `RespLimits.PastEndPanics` | f1srv/conn.go:312-316 | for exactly those lengths the wrapped bounds test passes and the slice is out of range |
| `RespLimits.LengthWraps` | f1srv/conn.go:354-380 | a declared length of 2^64 + 1 followed by one byte runs as a command of that byte |
| `RespLimits.LengthCrashes` | f1srv/conn.go:312-316 | a declared length of 2^63 - 1 brings the server down |
| `RespConn.Parse` | f1srv/conn.go:281-348 | the cursor loops compute the verdict in int64 arithmetic, inline commands, nulls, errors and the panicking slice included |
| `RespConn.ReadIntLine` | f1srv/conn.go:354-380 | the digit loop reads exactly a signed line, wrapped to an int64 |
| `RespConn.Conn.DrainBuffer` | f1srv/conn.go:203-268 | drain runs every whole command and keeps the rest |
| `RespConn.Conn.Serve` | f1srv/conn.go:121-150 | a connection fed read by read runs the commands of the stream in one piece |
| `RespConn.WriteBulkArray` | f1srv/conn.go:450-482 | one exact buffer filled in place holds what a header and a writeBulk loop append |
| `RespConn.Declen` | f1srv/conn.go:486-496 | the width of the decimal text |
| `RespConn.PutDecimal` | f1srv/conn.go:500-511 | the decimal text is written at the offset and nothing before it changes |
| `WatchRuns.Run` | f1srv/multi.go:28-241 | every run of any number of connections answers as a reference that has no versions or counters but remembers each watch's moment and every write since; `WatchLaws` says of that reference when EXEC runs |
| `WatchLaws.WrittenStops` | f1srv/multi.go:227-248 | over every run, a key watched and then flushed or written before EXEC: the queue does not run |
| `WatchLaws.SparedRuns` | f1srv/multi.go:227-248 | since a connection watched nothing, only writes that name none of its keys: EXEC does not reply nil |
| `WatchLaws.WatchStays` | f1srv/multi.go:181-203 | a watch stays as it was first placed until its connection lets go |
| `WatchLaws.WatchHolds` | f1srv/multi.go:112-127 | WATCH takes hold of all its keys |
| `WatchLaws.LetGo` | f1srv/multi.go:87-154 | EXEC, DISCARD, UNWATCH, RESET and closing let go of all |
| `WatchLaws.QueueIs` | f1srv/multi.go:156-179 | over every run, between MULTI and EXEC the queue is the known commands sent, in order, and the transaction is spoilt just when an unknown one was among them |
| `WatchLaws.ExecRuns` | f1srv/multi.go:47-85 | EXEC runs exactly the commands queued since MULTI, in order, or replies nil; of a spoilt transaction it runs none |
| `WatchLaws.FlushedBetween` | f1srv/multi.go:365-372 | WATCH, MULTI, a command, FLUSHALL by another, EXEC: nil |
| `WatchRuns.CommitStep` | f1srv/multi.go:47-83 | EXEC and its queue's writes: the reference's outcome |
| `Watch.Watches.Exec` | f1srv/multi.go:47-83 | the queue runs if and only if it is whole and no watched key was written since it was watched, whoever else watched or unwatched it meanwhile |
| `Watch.Watches.WatchKey` | f1srv/multi.go:181-200 | a first watch is snapshotted and counted, a repeated one keeps its first moment |
| `Watch.Watches.WatchKeys` | f1srv/multi.go:112-125 | WATCH marks exactly the named keys, or is refused inside MULTI |
| `Watch.Watches.UnwatchAll` | f1srv/multi.go:205-222 | exactly this connection's watches go, entries with their last watcher |
| `Watch.Watches.WatchDirty` | f1srv/multi.go:227-241 | dirty exactly when some watched key was written since |
| `Watch.Watches.Write` | f1srv/multi.go:250-261 | a write bumps the keys it names, behind a gate that is sound |
| `Watch.Watches.Flush` | f1srv/multi.go:365-372 | a flush is logged as a write of every key, and every watch placed before it is spoilt: see `WatchLaws.WrittenStops` |
| `Watch.EntryHeld` | f1srv/multi.go:181-222 | an entry exists exactly while some connection watches the key |
| `Watch.SnapshotsRelease` | f1srv/multi.go:205-222 | one connection leaving a key costs no other watcher its snapshot |
| `Watch.BumpKeeps` | f1srv/multi.go:354-372 | a write leaves every snapshot true: behind the table exactly when its key was written since |
| `Geo.InterleaveIs` | f1srv/geo.go:124-140 | interleave64 puts bit i of one word at 2i and of the other at 2i + 1 |
| `Geo.DeinterleaveIs` | f1srv/geo.go:143-161 | deinterleave64 gathers the even and the odd bits |
| `Geo.InterleaveInverse` | f1srv/geo.go:124-161 | deinterleaving undoes interleaving on all 32-bit pairs |
| `Geo.DeinterleaveInverse` | f1srv/geo.go:124-161 | interleaving undoes deinterleaving on all 64-bit words |
| `GeoCells.InterleaveIsMorton` | f1srv/geo.go:124-140 | the bit tricks compute the arithmetic Morton code |
| `GeoCells.MovedIs` | f1srv/geo.go:252-284 | a move by one changes exactly one coordinate by one modulo 2^step, at every precision up to 32, through the carry and borrow arithmetic |
| `GeoCells.MovesCancel` | f1srv/geo.go:252-284 | opposite moves cancel |
| `GeoCells.Neighbors` | f1srv/geo.go:286-320 | the eight neighbours are the eight adjacent cells of the torus |
| `GeoCells.BoxIs` | f1srv/geo.go:468-473 | a 52-bit score lies in the box if and only if its top 2 * step bits are the cell |

## Left out

- The storage engine (arena, cold tier, migration, ordered index): a map and an ordered key set that refuse nothing but keys and values over 65535 bytes and the empty key; no errors of capacity.
- Goroutine interleavings inside one command or one window operation; blocking commands, wake-ups and timeouts.
- The window registry's map and live counter: whether there is room for another window is a parameter.
- 64-bit wrap-around of list positions and of watch versions, which would take 2^63 steps; `ListCells.PosExact` and what builds on it is about lists whose positions are int64s.
- How the two signature bytes and the 64-bit element hash are mixed: the ring and the sketches are proved for every such function.
- LSET, LTRIM, LINDEX, LMPOP, wrong-type replies of the list commands, and RENAME, COPY and SORT of lists.
- ListCommands.Run: keys are those of 1 to 65524 bytes, under which the store takes header and element rows (`RowKeys.NamedIs`); search targets are non-empty and LREM counts above -2^63; `ListSeen`, `HotList.HotList.LRem` and `ListRemoval.LeastCountExact` say exactly what the others do.
- Floating point: the HyperLogLog estimator is a function of the histogram, the percentile is an integer rank, and the logarithms that size a histogram are the exact magnitudes they stand for; haversine distances and bounding boxes are not modelled.
- Hdr.NewShape: a lowest trackable value above 2^44 is not covered, because the size of the first bucket must fit an int64.
- HllUnion.RegHisto: a two-byte opcode cut off after its first byte is outside the model.
- HllCommands.Keyspace.Run: strings that carry the HyperLogLog tag but do not decode to 16384 registers, and the corrupted-object reply they get, are not among the states.
- Rdb.ReadStr: the compressed form is not read, since no dump writes it.
- Dump.LoadValue: a declared count so large that the slice for it cannot be allocated panics in the program and is None here.
- StreamNode.ParseNode: the same of a declared field count.
- Dump.Load: intsets, old and listpack sorted sets and the other types only foreign dumps carry; values are of sizes a Go slice can have, and list elements shorter than 2^32 bytes.
- StreamWalk.LoadStream: stream types 15, 19, 26 and 27; RESTORE's writing of the loaded value.
- The batches in which scans and drains fetch rows, reused scratch buffers, and the coalescing decisions of drain; the deferred removal of index entries in HDEL happens with the row.
- HINCRBY, HINCRBYFLOAT, HSCAN, HRANDFIELD, HSTRLEN, glob matching, and the rounding between seconds and milliseconds in HTTL and HEXPIRE.
- HashStore.Rows.HSet: commands while a header is behind are not steps of a run; HGET, HEXISTS, HDEL, HLEN and HGETALL of that hash are modelled then, the others are not.
- HashCommands.Exec: DEL is the drop of a hash; DEL and SET of a string key, key-level expiry and writes that turn a hash into another type without dropping it are not steps.
- HashRename.Rename: commands after one that has parted a hash from its header are not steps of a run; RENAME and COPY of sets, sorted sets, lists and streams, and the key's own deadline.
- RespConn.Conn.DrainBuffer: what a command does when it runs, output flushing and the size limit of the buffer; a push, a pop or a delete runs only after the command behind it has been parsed, so that one right before a length that brings the server down is never run, though the model counts it as run.
- Watch.Watches.Write: which keys a command names as written is a parameter, as are the writes of a transaction's queue.
- Lcs.Backtrack: the output string grows at the front instead of being filled into a buffer of the final length.
- FLUSHALL's effect on the counters of other types, set partitions, pub/sub, and the command tables, INFO, CONFIG, CLIENT, CLUSTER, MEMORY and OBJECT replies.
