/** One list key as the server tells it apart from a plain deque: besides the elements, where the first of them
    sits, whether a window is resident, which bounds the header row has, which rows lie about that no live element
    reads, and how far the running size is ahead of the elements.  The commands are those of the plain deque
    except where these show through to a client (f1srv/list.go). */
module ListCells {
  import opened Bytes
  import opened ListSize
  import opened ListSpec
  import opened ListPushes
  import opened Pipeline
  import opened RowStore
  import opened Scan

  /** `row` holds the bounds in the header row, whose existence is all that a type probe looks at and which are
      stale while a window is resident; `rest` are the rows at positions whose element is not read from a row. */
  datatype Cell = Cell(d: Deque, head: int, hot: bool, row: Option<(int, int)>, rest: Strays, over: int)

  function Gone(rest: Strays): (c: Cell)
  {
    Cell(Missing, 0, false, None, rest, 0)
  }

  /** A resident list is not empty.  A cold one has a header row with its bounds exactly while it is not empty,
      reads every element from a row, and holds none that the store refuses. */
  ghost predicate Coherent(c: Cell)
  {
    && Stored(c.rest)
    && (c.d.elems == [] ==> c == Gone(c.rest))
    && (!c.hot && c.d.elems != [] ==> c.row == Some((c.head, c.head + |c.d.elems|)) && AllFit(c.d.elems))
    && (!c.hot ==> Outside(c.rest, c.head, c.head + |c.d.elems|) == c.rest)
    && c.over >= 0 && (c.over > 0 || ListBytes(c.d.elems) > LISTPACK_MAX_BYTES ==> c.d.large)
  }

  /** A resident list that a type probe takes for a missing key. */
  predicate Unlisted(c: Cell)
  {
    c.hot && c.row.None?
  }

  /** What a row write of these elements leaves to be read: where the store refuses one, the row that was there. */
  function Written(s: seq<Bytes>, rest: Strays, head: int): (t: seq<Bytes>)
    ensures |t| == |s|
    ensures forall i :: 0 <= i < |s| ==> t[i] == if Fits(s[i]) then s[i] else Read(rest, head + i)
  {
    seq(|s|, i requires 0 <= i < |s| => if Fits(s[i]) then s[i] else Read(rest, head + i))
  }

  /** The list on rows alone, without the elements the store refuses. */
  function Retired(c: Cell): (c': Cell)
  {
    if !c.hot then c
    else
      var s, tail := c.d.elems, c.head + |c.d.elems|;
      var t := Written(s, c.rest, c.head);
      Cell(c.d.(elems := t), c.head, false, Some((c.head, tail)), Outside(c.rest, c.head, tail), c.over + ListBytes(s) - ListBytes(t))
  }

  /** A list cut down to these elements; an emptied one is gone. */
  function Shrunk(c: Cell, d: Deque, head: int): (c': Cell)
  {
    if d.elems == [] then Gone(c.rest)
    else c.(d := d, head := head, row := if c.hot then c.row else Some((head, head + |d.elems|)))
  }

  /** The bounds a push body starts from. */
  function Bounds(row: Option<(int, int)>): (b: (int, int))
  {
    match row case None => (0, 0) case Some(b) => b
  }

  /** A run put at an end of the deque; whatever lay on its positions is read no more. */
  function Grown(c: Cell, run: seq<Bytes>, atHead: bool, hot: bool): (c': Cell)
  {
    var head := if atHead then c.head - |run| else c.head;
    var tail := head + |c.d.elems| + |run|;
    Cell(Edited(c.d, Pushed(c.d.elems, run, atHead)), head, c.hot || hot,
         if c.hot then c.row else Some((head, tail)), if c.hot then c.rest else Outside(c.rest, head, tail), c.over)
  }

  /** A run of which the store took the first few and which no header row counts. */
  function Strewn(c: Cell, run: seq<Bytes>, atHead: bool): (c': Cell)
  {
    var (head, tail) := Bounds(c.row);
    c.(rest := Lay(c.rest, run, head, tail, atHead))
  }

  /** LPUSH, RPUSH and their X forms, one command on its own (cmdPush): a resident window takes a run it can hold;
      any other goes row by row from the header row's bounds and ends at the first refused element. */
  function PushIn(c: Cell, run: seq<Bytes>, atHead: bool, requireExisting: bool, room: bool): (r: (Cell, Reply))
  {
    if c.hot && AllFit(run) then (Grown(c, run, atHead, true), Number(|c.d.elems| + |run|))
    else if requireExisting && c.row.None? then (c, Number(0))
    else if !AllFit(run) then (Strewn(c, run[..Landed(run)], atHead), Refused)
    else (Grown(c, run, atHead, c.row.Some? && room), Number(|c.d.elems| + |run|))
  }

  /** The replies to a pipeline of which the first k elements landed. */
  function CutReplies(base: int, bnd: seq<int>, k: nat): (rs: seq<Reply>)
    ensures |rs| == |bnd|
    ensures forall i :: 0 <= i < |bnd| ==> rs[i] == if bnd[i] <= k then Number(base + bnd[i]) else Refused
  {
    seq(|bnd|, i requires 0 <= i < |bnd| => if bnd[i] <= k then Number(base + bnd[i]) else Refused)
  }

  /** The header row after a stopped pipeline on a resident list: moved as if the elements had joined the list. */
  function Recounted(row: Option<(int, int)>, k: nat, atHead: bool): (row': Option<(int, int)>)
  {
    var (head, tail) := Bounds(row);
    if row.None? && k == 0 then None else Some(if atHead then (head - k, tail) else (head, tail + k))
  }

  /** The same for the pushes of one pipeline, folded (cmdPushCoalesced): a refused element ends the whole run, but
      the header row counts those before it. */
  function PipeIn(c: Cell, elems: seq<Bytes>, bnd: seq<int>, atHead: bool, requireExisting: bool, room: bool): (r: (Cell, seq<Reply>))
    ensures |r.1| == |bnd|
  {
    var (head, tail) := Bounds(c.row);
    var k := Landed(elems);
    if c.hot && AllFit(elems) then (Grown(c, elems, atHead, true), Lengths(|c.d.elems|, bnd, |bnd|))
    else if requireExisting && c.row.None? then (c, Zeros(|bnd|))
    else if AllFit(elems) then (Grown(c, elems, atHead, c.row.Some? && room), Lengths(tail - head, bnd, |bnd|))
    else if c.hot then (Strewn(c, elems[..k], atHead).(row := Recounted(c.row, k, atHead)), CutReplies(tail - head, bnd, k))
    else (if k == 0 then c else Grown(c, elems[..k], atHead, false), CutReplies(tail - head, bnd, k))
  }

  /** How many elements a pop asks for. */
  function Wanting(count: Option<nat>): (n: nat)
  {
    match count case None => 1 case Some(k) => k
  }

  /** The window takes a pop that leaves the list alive. */
  predicate WindowPops(c: Cell, count: Option<nat>)
  {
    c.hot && 0 < Wanting(count) < |c.d.elems|
  }

  function Popped(c: Cell, atHead: bool, count: Option<nat>): (r: (Cell, Reply))
  {
    var (d, reply) := Pop(c.d, atHead, count);
    (Shrunk(c, d, if atHead then c.head + |c.d.elems| - |d.elems| else c.head), reply)
  }

  /** A pop that leaves the list alive. */
  lemma PoppedIs(c: Cell, atHead: bool, count: Option<nat>)
    requires c.hot && 0 < Wanting(count) < |c.d.elems|
    ensures var n, s := Wanting(count), c.d.elems;
            Popped(c, atHead, count) ==
            (c.(d := Edited(c.d, Left(s, atHead, n)), head := c.head + if atHead then n else 0),
             if count.None? then Bulk(Taken(s, atHead, 1)[0]) else Array(Taken(s, atHead, n)))
  {
  }

  lemma TakenOne(s: seq<Bytes>, atHead: bool)
    requires s != []
    ensures Taken(s, atHead, 1) == [EndOf(s, atHead)]
  {
  }

  /** An element popped and pushed back. */
  lemma PutBack(c: Cell, atHead: bool)
    requires c.hot && |c.d.elems| > 1 && (ListBytes(c.d.elems) > LISTPACK_MAX_BYTES ==> c.d.large)
    ensures var s := c.d.elems;
            var c' := c.(d := Edited(c.d, Left(s, atHead, 1)), head := c.head + if atHead then 1 else 0);
            Grown(c', [EndOf(s, atHead)], atHead, true) == c
  {
    hide ListBytes, Left, Pushed;
    PushedBack(c.d.elems, atHead);
    SizeOfLeft(c.d.elems, atHead, 1);
  }

  lemma PushedBack(s: seq<Bytes>, atHead: bool)
    requires s != []
    ensures Pushed(Left(s, atHead, 1), [EndOf(s, atHead)], atHead) == s
  {
    var e := EndOf(s, atHead);
    assert Reverse([e]) == [e];
  }

  /** LPOP and RPOP: what the window declines goes by the header row. */
  function PopIn(c: Cell, atHead: bool, count: Option<nat>): (r: (Cell, Reply))
  {
    if WindowPops(c, count) then Popped(c, atHead, count)
    else if c.row.None? then (c, if count.None? then Nil else NilArray)
    else Popped(Retired(c), atHead, count)
  }

  /** The head after an insert at index i of n elements: the shorter side moves. */
  function InsertedHead(head: int, n: int, i: int): (h: int)
  {
    if i <= n - i then head - 1 else head
  }

  function InsertedAt(s: seq<Bytes>, i: int, v: Bytes): (t: seq<Bytes>)
    requires 0 <= i <= |s|
  {
    s[..i] + [v] + s[i..]
  }

  /** What an insert among rows leaves to be read at index i of n: a refused value leaves the gap that the shift
      opened or, at an end, the row that was there. */
  function Filled(rest: Strays, head: int, n: int, i: int, val: Bytes): (v: Bytes)
    ensures Stored(rest) ==> Fits(v)
  {
    if Fits(val) then val else if i == 0 then Read(rest, head - 1) else if i == n then Read(rest, head + n) else []
  }

  /** An insert among rows; the header row counts the value whether the store took it or not. */
  function InsertRows(c: Cell, i: int, val: Bytes): (c': Cell)
    requires 0 <= i <= |c.d.elems|
  {
    var n, v := |c.d.elems|, Filled(c.rest, c.head, |c.d.elems|, i, val);
    var head, t := InsertedHead(c.head, n, i), InsertedAt(c.d.elems, i, v);
    Cell(Deque(t, c.d.large || ListBytes(InsertedAt(c.d.elems, i, val)) > LISTPACK_MAX_BYTES), head, false, Some((head, head + n + 1)),
         Outside(c.rest, head, head + n + 1), c.over + EntryBytes([val]) - EntryBytes([v]))
  }

  function InsertIn(c: Cell, pivot: Option<nat>, val: Bytes, before: bool): (r: (Cell, Reply))
    requires pivot.Some? ==> pivot.value < |c.d.elems|
  {
    var (d, reply) := Insert(c.d, pivot, val, before);
    match pivot
    case None => (c, reply)
    case Some(k) =>
      var i := if before then k else k + 1;
      (if c.hot then c.(d := d, head := InsertedHead(c.head, |c.d.elems|, i)) else InsertRows(c, i, val), reply)
  }

  function RemIn(c: Cell, kept: seq<Bytes>): (r: (Cell, Reply))
  {
    var (d, reply) := Rem(c.d, kept);
    (Shrunk(c, d, c.head), reply)
  }

  /** The window gives up one element: the list stays alive and the element is not too long. */
  predicate Fast(c: Cell, fromHead: bool)
  {
    c.hot && |c.d.elems| > 1 && |EndOf(c.d.elems, fromHead)| <= LIST_ELEM_FAST_MAX
  }

  /** The row path of a move: the element taken off one list, and pushed onto another. */
  function PushAfter(popped: Reply, dst: Cell, toHead: bool): (r: (Cell, Reply))
  {
    if popped.Bulk? then
      var (dst', reply) := PushIn(dst, [popped.v], toHead, false, false);
      (dst', if reply.Refused? then reply else popped)
    else (dst, popped)
  }

  /** A rotation turns in the window, or goes over rows when the window does not give the element up. */
  function RotateIn(c: Cell, fromHead: bool, toHead: bool): (r: (Cell, Reply))
  {
    var (c', reply) := Popped(if Fast(c, fromHead) then c else Retired(c), fromHead, None);
    PushAfter(reply, c', toHead)
  }

  /** A destination made resident on the spot, its header row as it was. */
  function Admitted(c: Cell, v: Bytes, toHead: bool): (c': Cell)
  {
    c.(d := Edited(c.d, Pushed(c.d.elems, [v], toHead)), head := if toHead then c.head - 1 else c.head, hot := true)
  }

  /** LMOVE: through the windows, or over rows when the source's does not give the element up. */
  function MoveIn(src: Cell, dst: Cell, fromHead: bool, toHead: bool): (r: (Cell, Cell, Reply))
  {
    if Fast(src, fromHead) then
      var (src', reply) := Popped(src, fromHead, None);
      (src', if reply.Bulk? then Admitted(dst, reply.v, toHead) else dst, reply)
    else
      var (src', popped) := Popped(Retired(src), fromHead, None);
      var (dst', reply) := PushAfter(popped, if popped.Bulk? then Retired(dst) else dst, toHead);
      (src', dst', reply)
  }

  /** One command on one key. */
  function ActOn(c: Cell, m: Command): (r: (Cell, Reply))
    requires Sendable(m)
  {
    match m
    case PushC(run, atHead, requireExisting, room) => PushIn(c, run, atHead, requireExisting, room)
    case PipeC(elems, bnd, atHead, requireExisting, room) =>
      var (c', rs) := PipeIn(c, elems, bnd, atHead, requireExisting, room);
      (c', Several(rs))
    case PopC(fromHead, count) => PopIn(c, fromHead, count)
    case RangeC(start, stop) => (c, LRange(c.d, start, stop))
    case PosC(target, rank, limit, maxlen) => (c, PosAt(c.d.elems, c.head, target, rank, limit, maxlen))
    case InsertC(pivot, val, before) => InsertIn(c, FirstIndex(c.d.elems, pivot), val, before)
    case RemC(victim, howMany) => RemIn(c, Removed(c.d.elems, victim, howMany))
    case RotateC(from, to) => RotateIn(c, from, to)
    case Retire => (Retired(c), Nil)
  }

  /** Positions are int64s. */
  predicate Placed(c: Cell)
  {
    INT64_MIN <= c.head <= c.head + |c.d.elems| <= INT64_MAX
  }

  /** A push of which the store refuses something, unless it asks for a list that is not there. */
  predicate Stopped(c: Cell, run: seq<Bytes>, requireExisting: bool)
  {
    !AllFit(run) && !(requireExisting && c.d.elems == [])
  }

  /** Where a command does not answer as on the plain deque: a push or a row insert of a value that the store
      refuses, whatever retires a window that holds one, a pop that the window declines on a key without a header
      row, and a search whose limit overruns the int64s though it has something to report. */
  predicate Odd(c: Cell, m: Command)
    requires Sendable(m)
  {
    match m
    case PushC(run, _, requireExisting, _) => Stopped(c, run, requireExisting)
    case PipeC(elems, _, _, requireExisting, _) => Stopped(c, elems, requireExisting)
    case PopC(_, count) => !WindowPops(c, count) && (Unlisted(c) || !AllFit(c.d.elems))
    case PosC(target, rank, _, maxlen) => Overruns(c.head, |c.d.elems|, rank < 0, maxlen) && Occurs(c.d.elems, target) > Skipped(rank)
    case InsertC(pivot, val, _) => !c.hot && pivot in c.d.elems && !Fits(val)
    case RotateC(from, _) => !Fast(c, from) && !AllFit(c.d.elems)
    case Retire => !AllFit(c.d.elems)
    case _ => false
  }

  /** A move over rows that retires a window with a value the store refuses. */
  predicate OddMove(src: Cell, dst: Cell, fromHead: bool)
  {
    !Fast(src, fromHead) && (!AllFit(src.d.elems) || (src.d.elems != [] && !AllFit(dst.d.elems)))
  }

  /** An entry the store refuses is longer than any it takes, and past the budget alone. */
  lemma LongEntry(v: Bytes, e: Bytes)
    requires !Fits(v)
    ensures EntryBytes([v]) > LISTPACK_MAX_BYTES
    ensures Fits(e) ==> EntryBytes([v]) > EntryBytes([e])
  {
    EntryBytesOfOne(v);
    EntryBytesOfOne(e);
  }

  /** Retirement never adds to the elements, and a list with a refused element is past the budget. */
  lemma {:induction false} WrittenSize(s: seq<Bytes>, rest: Strays, head: int)
    requires Stored(rest)
    ensures EntryBytes(Written(s, rest, head)) <= EntryBytes(s)
    ensures !AllFit(s) ==> EntryBytes(s) > LISTPACK_MAX_BYTES
    decreases |s|
  {
    hide EntryBytes, Fits;
    if s != [] {
      var k := |s| - 1;
      var t := Written(s, rest, head);
      WrittenSize(s[..k], rest, head);
      assert s == s[..k] + [s[k]] && t == Written(s[..k], rest, head) + [t[k]];
      ListBytesConcat(s[..k], [s[k]]);
      ListBytesConcat(t[..k], [t[k]]);
      EntriesAtLeast(s[..k]);
      EntriesAtLeast([s[k]]);
      if !Fits(s[k]) {
        LongEntry(s[k], t[k]);
      }
    }
  }

  lemma EntriesAtLeast(s: seq<Bytes>)
    ensures EntryBytes(s) >= 0
  {
    EntryBytesNonNegative(s, |s|);
  }

  lemma WrittenWhole(s: seq<Bytes>, rest: Strays, head: int)
    requires Stored(rest)
    ensures AllFit(Written(s, rest, head))
    ensures Written(s, rest, head) == s <==> AllFit(s)
  {
    hide Fits;
    var t := Written(s, rest, head);
    forall v | v in t ensures Fits(v) {
    }
    if AllFit(s) {
      assert t == s;
    }
  }

  /** Retiring a window leaves the list as it was if and only if the store takes every element. */
  lemma RetiredExact(c: Cell)
    requires Coherent(c)
    ensures Retired(c).d == c.d <==> AllFit(c.d.elems)
    ensures Coherent(Retired(c)) && !Retired(c).hot && |Retired(c).d.elems| == |c.d.elems|
    ensures Retired(c).d.large == c.d.large && Retired(c).head == c.head
  {
    hide EntryBytes, Fits;
    var s := c.d.elems;
    WrittenWhole(s, c.rest, c.head);
    WrittenSize(s, c.rest, c.head);
  }

  /** ... and then its size stays where it was. */
  lemma RetiredSize(c: Cell)
    requires Coherent(c) && AllFit(c.d.elems)
    ensures Retired(c).over == c.over
  {
    hide ListBytes, Fits;
    WrittenWhole(c.d.elems, c.rest, c.head);
  }

  /** What a pop takes and what it leaves settle the list. */
  lemma PopSettles(d: Deque, e: Deque, atHead: bool, count: Option<nat>)
    requires |d.elems| == |e.elems| && Pop(d, atHead, count) == Pop(e, atHead, count)
    ensures d.elems == e.elems
  {
    hide ListBytes;
    var s, t := d.elems, e.elems;
    if s != [] {
      var n := Min(Wanting(count), |s|);
      assert Left(s, atHead, n) == Left(t, atHead, n);
      assert Taken(s, atHead, n) == Taken(t, atHead, n) by {
        TakenOne(s, atHead);
        TakenOne(t, atHead);
      }
      TakenSettles(s, t, atHead, n);
    }
  }

  lemma ReverseSettles(a: seq<Bytes>, b: seq<Bytes>)
    requires Reverse(a) == Reverse(b)
    ensures a == b
  {
    hide Reverse;
    assert |a| == |Reverse(a)| == |Reverse(b)| == |b|;
    forall i | 0 <= i < |a| ensures a[i] == b[i] {
      var j := |a| - 1 - i;
      assert a[i] == Reverse(a)[j] && b[i] == Reverse(b)[j];
    }
  }

  lemma TakenSettles(s: seq<Bytes>, t: seq<Bytes>, atHead: bool, n: int)
    requires |s| == |t| && 0 <= n <= |s| && Left(s, atHead, n) == Left(t, atHead, n) && Taken(s, atHead, n) == Taken(t, atHead, n)
    ensures s == t
  {
    hide Reverse;
    var k := |s| - n;
    if atHead {
      assert s == s[..n] + s[n..] && t == t[..n] + t[n..];
    } else {
      ReverseSettles(s[k..], t[k..]);
      assert s == s[..k] + s[k..] && t == t[..k] + t[k..];
    }
  }

  /** A pop answers as on the plain deque if and only if the window takes it, or no refused element is in the way
      and the key is listed or not hot. */
  lemma PopExact(c: Cell, atHead: bool, count: Option<nat>)
    requires Coherent(c)
    ensures (PopIn(c, atHead, count).0.d, PopIn(c, atHead, count).1) == Pop(c.d, atHead, count)
       <==> WindowPops(c, count) || (!Unlisted(c) && AllFit(c.d.elems))
  {
    hide ListBytes, Fits, Retired, Written, Taken, Left;
    RetiredExact(c);
    if !WindowPops(c, count) && c.row.Some? && !AllFit(c.d.elems) && Pop(Retired(c).d, atHead, count) == Pop(c.d, atHead, count) {
      PopSettles(Retired(c).d, c.d, atHead, count);
    }
  }

  /** A search reports something if and only if there are more matches than it passes over. */
  lemma ReportsAny<T>(s: seq<T>, target: T, backward: bool, skip: nat, want: int)
    ensures Scanned(s, target, backward, skip, want, 0, |s|) == [] <==> Occurs(s, target) <= skip
  {
    hide ScanUp, ScanDown, Matches, AllHits;
    var c, hits := Collector(0, skip, want, [], false), Matches(s, target);
    assert s[0..|s|] == s;
    ScanUpReports(hits, 0, c);
    ScanDownReports(hits, 0, c);
    OccursHits(s, target, 0);
  }

  lemma {:induction false} OccursHits<T>(s: seq<T>, target: T, from: int)
    ensures |AllHits(Matches(s, target), from)| == Occurs(s, target)
    decreases |s|
  {
    if s != [] {
      OccursHits(s[1..], target, from + 1);
      assert Matches(s, target)[1..] == Matches(s[1..], target);
    }
  }

  /** LPOS answers as on the plain deque if and only if its limit stays within the int64s or there is nothing to
      report. */
  lemma PosExact(c: Cell, target: Bytes, rank: int, limit: Option<nat>, maxlen: nat)
    requires Placed(c) && rank != 0 && maxlen <= INT64_MAX
    ensures PosAt(c.d.elems, c.head, target, rank, limit, maxlen) == Pos(c.d.elems, target, rank, limit, maxlen)
       <==> !Overruns(c.head, |c.d.elems|, rank < 0, maxlen) || Occurs(c.d.elems, target) <= Skipped(rank)
  {
    hide Examined, Limited, Overruns, Scanned;
    var s := c.d.elems;
    ExaminedIs(c.head, |s|, rank < 0, maxlen);
    if Overruns(c.head, |s|, rank < 0, maxlen) {
      var want := if limit.Some? then limit.value else -1;
      ReportsAny(s, target, rank < 0, Skipped(rank), want);
      assert Scanned(s, target, rank < 0, Skipped(rank), want, 0, 0) == [] by { ScannedNone(s, target, rank < 0, Skipped(rank), want); }
    }
  }

  lemma ScannedNone<T>(s: seq<T>, target: T, backward: bool, skip: int, want: int)
    ensures Scanned(s, target, backward, skip, want, 0, 0) == []
  {
  }

  /** A push answers as on the plain deque if and only if the store takes all of it, or the list it asks for is
      missing; a refused one leaves the list as it was. */
  lemma PushExact(c: Cell, run: seq<Bytes>, atHead: bool, requireExisting: bool, room: bool)
    requires Coherent(c) && run != []
    ensures var (c', reply) := PushIn(c, run, atHead, requireExisting, room);
            && ((c'.d, reply) == Push(c.d, run, atHead, requireExisting) <==> !Stopped(c, run, requireExisting))
            && (Stopped(c, run, requireExisting) ==>
                  c'.d == c.d && reply == if requireExisting && c.row.None? then Number(0) else Refused)
  {
    hide ListBytes, Fits, Lay, Reverse;
    PushedLength(c.d.elems, run, atHead);
  }

  /** A folded pipeline answers as the pushes on the plain deque if and only if the same holds of all its elements. */
  lemma PipePlain(c: Cell, elems: seq<Bytes>, bnd: seq<int>, atHead: bool, requireExisting: bool, room: bool)
    requires Coherent(c) && Boundaries(bnd, |elems|)
    ensures var (c', rs) := PipeIn(c, elems, bnd, atHead, requireExisting, room);
            (c'.d, rs) == PushEach(c.d, elems, bnd, |bnd|, atHead, requireExisting) <==> !Stopped(c, elems, requireExisting)
  {
    hide ListBytes, Fits, Lay, Pushed, PushEach, Lengths, Zeros, CutReplies;
    PushEachIsOne(c.d, elems, bnd, |bnd|, atHead, requireExisting);
    assert elems[..|elems|] == elems && |elems| > 0;
    PushedLength(c.d.elems, elems, atHead);
    PushedLength(c.d.elems, elems[..Landed(elems)], atHead);
  }

  /** LINSERT among rows is the deque's if and only if the store takes the value. */
  lemma InsertExact(c: Cell, i: int, val: Bytes)
    requires Coherent(c) && 0 <= i <= |c.d.elems|
    ensures InsertRows(c, i, val).d == Edited(c.d, InsertedAt(c.d.elems, i, val)) <==> Fits(val)
  {
    var v := Filled(c.rest, c.head, |c.d.elems|, i, val);
    assert Fits(v);
    assert Fits(val) ==> v == val;
    hide Fits, ListBytes, Filled;
    var s := c.d.elems;
    assert InsertedAt(s, i, v)[i] == v && InsertedAt(s, i, val)[i] == val;
  }

  lemma AllFitInserted(s: seq<Bytes>, i: int, v: Bytes)
    requires AllFit(s) && 0 <= i <= |s| && Fits(v)
    ensures AllFit(InsertedAt(s, i, v))
  {
    hide Fits;
  }

  lemma OutsideTwice(rest: Strays, a: int, b: int)
    ensures Outside(Outside(rest, a, b), a, b) == Outside(rest, a, b)
  {
  }

  lemma InsertCoherent(c: Cell, i: int, val: Bytes)
    requires Coherent(c) && !c.hot && c.d.elems != [] && 0 <= i <= |c.d.elems|
    ensures Coherent(InsertRows(c, i, val))
  {
    var s, n := c.d.elems, |c.d.elems|;
    var v, head := Filled(c.rest, c.head, n, i, val), InsertedHead(c.head, n, i);
    assert Fits(v);
    assert v == val || !Fits(val);
    hide Fits, ListBytes, Filled, Outside, EntryBytes;
    InsertedSize(s, i, val);
    InsertedSize(s, i, v);
    AllFitInserted(s, i, v);
    OutsideTwice(c.rest, head, head + n + 1);
    SizeAtLeast(s);
    if !Fits(val) {
      LongEntry(val, v);
    }
  }

  lemma SizeAtLeast(s: seq<Bytes>)
    ensures ListBytes(s) >= 0
  {
    EntriesAtLeast(s);
  }

  lemma InsertedSize(s: seq<Bytes>, i: int, v: Bytes)
    requires 0 <= i <= |s|
    ensures ListBytes(InsertedAt(s, i, v)) == ListBytes(s) + EntryBytes([v])
  {
    assert s == s[..i] + s[i..];
    ListBytesConcat(s[..i], s[i..]);
    ListBytesConcat(s[..i] + [v], s[i..]);
    ListBytesConcat(s[..i], [v]);
  }

  /** What a pop takes off a list that lives in rows, or off a window that gives it up, fits a row. */
  lemma PoppedFits(c: Cell, fromHead: bool)
    requires Coherent(c) && (c.hot ==> Fast(c, fromHead))
    ensures var popped := Popped(c, fromHead, None).1; popped.Bulk? ==> Fits(popped.v)
  {
    if c.d.elems != [] {
      TakenOne(c.d.elems, fromHead);
      assert EndOf(c.d.elems, fromHead) in c.d.elems;
    }
  }

  /** Such an element lands. */
  lemma AfterFits(popped: Reply, dst: Cell, toHead: bool)
    requires Coherent(dst) && (popped.Bulk? ==> Fits(popped.v))
    ensures var (dst', reply) := PushAfter(popped, dst, toHead);
            reply == popped && dst'.d == if popped.Bulk? then Push(dst.d, [popped.v], toHead, false).0 else dst.d
  {
    hide ListBytes, Fits, Reverse, Outside;
    if popped.Bulk? {
      var run := [popped.v];
      assert AllFit(run);
      PushedLength(dst.d.elems, run, toHead);
    }
  }

  lemma RotateSettles(d: Deque, e: Deque, fromHead: bool, toHead: bool)
    requires |d.elems| == |e.elems| && Rotate(d, fromHead, toHead) == Rotate(e, fromHead, toHead)
    ensures d.elems == e.elems
  {
    hide ListBytes;
    var s, t := d.elems, e.elems;
    if s != [] {
      TakenOne(s, fromHead);
      TakenOne(t, fromHead);
      PushedSettles(Left(s, fromHead, 1), Left(t, fromHead, 1), EndOf(s, fromHead), toHead);
      TakenSettles(s, t, fromHead, 1);
    }
  }

  lemma PushedSettles(s: seq<Bytes>, t: seq<Bytes>, v: Bytes, atHead: bool)
    requires Pushed(s, [v], atHead) == Pushed(t, [v], atHead)
    ensures s == t
  {
    assert Reverse([v]) == [v];
    if atHead {
      assert s == ([v] + s)[1..] && t == ([v] + t)[1..];
    } else {
      assert s == (s + [v])[..|s|] && t == (t + [v])[..|t|];
    }
  }

  /** A rotation is the deque's if and only if the window gives the element up or holds none that the store
      refuses. */
  lemma RotateExact(c: Cell, fromHead: bool, toHead: bool)
    requires Coherent(c)
    ensures (RotateIn(c, fromHead, toHead).0.d, RotateIn(c, fromHead, toHead).1) == Rotate(c.d, fromHead, toHead)
       <==> Fast(c, fromHead) || AllFit(c.d.elems)
  {
    hide ListBytes, Fits, Retired, Written, Popped, PushAfter, Push, Pop, Fast;
    var from := if Fast(c, fromHead) then c else Retired(c);
    RetiredExact(c);
    PoppedFits(from, fromHead);
    PoppedCoherent(from, fromHead, None);
    PoppedIsPop(from, fromHead, None);
    var (c', popped) := Popped(from, fromHead, None);
    AfterFits(popped, c', toHead);
    if Rotate(from.d, fromHead, toHead) == Rotate(c.d, fromHead, toHead) {
      RotateSettles(from.d, c.d, fromHead, toHead);
    }
  }

  lemma PoppedIsPop(c: Cell, atHead: bool, count: Option<nat>)
    requires Coherent(c)
    ensures (Popped(c, atHead, count).0.d, Popped(c, atHead, count).1) == Pop(c.d, atHead, count)
  {
    hide ListBytes, Taken;
  }

  /** A command answers as on the plain deque if and only if it is not an odd one. */
  lemma ActExact(c: Cell, m: Command)
    requires Coherent(c) && Placed(c) && Sendable(m)
    ensures (ActOn(c, m).0.d, ActOn(c, m).1) == Apply(c.d, m) <==> !Odd(c, m)
  {
    hide ListBytes, Pushed, Left, Taken, Pos, PosAt, LRange, Removed, FirstIndex, PushIn, PipeIn, PopIn, RotateIn,
         InsertRows, Retired,
         Stopped, Fits, AllFit, Rotate, PushEach, Push, Pop, Coherent;
    match m
    case PushC(run, atHead, requireExisting, room) => PushExact(c, run, atHead, requireExisting, room);
    case PipeC(elems, bnd, atHead, requireExisting, room) => PipePlain(c, elems, bnd, atHead, requireExisting, room);
    case PopC(fromHead, count) => PopExact(c, fromHead, count);
    case PosC(target, rank, limit, maxlen) => PosExact(c, target, rank, limit, maxlen);
    case InsertC(pivot, val, before) =>
      var k := FirstIndex(c.d.elems, pivot);
      if k.Some? && !c.hot {
        InsertExact(c, if before then k.value else k.value + 1, val);
      }
    case RotateC(from, to) => RotateExact(c, from, to);
    case Retire => RetiredExact(c);
    case _ =>
  }

  lemma AllFitReversed(run: seq<Bytes>)
    requires AllFit(run)
    ensures AllFit(Reverse(run))
  {
    hide Fits;
    forall v | v in Reverse(run) ensures v in run {
    }
  }

  lemma AllFitPushed(s: seq<Bytes>, run: seq<Bytes>, atHead: bool)
    requires AllFit(s) && AllFit(run)
    ensures AllFit(Pushed(s, run, atHead))
  {
    hide Fits, Reverse;
    AllFitReversed(run);
  }

  lemma GrownCoherent(c: Cell, run: seq<Bytes>, atHead: bool, hot: bool)
    requires Coherent(c) && run != [] && (!c.hot ==> AllFit(run))
    ensures var c' := Grown(c, run, atHead, hot);
            Coherent(c') && (!Unlisted(c) ==> !Unlisted(c')) && (c.hot == c'.hot || !Unlisted(c'))
  {
    hide ListBytes, Fits, Pushed, Outside;
    var head := if atHead then c.head - |run| else c.head;
    var tail := head + |c.d.elems| + |run|;
    PushedLength(c.d.elems, run, atHead);
    OutsideTwice(c.rest, head, tail);
    if !c.hot {
      AllFitPushed(c.d.elems, run, atHead);
    }
  }

  /** Strays laid from the bounds of a cold list stay outside it. */
  lemma StrewnCoherent(c: Cell, run: seq<Bytes>, atHead: bool)
    requires Coherent(c) && AllFit(run)
    ensures Coherent(Strewn(c, run, atHead))
    ensures Unlisted(Strewn(c, run, atHead)) == Unlisted(c)
  {
    hide ListBytes, Fits, Lay;
    var head, tail := Bounds(c.row).0, Bounds(c.row).1;
    var rest := Lay(c.rest, run, head, tail, atHead);
    if !c.hot {
      forall p | p in rest ensures !(c.head <= p < c.head + |c.d.elems|) {
      }
      assert Outside(rest, c.head, c.head + |c.d.elems|) == rest;
    }
  }

  lemma PushCoherent(c: Cell, run: seq<Bytes>, atHead: bool, requireExisting: bool, room: bool)
    requires Coherent(c) && run != []
    ensures var c' := PushIn(c, run, atHead, requireExisting, room).0;
            Coherent(c') && (!Unlisted(c) ==> !Unlisted(c')) && (c.hot == c'.hot || !Unlisted(c'))
  {
    hide Coherent, Fits, Grown, Strewn, Pushed;
    if AllFit(run) {
      GrownCoherent(c, run, atHead, true);
      GrownCoherent(c, run, atHead, c.row.Some? && room);
    } else {
      StrewnCoherent(c, run[..Landed(run)], atHead);
      assert Strewn(c, run[..Landed(run)], atHead).hot == c.hot by { StrewnHot(c, run[..Landed(run)], atHead); }
    }
  }

  lemma StrewnHot(c: Cell, run: seq<Bytes>, atHead: bool)
    ensures Strewn(c, run, atHead).hot == c.hot && Strewn(c, run, atHead).d == c.d
  {
  }

  lemma PipeCoherent(c: Cell, elems: seq<Bytes>, bnd: seq<int>, atHead: bool, requireExisting: bool, room: bool)
    requires Coherent(c) && elems != []
    ensures var c' := PipeIn(c, elems, bnd, atHead, requireExisting, room).0;
            Coherent(c') && (!Unlisted(c) ==> !Unlisted(c'))
  {
    hide Fits, Lay, Pushed, ListBytes, Outside;
    var k := Landed(elems);
    if AllFit(elems) {
      GrownCoherent(c, elems, atHead, true);
      GrownCoherent(c, elems, atHead, c.row.Some? && room);
    } else {
      StrewnCoherent(c, elems[..k], atHead);
      if k > 0 && !c.hot {
        GrownCoherent(c, elems[..k], atHead, false);
      }
    }
  }

  lemma AllFitLeft(s: seq<Bytes>, atHead: bool, n: int)
    requires AllFit(s) && 0 <= n <= |s|
    ensures AllFit(Left(s, atHead, n))
  {
    hide Fits;
  }

  /** A shorter list read from the same rows. */
  lemma ShrunkCoherent(c: Cell, kept: seq<Bytes>, head: int)
    requires Coherent(c) && c.d.elems != [] && c.head <= head && head + |kept| <= c.head + |c.d.elems|
    requires (AllFit(c.d.elems) ==> AllFit(kept)) && ListBytes(kept) <= ListBytes(c.d.elems)
    ensures var c' := Shrunk(c, Edited(c.d, kept), head);
            Coherent(c') && (!Unlisted(c) ==> !Unlisted(c')) && (kept != [] ==> c'.hot == c.hot)
  {
    assert ListBytes([]) == LIST_HEADER_BYTES;
    hide ListBytes, Fits, AllFit;
    if !c.hot {
      OutsideLess(c.rest, c.head, c.head + |c.d.elems|, head, head + |kept|);
    }
    assert Outside(c.rest, 0, 0) == c.rest;
  }

  lemma OutsideLess(rest: Strays, a: int, b: int, c: int, d: int)
    requires Outside(rest, a, b) == rest && a <= c && d <= b
    ensures Outside(rest, c, d) == rest
  {
    forall p | p in rest ensures !(c <= p < d) {
      assert p in Outside(rest, a, b);
    }
  }

  lemma PoppedCoherent(c: Cell, atHead: bool, count: Option<nat>)
    requires Coherent(c)
    ensures var c' := Popped(c, atHead, count).0;
            && Coherent(c') && (!Unlisted(c) ==> !Unlisted(c'))
            && (|c.d.elems| > Wanting(count) ==> c'.hot == c.hot)
  {
    hide ListBytes, Taken, AllFit, Fits, Outside;
    var s := c.d.elems;
    if s != [] {
      var n := Min(Wanting(count), |s|);
      SizeOfLeft(s, atHead, n);
      if AllFit(s) {
        AllFitLeft(s, atHead, n);
      }
      ShrunkCoherent(c, Left(s, atHead, n), if atHead then c.head + n else c.head);
    }
  }

  lemma RotateCoherent(c: Cell, fromHead: bool, toHead: bool)
    requires Coherent(c)
    ensures var c' := RotateIn(c, fromHead, toHead).0; Coherent(c') && (!Unlisted(c) ==> !Unlisted(c'))
  {
    hide Popped, PushIn, Retired, Coherent, Fast;
    var from := if Fast(c, fromHead) then c else Retired(c);
    RetiredExact(c);
    PoppedCoherent(from, fromHead, None);
    var (c1, popped) := Popped(from, fromHead, None);
    if popped.Bulk? {
      PushCoherent(c1, [popped.v], toHead, false, false);
    }
  }

  lemma RemCoherent(c: Cell, victim: Bytes, howMany: int)
    requires Coherent(c)
    ensures var c' := RemIn(c, Removed(c.d.elems, victim, howMany)).0; Coherent(c') && (!Unlisted(c) ==> !Unlisted(c'))
  {
    hide ListBytes, Fits, AllFit, Outside;
    var s := c.d.elems;
    var kept := Removed(s, victim, howMany);
    if s == [] {
      RemovedNone(victim, howMany);
    } else {
      hide Removed;
      RemovedSome(s, victim, howMany);
      ShrunkCoherent(c, kept, c.head);
    }
  }

  lemma {:induction false} RemovedFewer(s: seq<Bytes>, victim: Bytes, n: int)
    ensures var kept := RemoveFirst(s, victim, n);
            |kept| <= |s| && EntryBytes(kept) <= EntryBytes(s) && (forall v :: v in kept ==> v in s)
    decreases |s|
  {
    hide EntryBytes;
    if s != [] {
      var rest := s[1..];
      assert s == [s[0]] + rest;
      ListBytesConcat([s[0]], rest);
      EntriesAtLeast([s[0]]);
      if s[0] == victim && n > 0 {
        RemovedFewer(rest, victim, n - 1);
      } else {
        RemovedFewer(rest, victim, n);
        ListBytesConcat([s[0]], RemoveFirst(rest, victim, n));
      }
    }
  }

  lemma {:induction false} RemovedFewerLast(s: seq<Bytes>, victim: Bytes, n: int)
    ensures var kept := RemoveLast(s, victim, n);
            |kept| <= |s| && EntryBytes(kept) <= EntryBytes(s) && (forall v :: v in kept ==> v in s)
    decreases |s|
  {
    hide EntryBytes;
    if s != [] {
      var k := |s| - 1;
      assert s == s[..k] + [s[k]];
      ListBytesConcat(s[..k], [s[k]]);
      EntriesAtLeast([s[k]]);
      if s[k] == victim && n > 0 {
        RemovedFewerLast(s[..k], victim, n - 1);
      } else {
        RemovedFewerLast(s[..k], victim, n);
        ListBytesConcat(RemoveLast(s[..k], victim, n), [s[k]]);
      }
    }
  }

  lemma RemovedSome(s: seq<Bytes>, victim: Bytes, howMany: int)
    ensures var kept := Removed(s, victim, howMany);
            |kept| <= |s| && ListBytes(kept) <= ListBytes(s) && (AllFit(s) ==> AllFit(kept))
  {
    hide EntryBytes, Fits, RemoveFirst, RemoveLast;
    RemovedFewer(s, victim, if howMany > 0 then howMany else |s|);
    RemovedFewerLast(s, victim, -howMany);
  }

  lemma RemovedNone(victim: Bytes, howMany: int)
    ensures Removed([], victim, howMany) == []
  {
  }

  /** An insert into a resident list. */
  lemma InsertHotCoherent(c: Cell, i: int, val: Bytes)
    requires Coherent(c) && c.hot && 0 <= i <= |c.d.elems|
    ensures Coherent(c.(d := Edited(c.d, InsertedAt(c.d.elems, i, val)), head := InsertedHead(c.head, |c.d.elems|, i)))
  {
    hide ListBytes, Fits, AllFit, Outside;
  }

  /** Commands on one key keep it coherent, and never make it unlisted. */
  lemma ActCoherent(c: Cell, m: Command)
    requires Coherent(c) && Sendable(m)
    ensures Coherent(ActOn(c, m).0)
    ensures !Unlisted(c) ==> !Unlisted(ActOn(c, m).0)
  {
    hide ListBytes, Popped, PushIn, PipeIn, RotateIn, PosAt, LRange, FirstIndex, Removed, RemIn, InsertRows, Retired,
         Coherent, Pushed, Edited;
    match m
    case PushC(run, atHead, requireExisting, room) => PushCoherent(c, run, atHead, requireExisting, room);
    case PipeC(elems, bnd, atHead, requireExisting, room) => PipeCoherent(c, elems, bnd, atHead, requireExisting, room);
    case PopC(fromHead, count) =>
      RetiredExact(c);
      PoppedCoherent(c, fromHead, count);
      PoppedCoherent(Retired(c), fromHead, count);
    case InsertC(pivot, val, before) =>
      var k := FirstIndex(c.d.elems, pivot);
      if k.Some? {
        var i := if before then k.value else k.value + 1;
        if c.hot {
          InsertHotCoherent(c, i, val);
        } else {
          InsertCoherent(c, i, val);
          assert !InsertRows(c, i, val).hot by { InsertedCold(c, i, val); }
        }
      }
    case RotateC(from, to) => RotateCoherent(c, from, to);
    case RemC(victim, howMany) => RemCoherent(c, victim, howMany);
    case Retire => RetiredExact(c);
    case _ =>
  }

  lemma InsertedCold(c: Cell, i: int, val: Bytes)
    requires 0 <= i <= |c.d.elems|
    ensures !InsertRows(c, i, val).hot
  {
  }

  lemma AdmittedCoherent(c: Cell, v: Bytes, toHead: bool)
    requires Coherent(c)
    ensures Coherent(Admitted(c, v, toHead)) && Admitted(c, v, toHead).row == c.row
  {
    hide ListBytes, Fits, AllFit, Outside, Pushed;
    PushedLength(c.d.elems, [v], toHead);
  }

  lemma MoveCoherent(src: Cell, dst: Cell, fromHead: bool, toHead: bool)
    requires Coherent(src) && Coherent(dst)
    ensures var (src', dst', _) := MoveIn(src, dst, fromHead, toHead); Coherent(src') && Coherent(dst')
  {
    hide Popped, PushIn, Retired, Coherent, Fast, Admitted;
    RetiredExact(src);
    RetiredExact(dst);
    var from := if Fast(src, fromHead) then src else Retired(src);
    PoppedCoherent(from, fromHead, None);
    var (_, popped) := Popped(from, fromHead, None);
    if popped.Bulk? {
      PushCoherent(Retired(dst), [popped.v], toHead, false, false);
      AdmittedCoherent(dst, popped.v, toHead);
    }
  }

  /** What a move through the windows, and what one over rows, leaves of the deques. */
  lemma MoveDecks(src: Cell, dst: Cell, fromHead: bool, toHead: bool)
    requires Coherent(src) && Coherent(dst)
    ensures var (src', dst', reply) := MoveIn(src, dst, fromHead, toHead);
            (src'.d, dst'.d, reply) ==
            if Fast(src, fromHead) then Move(src.d, dst.d, fromHead, toHead)
            else Move(Retired(src).d, if src.d.elems == [] then dst.d else Retired(dst).d, fromHead, toHead)
  {
    hide ListBytes, Fits, Retired, Popped, PushAfter, Pop, Fast, Coherent, Pushed;
    RetiredExact(src);
    RetiredExact(dst);
    var from := if Fast(src, fromHead) then src else Retired(src);
    assert from.hot ==> Fast(from, fromHead);
    PoppedFits(from, fromHead);
    PoppedIsPop(from, fromHead, None);
    var (_, popped) := Popped(from, fromHead, None);
    assert popped.Bulk? <==> src.d.elems != [] by { PopBulk(from.d, fromHead); }
    AfterFits(popped, if popped.Bulk? then Retired(dst) else dst, toHead);
  }

  lemma PopBulk(d: Deque, fromHead: bool)
    ensures Pop(d, fromHead, None).1.Bulk? <==> d.elems != []
  {
  }

  lemma MoveSettles(a: Deque, b: Deque, c: Deque, d: Deque, fromHead: bool, toHead: bool)
    requires |a.elems| == |c.elems| && Move(a, b, fromHead, toHead) == Move(c, d, fromHead, toHead)
    ensures a.elems == c.elems && (a.elems != [] ==> b.elems == d.elems)
  {
    hide ListBytes;
    PopSettles(a, c, fromHead, None);
    if a.elems != [] {
      hide Pushed, Pop;
      PopBulk(a, fromHead);
      var v := Pop(a, fromHead, None).1.v;
      PushedLength(b.elems, [v], toHead);
      PushedLength(d.elems, [v], toHead);
      PushedSettles(b.elems, d.elems, v, toHead);
    }
  }

  /** A move between two keys answers as on plain deques if and only if it goes through the windows, or retires
      none that holds an element the store refuses. */
  lemma MoveExact(src: Cell, dst: Cell, fromHead: bool, toHead: bool)
    requires Coherent(src) && Coherent(dst)
    ensures var (src', dst', reply) := MoveIn(src, dst, fromHead, toHead);
            (src'.d, dst'.d, reply) == Move(src.d, dst.d, fromHead, toHead) <==> !OddMove(src, dst, fromHead)
  {
    hide ListBytes, Fits, AllFit, Retired, MoveIn, Fast, Coherent, Move;
    MoveDecks(src, dst, fromHead, toHead);
    RetiredExact(src);
    RetiredExact(dst);
    var b := if src.d.elems == [] then dst.d else Retired(dst).d;
    if Move(Retired(src).d, b, fromHead, toHead) == Move(src.d, dst.d, fromHead, toHead) {
      MoveSettles(Retired(src).d, b, src.d, dst.d, fromHead, toHead);
    }
    assert src.d.elems == [] ==> AllFit(src.d.elems) by { NoneRefused(src.d.elems); }
  }

  lemma NoneRefused(s: seq<Bytes>)
    ensures s == [] ==> AllFit(s)
  {
  }

  /** It leaves the destination unlisted if and only if it goes through the windows onto a key that has no
      header row, a missing one for instance. */
  lemma MoveUnlists(src: Cell, dst: Cell, fromHead: bool, toHead: bool)
    requires Coherent(src) && Coherent(dst)
    ensures Unlisted(MoveIn(src, dst, fromHead, toHead).1) <==>
            dst.row.None? && (Fast(src, fromHead) || (dst.hot && src.d.elems == []))
  {
    hide ListBytes, Fits, Retired, Pop, Coherent, PushIn, AllFit, Pushed;
    RetiredExact(src);
    RetiredExact(dst);
    var from := if Fast(src, fromHead) then src else Retired(src);
    PopBulk(from.d, fromHead);
    var popped := Popped(from, fromHead, None).1;
    if popped.Bulk? {
      PushCoherent(Retired(dst), [popped.v], toHead, false, false);
    }
  }

  /** A push leaves the running size as exact as it was. */
  lemma PushSize(c: Cell, run: seq<Bytes>, atHead: bool, requireExisting: bool, room: bool)
    ensures PushIn(c, run, atHead, requireExisting, room).0.over == c.over
  {
    hide ListBytes, AllFit, Landed, Lay, Pushed, Outside;
  }

  lemma PoppedSize(c: Cell, atHead: bool, count: Option<nat>)
    requires Coherent(c)
    ensures Popped(c, atHead, count).0.over <= c.over
  {
    hide ListBytes, Pop;
  }

  /** Commands that answer as on the plain deque never leave the running size further ahead of the elements. */
  lemma ActSize(c: Cell, m: Command)
    requires Coherent(c) && Sendable(m) && !Odd(c, m)
    ensures ActOn(c, m).0.over <= c.over
  {
    hide ListBytes, EntryBytes, AllFit, Fits, PushIn, Popped, Retired, Pushed, Outside, Lay, Landed, Removed,
         FirstIndex, PosAt, LRange, Coherent;
    assert c.over >= 0 by { CoherentSize(c); }
    match m
    case PushC(run, atHead, requireExisting, room) => PushSize(c, run, atHead, requireExisting, room);
    case PopC(fromHead, count) =>
      RetiredExact(c);
      PoppedSize(c, fromHead, count);
      if AllFit(c.d.elems) {
        RetiredSize(c);
      }
      PoppedSize(Retired(c), fromHead, count);
    case RotateC(from, to) =>
      RetiredExact(c);
      if AllFit(c.d.elems) {
        RetiredSize(c);
      }
      var was := if Fast(c, from) then c else Retired(c);
      PoppedSize(was, from, None);
      var (c', popped) := Popped(was, from, None);
      if popped.Bulk? {
        PushSize(c', [popped.v], to, false, false);
      }
    case Retire => RetiredSize(c);
    case _ =>
  }

  lemma CoherentSize(c: Cell)
    requires Coherent(c)
    ensures c.over >= 0
  {
  }

  lemma MoveSize(src: Cell, dst: Cell, fromHead: bool, toHead: bool)
    requires Coherent(src) && Coherent(dst) && !OddMove(src, dst, fromHead)
    ensures var (src', dst', _) := MoveIn(src, dst, fromHead, toHead); src'.over <= src.over && dst'.over <= dst.over
  {
    hide ListBytes, AllFit, Fits, PushIn, Popped, Retired, Pushed, Outside, Coherent, Fast;
    RetiredExact(src);
    RetiredExact(dst);
    var from := if Fast(src, fromHead) then src else Retired(src);
    if AllFit(src.d.elems) {
      RetiredSize(src);
    }
    PoppedSize(from, fromHead, None);
    PoppedIsPop(from, fromHead, None);
    PopBulk(from.d, fromHead);
    var popped := Popped(from, fromHead, None).1;
    if popped.Bulk? && !Fast(src, fromHead) {
      RetiredSize(dst);
      PushSize(Retired(dst), [popped.v], toHead, false, false);
    }
  }
}
