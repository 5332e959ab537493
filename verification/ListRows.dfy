/** The row-per-element bodies a cold list command runs (f1srv/list.go): loops that move the window
    bounds, edit element rows one at a time and keep the running size.  The store refuses a value that is too
    long, so that a position may be without a row, and a row without a position. */
module ListRows {
  import opened Bytes
  import opened ListSize
  import opened ListSpec
  import opened ListPushes
  import opened ListCells
  import opened ListRemoval
  import opened ListView
  import opened RowStore
  import opened Scan

  /** A cold list in hand: its rows, bounds, running size and large flag. */
  datatype Cold = Cold(rows: map<int, Bytes>, head: int, tail: int, lpBytes: int, everLarge: bool)

  ghost predicate WellFormed(c: Cold)
  {
    c.head <= c.tail && Stored(c.rows) && SizeTracks(Elems(c), c.lpBytes, c.everLarge)
  }

  ghost function Elems(c: Cold): (s: seq<Bytes>)
    requires c.head <= c.tail
  {
    RowElems(c.rows, c.head, c.tail)
  }

  /** What a search of the list compares. */
  ghost function View(c: Cold): (s: seq<Option<Bytes>>)
    requires c.head <= c.tail
    ensures Texts(s) == Elems(c)
  {
    RowTexts(c.rows, c.head, c.tail);
    RowView(c.rows, c.head, c.tail)
  }

  /** The rows that are not elements of the list. */
  ghost function Rest(c: Cold): (rest: Strays)
  {
    Outside(c.rows, c.head, c.tail)
  }

  /** The key a cold list stands for; an empty one is a missing key. */
  ghost function CellOf(c: Cold): (cell: Cell)
    requires c.head <= c.tail
  {
    if c.head == c.tail then Gone(Rest(c))
    else Cell(Deque(Elems(c), c.everLarge), c.head, false, Some((c.head, c.tail)), Rest(c), Ahead(Elems(c), c.lpBytes))
  }

  /** One step of the push loop: the bound moves once the store has taken the element. */
  function Joined(c: Cold, elem: Bytes, atHead: bool): (c': Cold)
  {
    var lpBytes := c.lpBytes + EntryBytes([elem]);
    Cold(c.rows[(if atHead then c.head - 1 else c.tail) := elem], if atHead then c.head - 1 else c.head,
         if atHead then c.tail else c.tail + 1, lpBytes, c.everLarge || lpBytes > LISTPACK_MAX_BYTES)
  }

  /** A run joined to the list. */
  function Extended(c: Cold, run: seq<Bytes>, atHead: bool): (c': Cold)
  {
    var lpBytes := c.lpBytes + EntryBytes(run);
    Cold(Lay(c.rows, run, c.head, c.tail, atHead), if atHead then c.head - |run| else c.head,
         if atHead then c.tail else c.tail + |run|, lpBytes, c.everLarge || (run != [] && lpBytes > LISTPACK_MAX_BYTES))
  }

  lemma ExtendedNone(c: Cold, atHead: bool)
    ensures Extended(c, [], atHead) == c
  {
  }

  lemma ExtendedStep(c: Cold, run: seq<Bytes>, k: nat, atHead: bool)
    requires k < |run|
    ensures Extended(c, run[..k + 1], atHead) == Joined(Extended(c, run[..k], atHead), run[k], atHead)
  {
    assert run[..k + 1][..k] == run[..k];
    hide EntryBytes;
    assert run[..k + 1] == run[..k] + [run[k]];
    ListBytesConcat(run[..k], [run[k]]);
    EntryBytesPositive(run[k]);
  }

  /** The push loop: one row per element at the chosen end, up to the first that the store refuses. */
  method ExtendRun(c0: Cold, run: seq<Bytes>, atHead: bool) returns (c: Cold, k: nat)
    ensures k == Landed(run) && c == Extended(c0, run[..k], atHead)
  {
    hide Extended, Landed, Fits, EntryBytes;
    c, k := c0, 0;
    assert run[..0] == [];
    ExtendedNone(c0, atHead);
    while k < |run|
      invariant 0 <= k <= Landed(run) && c == Extended(c0, run[..k], atHead)
    {
      LandedAt(run, k);
      ExtendedStep(c0, run, k, atHead);
      var pos := if atHead then c.head - 1 else c.tail;
      if !Fits(run[k]) {
        return;
      }
      var lpBytes := c.lpBytes + EntryBytes([run[k]]);
      c := Cold(Put(c.rows, pos, run[k]), if atHead then pos else c.head, if atHead then c.tail else c.tail + 1, lpBytes,
                c.everLarge || lpBytes > LISTPACK_MAX_BYTES);
      k := k + 1;
    }
  }

  lemma LandedAt(run: seq<Bytes>, k: nat)
    requires k <= Landed(run) && k < |run|
    ensures Fits(run[k]) <==> k < Landed(run)
  {
    hide Fits;
    if k < Landed(run) {
      assert run[..Landed(run)][k] == run[k];
    }
  }

  lemma PushedNone(s: seq<Bytes>, atHead: bool)
    ensures Pushed(s, [], atHead) == s
  {
  }

  lemma PushedStep(s: seq<Bytes>, run: seq<Bytes>, k: int, atHead: bool)
    requires 0 <= k < |run|
    ensures Pushed(s, run[..k + 1], atHead) == Pushed(Pushed(s, run[..k], atHead), [run[k]], atHead)
  {
    assert run[..k + 1] == run[..k] + [run[k]];
    PushedTwice(s, run[..k], [run[k]], atHead);
  }

  lemma JoinedIs(c: Cold, elem: Bytes, atHead: bool)
    requires WellFormed(c) && Fits(elem)
    ensures var c' := Joined(c, elem, atHead);
            && WellFormed(c') && Elems(c') == Pushed(Elems(c), [elem], atHead)
            && Ahead(Elems(c'), c'.lpBytes) == Ahead(Elems(c), c.lpBytes)
            && c'.everLarge == (c.everLarge || ListBytes(Elems(c')) > LISTPACK_MAX_BYTES)
  {
    hide Fits, ListBytes, EntryBytes;
    PushedRows(c.rows, c.head, c.tail, elem, atHead);
    SizeOfPushedRun(Elems(c), [elem], atHead);
  }

  lemma PushedRows(rows: map<int, Bytes>, head: int, tail: int, elem: Bytes, atHead: bool)
    requires head <= tail
    ensures var (head', tail', pos) := if atHead then (head - 1, tail, head - 1) else (head, tail + 1, tail);
            RowElems(rows[pos := elem], head', tail') == Pushed(RowElems(rows, head, tail), [elem], atHead)
  {
    if atHead {
      assert RowElems(rows[head - 1 := elem], head - 1, tail) == [elem] + RowElems(rows, head, tail);
    } else {
      assert RowElems(rows[tail := elem], head, tail + 1) == RowElems(rows, head, tail) + [elem];
    }
  }

  /** A run the store took is pushed onto the list. */
  lemma {:induction false} ExtendedIs(c: Cold, run: seq<Bytes>, atHead: bool)
    requires WellFormed(c) && AllFit(run)
    ensures var c' := Extended(c, run, atHead);
            && WellFormed(c') && Elems(c') == Pushed(Elems(c), run, atHead)
            && Ahead(Elems(c'), c'.lpBytes) == Ahead(Elems(c), c.lpBytes)
            && (run != [] ==> c'.everLarge == (c.everLarge || ListBytes(Elems(c')) > LISTPACK_MAX_BYTES))
    decreases |run|
  {
    hide Fits, ListBytes, RowElems, Pushed, Stored, Extended;
    if run == [] {
      ExtendedNone(c, atHead);
      PushedNone(Elems(c), atHead);
    } else {
      var k := |run| - 1;
      assert run[k] in run && forall v :: v in run[..k] ==> v in run;
      ExtendedIs(c, run[..k], atHead);
      var mid := Extended(c, run[..k], atHead);
      if k == 0 {
        assert run[..0] == [];
        ExtendedNone(c, atHead);
      }
      JoinedIs(mid, run[k], atHead);
      PushedStep(Elems(c), run, k, atHead);
      ExtendedStep(c, run, k, atHead);
      assert run[..k + 1] == run;
      SizeOfPushedRun(Elems(mid), [run[k]], atHead);
      EntryBytesPositive(run[k]);
    }
  }

  lemma ExtendedRest(c: Cold, run: seq<Bytes>, atHead: bool)
    requires c.head <= c.tail
    ensures var c' := Extended(c, run, atHead); Rest(c') == Outside(Rest(c), c'.head, c'.tail)
  {
    hide Lay;
  }

  lemma NothingAhead(c: Cold)
    requires c.head == c.tail && c.lpBytes == LIST_HEADER_BYTES
    ensures Elems(c) == [] && Ahead(Elems(c), c.lpBytes) == 0
  {
  }

  /** ... as on the key. */
  lemma ExtendedCell(c: Cold, run: seq<Bytes>, atHead: bool)
    requires WellFormed(c) && AllFit(run) && run != [] && (c.head < c.tail || (c.head == 0 && c.lpBytes == LIST_HEADER_BYTES && !c.everLarge))
    ensures CellOf(Extended(c, run, atHead)) == Grown(CellOf(c), run, atHead, false)
  {
    hide Fits, AllFit, ListBytes, EntryBytes, Pushed, Ahead, Outside, RowElems, WellFormed, Lay;
    ExtendedIs(c, run, atHead);
    ExtendedRest(c, run, atHead);
    if c.head == c.tail {
      NothingAhead(c);
    }
    PushedLength(Elems(c), run, atHead);
  }

  /** A run that the header row does not count lies beside the list. */
  lemma StrewnCell(c: Cold, run: seq<Bytes>, atHead: bool)
    requires WellFormed(c) && AllFit(run) && (c.head < c.tail || c.head == 0)
    ensures CellOf(c.(rows := Lay(c.rows, run, c.head, c.tail, atHead))) == Strewn(CellOf(c), run, atHead)
    ensures WellFormed(c.(rows := Lay(c.rows, run, c.head, c.tail, atHead)))
  {
    hide Fits, ListBytes, Lay;
    LayBeside(c.rows, run, c.head, c.tail, atHead, c.head, c.tail);
    SameElems(c.rows, Lay(c.rows, run, c.head, c.tail, atHead), c.head, c.tail);
  }

  lemma SameElems(rows0: map<int, Bytes>, rows: map<int, Bytes>, head: int, tail: int)
    requires head <= tail && forall p :: head <= p < tail ==> RowAt(rows, p) == RowAt(rows0, p)
    ensures RowElems(rows, head, tail) == RowElems(rows0, head, tail)
  {
    var s, t := RowElems(rows0, head, tail), RowElems(rows, head, tail);
    forall i | 0 <= i < |s| ensures t[i] == s[i] {
      assert RowAt(rows, head + i) == RowAt(rows0, head + i);
    }
  }

  /** Rows laid outwards from some bounds leave those between alone. */
  lemma {:induction false} LayBeside(rows: map<int, Bytes>, run: seq<Bytes>, head: int, tail: int, atHead: bool, lo: int, hi: int)
    requires lo < hi ==> head <= lo && hi <= tail
    ensures Outside(Lay(rows, run, head, tail, atHead), lo, hi) == Lay(Outside(rows, lo, hi), run, head, tail, atHead)
    ensures forall p :: lo <= p < hi ==> RowAt(Lay(rows, run, head, tail, atHead), p) == RowAt(rows, p)
    decreases |run|
  {
    if run != [] {
      var k := |run| - 1;
      LayBeside(rows, run[..k], head, tail, atHead, lo, hi);
      OutsidePut(Lay(rows, run[..k], head, tail, atHead), if atHead then head - 1 - k else tail + k, run[k], lo, hi);
    }
  }

  lemma OutsidePut(rows: map<int, Bytes>, p: int, v: Bytes, lo: int, hi: int)
    requires !(lo <= p < hi)
    ensures Outside(rows[p := v], lo, hi) == Outside(rows, lo, hi)[p := v]
  {
  }

  lemma ElemsFit(c: Cold)
    requires c.head <= c.tail && Stored(c.rows)
    ensures AllFit(Elems(c))
  {
    hide Fits;
    var s := Elems(c);
    forall v | v in s ensures Fits(v) {
      var i :| 0 <= i < |s| && s[i] == v;
      assert v == Read(c.rows, c.head + i);
    }
  }

  /** A cold list in hand stands for a coherent key. */
  lemma CellCoherent(c: Cold)
    requires WellFormed(c)
    ensures Coherent(CellOf(c))
  {
    assert ListBytes([]) == LIST_HEADER_BYTES;
    hide ListBytes, Fits, AllFit, RowElems;
    ElemsFit(c);
    OutsideTwice(c.rows, c.head, c.tail);
    assert Outside(Rest(c), 0, 0) == Rest(c);
  }

  /** Take the row at an end and move the bound past it. */
  method PopRow(rows0: map<int, Bytes>, head0: int, tail0: int, atHead: bool)
    returns (rows: map<int, Bytes>, head: int, tail: int, v: Bytes)
    requires head0 < tail0
    ensures head <= tail && head == (if atHead then head0 + 1 else head0) && tail == if atHead then tail0 else tail0 - 1
    ensures v == EndOf(RowElems(rows0, head0, tail0), atHead) && (Stored(rows0) ==> Stored(rows))
    ensures RowElems(rows, head, tail) == Left(RowElems(rows0, head0, tail0), atHead, 1)
    ensures Outside(rows, head, tail) == Outside(rows0, head0, tail0)
  {
    PoppedRows(rows0, head0, tail0, atHead);
    var pos;
    head, tail := head0, tail0;
    if atHead {
      pos := head;
      head := head + 1;
    } else {
      pos := tail - 1;
      tail := tail - 1;
    }
    v := Read(rows0, pos);
    rows := rows0 - {pos};
  }

  /** One step of the pop loop. */
  method PopOne(c: Cold, atHead: bool) returns (c': Cold, v: Bytes)
    requires WellFormed(c) && c.head < c.tail
    ensures WellFormed(c') && Rest(c') == Rest(c)
    ensures v == EndOf(Elems(c), atHead) && Elems(c') == Left(Elems(c), atHead, 1)
    ensures c'.everLarge == c.everLarge && c'.head == if atHead then c.head + 1 else c.head
    ensures Ahead(Elems(c'), c'.lpBytes) == Ahead(Elems(c), c.lpBytes)
  {
    hide ListBytes, EntryBytes, RowElems, Left, Outside;
    var rows, head, tail;
    rows, head, tail, v := PopRow(c.rows, c.head, c.tail, atHead);
    c' := c.(rows := rows, head := head, tail := tail, lpBytes := c.lpBytes - EntryBytes([v]));
    EntryBytesPositive(v);
    SizeOfPopped(Elems(c), atHead);
  }

  lemma PoppedRows(rows: map<int, Bytes>, head: int, tail: int, atHead: bool)
    requires head < tail
    ensures var (head', tail', pos) := if atHead then (head + 1, tail, head) else (head, tail - 1, tail - 1);
            && Read(rows, pos) == EndOf(RowElems(rows, head, tail), atHead)
            && RowElems(rows - {pos}, head', tail') == Left(RowElems(rows, head, tail), atHead, 1)
            && Outside(rows - {pos}, head', tail') == Outside(rows, head, tail)
  {
    var s := RowElems(rows, head, tail);
    if atHead {
      assert RowElems(rows - {head}, head + 1, tail) == s[1..];
    } else {
      assert RowElems(rows - {tail - 1}, head, tail - 1) == s[..|s| - 1];
    }
  }

  lemma SizeOfPopped(s: seq<Bytes>, atHead: bool)
    requires s != []
    ensures ListBytes(Left(s, atHead, 1)) == ListBytes(s) - EntryBytes([EndOf(s, atHead)])
  {
    SizeOfLeft(s, atHead, 1);
    TakenOne(s, atHead);
  }

  lemma TakenNone(s: seq<Bytes>, atHead: bool)
    ensures Taken(s, atHead, 0) == [] && Left(s, atHead, 0) == s
  {
  }

  lemma TakenStep(s: seq<Bytes>, atHead: bool, k: int)
    requires 0 <= k < |s|
    ensures Left(s, atHead, k) != []
    ensures Left(s, atHead, k + 1) == Left(Left(s, atHead, k), atHead, 1)
    ensures Taken(s, atHead, k + 1) == Taken(s, atHead, k) + [EndOf(Left(s, atHead, k), atHead)]
  {
    if !atHead {
      var i := |s| - k - 1;
      assert s[i..] == [s[i]] + s[i + 1..];
      ReverseConcat([s[i]], s[i + 1..]);
    }
  }

  /** The pop loop: `want` elements off one end, in the order they come. */
  method PopRun(c0: Cold, atHead: bool, want: int) returns (c: Cold, taken: seq<Bytes>)
    requires WellFormed(c0) && 0 <= want <= c0.tail - c0.head
    ensures WellFormed(c) && Rest(c) == Rest(c0)
    ensures taken == Taken(Elems(c0), atHead, want) && Elems(c) == Left(Elems(c0), atHead, want)
    ensures c.everLarge == c0.everLarge && c.head == if atHead then c0.head + want else c0.head
    ensures Ahead(Elems(c), c.lpBytes) == Ahead(Elems(c0), c0.lpBytes)
  {
    hide Taken, Left, ListBytes, RowElems, Outside, Ahead, Stored;
    TakenNone(Elems(c0), atHead);
    c, taken := c0, [];
    var k := 0;
    while k < want
      invariant 0 <= k <= want
      invariant WellFormed(c) && c.everLarge == c0.everLarge && c.head == if atHead then c0.head + k else c0.head
      invariant taken == Taken(Elems(c0), atHead, k) && Elems(c) == Left(Elems(c0), atHead, k)
      invariant Rest(c) == Rest(c0) && Ahead(Elems(c), c.lpBytes) == Ahead(Elems(c0), c0.lpBytes)
    {
      TakenStep(Elems(c0), atHead, k);
      var v;
      c, v := PopOne(c, atHead);
      taken := taken + [v];
      k := k + 1;
    }
  }

  /** The position of the first row holding the pivot. */
  method FindPivot(c: Cold, pivot: Bytes) returns (k: Option<nat>)
    requires WellFormed(c)
    ensures k == FirstIndex(View(c), Some(pivot))
  {
    hide FirstIndex, ListBytes;
    var i := 0;
    while i < c.tail - c.head
      invariant 0 <= i <= c.tail - c.head
      invariant Some(pivot) !in View(c)[..i]
    {
      if c.head + i in c.rows && c.rows[c.head + i] == pivot {
        FirstIndexIs(View(c), Some(pivot), i);
        return Some(i);
      }
      i := i + 1;
    }
    k := None;
  }

  lemma {:induction false} FirstIndexIs<T>(s: seq<T>, target: T, i: nat)
    requires i < |s| && s[i] == target && target !in s[..i]
    ensures FirstIndex(s, target) == Some(i)
  {
    if i > 0 {
      assert s[0] == s[..i][0] && s[1..][..i - 1] == s[..i][1..];
      FirstIndexIs(s[1..], target, i - 1);
    }
  }

  /** Take and put back each row of [lo, hi) one position lower, lowest first. */
  method ShiftRowsDown(rows0: map<int, Bytes>, lo: int, hi: int) returns (rows: map<int, Bytes>)
    requires lo <= hi && Stored(rows0)
    ensures Stored(rows)
    ensures forall q :: lo <= q < hi ==> Read(rows, q - 1) == Read(rows0, q)
    ensures forall q :: q < lo - 1 || hi <= q ==> RowAt(rows, q) == RowAt(rows0, q)
    ensures if lo < hi then hi - 1 !in rows else rows == rows0
  {
    rows := rows0;
    var p := lo;
    while p < hi
      invariant lo <= p <= hi && Stored(rows)
      invariant forall q :: lo <= q < p ==> Read(rows, q - 1) == Read(rows0, q)
      invariant forall q :: q < lo - 1 || p <= q ==> RowAt(rows, q) == RowAt(rows0, q)
      invariant if lo < p then p - 1 !in rows else rows == rows0
    {
      assert RowAt(rows, p) == RowAt(rows0, p);
      var v := Read(rows, p);
      rows := rows - {p};
      rows := Put(rows, p - 1, v);
      p := p + 1;
    }
  }

  /** Take and put back each row of [lo, hi) one position higher, highest first. */
  method ShiftRowsUp(rows0: map<int, Bytes>, lo: int, hi: int) returns (rows: map<int, Bytes>)
    requires lo <= hi && Stored(rows0)
    ensures Stored(rows)
    ensures forall q :: lo <= q < hi ==> Read(rows, q + 1) == Read(rows0, q)
    ensures forall q :: q < lo || hi < q ==> RowAt(rows, q) == RowAt(rows0, q)
    ensures if lo < hi then lo !in rows else rows == rows0
  {
    rows := rows0;
    var p := hi - 1;
    while p >= lo
      invariant lo - 1 <= p < hi && Stored(rows)
      invariant forall q :: p < q < hi ==> Read(rows, q + 1) == Read(rows0, q)
      invariant forall q :: q <= p || hi < q ==> RowAt(rows, q) == RowAt(rows0, q)
      invariant if p < hi - 1 then p + 1 !in rows else rows == rows0
    {
      assert RowAt(rows, p) == RowAt(rows0, p);
      var v := Read(rows, p);
      rows := rows - {p};
      rows := Put(rows, p + 1, v);
      p := p - 1;
    }
  }

  lemma InsertedLow(rows0: map<int, Bytes>, rows: map<int, Bytes>, head: int, tail: int, i: int)
    requires head <= tail && 0 <= i <= tail - head
    requires forall q :: head <= q < head + i ==> Read(rows, q - 1) == Read(rows0, q)
    requires forall q :: q < head - 1 || head + i <= q ==> RowAt(rows, q) == RowAt(rows0, q)
    ensures RowElems(rows, head - 1, tail) == InsertedAt(RowElems(rows0, head, tail), i, Read(rows, head + i - 1))
    ensures Outside(rows, head - 1, tail) == Outside(rows0, head - 1, tail)
  {
    var s := RowElems(rows0, head, tail);
    var t, u := RowElems(rows, head - 1, tail), InsertedAt(s, i, Read(rows, head + i - 1));
    forall k | 0 <= k < |t| ensures t[k] == u[k] {
      if k < i {
        assert (head + k) - 1 == head - 1 + k;
      } else if k > i {
        assert RowAt(rows, head - 1 + k) == RowAt(rows0, head - 1 + k);
      }
    }
    SameOutside(rows0, rows, head - 1, tail);
  }

  lemma SameOutside(rows0: map<int, Bytes>, rows: map<int, Bytes>, a: int, b: int)
    requires forall q :: q < a || b <= q ==> RowAt(rows, q) == RowAt(rows0, q)
    ensures Outside(rows, a, b) == Outside(rows0, a, b)
  {
    var x, y := Outside(rows, a, b), Outside(rows0, a, b);
    forall q ensures (q in x <==> q in y) && (q in x ==> x[q] == y[q]) {
      if q < a || b <= q {
        assert RowAt(rows, q) == RowAt(rows0, q);
      }
    }
    assert x.Keys == y.Keys;
  }

  lemma InsertedHigh(rows0: map<int, Bytes>, rows: map<int, Bytes>, head: int, tail: int, i: int)
    requires head <= tail && 0 <= i <= tail - head
    requires forall q :: q < head + i || tail < q ==> RowAt(rows, q) == RowAt(rows0, q)
    requires forall q :: head + i <= q < tail ==> Read(rows, q + 1) == Read(rows0, q)
    ensures RowElems(rows, head, tail + 1) == InsertedAt(RowElems(rows0, head, tail), i, Read(rows, head + i))
    ensures Outside(rows, head, tail + 1) == Outside(rows0, head, tail + 1)
  {
    var s := RowElems(rows0, head, tail);
    var t, u := RowElems(rows, head, tail + 1), InsertedAt(s, i, Read(rows, head + i));
    forall k | 0 <= k < |t| ensures t[k] == u[k] {
      if k > i {
        assert (head + k - 1) + 1 == head + k;
      } else if k < i {
        assert RowAt(rows, head + k) == RowAt(rows0, head + k);
      }
    }
    SameOutside(rows0, rows, head, tail + 1);
  }

  /** Open a slot at index i by shifting the shorter side one position, and fill it if the store takes the value. */
  method InsertRow(rows0: map<int, Bytes>, head0: int, tail0: int, i: int, val: Bytes)
    returns (rows: map<int, Bytes>, head: int, tail: int)
    requires head0 < tail0 && Stored(rows0) && 0 <= i <= tail0 - head0
    ensures head == InsertedHead(head0, tail0 - head0, i) && tail - head == tail0 - head0 + 1 && Stored(rows)
    ensures var s, n := RowElems(rows0, head0, tail0), tail0 - head0;
            RowElems(rows, head, tail) == InsertedAt(s, i, Filled(Outside(rows0, head0, tail0), head0, n, i, val))
    ensures Outside(rows, head, tail) == Outside(rows0, head, tail)
  {
    hide Fits, RowElems, Outside, InsertedAt;
    OutsideEnds(rows0, head0, tail0);
    head, tail := head0, tail0;
    if i <= (tail - head) - i {
      rows := ShiftRowsDown(rows0, head, head + i);
      rows := Put(rows, head + i - 1, val);
      InsertedLow(rows0, rows, head, tail, i);
      head := head - 1;
    } else {
      rows := ShiftRowsUp(rows0, head + i, tail);
      rows := Put(rows, head + i, val);
      InsertedHigh(rows0, rows, head, tail, i);
      tail := tail + 1;
    }
  }

  lemma OutsideEnds(rows: map<int, Bytes>, head: int, tail: int)
    ensures Read(Outside(rows, head, tail), head - 1) == Read(rows, head - 1)
    ensures Read(Outside(rows, head, tail), tail) == Read(rows, tail)
  {
  }

  /** LINSERT on rows; the size and the flag count the value whether the store took it or not. */
  method InsertAt(c: Cold, i: int, val: Bytes) returns (c': Cold)
    requires WellFormed(c) && c.head < c.tail && 0 <= i <= c.tail - c.head
    ensures WellFormed(c') && c'.tail - c'.head == c.tail - c.head + 1 && CellOf(c') == InsertRows(CellOf(c), i, val)
  {
    hide Fits, RowElems, ListBytes, Outside, InsertedAt, EntryBytes, SizeTracks, Ahead, Stored;
    var rows, head, tail := InsertRow(c.rows, c.head, c.tail, i, val);
    var lpBytes := c.lpBytes + EntryBytes([val]);
    c' := Cold(rows, head, tail, lpBytes, c.everLarge || lpBytes > LISTPACK_MAX_BYTES);
    InsertSizes(c, i, val);
    assert Rest(c') == Outside(Rest(c), head, tail) by {
      OutsideWider(c.rows, c.head, c.tail, head, tail);
    }
  }

  lemma OutsideWider(rows: map<int, Bytes>, a: int, b: int, c: int, d: int)
    requires c <= a && b <= d
    ensures Outside(Outside(rows, a, b), c, d) == Outside(rows, c, d)
  {
  }

  lemma InsertSizes(c: Cold, i: int, val: Bytes)
    requires WellFormed(c) && c.head < c.tail && 0 <= i <= c.tail - c.head
    ensures var s, v := Elems(c), Filled(Rest(c), c.head, c.tail - c.head, i, val);
            var lpBytes, t := c.lpBytes + EntryBytes([val]), InsertedAt(s, i, v);
            && SizeTracks(t, lpBytes, c.everLarge || lpBytes > LISTPACK_MAX_BYTES)
            && Ahead(t, lpBytes) == Ahead(s, c.lpBytes) + EntryBytes([val]) - EntryBytes([v])
            && (c.everLarge || lpBytes > LISTPACK_MAX_BYTES <==> c.everLarge || ListBytes(InsertedAt(s, i, val)) > LISTPACK_MAX_BYTES)
  {
    var s, v := Elems(c), Filled(Rest(c), c.head, c.tail - c.head, i, val);
    assert Fits(v) && (v == val || !Fits(val));
    hide Fits, RowElems, ListBytes, EntryBytes, Outside, InsertedAt, Filled;
    InsertedSize(s, i, val);
    InsertedSize(s, i, v);
    SizeAtLeast(s);
    if !Fits(val) {
      LongEntry(val, v);
    }
  }

  /** The first matching pass of LREM: matching positions in list order, no more than a positive
      count asks for. */
  method CollectMatches(c: Cold, target: Bytes, count: int) returns (matches: seq<int>)
    requires WellFormed(c)
    ensures var all := AllHits(Matches(View(c), Some(target)), c.head);
            matches == if count > 0 then all[..Min(count, |all|)] else all
    ensures forall p :: p in matches ==> p in c.rows
  {
    hide ListBytes, AllHits;
    ghost var hits := Matches(View(c), Some(target));
    assert hits[..0] == [];
    AllHitsNone(c.head);
    matches := [];
    var p := c.head;
    while p < c.tail
      invariant c.head <= p <= c.tail
      invariant matches == AllHits(hits[..p - c.head], c.head)
      invariant forall q :: q in matches ==> q in c.rows
      invariant count > 0 ==> |matches| < count
    {
      AllHitsStep(hits, p - c.head, c.head);
      if p in c.rows && c.rows[p] == target {
        matches := matches + [p];
        if count > 0 && |matches| >= count {
          AllHitsPrefix(hits, p + 1 - c.head, c.head);
          return;
        }
      }
      p := p + 1;
    }
    assert hits[..c.tail - c.head] == hits;
  }

  lemma AllHitsNone(from: int)
    ensures AllHits([], from) == []
  {
  }

  lemma AllHitsStep(hits: seq<bool>, k: int, from: int)
    requires 0 <= k < |hits|
    ensures AllHits(hits[..k + 1], from) == AllHits(hits[..k], from) + (if hits[k] then [from + k] else [])
  {
    AllHitsSnoc(hits[..k + 1], from);
    assert hits[..k + 1][..k] == hits[..k];
  }

  lemma {:induction false} AllHitsPrefix(hits: seq<bool>, k: int, from: int)
    requires 0 <= k <= |hits|
    ensures AllHits(hits[..k], from) <= AllHits(hits, from)
    decreases |hits| - k
  {
    if k < |hits| {
      AllHitsStep(hits, k, from);
      AllHitsPrefix(hits, k + 1, from);
    } else {
      assert hits[..k] == hits;
    }
  }

  /** The compaction pass at position p: the survivors so far lie in [head, wc), the rest is untouched. */
  ghost predicate Compacting(rows0: map<int, Bytes>, rows: map<int, Bytes>, head: int, wc: int, p: int, tail: int,
                             del: set<int>, dropped: int)
    requires head <= tail
  {
    var s := RowElems(rows0, head, tail);
    && head <= wc <= p <= tail && Stored(rows)
    && (forall q :: wc <= q < p ==> q !in rows)
    && (forall q :: q < head || p <= q ==> RowAt(rows, q) == RowAt(rows0, q))
    && RowElems(rows, head, wc) == Kept(s[..p - head], head, del)
    && dropped == Lost(s, p - head, head, del)
  }

  lemma CompactEnds(rows0: map<int, Bytes>, rows: map<int, Bytes>, head: int, wc: int, tail: int, del: set<int>,
                    dropped: int)
    requires head <= tail && Stored(rows0)
    ensures Compacting(rows0, rows0, head, head, head, tail, del, 0)
    ensures Compacting(rows0, rows, head, wc, tail, tail, del, dropped) ==>
              var s := RowElems(rows0, head, tail);
              && head <= wc <= tail && Stored(rows) && Outside(rows, head, wc) == Outside(rows0, head, tail)
              && RowElems(rows, head, wc) == Kept(s, head, del) && dropped == Lost(s, |s|, head, del)
  {
    var s := RowElems(rows0, head, tail);
    LostStart(s, head, del);
    hide Kept, Lost;
    assert s[..tail - head] == s && s[..head - head] == s[..0];
    if Compacting(rows0, rows, head, wc, tail, tail, del, dropped) {
      SameOutside(rows0, rows, head, tail);
      assert Outside(rows, head, wc) == Outside(rows, head, tail);
    }
  }

  /** One step of the compaction pass: drop the row at p, or slide it down to the write cursor. */
  method CompactRow(rows0: map<int, Bytes>, head: int, wc0: int, p: int, drop: bool)
    returns (rows: map<int, Bytes>, wc: int)
    requires head <= wc0 <= p && Stored(rows0) && forall q :: wc0 <= q < p ==> q !in rows0
    ensures wc == (if drop then wc0 else wc0 + 1) && Stored(rows)
    ensures forall q :: wc <= q < p + 1 ==> q !in rows
    ensures forall q :: q < head || p + 1 <= q ==> RowAt(rows, q) == RowAt(rows0, q)
    ensures RowElems(rows, head, wc) == RowElems(rows0, head, wc0) + if drop then [] else [Read(rows0, p)]
  {
    rows, wc := rows0, wc0;
    if drop {
      rows := rows - {p};
      assert RowElems(rows, head, wc) == RowElems(rows0, head, wc0);
    } else {
      if wc != p {
        rows := rows - {p};
        rows := Put(rows, wc, Read(rows0, p));
      }
      wc := wc + 1;
      assert RowElems(rows, head, wc) == RowElems(rows0, head, wc0) + [Read(rows0, p)];
    }
  }

  method CompactOne(ghost rows0: map<int, Bytes>, rows: map<int, Bytes>, head: int, wc: int, p: int, tail: int,
                    del: set<int>, dropped: int)
    returns (rows': map<int, Bytes>, wc': int, dropped': int)
    requires head <= p < tail && (p in del ==> p in rows0)
    requires Compacting(rows0, rows, head, wc, p, tail, del, dropped)
    ensures Compacting(rows0, rows', head, wc', p + 1, tail, del, dropped')
  {
    hide EntryBytes, Kept, Lost, Fits;
    ghost var s := RowElems(rows0, head, tail);
    KeptStep(s, p - head, head, del);
    LostStep(s, p - head, head, del);
    assert RowAt(rows, p) == RowAt(rows0, p);
    assert Read(rows, p) == s[p - head];
    dropped' := dropped + if p in del && p in rows then EntryBytes([rows[p]]) else 0;
    rows', wc' := CompactRow(rows, head, wc, p, p in del);
    forall q | q < head || p + 1 <= q ensures RowAt(rows', q) == RowAt(rows0, q) {
      assert RowAt(rows, q) == RowAt(rows0, q);
    }
  }

  /** The compaction pass of LREM: a write cursor slides each survivor down over the gaps. */
  method Compact(rows0: map<int, Bytes>, head: int, tail: int, del: set<int>)
    returns (rows: map<int, Bytes>, wc: int, dropped: int)
    requires head <= tail && Stored(rows0) && forall p :: p in del ==> p in rows0
    ensures head <= wc <= tail && Stored(rows) && Outside(rows, head, wc) == Outside(rows0, head, tail)
    ensures var s := RowElems(rows0, head, tail);
            RowElems(rows, head, wc) == Kept(s, head, del) && dropped == Lost(s, |s|, head, del)
  {
    hide Compacting, Kept, Lost, RowElems;
    rows, wc, dropped := rows0, head, 0;
    CompactEnds(rows0, rows, head, wc, tail, del, dropped);
    var p := head;
    while p < tail
      invariant head <= p <= tail && Compacting(rows0, rows, head, wc, p, tail, del, dropped)
    {
      rows, wc, dropped := CompactOne(rows0, rows, head, wc, p, tail, del, dropped);
      p := p + 1;
    }
    CompactEnds(rows0, rows, head, wc, tail, del, dropped);
  }

  /** The selection pass of LREM; none when the slice of the last matches would start past them all, which a
      negated count that is still negative brings about. */
  method Select(matches: seq<int>, count: int) returns (chosen: Option<seq<int>>)
    requires INT64_MIN <= count <= INT64_MAX
    ensures chosen == if count == INT64_MIN then None else Some(Chosen(matches, count))
  {
    hide Wrap64;
    if count > 0 {
      return Some(matches[..Min(count, |matches|)]);
    } else if count < 0 {
      NegatedLeast(count);
      var k := Min(Wrap64(-count), |matches|);
      if |matches| - k > |matches| {
        return None;
      }
      return Some(matches[|matches| - k..]);
    }
    chosen := Some(matches);
  }

  lemma SetOf(ps: seq<int>)
    ensures (set p | p in ps) == ToSet(ps)
  {
  }

  /** LREM on a cold list; none when the command panics. */
  method RemoveRun(c: Cold, target: Bytes, count: int) returns (r: Option<Cold>)
    requires WellFormed(c) && INT64_MIN <= count <= INT64_MAX
    ensures r.None? <==> count == INT64_MIN && Some(target) in View(c)
    ensures r.Some? ==>
              && WellFormed(r.value) && Rest(r.value) == Rest(c)
              && Elems(r.value) == Texts(Removed(View(c), Some(target), count))
              && r.value.everLarge == c.everLarge && r.value.head == c.head && r.value.tail <= c.tail
              && Ahead(Elems(r.value), r.value.lpBytes) == Ahead(Elems(c), c.lpBytes) && ListBytes(Elems(r.value)) <= ListBytes(Elems(c))
  {
    hide Kept, Lost, Removed, ListBytes, AllHits, RowElems, Texts, Outside;
    var matches := CollectMatches(c, target, count);
    ghost var v := View(c);
    ghost var all := AllHits(Matches(v, Some(target)), c.head);
    ChosenRemoves(v, Some(target), c.head, count);
    HitsNone(v, Some(target), c.head);
    if matches == [] {
      assert ToSet(Chosen(all, count)) == {};
      KeptNone(v, c.head);
      return Some(c);
    }
    var chosen := Select(matches, count);
    if chosen.None? {
      return None;
    }
    assert chosen.value == Chosen(all, count);
    ChosenAmong(matches, count, chosen.value);
    var rows, wc, dropped := Compact(c.rows, c.head, c.tail, set p | p in chosen.value);
    SetOf(chosen.value);
    TextsOfKept(v, c.head, ToSet(chosen.value));
    KeptSize(Elems(c), c.head, ToSet(chosen.value));
    r := Some(c.(rows := rows, tail := wc, lpBytes := c.lpBytes - dropped));
  }

  lemma ChosenAmong(matches: seq<int>, count: int, chosen: seq<int>)
    requires chosen == Chosen(matches, count)
    ensures forall p :: p in chosen ==> p in matches
  {
  }

  lemma {:induction false} HitsNone<T>(s: seq<T>, target: T, from: int)
    ensures AllHits(Matches(s, target), from) == [] <==> target !in s
    decreases |s|
  {
    if s != [] {
      HitsNone(s[1..], target, from + 1);
      assert Matches(s, target)[1..] == Matches(s[1..], target);
      assert target in s <==> target == s[0] || target in s[1..];
    }
  }

  method ScanRowsUp(rows: map<int, Bytes>, lo: int, hi: int, target: Bytes, c0: Collector) returns (c: Collector)
    requires lo <= hi
    ensures c == ScanUp(Matches(RowView(rows, lo, hi), Some(target)), lo, c0)
  {
    hide ScanUp;
    ghost var hits := Matches(RowView(rows, lo, hi), Some(target));
    hide RowView;
    c := c0;
    var k := 0;
    assert hits[..0] == [];
    ScanIdle([], lo, c0);
    while k < hi - lo
      invariant 0 <= k <= hi - lo
      invariant c == ScanUp(hits[..k], lo, c0)
    {
      ScanUpStep(hits, lo, c0, k, k);
      if lo + k in rows && rows[lo + k] == target && !c.done {
        c := Emit(c, lo + k);
      }
      k := k + 1;
    }
    assert hits[..hi - lo] == hits;
  }

  method ScanRowsDown(rows: map<int, Bytes>, lo: int, hi: int, target: Bytes, c0: Collector) returns (c: Collector)
    requires lo <= hi
    ensures c == ScanDown(Matches(RowView(rows, lo, hi), Some(target)), lo, c0)
  {
    hide ScanDown;
    ghost var hits := Matches(RowView(rows, lo, hi), Some(target));
    hide RowView;
    c := c0;
    var k := hi - lo;
    assert hits[k..] == [];
    ScanIdle([], hi, c0);
    while k > 0
      invariant 0 <= k <= hi - lo
      invariant c == ScanDown(hits[k..], lo + k, c0)
    {
      k := k - 1;
      ScanDownStep(hits, lo, c0, k, k + 1);
      if lo + k in rows && rows[lo + k] == target && !c.done {
        c := Emit(c, lo + k);
      }
    }
    assert hits[0..] == hits;
  }

  /** A scan of rows [lo, hi), position by position (scanRows). */
  method ScanRows(rows: map<int, Bytes>, lo: int, hi: int, target: Bytes, backward: bool, c0: Collector)
    returns (c: Collector)
    ensures lo >= hi ==> c == c0
    ensures lo <= hi ==>
              var hits := Matches(RowView(rows, lo, hi), Some(target));
              c == if backward then ScanDown(hits, lo, c0) else ScanUp(hits, lo, c0)
  {
    hide RowView, ScanUp, ScanDown, Matches;
    if lo >= hi {
      if lo == hi {
        ScanIdle(Matches(RowView(rows, lo, hi), Some(target)), lo, c0);
      }
      return c0;
    }
    if backward {
      c := ScanRowsDown(rows, lo, hi, target, c0);
    } else {
      c := ScanRowsUp(rows, lo, hi, target, c0);
    }
  }

  /** The positions LPOS examines under MAXLEN, in int64 arithmetic; a bound that wraps crosses the other. */
  method ExaminedBounds(head: int, tail: int, backward: bool, maxlen: nat) returns (lo: int, hi: int)
    requires head <= tail
    ensures lo < hi ==> head <= lo && hi <= tail
    ensures lo >= hi || (lo, hi) == (head + Examined(head, tail - head, backward, maxlen).0,
                                     head + Examined(head, tail - head, backward, maxlen).1)
    ensures lo >= hi ==> Examined(head, tail - head, backward, maxlen) == (0, 0)
  {
    hide Wrap64;
    lo, hi := head, tail;
    if maxlen > 0 {
      if backward {
        if Wrap64(hi - maxlen) > lo {
          lo := Wrap64(hi - maxlen);
        }
      } else {
        if Wrap64(lo + maxlen) < hi {
          hi := Wrap64(lo + maxlen);
        }
      }
    }
  }

  lemma ScannedNothing<T>(s: seq<T>, target: T, backward: bool, skip: int, want: int)
    ensures Scanned(s, target, backward, skip, want, 0, 0) == []
  {
  }

  /** LPOS on a cold list: a row read per position. */
  method PosRows(c: Cold, target: Bytes, backward: bool, skip: int, want: int, maxlen: nat) returns (out: seq<int>)
    requires WellFormed(c)
    ensures var (lo, hi) := Examined(c.head, c.tail - c.head, backward, maxlen);
            out == Scanned(View(c), Some(target), backward, skip, want, lo, hi)
  {
    hide ListBytes, RowElems, RowView, ScanUp, ScanDown, Examined;
    var eLo, eHi := ExaminedBounds(c.head, c.tail, backward, maxlen);
    var k := ScanRows(c.rows, eLo, eHi, target, backward, Collector(c.head, skip, want, [], false));
    out := k.out;
    if eLo < eHi {
      ghost var s, base := View(c), Collector(0, skip, want, [], false);
      ghost var hits := Matches(RowView(c.rows, eLo, eHi), Some(target));
      assert RowView(c.rows, eLo, eHi) == s[eLo - c.head..eHi - c.head];
      ScanUpShift(hits, eLo - c.head, base, c.head);
      ScanDownShift(hits, eLo - c.head, base, c.head);
    } else {
      ScannedNothing(View(c), Some(target), backward, skip, want);
    }
  }

  /** The rows at indexes [lo, hi). */
  method ReadRows(rows: map<int, Bytes>, head: int, tail: int, lo: int, hi: int) returns (vs: seq<Bytes>)
    requires head <= tail && 0 <= lo <= hi <= tail - head
    ensures vs == RowElems(rows, head, tail)[lo..hi]
  {
    ghost var s := RowElems(rows, head, tail);
    vs := [];
    var i := lo;
    while i < hi
      invariant lo <= i <= hi && vs == s[lo..i]
    {
      vs := vs + [Read(rows, head + i)];
      i := i + 1;
    }
  }
}
