/** One list key: its element rows, its header row and, while it is hot, its resident window
    (f1srv/list.go, f1srv/listwinreg.go).  Each method is one command, or one step of one, run under
    the key's lock; `Abs` is the plain deque the three representations stand for together. */
module HotList {
  import opened Bytes
  import opened ListSize
  import opened ListSpec
  import opened ListPushes
  import opened ListCells
  import opened ListPops
  import ListLaws
  import L = ListRing
  import opened ListView
  import opened ListWindow
  import opened ListRows
  import opened ListSeen
  import opened ListRemoval
  import opened Pipeline
  import opened RowStore

  datatype Header = Header(head: int, tail: int, lpBytes: int, everLarge: bool)

  /** A window whose band is its whole span reads as its rows. */
  lemma BandIsList(view: seq<Option<Bytes>>, rows: map<int, Bytes>, head: int, tail: int)
    requires |view| > 0 && head <= tail
    ensures Contents(view, rows, head, tail, head, tail) == RowElems(rows, head, tail)
  {
  }

  /** The bounds in a header row. */
  function RowOf(header: Option<Header>): (row: Option<(int, int)>)
  {
    match header case None => None case Some(h) => Some((h.head, h.tail))
  }

  /** The list a header row and the rows stand for. */
  function ColdOf(rows: map<int, Bytes>, header: Option<Header>): (c: Cold)
  {
    match header
    case None => Cold(rows, 0, 0, LIST_HEADER_BYTES, false)
    case Some(h) => Cold(rows, h.head, h.tail, h.lpBytes, h.everLarge)
  }

  /** A missing list in hand. */
  lemma NoneInHand(rows: map<int, Bytes>)
    requires Stored(rows)
    ensures WellFormed(ColdOf(rows, None)) && Elems(ColdOf(rows, None)) == []
  {
    assert RowElems(rows, 0, 0) == [] && ListBytes([]) == LIST_HEADER_BYTES;
  }

  /** A resident list at a band of rows. */
  ghost function HotOf(elems: seq<Bytes>, everLarge: bool, head: int, header: Option<Header>, rest: Strays, lpBytes: int): (c: Cell)
  {
    Cell(Deque(elems, everLarge), head, true, RowOf(header), rest, Ahead(elems, lpBytes))
  }

  lemma HotCoherent(elems: seq<Bytes>, everLarge: bool, head: int, header: Option<Header>, rest: Strays, lpBytes: int)
    requires elems != [] && Stored(rest) && SizeTracks(elems, lpBytes, everLarge)
    ensures Coherent(HotOf(elems, everLarge, head, header, rest, lpBytes))
  {
    hide ListBytes, Fits;
  }

  /** A size that was the elements' still is, or ahead, after the store has refused some of them. */
  lemma RetiredTracks(s: seq<Bytes>, rest: Strays, head: int, lpBytes: int, everLarge: bool)
    requires Stored(rest) && SizeTracks(s, lpBytes, everLarge)
    ensures SizeTracks(Written(s, rest, head), lpBytes, everLarge)
  {
    hide EntryBytes, Fits;
    WrittenSize(s, rest, head);
    WrittenWhole(s, rest, head);
  }

  /** The rows a flush leaves stand for the retired list. */
  lemma RetiredIs(s: seq<Bytes>, rest: Strays, rows: map<int, Bytes>, head: int, tail: int, header: Option<Header>,
                  lpBytes: int, everLarge: bool)
    requires head < tail && |s| == tail - head && Stored(rest) && Stored(rows) && SizeTracks(s, lpBytes, everLarge)
    requires RowElems(rows, head, tail) == Written(s, rest, head) && Outside(rows, head, tail) == Outside(rest, head, tail)
    ensures var c := Cold(rows, head, tail, lpBytes, everLarge);
            WellFormed(c) && CellOf(c) == Retired(HotOf(s, everLarge, head, header, rest, lpBytes))
  {
    hide ListBytes, RowElems, Outside, Written, Fits;
    RetiredTracks(s, rest, head, lpBytes, everLarge);
  }

  lemma OutsideStored(rows: map<int, Bytes>, a: int, b: int)
    requires Stored(rows)
    ensures Stored(Outside(rows, a, b))
  {
  }

  /** The claimed slices carry these bytes. */
  ghost predicate Carry(bufs: seq<L.Buffer?>, taken: seq<Bytes>)
    reads set b | b in bufs
  {
    && |bufs| == |taken|
    && forall i :: 0 <= i < |bufs| ==> if bufs[i] == null then taken[i] == [] else bufs[i].data == taken[i]
  }

  /** The bytes of the claimed slices, read when the reply is framed. */
  method Frame(bufs: seq<L.Buffer?>, ghost taken: seq<Bytes>) returns (framed: seq<Bytes>)
    requires Carry(bufs, taken)
    ensures framed == taken
  {
    framed := [];
    var i := 0;
    while i < |bufs|
      invariant 0 <= i <= |bufs| && framed == taken[..i]
    {
      framed := framed + [if bufs[i] == null then [] else bufs[i].data];
      i := i + 1;
    }
  }

  /** The header row for a window: none once the window is empty. */
  function HeaderRow(head: int, tail: int, lpBytes: int, everLarge: bool): (h: Option<Header>)
  {
    if head == tail then None else Some(Header(head, tail, lpBytes, everLarge))
  }

  class HotList {
    const sigs: L.Signatures
    var rows: map<int, Bytes>
    var header: Option<Header>
    var win: ListWindow?

    ghost function Foot(): (f: set<object>)
      reads this, if win == null then {} else {win.ring}
      ensures this in f && (win != null ==> win in f && win.ring in f)
    {
      {this} + if win == null then {} else {win, win.ring} + win.ring.Repr
    }

    /** The size and flag describe the elements, and the band lies within the bounds of the header row. */
    ghost predicate Valid()
      reads this, Foot()
    {
      && Stored(rows)
      && if win == null then
           match header
           case None => true
           case Some(h) => h.head < h.tail && WellFormed(ColdOf(rows, header))
         else
           && this !in win.ring.Repr && win.ring.sigs == sigs
           && win.Valid() && !win.evicted && win.committedHead < win.committedTail
           && SizeTracks(win.Elements(rows), win.lpBytes, win.everLarge)
           && (win.preLo < win.preHi ==> header.Some? && header.value.head <= win.preLo && win.preHi <= header.value.tail)
    }

    /** The key this stands for: the deque, and what besides it a client can come to notice. */
    ghost function State(): (c: Cell)
      requires Valid()
      reads this, Foot()
      ensures Coherent(c) && c.hot == (win != null) && c.row == RowOf(header)
    {
      if win == null then
        NoneInHand(rows);
        CellCoherent(ColdOf(rows, header));
        CellOf(ColdOf(rows, header))
      else
        var s, rest := win.Elements(rows), Outside(rows, win.preLo, win.preHi);
        HotCoherent(s, win.everLarge, win.committedHead, header, rest, win.lpBytes);
        HotOf(s, win.everLarge, win.committedHead, header, rest, win.lpBytes)
    }

    /** The deque this key stands for. */
    ghost function Abs(): (d: Deque)
      requires Valid()
      reads this, Foot()
      ensures d == State().d
    {
      State().d
    }

    static lemma RetiredCold(c: Cell)
      requires !c.hot
      ensures Retired(c) == c
    {
    }

    /** Retire the window: rows and header alone then hold the list, but for what the store refuses. */
    method DrainEvict()
      requires Valid()
      modifies this, if win == null then {} else {win}
      ensures Valid() && win == null
      ensures State() == Retired(old(State()))
    {
      if win == null {
        return;
      }
      hide ListBytes, Contents, RowElems, Outside, Written, Fits, BandNil, HotOf, CellOf, SizeTracks, Stored;
      ghost var s, rest := win.Elements(rows), Outside(rows, win.preLo, win.preHi);
      ghost var was := header;
      OutsideStored(rows, win.preLo, win.preHi);
      rows := win.Flushed(rows);
      RetiredIs(s, rest, rows, win.committedHead, win.committedTail, was, win.lpBytes, win.everLarge);
      header := HeaderRow(win.committedHead, win.committedTail, win.lpBytes, win.everLarge);
      win.evicted := true;
      win := null;
    }

    /** What the header row and the rows say (listHeaderAt) is the list, while no window is resident. */
    lemma Loaded()
      requires Valid()
      ensures header == None ==> ColdOf(rows, header).head == ColdOf(rows, header).tail == 0
      ensures win == null ==>
                var c := ColdOf(rows, header);
                WellFormed(c) && CellOf(c) == State() && (header.Some? <==> c.head < c.tail)
    {
      NoneInHand(rows);
    }

    /** Write a cold list back, dropping the header of an emptied one. */
    method Store(c: Cold)
      requires win == null && WellFormed(c)
      modifies this
      ensures win == null && Valid()
      ensures State() == CellOf(c) && (header.Some? <==> c.head < c.tail)
    {
      rows := c.rows;
      header := HeaderRow(c.head, c.tail, c.lpBytes, c.everLarge);
      GoneAnywhere(c);
    }

    static lemma GoneAnywhere(c: Cold)
      requires WellFormed(c)
      ensures c.head == c.tail ==> CellOf(c) == CellOf(ColdOf(c.rows, None))
    {
      assert Outside(c.rows, c.head, c.head) == c.rows == Outside(c.rows, 0, 0);
    }

    /** Make a live cold list hot: every position starts in the pre-block band. */
    method Admit()
      requires Valid() && win == null && header.Some?
      modifies this
      ensures Valid() && win != null && fresh(Foot() - {this})
      ensures State() == old(State()).(hot := true)
    {
      hide ListBytes, Contents, RowElems, Outside;
      var h := header.value;
      var w := new ListWindow(h.head, h.tail, h.lpBytes, h.everLarge, sigs);
      BandIsList(w.ring.view, rows, h.head, h.tail);
      win := w;
    }

    /** The resident push: no row is written, the run lands in the ring. */
    method PushWindow(run: seq<Bytes>, atHead: bool) returns (baseLen: int)
      requires Valid() && win != null
      modifies Foot()
      ensures Valid() && win != null && fresh(Foot() - old(Foot()))
      ensures baseLen == |old(Abs()).elems| > 0
      ensures State() == Grown(old(State()), run, atHead, true)
    {
      hide ListBytes, Contents, Pushed, Outside, BandNil, Ahead;
      PushedLength(win.Elements(rows), run, atHead);
      baseLen := win.PushRun(run, atHead, rows);
    }

    /** Rows laid outwards from the header row's bounds leave the list alone. */
    lemma Beside(run: seq<Bytes>, atHead: bool)
      requires Valid() && AllFit(run)
      ensures var c := ColdOf(rows, header);
              var rows' := Lay(rows, run, c.head, c.tail, atHead);
              && Stored(rows')
              && (win == null ==> WellFormed(c.(rows := rows')) && CellOf(c.(rows := rows')) == Strewn(State(), run, atHead))
              && (win != null ==>
                    && win.Elements(rows') == win.Elements(rows)
                    && Outside(rows', win.preLo, win.preHi) == Strewn(State(), run, atHead).rest)
    {
      hide Fits, ListBytes, RowElems, Contents, BandNil;
      Loaded();
      var c := ColdOf(rows, header);
      if win == null {
        StrewnCell(c, run, atHead);
      } else {
        var rows' := Lay(rows, run, c.head, c.tail, atHead);
        hide Lay;
        LayBeside(rows, run, c.head, c.tail, atHead, win.preLo, win.preHi);
        SameContents(win.ring.view, rows, rows', win.preLo, win.preHi, win.committedHead, win.committedTail);
      }
    }

    /** The rows that a push body wrote before it was refused an element: the header row does not count them. */
    method Strew(c: Cold, run: seq<Bytes>, atHead: bool)
      requires Valid() && AllFit(run) && c.rows == Lay(rows, run, ColdOf(rows, header).head, ColdOf(rows, header).tail, atHead)
      modifies this
      ensures Valid() && win == old(win) && Foot() == old(Foot())
      ensures State() == Strewn(old(State()), run, atHead)
    {
      hide Lay, Fits, Contents, ListBytes, RowElems, Outside, Stored, BandNil;
      Beside(run, atHead);
      rows := c.rows;
    }

    static lemma SameContents(view: seq<Option<Bytes>>, rows0: map<int, Bytes>, rows: map<int, Bytes>, lo: int,
                              hi: int, head: int, tail: int)
      requires |view| > 0 && head <= tail && forall p :: lo <= p < hi ==> RowAt(rows, p) == RowAt(rows0, p)
      ensures Contents(view, rows, lo, hi, head, tail) == Contents(view, rows0, lo, hi, head, tail)
    {
      var s, t := Contents(view, rows0, lo, hi, head, tail), Contents(view, rows, lo, hi, head, tail);
      forall i | 0 <= i < |s| ensures t[i] == s[i] {
        assert lo <= head + i < hi ==> RowAt(rows, head + i) == RowAt(rows0, head + i);
      }
    }

    /** The push loop over rows, from the header row's bounds. */
    method Extend(run: seq<Bytes>, atHead: bool) returns (c: Cold, k: nat)
      requires Valid()
      ensures Valid() && State() == old(State()) && rows == old(rows) && header == old(header) && Foot() == old(Foot())
      ensures k == Landed(run) && c == Extended(ColdOf(rows, header), run[..k], atHead)
      ensures c.rows == Lay(rows, run[..k], ColdOf(rows, header).head, ColdOf(rows, header).tail, atHead)
    {
      hide Landed, Fits, Lay, EntryBytes, Contents, RowElems, Outside, BandNil, Stored, SizeTracks;
      c, k := ExtendRun(ColdOf(rows, header), run, atHead);
    }

    /** A run the store took, counted in the header row; repeat traffic admits a window. */
    method Land(c: Cold, run: seq<Bytes>, atHead: bool, admit: bool)
      requires Valid() && win == null && run != [] && AllFit(run) && c == Extended(ColdOf(rows, header), run, atHead)
      modifies this
      ensures Valid() && fresh(Foot() - {this}) && (!admit ==> win == null)
      ensures State() == Grown(old(State()), run, atHead, admit)
      ensures c.tail - c.head == |old(State()).d.elems| + |run|
    {
      hide ListBytes, Extended, AllFit, Grown, WellFormed, CellOf, HotList.State;
      Loaded();
      Joins(ColdOf(rows, header), run, atHead);
      Store(c);
      GrownAdmits(old(State()), run, atHead);
      if admit {
        Admit();
      }
    }

    static lemma GrownAdmits(c: Cell, run: seq<Bytes>, atHead: bool)
      requires !c.hot
      ensures Grown(c, run, atHead, true) == Grown(c, run, atHead, false).(hot := true)
    {
    }

    /** The stripe-locked push body, which goes by the header row; repeat traffic on a cold list admits a window. */
    method PushBody(run: seq<Bytes>, atHead: bool, requireExisting: bool, room: bool) returns (reply: Reply)
      requires Valid() && run != [] && (win != null ==> !AllFit(run))
      modifies this
      ensures Valid() && fresh(Foot() - old(Foot())) && (old(win) == null && !room ==> win == null)
      ensures (State(), reply) == PushIn(old(State()), run, atHead, requireExisting, room)
    {
      hide ListBytes, HotList.Valid, HotList.State, Extended, Lay, Landed, AllFit, Grown, Strewn;
      var existed := header.Some?;
      if requireExisting && !existed {
        return Number(0);
      }
      var c, k := Extend(run, atHead);
      if k < |run| {
        Strew(c, run[..k], atHead);
        return Refused;
      }
      assert run[..k] == run;
      Land(c, run, atHead, existed && room);
      reply := Number(c.tail - c.head);
    }

    /** A whole run that the store took. */
    static lemma Joins(c: Cold, run: seq<Bytes>, atHead: bool)
      requires WellFormed(c) && AllFit(run) && run != [] && (c.head < c.tail || (c.head == 0 && c.lpBytes == LIST_HEADER_BYTES && !c.everLarge))
      ensures var c' := Extended(c, run, atHead);
              && WellFormed(c') && c'.head < c'.tail && c'.tail - c'.head == |CellOf(c).d.elems| + |run|
              && CellOf(c') == Grown(CellOf(c), run, atHead, false)
    {
      ExtendedIs(c, run, atHead);
      ExtendedCell(c, run, atHead);
    }

    /** LPUSH, RPUSH, LPUSHX and RPUSHX.  `room` says whether the window registry has space. */
    method Push(run: seq<Bytes>, atHead: bool, requireExisting: bool, room: bool) returns (reply: Reply)
      requires Valid() && run != []
      modifies Foot()
      ensures Valid() && fresh(Foot() - old(Foot()))
      ensures (State(), reply) == PushIn(old(State()), run, atHead, requireExisting, room)
    {
      hide ListBytes, AllFit, Grown, HotList.Valid, HotList.State;
      if win != null && AllFit(run) {
        var baseLen := PushWindow(run, atHead);
        reply := Number(baseLen + |run|);
      } else {
        reply := PushBody(run, atHead, requireExisting, room);
      }
    }

    /** The header row that a stopped pipeline leaves. */
    method Recount(c: Cold, k: nat, atHead: bool)
      requires Valid() && win != null && k > 0
      requires var c0 := ColdOf(rows, header);
               c.head == (if atHead then c0.head - k else c0.head) && c.tail == if atHead then c0.tail else c0.tail + k
      modifies this
      ensures Valid() && win == old(win) && Foot() == old(Foot())
      ensures State() == old(State()).(row := Recounted(old(State()).row, k, atHead))
    {
      hide ListBytes, Contents, RowElems, Outside, BandNil, Stored, SizeTracks;
      header := Some(Header(c.head, c.tail, c.lpBytes, c.everLarge));
    }

    /** What a pipeline leaves when the store refused its element k. */
    method Cut(c: Cold, elems: seq<Bytes>, k: nat, atHead: bool)
      requires Valid() && k < |elems| && AllFit(elems[..k]) && c == Extended(ColdOf(rows, header), elems[..k], atHead)
      modifies this
      ensures Valid() && win == old(win) && Foot() == old(Foot())
      ensures State() == if win == null then (if k == 0 then old(State()) else Grown(old(State()), elems[..k], atHead, false))
                         else Strewn(old(State()), elems[..k], atHead).(row := Recounted(old(State()).row, k, atHead))
    {
      hide ListBytes, Extended, Lay, AllFit, Grown, HotList.Valid, HotList.State;
      ExtendedFields(ColdOf(rows, header), elems[..k], atHead);
      if k == 0 {
        NoneStrewn(State(), atHead);
        return;
      }
      if win == null {
        Land(c, elems[..k], atHead, false);
      } else {
        Strew(c, elems[..k], atHead);
        Recount(c, k, atHead);
      }
    }

    static lemma ExtendedFields(c: Cold, run: seq<Bytes>, atHead: bool)
      ensures var c' := Extended(c, run, atHead);
              && c'.rows == Lay(c.rows, run, c.head, c.tail, atHead)
              && c'.head == (if atHead then c.head - |run| else c.head) && c'.tail == if atHead then c.tail else c.tail + |run|
    {
    }

    static lemma NoneStrewn(c: Cell, atHead: bool)
      ensures Strewn(c, [], atHead).(row := Recounted(c.row, 0, atHead)) == c
    {
      match c.row
      case None =>
      case Some(b) => assert b == (b.0, b.1);
    }

    /** The row body of a folded pipeline of pushes. */
    method PipeBody(elems: seq<Bytes>, bnd: seq<int>, atHead: bool, requireExisting: bool, room: bool) returns (replies: seq<Reply>)
      requires Valid() && elems != [] && (win != null ==> !AllFit(elems))
      modifies this
      ensures Valid() && fresh(Foot() - old(Foot()))
      ensures (State(), replies) == PipeIn(old(State()), elems, bnd, atHead, requireExisting, room)
    {
      hide ListBytes, HotList.Valid, HotList.State, Extended, Lay, Landed, AllFit, Grown, Strewn, Recounted, Lengths,
           Zeros, CutReplies;
      var existed := header.Some?;
      if requireExisting && !existed {
        return Zeros(|bnd|);
      }
      var base := ColdOf(rows, header).tail - ColdOf(rows, header).head;
      var c, k := Extend(elems, atHead);
      if k < |elems| {
        Cut(c, elems, k, atHead);
        return CutReplies(base, bnd, k);
      }
      assert elems[..k] == elems;
      Land(c, elems, atHead, existed && room);
      replies := Lengths(base, bnd, |bnd|);
    }

    /** A pipeline of same-key pushes run as one. */
    method PushCoalesced(elems: seq<Bytes>, bnd: seq<int>, atHead: bool, requireExisting: bool, room: bool) returns (replies: seq<Reply>)
      requires Valid() && Boundaries(bnd, |elems|)
      modifies Foot()
      ensures Valid() && fresh(Foot() - old(Foot()))
      ensures (State(), replies) == PipeIn(old(State()), elems, bnd, atHead, requireExisting, room)
    {
      hide ListBytes, AllFit, Grown, HotList.Valid, HotList.State, Lengths;
      if win != null && AllFit(elems) {
        var baseLen := PushWindow(elems, atHead);
        replies := Lengths(baseLen, bnd, |bnd|);
      } else {
        replies := PipeBody(elems, bnd, atHead, requireExisting, room);
      }
    }

    /** What LPOS compares, entry by entry. */
    ghost function ReadView(): (s: seq<Option<Bytes>>)
      requires Valid()
      reads this, Foot()
      ensures Texts(s) == Abs().elems
    {
      if win == null then NoneInHand(rows); View(ColdOf(rows, header)) else win.SeenList(rows)
    }

    /** What LINSERT and LREM compare, entry by entry. */
    ghost function EditView(): (s: seq<Option<Bytes>>)
      requires Valid()
      reads this, Foot()
      ensures Texts(s) == Abs().elems
    {
      if win == null then NoneInHand(rows); View(ColdOf(rows, header)) else win.EditList(rows)
    }

    /** The row path of LPOP and RPOP, the only one that may empty the list. */
    method PopCold(atHead: bool, count: Option<nat>) returns (reply: Reply)
      requires Valid() && win == null
      modifies this
      ensures Valid() && win == null
      ensures (State(), reply) == Popped(old(State()), atHead, count)
    {
      hide ListBytes, Reverse, RowElems, Outside, Stored, HotList.State, Popped, CellOf, SizeTracks, Taken, Left, Ahead;
      Loaded();
      if header == None {
        PoppedGone(ColdOf(rows, header), atHead, count);
        return if count.None? then Nil else NilArray;
      }
      var c := ColdOf(rows, header);
      ghost var c0 := c;
      var n := c.tail - c.head;
      var want := match count case None => 1 case Some(k) => Min(k, n);
      var taken;
      c, taken := PopRun(c, atHead, want);
      reply := if count.None? then Bulk(taken[0]) else Array(taken);
      PoppedIsRun(c0, c, atHead, count, want);
      Store(c);
    }

    static lemma PoppedGone(c: Cold, atHead: bool, count: Option<nat>)
      requires c.head == c.tail
      ensures Popped(CellOf(c), atHead, count) == (CellOf(c), if count.None? then Nil else NilArray)
    {
    }

    /** A pop of this many rows is the pop of the key. */
    static lemma PoppedIsRun(c0: Cold, c: Cold, atHead: bool, count: Option<nat>, want: int)
      requires WellFormed(c0) && WellFormed(c) && c0.head < c0.tail && want == Min(Wanting(count), c0.tail - c0.head)
      requires Elems(c) == Left(Elems(c0), atHead, want) && Rest(c) == Rest(c0)
      requires c.everLarge == c0.everLarge && c.head == if atHead then c0.head + want else c0.head
      requires Ahead(Elems(c), c.lpBytes) == Ahead(Elems(c0), c0.lpBytes)
      ensures var taken := Taken(Elems(c0), atHead, want);
              Popped(CellOf(c0), atHead, count) == (CellOf(c), if count.None? then Bulk(taken[0]) else Array(taken))
    {
      hide ListBytes, RowElems, Outside, Stored, Ahead, Shrunk, Taken, SizeTracks;
      SizeOfLeft(Elems(c0), atHead, want);
      ShrunkIs(c0, c, Left(Elems(c0), atHead, want));
      EditedLength(CellOf(c0).d, Left(Elems(c0), atHead, want));
    }

    static lemma EditedLength(d: Deque, s: seq<Bytes>)
      ensures |Edited(d, s).elems| == |s|
    {
    }

    /** A shorter list over the same rows. */
    static lemma ShrunkIs(c0: Cold, c: Cold, kept: seq<Bytes>)
      requires WellFormed(c0) && WellFormed(c) && c0.head < c0.tail && Elems(c) == kept && Rest(c) == Rest(c0)
      requires c.everLarge == c0.everLarge && Ahead(Elems(c), c.lpBytes) == Ahead(Elems(c0), c0.lpBytes)
      requires ListBytes(kept) <= ListBytes(Elems(c0))
      ensures CellOf(c) == Shrunk(CellOf(c0), Edited(CellOf(c0).d, kept), c.head)
    {
      hide ListBytes, RowElems, Outside, Stored;
    }

    /** A pop through the window; it declines one that would empty the list. */
    method PopHot(atHead: bool, want: int) returns (ok: bool, bufs: seq<L.Buffer?>, taken: seq<Bytes>)
      requires Valid() && win != null
      modifies Foot()
      ensures Valid() && win == old(win) && Foot() <= old(Foot())
      ensures ok <==> 0 < want < |old(Abs()).elems|
      ensures !ok ==> State() == old(State())
      ensures ok ==> taken == Taken(old(Abs()).elems, atHead, want)
      ensures ok ==> State() == old(State()).(d := Edited(old(Abs()), Left(old(Abs()).elems, atHead, want)),
                                              head := old(State()).head + if atHead then want else 0)
      ensures ok ==> Carry(bufs, taken) && forall i :: 0 <= i < |bufs| && bufs[i] != null ==> bufs[i] !in Foot()
    {
      hide ListBytes, Reverse, Contents, Taken, Outside, BandNil, Stored, Ahead;
      var rows';
      ok, bufs, taken, rows' := win.PopRun(atHead, want, rows);
      rows := rows';
    }

    /** LPOP and RPOP: through the window while that leaves the list alive, on rows otherwise; a key without a
        header row is taken for a missing one before anybody asks its window. */
    method Pop(atHead: bool, count: Option<nat>) returns (reply: Reply)
      requires Valid()
      modifies Foot()
      ensures Valid() && fresh(Foot() - old(Foot()))
      ensures (State(), reply) == PopIn(old(State()), atHead, count)
    {
      hide ListBytes, Edited, Taken, Left, HotList.Valid, HotList.State, Popped, Retired;
      ghost var c := State();
      if win != null {
        var ok, _, taken := PopHot(atHead, Wanting(count));
        if ok {
          PoppedIs(c, atHead, count);
          return if count.None? then Bulk(taken[0]) else Array(taken);
        }
      }
      if header == None {
        return if count.None? then Nil else NilArray;
      }
      DrainEvict();
      reply := PopCold(atHead, count);
    }

    /** A run of n pipelined pops of one element (drainPop): one claim on the window if it takes them all, and else
        each by itself.  Either way it is n pops one after another. */
    method PopPipelined(atHead: bool, n: nat) returns (replies: seq<Reply>)
      requires Valid()
      modifies Foot()
      ensures Valid() && fresh(Foot() - old(Foot()))
      ensures (State(), replies) == EachPop(old(State()), atHead, n)
    {
      hide ListBytes, Edited, Taken, Left, HotList.Valid, HotList.State, PopIn, Coherent, EachPop;
      ghost var c := State();
      PopsExact(c, atHead, n);
      if n > 1 && win != null {
        var ok, _, taken := PopHot(atHead, n);
        if ok {
          return Bulks(taken);
        }
      }
      replies := [];
      var i := 0;
      EachPopStep(c, atHead, 0);
      while i < n
        invariant 0 <= i <= n && Valid() && fresh(Foot() - old(Foot()))
        invariant (State(), replies) == EachPop(c, atHead, i)
      {
        EachPopStep(c, atHead, i);
        var reply := Pop(atHead, None);
        replies := replies + [reply];
        i := i + 1;
      }
    }

    static lemma EachPopStep(c: Cell, atHead: bool, i: nat)
      ensures EachPop(c, atHead, 0) == (c, [])
      ensures var (c1, rs) := EachPop(c, atHead, i);
              var (c2, r) := PopIn(c1, atHead, None);
              EachPop(c, atHead, i + 1) == (c2, rs + [r])
    {
      hide PopIn;
    }

    /** A pop whose replies are framed only after another connection has pushed (popEmitWindow frames
        off the lock): the claimed slices still carry the popped bytes. */
    method PopFramedLate(atHead: bool, want: int, run: seq<Bytes>, runAtHead: bool) returns (framed: seq<Bytes>)
      requires Valid() && win != null && 0 < want < |Abs().elems|
      modifies Foot()
      ensures Valid() && fresh(Foot() - old(Foot()))
      ensures framed == Taken(old(Abs()).elems, atHead, want)
      ensures Abs().elems == Pushed(Left(old(Abs()).elems, atHead, want), run, runAtHead)
    {
      hide Carry, ListBytes, Pushed, Left, Taken, HotList.Valid, HotList.State;
      var ok, bufs, taken := PopHot(atHead, want);
      ghost var s := Abs().elems;
      PushedLength(s, run, runAtHead);
      var _ := PushWindow(run, runAtHead);
      framed := Frame(bufs, taken);
    }

    method Length() returns (n: int)
      requires Valid()
      ensures n == |Abs().elems|
    {
      if win != null {
        n := win.committedTail - win.committedHead;
      } else if header.Some? {
        n := header.value.tail - header.value.head;
      } else {
        n := 0;
      }
    }

    /** LRANGE. */
    method LRange(start: int, stop: int) returns (reply: Reply)
      requires Valid()
      ensures reply == ListSpec.LRange(Abs(), start, stop)
      ensures reply == Array(ListLaws.Between(Abs().elems, start, stop))
    {
      hide ListBytes, Contents, RowElems, Outside, ListLaws.Between;
      ListLaws.RangeReports(Abs(), start, stop);
      var n := Length();
      var (lo, hi) := Range(start, stop, n);
      var vs := [];
      if win != null {
        vs := win.ReadRange(rows, lo, hi);
      } else if header.Some? {
        vs := ReadRows(rows, header.value.head, header.value.tail, lo, hi);
      }
      reply := Array(vs);
    }

    /** LPOS. */
    method LPos(target: Bytes, rank: int, count: Option<nat>, maxlen: nat) returns (reply: Reply)
      requires Valid() && rank != 0
      ensures reply == PosAt(ReadView(), State().head, Some(target), rank, count, maxlen)
      ensures SeesAll(ReadView(), target) ==> reply == PosAt(Abs().elems, State().head, target, rank, count, maxlen)
    {
      hide ListBytes, Contents, Scanned, Seen, Examined, RowElems, RowView, Outside, Stored;
      Loaded();
      ghost var range := Examined(State().head, |Abs().elems|, rank < 0, maxlen);
      var skip := if rank < 0 then -rank - 1 else rank - 1;
      var want: int := match count case None => -1 case Some(k) => k;
      var out;
      if win != null {
        out := win.PosScan(rows, target, rank < 0, skip, want, maxlen);
      } else {
        out := PosRows(ColdOf(rows, header), target, rank < 0, skip, want, maxlen);
      }
      reply := if count.Some? then Numbers(out) else if out == [] then Nil else Number(out[0]);
      if SeesAll(ReadView(), target) {
        PosSeen(ReadView(), target, rank, count, range);
      }
    }

    /** The row path of LINSERT. */
    method InsertCold(pivot: Bytes, val: Bytes, before: bool) returns (reply: Reply)
      requires Valid() && win == null
      modifies this
      ensures Valid() && win == null
      ensures (State(), reply) == InsertIn(old(State()), FirstIndex(old(EditView()), Some(pivot)), val, before)
    {
      hide ListBytes, FirstIndex, RowElems, RowView, Outside, Stored, InsertRows, SizeTracks;
      Loaded();
      if header == None {
        return Number(0);
      }
      var c := ColdOf(rows, header);
      var k := FindPivot(c, pivot);
      if k == None {
        return Number(-1);
      }
      c := InsertAt(c, if before then k.value else k.value + 1, val);
      Store(c);
      reply := Number(c.tail - c.head);
    }

    /** The resident path of LINSERT. */
    method InsertHot(pivot: Bytes, val: Bytes, before: bool) returns (reply: Reply)
      requires Valid() && win != null
      modifies Foot()
      ensures Valid() && win != null && fresh(Foot() - old(Foot()))
      ensures (State(), reply) == InsertIn(old(State()), FirstIndex(old(EditView()), Some(pivot)), val, before)
    {
      hide ListBytes, FirstIndex, Contents, Edit, BandNil, Ahead, InsertRows, Outside, Stored, Coherent;
      var n := win.committedTail - win.committedHead;
      var rows', found := win.InsertResident(rows, pivot, val, before);
      NoneOutside(rows');
      win.Unbanded(rows');
      rows := rows';
      reply := Number(if found.None? then -1 else n + 1);
    }

    static lemma NoneOutside(rows: map<int, Bytes>)
      ensures Outside(rows, 0, 0) == rows
    {
    }

    /** LINSERT. */
    method LInsert(pivot: Bytes, val: Bytes, before: bool) returns (reply: Reply)
      requires Valid()
      modifies Foot()
      ensures Valid() && fresh(Foot() - old(Foot()))
      ensures (State(), reply) == InsertIn(old(State()), FirstIndex(old(EditView()), Some(pivot)), val, before)
      ensures SeesAll(old(EditView()), pivot) ==>
                (State(), reply) == InsertIn(old(State()), FirstIndex(old(Abs()).elems, pivot), val, before)
    {
      hide FirstIndex, InsertIn, HotList.Valid, HotList.State, HotList.EditView;
      FirstIndexSeen(EditView(), pivot);
      if win != null {
        reply := InsertHot(pivot, val, before);
      } else {
        reply := InsertCold(pivot, val, before);
      }
    }

    /** The row path of LREM; the panic leaves everything as it was. */
    method RemCold(target: Bytes, count: int) returns (reply: Reply)
      requires Valid() && win == null && INT64_MIN <= count <= INT64_MAX
      modifies this
      ensures Valid() && win == null
      ensures if count == INT64_MIN && Some(target) in old(EditView()) then State() == old(State()) && reply == Crash
              else (State(), reply) == RemIn(old(State()), Texts(Removed(old(EditView()), Some(target), count)))
    {
      hide ListBytes, Removed, RowElems, RowView, Outside, Stored, Texts;
      Loaded();
      var c := ColdOf(rows, header);
      RemovedEmpty(View(c), Some(target), count);
      var r := RemoveRun(c, target, count);
      if r.None? {
        return Crash;
      }
      var c' := r.value;
      reply := Number(c.tail - c'.tail);
      if header.Some? {
        ShrunkIs(c, c', Elems(c'));
      }
      Store(c');
    }

    static lemma RemovedEmpty(v: seq<Option<Bytes>>, target: Option<Bytes>, count: int)
      ensures v == [] ==> Texts(Removed(v, target, count)) == []
    {
    }

    /** The resident path of LREM; removing the last element drops the window and the key. */
    method RemHot(target: Bytes, count: int) returns (reply: Reply)
      requires Valid() && win != null && INT64_MIN <= count <= INT64_MAX
      modifies Foot()
      ensures Valid() && fresh(Foot() - old(Foot()))
      ensures (State(), reply) == RemIn(old(State()), Texts(Removed(old(EditView()), Some(target), Counted(count))))
    {
      hide ListBytes, Removed, Contents, Edit, Texts, BandNil, Ahead;
      var rows', removed := win.RemoveResident(rows, target, count);
      NoneOutside(rows');
      win.Unbanded(rows');
      rows := rows';
      reply := Number(removed);
      if win.committedHead == win.committedTail {
        win.evicted := true;
        win := null;
        header := None;
      }
    }

    /** LREM, for every count an int64 holds. */
    method LRem(target: Bytes, count: int) returns (reply: Reply)
      requires Valid() && INT64_MIN <= count <= INT64_MAX
      modifies Foot()
      ensures Valid() && fresh(Foot() - old(Foot()))
      ensures if old(win) == null && count == INT64_MIN && Some(target) in old(EditView()) then
                State() == old(State()) && reply == Crash
              else
                (State(), reply) == RemIn(old(State()), Texts(Removed(old(EditView()), Some(target), Counted(count))))
      ensures count > INT64_MIN && SeesAll(old(EditView()), target) ==>
                (State(), reply) == RemIn(old(State()), Removed(old(Abs()).elems, target, count))
    {
      hide Removed, RemIn, Texts, HotList.Valid, HotList.State, HotList.EditView;
      if SeesAll(EditView(), target) {
        RemovedSeen(EditView(), target, Counted(count));
      }
      if win != null {
        reply := RemHot(target, count);
      } else {
        if Some(target) !in EditView() {
          RemovedAbsent(EditView(), Some(target), count);
          RemovedAbsent(EditView(), Some(target), Counted(count));
        }
        reply := RemCold(target, count);
      }
    }

    /** One element off an end, on rows (listPopEnd). */
    method PopEnd(atHead: bool) returns (reply: Reply)
      requires Valid()
      modifies Foot()
      ensures Valid() && win == null && Foot() == {this}
      ensures (State(), reply) == Popped(Retired(old(State())), atHead, None)
    {
      hide HotList.Valid, HotList.State, Popped, Retired;
      DrainEvict();
      reply := PopCold(atHead, None);
    }

    /** One element onto an end, on rows (listPushEnd). */
    method PushEnd(v: Bytes, atHead: bool) returns (reply: Reply)
      requires Valid()
      modifies Foot()
      ensures Valid() && win == null && Foot() == {this}
      ensures (State(), reply) == PushIn(Retired(old(State())), [v], atHead, false, false)
    {
      hide HotList.Valid, HotList.State, Retired, PushIn;
      DrainEvict();
      reply := PushBody([v], atHead, false, false);
    }

    /** One element off an end through the window (popOneResident). */
    method PopOne(fromHead: bool) returns (v: Option<Bytes>)
      requires Valid()
      modifies Foot()
      ensures Valid() && Foot() <= old(Foot())
      ensures v.Some? <==> win != null && |old(Abs()).elems| > 1
      ensures v.Some? ==>
                && v.value == EndOf(old(Abs()).elems, fromHead)
                && State() == old(State()).(d := Edited(old(Abs()), Left(old(Abs()).elems, fromHead, 1)),
                                            head := old(State()).head + if fromHead then 1 else 0)
      ensures v.None? ==> State() == old(State())
      ensures win == old(win)
    {
      hide HotList.Valid, HotList.State, Edited;
      v := None;
      if win != null {
        ghost var s := Abs().elems;
        var ok, _, taken := PopHot(fromHead, 1);
        if ok {
          TakenOne(s, fromHead);
          v := Some(taken[0]);
        }
      }
    }

    /** One element off an end through the window; one too long for the destination is pushed
        back. */
    method PopFast(fromHead: bool) returns (v: Option<Bytes>)
      requires Valid()
      modifies Foot()
      ensures Valid() && fresh(Foot() - old(Foot()))
      ensures v.Some? <==> Fast(old(State()), fromHead)
      ensures v.Some? ==> win != null && Foot() <= old(Foot()) && (State(), Bulk(v.value)) == Popped(old(State()), fromHead, None)
      ensures v.None? ==> State() == old(State())
    {
      hide ListBytes, HotList.Valid, HotList.State, Popped, Grown, Edited, Outside, AllFit, Stored;
      ghost var c := State();
      v := PopOne(fromHead);
      if v.None? {
        return;
      }
      TakenOne(c.d.elems, fromHead);
      if |v.value| > LIST_ELEM_FAST_MAX {
        PutBack(c, fromHead);
        var _ := PushWindow([v.value], fromHead);
        return None;
      }
      PoppedIs(c, fromHead, None);
    }

    /** The window takes back what it gave up. */
    static lemma PushShort(c: Cell, v: Bytes, toHead: bool)
      requires c.hot && Fits(v)
      ensures PushIn(c, [v], toHead, false, false).0 == Grown(c, [v], toHead, true) && !PushIn(c, [v], toHead, false, false).1.Refused?
    {
    }

    /** LMOVE of a list onto itself (lmoveThroughWindow, or listPopEnd then listPushEnd). */
    method Rotate(fromHead: bool, toHead: bool) returns (reply: Reply)
      requires Valid()
      modifies Foot()
      ensures Valid() && fresh(Foot() - old(Foot()))
      ensures (State(), reply) == RotateIn(old(State()), fromHead, toHead)
    {
      hide HotList.Valid, HotList.State, Popped, PushIn, Grown, Retired;
      ghost var c := State();
      var v := PopFast(fromHead);
      if v.Some? {
        reply := Bulk(v.value);
        assert Fits(v.value) by { GivenFits(c, fromHead, v.value); }
        PushShort(State(), v.value, toHead);
        var _ := PushWindow([v.value], toHead);
      } else {
        reply := PopEnd(fromHead);
        if reply.Bulk? {
          RetiredCold(State());
          var pushed := PushEnd(reply.v, toHead);
          if pushed.Refused? {
            reply := pushed;
          }
        }
      }
    }

    static lemma GivenFits(c: Cell, fromHead: bool, v: Bytes)
      requires Coherent(c) && Fast(c, fromHead) && Popped(c, fromHead, None).1 == Bulk(v)
      ensures Fits(v)
    {
      PoppedFits(c, fromHead);
    }

    /** Make a cold list, even a missing one, hot and push one element into its ring
        (ensureDestResident, pushOneResident). */
    method AdmitAndPush(v: Bytes, toHead: bool)
      requires Valid() && win == null
      modifies this
      ensures Valid() && fresh(Foot() - {this})
      ensures State() == Admitted(old(State()), v, toHead)
    {
      hide ListBytes, Contents, Reverse, Pushed, RowElems, Outside, Stored, BandNil, Ahead;
      Loaded();
      var c := ColdOf(rows, header);
      var w := new ListWindow(c.head, c.tail, c.lpBytes, c.everLarge, sigs);
      BandIsList(w.ring.view, rows, c.head, c.tail);
      PushedLength(Elems(c), [v], toHead);
      var _ := w.PushRun([v], toHead, rows);
      win := w;
      AdmittedIs(c, v, toHead);
    }

    static lemma AdmittedIs(c: Cold, v: Bytes, toHead: bool)
      requires WellFormed(c) && (c.head < c.tail || (c.head == 0 && c.lpBytes == LIST_HEADER_BYTES && !c.everLarge))
      ensures var a := Admitted(CellOf(c), v, toHead);
              && a.d == Edited(Deque(Elems(c), c.everLarge), Pushed(Elems(c), [v], toHead))
              && a.head == (if toHead then c.head - 1 else c.head) && a.rest == Rest(c) && a.over == Ahead(Elems(c), c.lpBytes)
    {
      if c.head == c.tail {
        NothingAhead(c);
      }
    }

    /** The destination side of a move off a hot source. */
    method PushAdmitting(v: Bytes, toHead: bool)
      requires Valid()
      modifies Foot()
      ensures Valid() && fresh(Foot() - old(Foot()))
      ensures State() == Admitted(old(State()), v, toHead)
    {
      hide Edited, Pushed, HotList.Valid, HotList.State, Outside;
      if win != null {
        var _ := PushWindow([v], toHead);
      } else {
        AdmitAndPush(v, toHead);
      }
    }
  }
}
