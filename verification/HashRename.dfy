/** RENAME, RENAMENX and COPY of hashes and strings, and what they leave of rows and counters when the store refuses the
    new name (f1srv/rename.go, f1srv/copy.go, propagateHashFieldTTLs in f1srv/hash_ttl.go). */
module HashRename {
  import opened Bytes
  import opened HashCells
  import opened HashTally
  import opened HashStore
  import opened HashCarry
  import RowKeys
  import RowStore

  /** The walk of propagateHashFieldTTLs. */
  method CarryDeadlines(s: Rows, src: Bytes, dst: Bytes, del: bool, all: set<Row>) returns (moved: nat)
    requires src != dst && NoneOf(s.ttl, dst) && s.hfe == |s.ttl.Keys|
    requires Of(s.ttl.Keys, src) <= all && forall r :: r in all ==> r.0 == src
    modifies s`ttl, s`hfe
    ensures s.ttl == TtlMoved(old(s.ttl), src, dst, del) && s.hfe == |s.ttl.Keys|
    ensures moved == |Of(old(s.ttl).Keys, src)|
  {
    hide Of, Lands, Rekeyed, Shifted, Walking;
    ghost var m := s.ttl;
    var todo := all;
    moved := 0;
    WalkBounds(m, m, src, dst, del, false, all, moved);
    while todo != {}
      invariant todo <= all && s.hfe == |s.ttl.Keys| && Walking(m, s.ttl, src, dst, del, false, todo, moved)
      decreases |todo|
    {
      var r :| r in todo;
      WalkNext(m, s.ttl, src, dst, del, false, todo, moved, r);
      if r in s.ttl {
        if Lands(dst, r.1) {
          s.hfe := s.hfe + 1;
        }
        if del {
          s.hfe := s.hfe - 1;
        }
        s.ttl := Shifted(s.ttl, r, dst, Lands(dst, r.1), del);
        moved := moved + 1;
      }
      todo := todo - {r};
    }
    WalkBounds(m, s.ttl, src, dst, del, false, all, moved);
  }

  /** propagateHashFieldTTLs: the counters are exact afterwards just when the deadlines do not split. */
  method PropagateTtls(s: Rows, src: Bytes, dst: Bytes, del: bool)
    requires s.TtlOk() && s.ttl.Keys <= s.index && src != dst && NoneOf(s.ttl, dst)
    modifies s`ttl, s`hint, s`hfe
    ensures s.ttl == TtlMoved(old(s.ttl), src, dst, del) && s.hfe == |s.ttl.Keys|
    ensures s.TtlOk() <==> !Splits(Of(old(s.ttl).Keys, src), dst)
  {
    hide Tally, Num, Rekeyed, HintMoved, Splits;
    s.GateSound(src);
    HintMoves(s.ttl, src, dst, del, s.hint);
    if s.hfe == 0 || Num(s.hint, src) == 0 {
      Unmoved(s.ttl, src, dst, del);
      return;
    }
    var moved := CarryDeadlines(s, src, dst, del, Of(s.index, src));
    s.hint := HintMoved(s.hint, src, dst, del, moved);
  }

  /** moveIndexedFamily and copyIndexedFamily: the keys are collected first, then each row is published under dst if
      the store takes it, and dropped under src by a move. */
  method CarryRows(s: Rows, src: Bytes, dst: Bytes, del: bool)
    requires src != dst && NoneOf(s.rows, dst) && s.index == s.rows.Keys
    modifies s`rows, s`index
    ensures s.rows == RowsMoved(old(s.rows), src, dst, del) && s.index == s.rows.Keys
  {
    hide Of, Lands, Rekeyed, Shifted, Walking;
    ghost var m := s.rows;
    ghost var met := 0;
    var all := Of(s.index, src);
    var todo := all;
    WalkBounds(m, m, src, dst, del, true, all, met);
    while todo != {}
      invariant todo <= all && s.index == s.rows.Keys && Walking(m, s.rows, src, dst, del, true, todo, met)
      decreases |todo|
    {
      var r :| r in todo;
      WalkNext(m, s.rows, src, dst, del, true, todo, met, r);
      if Lands(dst, r.1) {
        s.index := s.index + {(dst, r.1)};
        if del {
          s.index := s.index - {r};
        }
      }
      s.rows := Shifted(s.rows, r, dst, Lands(dst, r.1), del && Lands(dst, r.1));
      todo, met := todo - {r}, met + 1;
    }
    WalkBounds(m, s.rows, src, dst, del, true, all, met);
  }

  /** The rows and the counters after the move, before it is known whether they agree. */
  ghost predicate Moved(s: Rows, cells: HashCells.Cells, src: Bytes, dst: Bytes, del: bool)
    requires src != dst
    reads s
  {
    && s.Cells() == Replaced(cells, src, dst, del) && Headed(s.hdr, src, dst, del, |Of(cells.Keys, src)|)
    && (s.Valid() <==> !Splits(Of(cells.Keys, src), dst))
  }

  /** moveRows on a hash. */
  method MoveHash(s: Rows, src: Bytes, dst: Bytes)
    requires s.Valid() && src != dst && NoneOf(s.rows, dst)
    modifies s`rows, s`index, s`ttl, s`hint, s`hfe, s`hdr
    ensures Moved(s, old(s.Cells()), src, dst, true)
  {
    hide Tally, Rekeyed, HeaderMoved, View, Of, Replaced, Splits, Headed;
    ViewMoved(s.rows, s.ttl, src, dst, true);
    KeysOf(s.rows, s.ttl);
    HeaderMoves(s.rows, src, dst, true, s.hdr);
    if Splits(Of(s.ttl.Keys, src), dst) { TimedSplit(s.rows.Keys, s.ttl.Keys, src, dst); }
    PropagateTtls(s, src, dst, true);
    CarryRows(s, src, dst, true);
    s.hdr := HeaderMoved(s.hdr, src, dst, true);
  }

  /** copyRows on a hash. */
  method CopyHash(s: Rows, src: Bytes, dst: Bytes)
    requires s.Valid() && src != dst && NoneOf(s.rows, dst)
    modifies s`rows, s`index, s`ttl, s`hint, s`hfe, s`hdr
    ensures Moved(s, old(s.Cells()), src, dst, false)
  {
    hide Tally, Rekeyed, HeaderMoved, View, Of, Replaced, Splits, Headed;
    ViewMoved(s.rows, s.ttl, src, dst, false);
    KeysOf(s.rows, s.ttl);
    HeaderMoves(s.rows, src, dst, false, s.hdr);
    if Splits(Of(s.ttl.Keys, src), dst) { TimedSplit(s.rows.Keys, s.ttl.Keys, src, dst); }
    CopyKeeps(s.rows, src, dst);
    CarryRows(s, src, dst, false);
    s.hdr := HeaderMoved(s.hdr, src, dst, false);
    PropagateTtls(s, src, dst, false);
  }

  /** The string keys after the same: a string that does not land is lost by a move. */
  function NamesReplaced(strings: set<Bytes>, src: Bytes, dst: Bytes, del: bool): (strings': set<Bytes>)
  {
    var rest := strings - {dst};
    if src !in strings then rest
    else
      var named := if RowStore.Titled(dst) then rest + {dst} else rest;
      if del then named - {src} else named
  }

  ghost predicate Exists(strings: set<Bytes>, cells: HashCells.Cells, k: Bytes)
  {
    k in strings || exists r :: r in cells && r.0 == k
  }

  /** No key is a string and a hash at once. */
  ghost predicate Apart(strings: set<Bytes>, cells: HashCells.Cells)
  {
    forall r :: r in cells ==> r.0 !in strings
  }

  datatype Outcome = NoSuchKey | SameObject | Fine | Int(n: int)

  type Keyspace = (set<Bytes>, HashCells.Cells)

  ghost function Renamed(strings: set<Bytes>, cells: HashCells.Cells, src: Bytes, dst: Bytes): (r: (Keyspace, Outcome))
  {
    if !Exists(strings, cells, src) then ((strings, cells), NoSuchKey)
    else if src == dst then ((strings, cells), Fine)
    else ((NamesReplaced(strings, src, dst, true), Replaced(cells, src, dst, true)), Fine)
  }

  ghost function RenamedNew(strings: set<Bytes>, cells: HashCells.Cells, src: Bytes, dst: Bytes): (r: (Keyspace, Outcome))
  {
    if !Exists(strings, cells, src) then ((strings, cells), NoSuchKey)
    else if src == dst || Exists(strings, cells, dst) then ((strings, cells), Int(0))
    else ((NamesReplaced(strings, src, dst, true), Replaced(cells, src, dst, true)), Int(1))
  }

  ghost function Copied(strings: set<Bytes>, cells: HashCells.Cells, src: Bytes, dst: Bytes, replace: bool): (r: (Keyspace, Outcome))
  {
    if src == dst then ((strings, cells), SameObject)
    else if !Exists(strings, cells, src) || (Exists(strings, cells, dst) && !replace) then ((strings, cells), Int(0))
    else ((NamesReplaced(strings, src, dst, false), Replaced(cells, src, dst, false)), Int(1))
  }

  /** A move or a copy after which a counter is wrong: some fields of src land under dst though its header does not, or
      its header does and some field does not. */
  ghost predicate Parts(cells: HashCells.Cells, src: Bytes, dst: Bytes)
  {
    src != dst && Splits(Of(cells.Keys, src), dst)
  }

  /** resolveType, as far as whether the key is there. */
  method KeyExists(s: Rows, k: Bytes) returns (there: bool)
    requires s.Valid()
    ensures there == Exists(s.strings, s.Cells(), k)
  {
    hide Tally;
    TallyAny(s.hdr, s.rows.Keys, [], k);
    HeaderMeans(s.hdr, s.rows.Keys, k);
    there := k in s.strings || k in s.hdr;
  }

  /** dropKeyLocked on the destination. */
  method Vacate(s: Rows, dst: Bytes)
    requires s.Valid() && Apart(s.strings, s.Cells())
    modifies s`rows, s`index, s`ttl, s`hint, s`hfe, s`hdr, s`strings
    ensures s.Valid() && s.Cells() == old(s.Cells()) - Of(old(s.Cells()).Keys, dst) && s.strings == old(s.strings) - {dst}
    ensures NoneOf(s.rows, dst)
  {
    hide Tally, Num, Rows.TtlOk, View;
    KeysOf(s.rows, s.ttl);
    if dst in s.strings {
      assert Of(s.Cells().Keys, dst) == {};
      s.strings := s.strings - {dst};
      assert s.Cells() - {} == s.Cells();
    } else {
      var _ := s.Drop(dst);
    }
    KeysOf(s.rows, s.ttl);
  }

  /** moveRows and copyRows on a string: what Set says is dropped. */
  method MoveString(s: Rows, src: Bytes, dst: Bytes, del: bool)
    requires s.Valid()
    modifies s`strings
    ensures s.Valid() && s.Cells() == old(s.Cells())
    ensures var named := if RowStore.Titled(dst) then old(s.strings) + {dst} else old(s.strings);
            s.strings == if del then named - {src} else named
  {
    hide Tally, RowStore.Titled;
    if RowStore.Titled(dst) {
      s.strings := s.strings + {dst};
    }
    if del {
      s.strings := s.strings - {src};
    }
  }

  /** dropKeyLocked, then moveRows or copyRows. */
  method Replace(s: Rows, src: Bytes, dst: Bytes, del: bool)
    requires s.Valid() && Apart(s.strings, s.Cells()) && src != dst
    modifies s`rows, s`index, s`ttl, s`hint, s`hfe, s`hdr, s`strings
    ensures s.Cells() == Replaced(old(s.Cells()), src, dst, del) && s.strings == NamesReplaced(old(s.strings), src, dst, del)
    ensures s.Valid() <==> !Parts(old(s.Cells()), src, dst)
    ensures src !in old(s.strings) ==> Headed(s.hdr, src, dst, del, |Of(old(s.Cells()).Keys, src)|)
    ensures Apart(s.strings, s.Cells())
  {
    hide Rows.Valid, Replaced, View, Of, Splits, Headed, RowStore.Titled;
    var isString := src in s.strings;
    VacatedSame(s.Cells(), src, dst, del);
    Vacate(s, dst);
    ghost var rest := s.Cells();
    if isString {
      StringIdle(old(s.strings), rest, src, dst, del);
      MoveString(s, src, dst, del);
    } else if del {
      MoveHash(s, src, dst);
    } else {
      CopyHash(s, src, dst);
    }
    ReplacedApart(old(s.strings), old(s.Cells()), src, dst, del);
    assert s.strings == NamesReplaced(old(s.strings), src, dst, del);
  }

  /** A string has no fields to carry. */
  lemma StringIdle(strings: set<Bytes>, cells: HashCells.Cells, src: Bytes, dst: Bytes, del: bool)
    requires Apart(strings, cells) && src in strings && src != dst && NoneOf(cells, dst)
    ensures Replaced(cells, src, dst, del) == cells && !Splits(Of(cells.Keys, src), dst)
  {
    hide Replaced, Lands;
    assert Of(cells.Keys, src) == {};
    forall r ensures Look(Replaced(cells, src, dst, del), r) == Look(cells, r) {
      ReplacedAt(cells, src, dst, del, r);
    }
    SameCells(Replaced(cells, src, dst, del), cells);
  }

  lemma ReplacedApart(strings: set<Bytes>, cells: HashCells.Cells, src: Bytes, dst: Bytes, del: bool)
    requires Apart(strings, cells) && src != dst
    ensures Apart(NamesReplaced(strings, src, dst, del), Replaced(cells, src, dst, del))
  {
    hide Replaced, Lands, RowStore.Titled;
    var cells' := Replaced(cells, src, dst, del);
    forall r | r in cells' ensures r.0 !in NamesReplaced(strings, src, dst, del) {
      ReplacedAt(cells, src, dst, del, r);
      assert Look(cells', r).Some?;
      if r.0 == dst { assert Look(cells, (src, r.1)).Some?; }
    }
  }

  /** RENAME: the counters are exact afterwards if and only if the fields and the header land together. */
  method Rename(s: Rows, src: Bytes, dst: Bytes) returns (reply: Outcome)
    requires s.Valid() && Apart(s.strings, s.Cells())
    modifies s`rows, s`index, s`ttl, s`hint, s`hfe, s`hdr, s`strings
    ensures Apart(s.strings, s.Cells()) && (s.Valid() <==> !Parts(old(s.Cells()), src, dst))
    ensures ((s.strings, s.Cells()), reply) == Renamed(old(s.strings), old(s.Cells()), src, dst)
    ensures src != dst && Of(old(s.Cells()).Keys, src) != {} ==>
              Headed(s.hdr, src, dst, true, |Of(old(s.Cells()).Keys, src)|)
  {
    hide Rows.Valid, Rows.Cells, Replaced, NamesReplaced, Exists, Apart, Splits, Headed, Of;
    Absence(s.strings, s.Cells(), src, dst);
    var there := KeyExists(s, src);
    if !there {
      return NoSuchKey;
    }
    if src == dst {
      return Fine;
    }
    Replace(s, src, dst, true);
    reply := Fine;
  }

  /** A key that is not there has no fields to part, and a string has none. */
  lemma Absence(strings: set<Bytes>, cells: HashCells.Cells, k: Bytes, dst: Bytes)
    requires Apart(strings, cells)
    ensures !Exists(strings, cells, k) ==> !Splits(Of(cells.Keys, k), dst)
    ensures Of(cells.Keys, k) != {} ==> k !in strings && Exists(strings, cells, k)
  {
    hide Lands, RowStore.Titled;
    if r :| r in Of(cells.Keys, k) {
      assert r in cells && r.0 == k;
    }
  }

  /** RENAMENX. */
  method RenameNx(s: Rows, src: Bytes, dst: Bytes) returns (reply: Outcome)
    requires s.Valid() && Apart(s.strings, s.Cells())
    modifies s`rows, s`index, s`ttl, s`hint, s`hfe, s`hdr, s`strings
    ensures Apart(s.strings, s.Cells())
    ensures s.Valid() <==> !(Parts(old(s.Cells()), src, dst) && !Exists(old(s.strings), old(s.Cells()), dst))
    ensures ((s.strings, s.Cells()), reply) == RenamedNew(old(s.strings), old(s.Cells()), src, dst)
  {
    hide Rows.Valid, Rows.Cells, Replaced, NamesReplaced, Exists, Apart, Splits, Headed, Of;
    Absence(s.strings, s.Cells(), src, dst);
    var there := KeyExists(s, src);
    if !there {
      return NoSuchKey;
    }
    var taken := KeyExists(s, dst);
    if src == dst || taken {
      return Int(0);
    }
    Replace(s, src, dst, true);
    reply := Int(1);
  }

  /** COPY. */
  method Copy(s: Rows, src: Bytes, dst: Bytes, replace: bool) returns (reply: Outcome)
    requires s.Valid() && Apart(s.strings, s.Cells())
    modifies s`rows, s`index, s`ttl, s`hint, s`hfe, s`hdr, s`strings
    ensures Apart(s.strings, s.Cells())
    ensures s.Valid() <==> !(Parts(old(s.Cells()), src, dst) && (replace || !Exists(old(s.strings), old(s.Cells()), dst)))
    ensures ((s.strings, s.Cells()), reply) == Copied(old(s.strings), old(s.Cells()), src, dst, replace)
  {
    hide Rows.Valid, Rows.Cells, Replaced, NamesReplaced, Exists, Apart, Splits, Headed, Of;
    Absence(s.strings, s.Cells(), src, dst);
    if src == dst {
      return SameObject;
    }
    var there := KeyExists(s, src);
    if !there {
      return Int(0);
    }
    var taken := KeyExists(s, dst);
    if taken && !replace {
      return Int(0);
    }
    Replace(s, src, dst, false);
    reply := Int(1);
  }

  /** A hash whose fields have all passed their deadlines and which nothing has reaped: the commands below
      still find it. */
  ghost predicate Shade(strings: set<Bytes>, cells: HashCells.Cells, k: Bytes, now: int)
  {
    Exists(strings, cells, k) && !Exists(strings, Alive(cells, now), k)
  }

  /** Two results a client cannot tell apart at this time. */
  ghost predicate Alike(a: (Keyspace, Outcome), b: (Keyspace, Outcome), now: int)
  {
    a.1 == b.1 && a.0.0 == b.0.0 && Alive(a.0.1, now) == Alive(b.0.1, now)
  }

  /** A dead field that a move to dst leaves behind, without the deadline it had passed. */
  ghost predicate Revives(cells: HashCells.Cells, src: Bytes, dst: Bytes, now: int)
  {
    exists r :: r in cells && r.0 == src && Dead(cells[r], now) && !Lands(dst, r.1)
  }

  lemma ReplacedAliveAt(cells: HashCells.Cells, src: Bytes, dst: Bytes, del: bool, now: int, r: Row)
    requires src != dst
    ensures var a, b := Replaced(cells, src, dst, del), Replaced(Alive(cells, now), src, dst, del);
            Look(Alive(a, now), r) == Look(Alive(b, now), r)
            <==> !(del && r.0 == src && r in cells && Dead(cells[r], now) && !Lands(dst, r.1))
  {
    hide Replaced, Alive, Lands;
    var a, b := Replaced(cells, src, dst, del), Replaced(Alive(cells, now), src, dst, del);
    ReplacedAt(cells, src, dst, del, r);
    ReplacedAt(Alive(cells, now), src, dst, del, r);
    AliveAt(a, now, r);
    AliveAt(b, now, r);
    AliveAt(cells, now, r);
    AliveAt(cells, now, (src, r.1));
  }

  lemma ReplacedAlive(cells: HashCells.Cells, src: Bytes, dst: Bytes, del: bool, now: int)
    requires src != dst
    ensures Alive(Replaced(cells, src, dst, del), now) == Alive(Replaced(Alive(cells, now), src, dst, del), now)
       <==> !(del && Revives(cells, src, dst, now))
  {
    hide Replaced, Alive, Lands;
    var a, b := Replaced(cells, src, dst, del), Replaced(Alive(cells, now), src, dst, del);
    forall r ensures Look(Alive(a, now), r) == Look(Alive(b, now), r)
                <==> !(del && r.0 == src && r in cells && Dead(cells[r], now) && !Lands(dst, r.1)) {
      ReplacedAliveAt(cells, src, dst, del, now, r);
    }
    if !(del && Revives(cells, src, dst, now)) {
      SameCells(Alive(a, now), Alive(b, now));
    }
  }

  lemma ExistsAlive(strings: set<Bytes>, cells: HashCells.Cells, k: Bytes, now: int)
    ensures Exists(strings, Alive(cells, now), k) ==> Exists(strings, cells, k)
  {
  }

  /** RENAME acts as on the live fields just when the source is not a shade and no dead field of it comes back. */
  lemma RenameExact(strings: set<Bytes>, cells: HashCells.Cells, src: Bytes, dst: Bytes, now: int)
    ensures Alike(Renamed(strings, cells, src, dst), Renamed(strings, Alive(cells, now), src, dst), now)
       <==> !Shade(strings, cells, src, now) && !(src != dst && Revives(cells, src, dst, now))
  {
    hide Replaced, Alive, NamesReplaced, Lands;
    ExistsAlive(strings, cells, src, now);
    AliveOnce(cells, now, now);
    if src != dst { ReplacedAlive(cells, src, dst, true, now); }
  }

  /** RENAMENX needs the destination to be no shade as well. */
  lemma RenameNxExact(strings: set<Bytes>, cells: HashCells.Cells, src: Bytes, dst: Bytes, now: int)
    ensures Alike(RenamedNew(strings, cells, src, dst), RenamedNew(strings, Alive(cells, now), src, dst), now)
       <==> && !Shade(strings, cells, src, now) && !(Exists(strings, cells, src) && Shade(strings, cells, dst, now))
            && !(src != dst && !Exists(strings, cells, dst) && Revives(cells, src, dst, now))
  {
    hide Replaced, Alive, NamesReplaced, Lands;
    ExistsAlive(strings, cells, src, now);
    ExistsAlive(strings, cells, dst, now);
    AliveOnce(cells, now, now);
    if src != dst { ReplacedAlive(cells, src, dst, true, now); }
  }

  /** COPY copies a shade, and lets one block a copy without REPLACE. */
  lemma CopyExact(strings: set<Bytes>, cells: HashCells.Cells, src: Bytes, dst: Bytes, replace: bool, now: int)
    ensures Alike(Copied(strings, cells, src, dst, replace), Copied(strings, Alive(cells, now), src, dst, replace), now)
       <==> src == dst
            || !( || (Shade(strings, cells, src, now) && (replace || !Exists(strings, cells, dst)))
                  || (Exists(strings, Alive(cells, now), src) && !replace && Shade(strings, cells, dst, now)))
  {
    hide Replaced, Alive, Exists, NamesReplaced;
    ExistsAlive(strings, cells, src, now);
    ExistsAlive(strings, cells, dst, now);
    AliveOnce(cells, now, now);
    if src != dst { ReplacedAlive(cells, src, dst, false, now); }
  }

  /** A dead field renamed over a living one: the living one is lost, though on the live fields the source
      is not there. */
  lemma ShadeOverwrites(src: Bytes, dst: Bytes, f: Bytes, v: Bytes)
    requires src != dst && Lands(dst, f)
    ensures var cells := map[(src, f) := Cell(v, Some(0)), (dst, f) := Cell(v, None)];
            && Alive(cells, 1) == map[(dst, f) := Cell(v, None)]
            && Alive(Renamed({}, cells, src, dst).0.1, 1) == map[]
            && Renamed({}, Alive(cells, 1), src, dst).0.1 == Alive(cells, 1)
  {
    hide Replaced, Lands;
    var cells := map[(src, f) := Cell(v, Some(0)), (dst, f) := Cell(v, None)];
    assert Alive(cells, 1) == map[(dst, f) := Cell(v, None)];
    assert (src, f) in cells;
    var after := Replaced(cells, src, dst, true);
    forall r ensures Look(Alive(after, 1), r) == None {
      AliveAt(after, 1, r);
      ReplacedAt(cells, src, dst, true, r);
    }
    SameCells(Alive(after, 1), map[]);
  }

  /** A dead field renamed to a name under which no row of it lands: RENAME replies OK, the field stays under its old
      name, and it lives again. */
  lemma RenameRevives(src: Bytes, dst: Bytes, f: Bytes, v: Bytes)
    requires src != dst && !Lands(dst, f)
    ensures var cells := map[(src, f) := Cell(v, Some(0))];
            && Alive(cells, 1) == map[]
            && Renamed({}, cells, src, dst) == (({}, map[(src, f) := Cell(v, None)]), Fine)
  {
    hide Replaced, Lands;
    var cells, back := map[(src, f) := Cell(v, Some(0))], map[(src, f) := Cell(v, None)];
    assert Alive(cells, 1) == map[] && (src, f) in cells;
    var after := Replaced(cells, src, dst, true);
    forall r ensures Look(after, r) == Look(back, r) {
      ReplacedAt(cells, src, dst, true, r);
    }
    SameCells(after, back);
    assert NamesReplaced({}, src, dst, true) == {};
  }

  /** A string renamed to the empty name is lost. */
  lemma StringLost(k: Bytes)
    requires k != []
    ensures Renamed({k}, map[], k, []) == (({}, map[]), Fine)
  {
    assert NamesReplaced({k}, k, [], true) == {};
    assert Replaced(map[], k, [], true) == map[];
  }

  /** A hash of one field renamed to the empty name: RENAME replies OK, the header stays and counts one field, and the
      field's row is under the empty name, which has no header. */
  method RenameEmpty(h: Bytes, f: Bytes, v: Bytes) returns (reply: Outcome, row: Option<Bytes>, stray: Option<Bytes>, count: int, header: int)
    requires h != [] && Takes((h, f), v) && Lands([], f)
    ensures reply == Fine && row == None && stray == Some(v) && count == 1 && header == 0
  {
    hide Takes, Lands;
    var s := new Rows();
    OnePair(h, f, v);
    var _ := s.HSet(h, [(f, v)], 0);
    ghost var cells := s.Cells();
    assert cells == map[(h, f) := Cell(v, None)];
    assert Of(cells.Keys, h) == {(h, f)} && (h, f) in cells;
    reply := Rename(s, h, []);
    ReplacedAt(cells, h, [], true, (h, f));
    ReplacedAt(cells, h, [], true, ([], f));
    CellAt(s.rows, s.ttl, (h, f));
    CellAt(s.rows, s.ttl, ([], f));
    row, stray := Look(s.rows, (h, f)), Look(s.rows, ([], f));
    count, header := Num(s.hdr, h), Num(s.hdr, []);
  }

  lemma OnePair(h: Bytes, f: Bytes, v: Bytes)
    requires h != [] && Takes((h, f), v)
    ensures var pairs := [(f, v)];
            SetAll(map[], h, pairs, 0) == (map[(h, f) := Cell(v, None)], Count(1)) && !SetDrifts(map[], h, pairs, 0)
  {
    hide Takes;
    var pairs := [(f, v)];
    assert pairs[1..] == [] && Landed(h, []) == 0;
    assert Landed(h, pairs) == 1 && pairs[..1] == pairs;
    var ops := Puts(h, pairs);
    hide Landed;
    TouchedAll(h, pairs);
    EachNone(map[], 0);
    assert ops[..0] == [] && ops[..1] == ops;
    EachStep(map[], ops, 0, 0);
    assert One(map[], (h, f), HashCells.Put(v), 0) == (map[(h, f) := Cell(v, None)], Number(1));
  }

  /** A hash whose rows the store holds keeps exact counters under every name that is neither empty nor longer. */
  lemma ShorterKeeps(cells: HashCells.Cells, src: Bytes, dst: Bytes)
    requires forall r :: r in cells ==> Lands(r.0, r.1)
    requires 0 < |dst| <= |src|
    ensures !Parts(cells, src, dst)
  {
    RowKeys.UvarintGrows(|dst|, |src|);
    hide RowKeys.Uvarint;
    forall r | r in Of(cells.Keys, src) ensures Lands(dst, r.1) && RowStore.Titled(dst) {
      assert Lands(r.0, r.1);
    }
  }
}
