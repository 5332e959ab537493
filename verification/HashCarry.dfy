/** Rows and counters re-keyed from one hash to another, as far as the store takes them under the new name
    (moveIndexedFamily in f1srv/rename.go, copyIndexedFamily in f1srv/copy.go, propagateHashFieldTTLs in
    f1srv/hash_ttl.go). */
module HashCarry {
  import opened Bytes
  import opened HashCells
  import opened HashTally
  import opened HashStore
  import RowStore

  ghost predicate NoneOf<T>(m: map<Row, T>, h: Bytes)
  {
    forall r :: r in m ==> r.0 != h
  }

  /** The fields the store takes under dst. */
  function Landing(s: set<Row>, dst: Bytes): (l: set<Row>)
    ensures forall r :: r in l <==> r in s && Lands(dst, r.1)
  {
    set r | r in s && Lands(dst, r.1)
  }

  /** The sent fields of src published under dst as well, and then some fields of src dropped. */
  ghost function Carried<T>(m: map<Row, T>, src: Bytes, dst: Bytes, sent: set<Row>, gone: set<Row>): (c: map<Row, T>)
    requires src != dst && NoneOf(m, dst)
    requires sent <= Of(m.Keys, src) && gone <= Of(m.Keys, src)
    ensures forall r :: Look(c, r) == if r.0 == dst then (if (src, r.1) in sent then Look(m, (src, r.1)) else None)
                                      else if r in gone then None else Look(m, r)
  {
    var copies := set r | r in sent :: (dst, r.1);
    map r | r in m.Keys + copies && r !in gone :: if r.0 == dst then m[(src, r.1)] else m[r]
  }

  lemma CarriedAt<T>(m: map<Row, T>, src: Bytes, dst: Bytes, sent: set<Row>, gone: set<Row>, r: Row)
    requires src != dst && NoneOf(m, dst)
    requires sent <= Of(m.Keys, src) && gone <= Of(m.Keys, src)
    ensures Look(Carried(m, src, dst, sent, gone), r)
         == if r.0 == dst then (if (src, r.1) in sent then Look(m, (src, r.1)) else None)
            else if r in gone then None else Look(m, r)
  {
    hide Carried;
  }

  lemma CarryNone<T>(m: map<Row, T>, src: Bytes, dst: Bytes)
    requires src != dst && NoneOf(m, dst)
    ensures Carried(m, src, dst, {}, {}) == m
  {
    hide Carried;
    forall r ensures Look(Carried(m, src, dst, {}, {}), r) == Look(m, r) {
      CarriedAt(m, src, dst, {}, {}, r);
    }
    SameCells(Carried(m, src, dst, {}, {}), m);
  }

  /** One field more is published. */
  lemma CarrySent<T>(m: map<Row, T>, src: Bytes, dst: Bytes, sent: set<Row>, gone: set<Row>, r: Row)
    requires src != dst && NoneOf(m, dst)
    requires sent <= Of(m.Keys, src) && gone <= Of(m.Keys, src) && r in m && r.0 == src && r !in sent && r !in gone
    ensures var c := Carried(m, src, dst, sent, gone);
            && r in c && c[r] == m[r] && (dst, r.1) !in c
            && Carried(m, src, dst, sent + {r}, gone) == c[(dst, r.1) := m[r]]
  {
    hide Carried;
    var c := Carried(m, src, dst, sent, gone);
    CarriedAt(m, src, dst, sent, gone, r);
    CarriedAt(m, src, dst, sent, gone, (dst, r.1));
    var c', d := Carried(m, src, dst, sent + {r}, gone), c[(dst, r.1) := m[r]];
    forall q ensures Look(c', q) == Look(d, q) {
      CarriedAt(m, src, dst, sent, gone, q);
      CarriedAt(m, src, dst, sent + {r}, gone, q);
      assert r == (src, r.1);
    }
    SameCells(c', d);
  }

  /** One field more is dropped. */
  lemma CarryGone<T>(m: map<Row, T>, src: Bytes, dst: Bytes, sent: set<Row>, gone: set<Row>, r: Row)
    requires src != dst && NoneOf(m, dst)
    requires sent <= Of(m.Keys, src) && gone <= Of(m.Keys, src) && r in m && r.0 == src && r !in gone
    ensures var c := Carried(m, src, dst, sent, gone);
            r in c && c[r] == m[r] && Carried(m, src, dst, sent, gone + {r}) == c - {r}
  {
    hide Carried;
    var c := Carried(m, src, dst, sent, gone);
    CarriedAt(m, src, dst, sent, gone, r);
    var c' := Carried(m, src, dst, sent, gone + {r});
    forall q ensures Look(c', q) == Look(c - {r}, q) {
      CarriedAt(m, src, dst, sent, gone, q);
      CarriedAt(m, src, dst, sent, gone + {r}, q);
    }
    SameCells(c', c - {r});
  }

  function Under(s: set<Row>, dst: Bytes): (u: set<Row>)
    ensures forall r :: r in u <==> r.0 == dst && exists q :: q in s && q.1 == r.1
  {
    set q | q in s :: (dst, q.1)
  }

  lemma {:induction false} UnderCount(s: set<Row>, src: Bytes, dst: Bytes)
    requires forall r :: r in s ==> r.0 == src
    ensures |Under(s, dst)| == |s|
  {
    if r :| r in s {
      var less := s - {r};
      UnderCount(less, src, dst);
      assert (dst, r.1) !in Under(less, dst) by { assert r == (src, r.1); }
      assert Under(s, dst) == Under(less, dst) + {(dst, r.1)};
    }
  }

  /** How many rows each key has afterwards. */
  lemma CarriedCount<T>(m: map<Row, T>, src: Bytes, dst: Bytes, sent: set<Row>, gone: set<Row>, k: Bytes)
    requires src != dst && NoneOf(m, dst)
    requires sent <= Of(m.Keys, src) && gone <= Of(m.Keys, src)
    ensures |Of(Carried(m, src, dst, sent, gone).Keys, k)|
         == if k == dst then |sent| else if k == src then |Of(m.Keys, src)| - |gone| else |Of(m.Keys, k)|
  {
    hide Carried, Under;
    var mine := Of(Carried(m, src, dst, sent, gone).Keys, k);
    forall r ensures r in mine <==> r in (if k == dst then Under(sent, dst) else Of(m.Keys, k) - gone) {
      CarriedAt(m, src, dst, sent, gone, r);
      assert forall q :: q in sent ==> q == (src, q.1);
    }
    if k == dst {
      assert mine == Under(sent, dst);
      UnderCount(sent, src, dst);
    } else {
      assert mine == Of(m.Keys, k) - gone;
      assert Of(m.Keys, k) * gone == if k == src then gone else {};
    }
  }

  /** The counters after a move are exact just when the two keys' own are. */
  lemma Recounted<T>(m: map<Row, T>, src: Bytes, dst: Bytes, sent: set<Row>, gone: set<Row>, n: map<Bytes, int>,
                     n': map<Bytes, int>)
    requires src != dst && NoneOf(m, dst) && Tally(n, m.Keys, [], 0)
    requires sent <= Of(m.Keys, src) && gone <= Of(m.Keys, src)
    requires (forall k :: k != src && k != dst ==> Num(n', k) == Num(n, k)) && forall k :: k in n' ==> n'[k] != 0
    ensures Tally(n', Carried(m, src, dst, sent, gone).Keys, [], 0)
       <==> Num(n', dst) == |sent| && Num(n', src) == |Of(m.Keys, src)| - |gone|
  {
    hide Carried, Of;
    var c := Carried(m, src, dst, sent, gone);
    forall k ensures Num(n', k) == |Of(c.Keys, k)|
                <==> (k == dst ==> Num(n', dst) == |sent|) && (k == src ==> Num(n', src) == |Of(m.Keys, src)| - |gone|) {
      CarriedCount(m, src, dst, sent, gone, k);
      TallyAt(n, m.Keys, k);
    }
    if Num(n', dst) == |sent| && Num(n', src) == |Of(m.Keys, src)| - |gone| {
      assert forall k :: Num(n', k) == |Of(c.Keys, k)| + (if k == [] then 0 else 0);
    }
    if Tally(n', c.Keys, [], 0) {
      TallyAt(n', c.Keys, dst);
      TallyAt(n', c.Keys, src);
    }
  }

  /** The hint rows as propagateHashFieldTTLs leaves them: every deadline row it met is counted, landed or not. */
  function HintMoved(hint: map<Bytes, int>, src: Bytes, dst: Bytes, del: bool, moved: nat): (hint': map<Bytes, int>)
  {
    var named := if moved > 0 && RowStore.Titled(dst) then SetNum(hint, dst, moved) else hint;
    if del then named - {src} else named
  }

  /** moveHeader and copyHeader. */
  function HeaderMoved(hdr: map<Bytes, int>, src: Bytes, dst: Bytes, del: bool): (hdr': map<Bytes, int>)
  {
    if src !in hdr || !RowStore.Titled(dst) then hdr
    else
      var named := hdr[dst := hdr[src]];
      if del then named - {src} else named
  }

  /** Some of these fields land under dst and its own rows do not, or the other way round. */
  ghost predicate Splits(fields: set<Row>, dst: Bytes)
  {
    exists r :: r in fields && (Lands(dst, r.1) <==> !RowStore.Titled(dst))
  }

  lemma LandingCount(fields: set<Row>, dst: Bytes)
    ensures |Landing(fields, dst)| == (if RowStore.Titled(dst) then |fields| else 0) <==> !Splits(fields, dst)
  {
    hide Lands, RowStore.Titled;
    var l := Landing(fields, dst);
    if !Splits(fields, dst) {
      assert l == if RowStore.Titled(dst) then fields else {};
    }
    if |l| == if RowStore.Titled(dst) then |fields| else 0 {
      SubsetSame(if RowStore.Titled(dst) then l else {}, if RowStore.Titled(dst) then fields else l);
    }
  }

  lemma SubsetSame<T>(a: set<T>, b: set<T>)
    requires a <= b && |a| == |b|
    ensures a == b
  {
    assert b == a + (b - a);
  }

  /** The rows once some fields of src are walked: those that land are published under dst, and a move drops what it
      has walked, but for those that did not land when it is to keep them. */
  ghost function Rekeyed<T>(m: map<Row, T>, src: Bytes, dst: Bytes, del: bool, keep: bool, done: set<Row>): (c: map<Row, T>)
    requires src != dst && NoneOf(m, dst) && done <= Of(m.Keys, src)
  {
    Carried(m, src, dst, Landing(done, dst), if !del then {} else if keep then Landing(done, dst) else done)
  }

  /** One field of the walk. */
  function Shifted<T>(c: map<Row, T>, r: Row, dst: Bytes, lands: bool, drop: bool): (c': map<Row, T>)
    requires r in c
  {
    var both := if lands then c[(dst, r.1) := c[r]] else c;
    if drop then both - {r} else both
  }

  lemma WalkStarts<T>(m: map<Row, T>, src: Bytes, dst: Bytes, del: bool, keep: bool)
    requires src != dst && NoneOf(m, dst)
    ensures Rekeyed(m, src, dst, del, keep, {}) == m
  {
    hide Carried;
    assert Landing({}, dst) == {};
    CarryNone(m, src, dst);
  }

  lemma WalkShifts<T>(m: map<Row, T>, src: Bytes, dst: Bytes, del: bool, keep: bool, done: set<Row>, r: Row)
    requires src != dst && NoneOf(m, dst) && done <= Of(m.Keys, src) && r in m && r.0 == src && r !in done
    ensures var c := Rekeyed(m, src, dst, del, keep, done);
            && r in c && (dst, r.1) !in c
            && Rekeyed(m, src, dst, del, keep, done + {r})
            == Shifted(c, r, dst, Lands(dst, r.1), del && (Lands(dst, r.1) || !keep))
  {
    hide Carried, Lands;
    var sent, sent' := Landing(done, dst), Landing(done + {r}, dst);
    var gone := if !del then {} else if keep then sent else done;
    assert sent' == if Lands(dst, r.1) then sent + {r} else sent;
    CarrySent(m, src, dst, sent, gone, r);
    if del && (Lands(dst, r.1) || !keep) {
      CarryGone(m, src, dst, sent', gone, r);
    }
  }

  /** A walk over keys of src with `todo` left, and how many rows it has met. */
  ghost predicate Walking<T>(m: map<Row, T>, c: map<Row, T>, src: Bytes, dst: Bytes, del: bool, keep: bool, todo: set<Row>, met: nat)
  {
    && src != dst && NoneOf(m, dst)
    && met == |Of(m.Keys, src) - todo| && c == Rekeyed(m, src, dst, del, keep, Of(m.Keys, src) - todo)
  }

  lemma WalkBounds<T>(m: map<Row, T>, c: map<Row, T>, src: Bytes, dst: Bytes, del: bool, keep: bool, all: set<Row>, met: nat)
    requires src != dst && NoneOf(m, dst) && Of(m.Keys, src) <= all
    ensures Walking(m, m, src, dst, del, keep, all, 0)
    ensures Walking(m, c, src, dst, del, keep, {}, met) ==>
              met == |Of(m.Keys, src)| && c == Rekeyed(m, src, dst, del, keep, Of(m.Keys, src))
  {
    hide Rekeyed;
    assert Of(m.Keys, src) - all == {} && Of(m.Keys, src) - {} == Of(m.Keys, src);
    WalkStarts(m, src, dst, del, keep);
  }

  lemma WalkNext<T>(m: map<Row, T>, c: map<Row, T>, src: Bytes, dst: Bytes, del: bool, keep: bool, todo: set<Row>, met: nat, r: Row)
    requires Walking(m, c, src, dst, del, keep, todo, met) && r in todo && r.0 == src
    ensures r in c <==> r in m
    ensures r !in c ==> Walking(m, c, src, dst, del, keep, todo - {r}, met)
    ensures r in c ==>
              var lands, drop := Lands(dst, r.1), del && (Lands(dst, r.1) || !keep);
              var c' := Shifted(c, r, dst, lands, drop);
              && Walking(m, c', src, dst, del, keep, todo - {r}, met + 1)
              && |c'.Keys| == |c.Keys| + (if lands then 1 else 0) - (if drop then 1 else 0)
              && c'.Keys == c.Keys + (if lands then {(dst, r.1)} else {}) - (if drop then {r} else {})
  {
    hide Carried, Rekeyed, Lands, Shifted;
    var all := Of(m.Keys, src);
    if r in m {
      assert all - (todo - {r}) == (all - todo) + {r};
      WalkShifts(m, src, dst, del, keep, all - todo, r);
      ShiftKeys(c, r, dst, Lands(dst, r.1), del && (Lands(dst, r.1) || !keep));
    } else {
      assert all - (todo - {r}) == all - todo;
      NotWalked(m, src, dst, del, keep, all - todo, r);
    }
  }

  lemma NotWalked<T>(m: map<Row, T>, src: Bytes, dst: Bytes, del: bool, keep: bool, done: set<Row>, r: Row)
    requires src != dst && NoneOf(m, dst) && done <= Of(m.Keys, src) && r !in m && r.0 == src
    ensures r !in Rekeyed(m, src, dst, del, keep, done)
  {
    hide Carried, Lands;
    CarriedAt(m, src, dst, Landing(done, dst), if !del then {} else if keep then Landing(done, dst) else done, r);
  }

  lemma ShiftKeys<T>(c: map<Row, T>, r: Row, dst: Bytes, lands: bool, drop: bool)
    requires r in c && (dst, r.1) !in c && r.0 != dst
    ensures var c' := Shifted(c, r, dst, lands, drop);
            && |c'.Keys| == |c.Keys| + (if lands then 1 else 0) - (if drop then 1 else 0)
            && c'.Keys == c.Keys + (if lands then {(dst, r.1)} else {}) - (if drop then {r} else {})
  {
    var both := if lands then c[(dst, r.1) := c[r]] else c;
    KeysPut(c, (dst, r.1), c[r]);
    KeysLess(both, r);
  }

  /** The deadline rows after the move: a move drops those of src, landed or not. */
  ghost function TtlMoved(ttl: map<Row, int>, src: Bytes, dst: Bytes, del: bool): (ttl': map<Row, int>)
    requires src != dst && NoneOf(ttl, dst)
  {
    Rekeyed(ttl, src, dst, del, false, Of(ttl.Keys, src))
  }

  /** The field rows after the move: those that do not land stay. */
  ghost function RowsMoved(rows: map<Row, Bytes>, src: Bytes, dst: Bytes, del: bool): (rows': map<Row, Bytes>)
    requires src != dst && NoneOf(rows, dst)
  {
    Rekeyed(rows, src, dst, del, true, Of(rows.Keys, src))
  }

  lemma HintMoves(ttl: map<Row, int>, src: Bytes, dst: Bytes, del: bool, hint: map<Bytes, int>)
    requires src != dst && NoneOf(ttl, dst) && Tally(hint, ttl.Keys, [], 0)
    ensures Tally(HintMoved(hint, src, dst, del, |Of(ttl.Keys, src)|), TtlMoved(ttl, src, dst, del).Keys, [], 0)
       <==> !Splits(Of(ttl.Keys, src), dst)
  {
    hide Carried, Of, RowStore.Titled, Splits, Landing, Tally;
    var all := Of(ttl.Keys, src);
    var hint' := HintMoved(hint, src, dst, del, |all|);
    TallyAt(hint, ttl.Keys, dst);
    TallyAt(hint, ttl.Keys, src);
    NoRows(ttl, dst);
    NoZeros(hint, ttl.Keys);
    Recounted(ttl, src, dst, Landing(all, dst), if del then all else {}, hint, hint');
    LandingCount(all, dst);
  }

  lemma NoRows<T>(m: map<Row, T>, h: Bytes)
    requires NoneOf(m, h)
    ensures Of(m.Keys, h) == {}
  {
  }

  lemma NoZeros(m: map<Bytes, int>, rows: set<Row>)
    requires Tally(m, rows, [], 0)
    ensures forall k :: k in m ==> m[k] != 0
  {
  }

  lemma HeaderMoves(rows: map<Row, Bytes>, src: Bytes, dst: Bytes, del: bool, hdr: map<Bytes, int>)
    requires src != dst && NoneOf(rows, dst) && Tally(hdr, rows.Keys, [], 0)
    ensures Tally(HeaderMoved(hdr, src, dst, del), RowsMoved(rows, src, dst, del).Keys, [], 0)
       <==> !Splits(Of(rows.Keys, src), dst)
    ensures Headed(HeaderMoved(hdr, src, dst, del), src, dst, del, |Of(rows.Keys, src)|)
  {
    hide Carried, Of, RowStore.Titled, Splits, Landing, Tally;
    var all := Of(rows.Keys, src);
    var l := Landing(all, dst);
    var hdr' := HeaderMoved(hdr, src, dst, del);
    TallyAt(hdr, rows.Keys, dst);
    TallyAt(hdr, rows.Keys, src);
    NoRows(rows, dst);
    NoZeros(hdr, rows.Keys);
    Recounted(rows, src, dst, l, if del then l else {}, hdr, hdr');
    LandingCount(all, dst);
  }

  /** What the two header rows count, n fields having been those of src. */
  predicate Headed(hdr: map<Bytes, int>, src: Bytes, dst: Bytes, del: bool, n: nat)
  {
    && Num(hdr, dst) == (if RowStore.Titled(dst) then n else 0)
    && Num(hdr, src) == (if del && RowStore.Titled(dst) then 0 else n)
  }

  lemma Unmoved(ttl: map<Row, int>, src: Bytes, dst: Bytes, del: bool)
    requires src != dst && NoneOf(ttl, dst) && NoneOf(ttl, src)
    ensures TtlMoved(ttl, src, dst, del) == ttl && !Splits(Of(ttl.Keys, src), dst)
  {
    hide Rekeyed;
    assert Of(ttl.Keys, src) == {};
    WalkStarts(ttl, src, dst, del, false);
  }

  /** A field whose deadline is gone. */
  function Untimed(c: Option<Cell>): (c': Option<Cell>)
  {
    match c
    case None => None
    case Some(cell) => Some(cell.(deadline := None))
  }

  /** The fields once dst's own are gone and src's are published under dst as far as they land; a move leaves the
      others where they are, without their deadlines. */
  ghost function Replaced(cells: HashCells.Cells, src: Bytes, dst: Bytes, del: bool): (cells': HashCells.Cells)
    requires src != dst
    ensures forall r :: Look(cells', r) == (if r.0 == dst then (if Lands(dst, r.1) then Look(cells, (src, r.1)) else None)
                                            else if del && r.0 == src then (if Lands(dst, r.1) then None else Untimed(Look(cells, r)))
                                            else Look(cells, r))
  {
    var copies := set r | r in cells && r.0 == src && Lands(dst, r.1) :: (dst, r.1);
    var kept := set r | r in cells && r.0 != dst && !(del && r.0 == src && Lands(dst, r.1));
    map r | r in copies + kept ::
      if r.0 == dst then cells[(src, r.1)] else if del && r.0 == src then cells[r].(deadline := None) else cells[r]
  }

  lemma ReplacedAt(cells: HashCells.Cells, src: Bytes, dst: Bytes, del: bool, r: Row)
    requires src != dst
    ensures Look(Replaced(cells, src, dst, del), r)
         == if r.0 == dst then (if Lands(dst, r.1) then Look(cells, (src, r.1)) else None)
            else if del && r.0 == src then (if Lands(dst, r.1) then None else Untimed(Look(cells, r)))
            else Look(cells, r)
  {
    hide Replaced, Lands;
  }

  /** The rows a walk leaves. */
  lemma RekeyedAt<T>(m: map<Row, T>, src: Bytes, dst: Bytes, del: bool, keep: bool, r: Row)
    requires src != dst && NoneOf(m, dst)
    ensures Look(Rekeyed(m, src, dst, del, keep, Of(m.Keys, src)), r)
         == if r.0 == dst then (if Lands(dst, r.1) then Look(m, (src, r.1)) else None)
            else if del && r.0 == src && (Lands(dst, r.1) || !keep) then None
            else Look(m, r)
  {
    hide Carried, Lands;
    var all := Of(m.Keys, src);
    CarriedAt(m, src, dst, Landing(all, dst), if !del then {} else if keep then Landing(all, dst) else all, r);
  }

  /** Values and deadlines carried over together are the fields carried over. */
  lemma ViewMoved(rows: map<Row, Bytes>, ttl: map<Row, int>, src: Bytes, dst: Bytes, del: bool)
    requires src != dst && NoneOf(rows, dst) && ttl.Keys <= rows.Keys
    ensures NoneOf(ttl, dst)
    ensures var rows', ttl' := RowsMoved(rows, src, dst, del), TtlMoved(ttl, src, dst, del);
            ttl'.Keys <= rows'.Keys && View(rows', ttl') == Replaced(View(rows, ttl), src, dst, del)
  {
    hide Rekeyed, View, Replaced, Lands;
    assert NoneOf(ttl, dst) by { assert forall r :: r in ttl ==> r in rows; }
    var rows', ttl', cells := RowsMoved(rows, src, dst, del), TtlMoved(ttl, src, dst, del), View(rows, ttl);
    forall r ensures (r in ttl' ==> r in rows') && Look(View(rows', ttl'), r) == Look(Replaced(cells, src, dst, del), r) {
      RekeyedAt(rows, src, dst, del, true, r);
      RekeyedAt(ttl, src, dst, del, false, r);
      ReplacedAt(cells, src, dst, del, r);
      CellAt(rows', ttl', r);
      CellAt(rows, ttl, r);
      CellAt(rows, ttl, (src, r.1));
    }
    SameCells(View(rows', ttl'), Replaced(cells, src, dst, del));
  }

  /** Deadlines that split belong to fields that do. */
  lemma TimedSplit(rows: set<Row>, ttl: set<Row>, src: Bytes, dst: Bytes)
    requires ttl <= rows && Splits(Of(ttl, src), dst)
    ensures Splits(Of(rows, src), dst)
  {
    hide Lands, RowStore.Titled;
  }

  lemma VacatedSame(cells: HashCells.Cells, src: Bytes, dst: Bytes, del: bool)
    requires src != dst
    ensures var rest := cells - Of(cells.Keys, dst);
            Replaced(rest, src, dst, del) == Replaced(cells, src, dst, del) && Of(rest.Keys, src) == Of(cells.Keys, src)
  {
    hide Replaced, Lands;
    var rest := cells - Of(cells.Keys, dst);
    forall r ensures Look(Replaced(rest, src, dst, del), r) == Look(Replaced(cells, src, dst, del), r) {
      ReplacedAt(rest, src, dst, del, r);
      ReplacedAt(cells, src, dst, del, r);
    }
    SameCells(Replaced(rest, src, dst, del), Replaced(cells, src, dst, del));
  }

  /** Copying leaves every row there was. */
  lemma CopyKeeps(rows: map<Row, Bytes>, src: Bytes, dst: Bytes)
    requires src != dst && NoneOf(rows, dst)
    ensures rows.Keys <= RowsMoved(rows, src, dst, false).Keys
  {
    hide Rekeyed, Lands;
    forall r | r in rows ensures r in RowsMoved(rows, src, dst, false) {
      RekeyedAt(rows, src, dst, false, true, r);
    }
  }
}
