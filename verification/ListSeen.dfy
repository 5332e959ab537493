/** When the signature-filtered commands answer as the plain list would.  A scan compares against what
    it sees: an entry's bytes, or nothing where an empty element is kept in a detached slot or shows for a missing row.
    For a non-empty target that makes no difference; for the empty target each command has its own exact
    condition (f1srv/listring.go, put; f1srv/list.go, the `v != nil` tests). */
module ListSeen {
  import opened Bytes
  import opened Scan
  import opened ListSpec
  import opened ListRemoval
  import opened ListView

  /** A scan for the target sees every element equal to it. */
  ghost predicate SeesAll(v: seq<Option<Bytes>>, target: Bytes)
  {
    target != [] || None !in v
  }

  /** The verdicts agree entry by entry exactly when the scan sees all. */
  lemma MatchesSeen(v: seq<Option<Bytes>>, target: Bytes)
    ensures Matches(v, Some(target)) == Matches(Texts(v), target) <==> SeesAll(v, target)
  {
    if SeesAll(v, target) {
      assert Matches(v, Some(target)) == Matches(Texts(v), target);
    } else {
      var i :| 0 <= i < |v| && v[i] == None;
      assert Matches(v, Some(target))[i] != Matches(Texts(v), target)[i];
    }
  }

  lemma TextsSlice(v: seq<Option<Bytes>>, a: nat, b: nat)
    requires a <= b <= |v|
    ensures Texts(v[a..b]) == Texts(v)[a..b]
    ensures SeesAll(v, []) ==> SeesAll(v[a..b], [])
  {
  }

  /** LPOS of a target it sees whole. */
  lemma PosSeen(v: seq<Option<Bytes>>, target: Bytes, rank: int, count: Option<nat>, range: (nat, nat))
    requires SeesAll(v, target) && rank != 0 && range.0 <= range.1 <= |v|
    ensures PosIn(v, Some(target), rank, count, range) == PosIn(Texts(v), target, rank, count, range)
  {
    hide ScanUp, ScanDown, Matches, Texts;
    TextsSlice(v, range.0, range.1);
    MatchesSeen(v[range.0..range.1], target);
  }

  /** The empty elements among [lo, hi), in the order a search visits them. */
  ghost function Empties(v: seq<Option<Bytes>>, backward: bool, lo: nat, hi: nat): (ps: seq<int>)
    requires lo <= hi <= |v|
    ensures forall i :: 0 <= i < |ps| ==> lo <= ps[i] < hi
  {
    var ps := AllHits(Matches(Texts(v[lo..hi]), []), lo);
    assert forall i :: 0 <= i < |ps| ==> ps[i] in ps;
    InOrder(ps, backward)
  }

  /** LPOS of the empty target has nothing to report, or sees every match it passes over or reports. */
  ghost predicate NoneMissed(v: seq<Option<Bytes>>, backward: bool, skip: nat, want: int, lo: nat, hi: nat)
    requires lo <= hi <= |v|
  {
    var ps := Empties(v, backward, lo, hi);
    |ps| <= skip ||
    forall i :: 0 <= i < skip + Wanted(Collector(0, skip, want, [], false), |ps| - skip) ==> v[ps[i]] != None
  }

  /** The matches a search of the empty target sees are the empty elements outside the nil slots. */
  lemma {:induction false} HitsSeen(v: seq<Option<Bytes>>, from: int, gone: set<int>)
    requires forall i :: 0 <= i < |v| ==> (from + i in gone <==> v[i] == None)
    ensures AllHits(Matches(v, Some([])), from) == Without(AllHits(Matches(Texts(v), []), from), gone)
    decreases |v|
  {
    if v != [] {
      assert Matches(v, Some([]))[1..] == Matches(v[1..], Some([]));
      assert Matches(Texts(v), [])[1..] == Matches(Texts(v[1..]), []);
      forall i | 0 <= i < |v[1..]| ensures (from + 1 + i in gone <==> v[1..][i] == None) {
        assert v[1..][i] == v[i + 1];
      }
      HitsSeen(v[1..], from + 1, gone);
      assert from + 0 in gone <==> v[0] == None;
      var rest := AllHits(Matches(Texts(v[1..]), []), from + 1);
      var ps := AllHits(Matches(Texts(v), []), from);
      assert Matches(Texts(v), [])[0] == (Text(v[0]) == []);
      if Text(v[0]) == [] {
        assert ps == [from] + rest && ps[1..] == rest;
      } else {
        assert ps == rest;
      }
    }
  }

  /** LPOS of the empty target, in either direction. */
  lemma ScannedExactly(v: seq<Option<Bytes>>, backward: bool, skip: nat, want: int, lo: nat, hi: nat)
    requires lo <= hi <= |v|
    ensures Scanned(v, Some([]), backward, skip, want, lo, hi) == Scanned(Texts(v), [], backward, skip, want, lo, hi)
       <==> NoneMissed(v, backward, skip, want, lo, hi)
  {
    hide *;
    var w, c := v[lo..hi], Collector(0, skip, want, [], false);
    var gone := set p | lo <= p < hi && v[p] == None;
    var seen, all := Matches(w, Some([])), Matches(Texts(w), []);
    assert Texts(v)[lo..hi] == Texts(w) by { TextsSlice(v, lo, hi); }
    var ps := AllHits(all, lo);
    assert AllHits(seen, lo) == Without(ps, gone) by { HitsSeen(w, lo, gone); }
    assert Distinct(InOrder(ps, backward)) && Open(c) by { InOrderDistinct(all, lo, backward); StartOpen(skip, want); }
    ScanReports(seen, lo, c, backward);
    ScanReports(all, lo, c, backward);
    InOrderWithout(ps, gone, backward);
    ReportedWithout(c, InOrder(ps, backward), gone);
    MissedIs(v, backward, skip, want, lo, hi, gone);
    ScannedIs(v, Some([]), backward, skip, want, lo, hi);
    ScannedIs(Texts(v), [], backward, skip, want, lo, hi);
  }

  lemma MissedIs(v: seq<Option<Bytes>>, backward: bool, skip: nat, want: int, lo: nat, hi: nat, gone: set<int>)
    requires lo <= hi <= |v| && gone == (set p | lo <= p < hi && v[p] == None)
    ensures var c, ps := Collector(0, skip, want, [], false), InOrder(AllHits(Matches(Texts(v[lo..hi]), []), lo), backward);
            (NoneMissed(v, backward, skip, want, lo, hi) <==>
               |ps| <= skip || forall i :: 0 <= i < skip + Wanted(c, |ps| - skip) ==> ps[i] !in gone)
  {
    hide AllHits, Matches, Texts, InOrder, Wanted;
    var c, ps := Collector(0, skip, want, [], false), Empties(v, backward, lo, hi);
    if |ps| > skip { WantedBound(c, |ps| - skip); }
  }

  lemma WantedBound(c: Collector, n: nat)
    requires c.out == []
    ensures Wanted(c, n) <= n
  {
  }

  lemma StartOpen(skip: nat, want: int)
    ensures Open(Collector(0, skip, want, [], false))
  {
  }

  lemma InOrderDistinct(hits: seq<bool>, from: int, backward: bool)
    ensures Distinct(InOrder(AllHits(hits, from), backward))
  {
    HitsDistinct(hits, from);
    BackwardsDistinct(AllHits(hits, from));
  }

  lemma InOrderWithout(ps: seq<int>, gone: set<int>, backward: bool)
    ensures InOrder(Without(ps, gone), backward) == Without(InOrder(ps, backward), gone)
  {
    WithoutBackwards(ps, gone);
  }

  /** A scan in either direction. */
  lemma ScanReports(hits: seq<bool>, from: int, c: Collector, backward: bool)
    requires Open(c) && c.out == []
    ensures (if backward then ScanDown(hits, from, c) else ScanUp(hits, from, c)).out == Reported(c, InOrder(AllHits(hits, from), backward))
  {
    hide ScanUp, ScanDown, AllHits, Reported;
    ScanDownReports(hits, from, c);
    ScanUpReports(hits, from, c);
  }

  lemma ScannedIs<T>(s: seq<T>, target: T, backward: bool, skip: nat, want: int, lo: nat, hi: nat)
    requires lo <= hi <= |s|
    ensures var c, hits := Collector(0, skip, want, [], false), Matches(s[lo..hi], target);
            Scanned(s, target, backward, skip, want, lo, hi) == (if backward then ScanDown(hits, lo, c) else ScanUp(hits, lo, c)).out
  {
  }

  /** A search for one match reports at most one. */
  lemma AtMostOne<T>(s: seq<T>, target: T, backward: bool, skip: nat, lo: nat, hi: nat)
    requires lo <= hi <= |s|
    ensures |Scanned(s, target, backward, skip, -1, lo, hi)| <= 1
  {
    hide ScanUp, ScanDown, Matches, AllHits;
    var c, hits := Collector(0, skip, -1, [], false), Matches(s[lo..hi], target);
    ScanUpReports(hits, lo, c);
    ScanDownReports(hits, lo, c);
  }

  /** LPOS: every rank, count and limit. */
  lemma PosSeenExactly(v: seq<Option<Bytes>>, target: Bytes, rank: int, count: Option<nat>, range: (nat, nat))
    requires rank != 0 && range.0 <= range.1 <= |v|
    ensures PosIn(v, Some(target), rank, count, range) == PosIn(Texts(v), target, rank, count, range)
       <==> target != [] ||
            NoneMissed(v, rank < 0, if rank < 0 then -rank - 1 else rank - 1, if count.Some? then count.value else -1, range.0, range.1)
  {
    hide Scanned, NoneMissed, Texts;
    var skip := if rank < 0 then -rank - 1 else rank - 1;
    if target != [] {
      PosSeen(v, target, rank, count, range);
    } else {
      ScannedExactly(v, rank < 0, skip, if count.Some? then count.value else -1, range.0, range.1);
      AtMostOne(v, Some(target), rank < 0, skip, range.0, range.1);
      AtMostOne(Texts(v), target, rank < 0, skip, range.0, range.1);
    }
  }

  /** LINSERT: the pivot is found where the plain list has it exactly when the first empty element is
      not a detached one. */
  lemma {:induction false} FirstIndexSeen(v: seq<Option<Bytes>>, target: Bytes)
    ensures FirstIndex(v, Some(target)) == FirstIndex(Texts(v), target)
       <==> target != [] || FirstIndex(Texts(v), []).None? || v[FirstIndex(Texts(v), []).value] != None
    decreases |v|
  {
    if v != [] {
      assert Texts(v)[1..] == Texts(v[1..]);
      FirstIndexSeen(v[1..], target);
    }
  }

  /** LREM: every count. */
  lemma RemovedSeen(v: seq<Option<Bytes>>, target: Bytes, count: int)
    requires SeesAll(v, target)
    ensures Texts(Removed(v, Some(target), count)) == Removed(Texts(v), target, count)
  {
    hide Kept, Removed, Chosen, AllHits, Matches;
    MatchesSeen(v, target);
    ChosenRemoves(v, Some(target), 0, count);
    ChosenRemoves(Texts(v), target, 0, count);
    TextsOfKept(v, 0, ToSet(Chosen(AllHits(Matches(v, Some(target)), 0), count)));
  }

  lemma OccursFirst<T>(s: seq<T>, x: T)
    requires s != []
    ensures Occurs(s, x) == (if s[0] == x then 1 else 0) + Occurs(s[1..], x)
  {
  }

  /** An index of the list's end or of a non-empty element. */
  ghost predicate Boundary(v: seq<Option<Bytes>>, k: int)
  {
    k == |v| || (0 <= k < |v| && Text(v[k]) != [])
  }

  /** x less what a budget of a takes of the empty elements before k, against y less what a budget of b takes of
      those that are seen. */
  ghost predicate Level(v: seq<Option<Bytes>>, k: nat, x: nat, a: nat, y: nat, b: nat)
    requires k <= |v|
  {
    x - Min(a, Occurs(Texts(v[..k]), [])) == y - Min(b, Occurs(v[..k], Some([])))
  }

  /** Every run of empty elements loses equally many either way, out of at most c. */
  ghost predicate SameLosses(v: seq<Option<Bytes>>, c: nat)
  {
    forall k: nat :: k <= |v| && Boundary(v, k) ==> Level(v, k, 0, c, 0, c)
  }

  ghost predicate AllLevel(v: seq<Option<Bytes>>, x: nat, a: nat, y: nat, b: nat)
  {
    forall k: nat :: k <= |v| && Boundary(v, k) ==> Level(v, k, x, a, y, b)
  }

  /** So many empty elements. */
  function Blank(n: nat): (s: seq<Bytes>)
    ensures |s| == n
  {
    seq(n, _ => [])
  }

  lemma BlankApart(x: nat, y: nat, s: seq<Bytes>, t: seq<Bytes>)
    requires s == [] || s[0] != []
    requires t == [] || t[0] != []
    ensures Blank(x) + s == Blank(y) + t <==> x == y && s == t
  {
    var l, r := Blank(x) + s, Blank(y) + t;
    assert s == l[x..] && t == r[y..];
    if x < y { BlankShorter(x, y, s, t); }
    if y < x { BlankShorter(y, x, t, s); }
  }

  lemma BlankShorter(x: nat, y: nat, s: seq<Bytes>, t: seq<Bytes>)
    requires x < y && (s == [] || s[0] != [])
    ensures Blank(x) + s != Blank(y) + t
  {
    assert (Blank(y) + t)[x] == [];
    if s != [] { assert (Blank(x) + s)[x] == s[0]; }
  }

  lemma BlankMore(x: nat, s: seq<Bytes>)
    ensures Blank(x) + ([[]] + s) == Blank(x + 1) + s
  {
  }

  lemma LevelStep(v: seq<Option<Bytes>>, k: nat, x: nat, a: nat, y: nat, b: nat, x': nat, a': nat, y': nat, b': nat)
    requires v != [] && k < |v|
    requires if Text(v[0]) != [] then x == y && (x', a', y', b') == (0, a, 0, b)
             else && (x', a') == (if a > 0 then (x, a - 1) else (x + 1, a))
                  && (y', b') == (if v[0].Some? && b > 0 then (y, b - 1) else (y + 1, b))
    ensures Level(v, k + 1, x, a, y, b) <==> Level(v[1..], k, x', a', y', b')
  {
    var p, q := v[..k + 1], v[1..][..k];
    assert p[1..] == q;
    assert Texts(p)[1..] == Texts(q);
    assert Occurs(Texts(p), []) == (if Text(v[0]) == [] then 1 else 0) + Occurs(Texts(q), []);
    assert Occurs(p, Some([])) == (if v[0] == Some([]) then 1 else 0) + Occurs(q, Some([]));
  }

  lemma AllLevelStep(v: seq<Option<Bytes>>, x: nat, a: nat, y: nat, b: nat, x': nat, a': nat, y': nat, b': nat)
    requires v != []
    requires if Text(v[0]) != [] then x == y && (x', a', y', b') == (0, a, 0, b)
             else && (x', a') == (if a > 0 then (x, a - 1) else (x + 1, a))
                  && (y', b') == (if v[0].Some? && b > 0 then (y, b - 1) else (y + 1, b))
    ensures AllLevel(v, x, a, y, b) <==> AllLevel(v[1..], x', a', y', b')
  {
    hide Level;
    forall k: nat | k <= |v[1..]| && Boundary(v[1..], k) ensures Boundary(v, k + 1) {}
    forall k: nat | k <= |v[1..]| ensures Level(v, k + 1, x, a, y, b) <==> Level(v[1..], k, x', a', y', b') {
      LevelStep(v, k, x, a, y, b, x', a', y', b');
    }
    assert Level(v, 0, x, a, y, b) <==> x == y by { LevelStart(v, x, a, y, b); }
    if AllLevel(v[1..], x', a', y', b') {
      forall k: nat | k <= |v| && Boundary(v, k) ensures Level(v, k, x, a, y, b) {
        if k > 0 { assert Boundary(v[1..], k - 1); }
      }
    }
  }

  lemma LevelStart(v: seq<Option<Bytes>>, x: nat, a: nat, y: nat, b: nat)
    ensures Level(v, 0, x, a, y, b) <==> x == y
  {
    assert v[..0] == [] && Texts(v[..0]) == [];
  }

  /** Removing from the front, with x and y empty elements already kept. */
  lemma {:induction false} RemoveFirstExactly(v: seq<Option<Bytes>>, x: nat, a: nat, y: nat, b: nat)
    ensures Blank(x) + RemoveFirst(Texts(v), [], a) == Blank(y) + Texts(RemoveFirst(v, Some([]), b))
       <==> AllLevel(v, x, a, y, b)
    decreases |v|
  {
    hide AllLevel, Level, Blank;
    if v == [] {
      assert AllLevel(v, x, a, y, b) <==> x == y by { AllLevelNone(x, a, y, b); }
      BlankApart(x, y, [], []);
      return;
    }
    var t, w := Text(v[0]), v[1..];
    assert Texts(v)[1..] == Texts(w);
    var r, q := RemoveFirst(Texts(w), [], a), RemoveFirst(w, Some([]), b);
    if t != [] {
      assert Texts([v[0]] + q) == [t] + Texts(q);
      BlankApart(x, y, [t] + r, [t] + Texts(q));
      BlankApart(0, 0, [t] + r, [t] + Texts(q));
      if x == y {
        RemoveFirstExactly(w, 0, a, 0, b);
        AllLevelStep(v, x, a, y, b, 0, a, 0, b);
        SameFirst(t, r, Texts(q));
        NoBlank(r);
        NoBlank(Texts(q));
      } else {
        assert !AllLevel(v, x, a, y, b) by { NotLevel(v, x, a, y, b); }
      }
    } else {
      var (x', a') := if a > 0 then (x, a - 1) else (x + 1, a);
      var (y', b') := if v[0].Some? && b > 0 then (y, b - 1) else (y + 1, b);
      RemoveFirstExactly(w, x', a', y', b');
      AllLevelStep(v, x, a, y, b, x', a', y', b');
      BlankMore(x, r);
      BlankMore(y, Texts(q));
      assert Texts([v[0]] + q) == [t] + Texts(q);
    }
  }

  lemma SameFirst(t: Bytes, r: seq<Bytes>, q: seq<Bytes>)
    ensures [t] + r == [t] + q <==> r == q
  {
    assert r == ([t] + r)[1..] && q == ([t] + q)[1..];
  }

  lemma NoBlank(s: seq<Bytes>)
    ensures Blank(0) + s == s
  {
  }

  lemma AllLevelNone(x: nat, a: nat, y: nat, b: nat)
    ensures AllLevel([], x, a, y, b) <==> x == y
  {
    LevelStart([], x, a, y, b);
    assert Boundary([], 0);
  }

  lemma NotLevel(v: seq<Option<Bytes>>, x: nat, a: nat, y: nat, b: nat)
    requires v != [] && Text(v[0]) != [] && x != y
    ensures !AllLevel(v, x, a, y, b)
  {
    LevelStart(v, x, a, y, b);
    assert Boundary(v, 0);
  }

  /** Removing from the back is removing from the front of the list turned around. */
  lemma {:induction false} RemoveLastTurned<T>(s: seq<T>, target: T, n: int)
    ensures RemoveLast(s, target, n) == Reverse(RemoveFirst(Reverse(s), target, n))
    decreases |s|
  {
    if s != [] {
      var k := |s| - 1;
      assert s == s[..k] + [s[k]];
      ReverseConcat(s[..k], [s[k]]);
      assert Reverse([s[k]]) == [s[k]];
      assert Reverse(s) == [s[k]] + Reverse(s[..k]);
      assert Reverse(s)[1..] == Reverse(s[..k]);
      if s[k] == target && n > 0 {
        RemoveLastTurned(s[..k], target, n - 1);
      } else {
        RemoveLastTurned(s[..k], target, n);
        var r := RemoveFirst(Reverse(s[..k]), target, n);
        ReverseConcat([s[k]], r);
      }
    }
  }

  lemma TextsTurned(v: seq<Option<Bytes>>)
    ensures Texts(Reverse(v)) == Reverse(Texts(v))
  {
    hide Reverse;
  }

  lemma TurnedBack<T>(s: seq<T>, t: seq<T>)
    ensures Reverse(s) == Reverse(t) <==> s == t
  {
    hide Reverse;
    if Reverse(s) == Reverse(t) {
      assert |s| == |t|;
      forall i | 0 <= i < |s| ensures s[i] == t[i] {
        assert s[i] == Reverse(s)[|s| - 1 - i] && t[i] == Reverse(t)[|t| - 1 - i];
      }
    }
  }

  /** From the front. */
  lemma RemoveFirstSeen(v: seq<Option<Bytes>>, c: nat)
    ensures Texts(RemoveFirst(v, Some([]), c)) == RemoveFirst(Texts(v), [], c) <==> SameLosses(v, c)
  {
    assert SameLosses(v, c) <==> AllLevel(v, 0, c, 0, c);
    hide *;
    RemoveFirstExactly(v, 0, c, 0, c);
    NoBlank(RemoveFirst(Texts(v), [], c));
    NoBlank(Texts(RemoveFirst(v, Some([]), c)));
  }

  /** From the back. */
  lemma RemoveLastSeen(v: seq<Option<Bytes>>, c: nat)
    ensures Texts(RemoveLast(v, Some([]), c)) == RemoveLast(Texts(v), [], c) <==> SameLosses(Reverse(v), c)
  {
    hide *;
    var u := Reverse(v);
    RemoveFirstSeen(u, c);
    RemoveLastTurned(v, Some([]), c);
    RemoveLastTurned(Texts(v), [], c);
    TextsTurned(v);
    var r, q := RemoveFirst(Texts(u), [], c), RemoveFirst(u, Some([]), c);
    TextsTurned(q);
    TurnedBack(r, Texts(q));
  }

  /** LREM: every count. */
  lemma RemovedSeenExactly(v: seq<Option<Bytes>>, target: Bytes, count: int)
    ensures Texts(Removed(v, Some(target), count)) == Removed(Texts(v), target, count)
       <==> target != [] ||
            if count > 0 then SameLosses(v, count) else if count < 0 then SameLosses(Reverse(v), -count) else SameLosses(v, |v|)
  {
    hide RemoveFirst, RemoveLast, Texts, Reverse, SameLosses;
    if target != [] {
      RemovedSeen(v, target, count);
    } else if count >= 0 {
      RemoveFirstSeen(v, if count > 0 then count else |v|);
    } else {
      RemoveLastSeen(v, -count);
    }
  }

  /** With a budget for every match, the losses are the same exactly when every match is seen. */
  lemma AllLossesSame(v: seq<Option<Bytes>>)
    ensures SameLosses(v, |v|) <==> None !in v
  {
    hide Occurs;
    forall k: nat | k <= |v| ensures Occurs(v[..k], Some([])) <= Occurs(Texts(v[..k]), [])
                                     && (Occurs(v[..k], Some([])) == Occurs(Texts(v[..k]), []) <==> None !in v[..k]) {
      OccursSeen(v[..k]);
    }
    assert v[..|v|] == v;
    assert Boundary(v, |v|);
  }

  lemma {:induction false} OccursSeen(v: seq<Option<Bytes>>)
    ensures Occurs(v, Some([])) <= Occurs(Texts(v), [])
    ensures Occurs(v, Some([])) == Occurs(Texts(v), []) <==> None !in v
    decreases |v|
  {
    if v != [] {
      hide Occurs, Texts;
      assert Texts(v)[1..] == Texts(v[1..]);
      OccursFirst(v, Some([]));
      OccursFirst(Texts(v), []);
      assert None in v <==> None == v[0] || None in v[1..];
      OccursSeen(v[1..]);
    }
  }

  /** LPOS and LREM on a list of one entry. */
  lemma OfOne<T>(x: T, target: T)
    ensures Pos([x], target, 1, None, 0) == if x == target then Number(0) else Nil
    ensures Removed([x], target, 1) == if x == target then [] else [x]
  {
    var c := Collector(0, 0, -1, [], false);
    var h := Matches([x], target);
    assert [x][..1] == [x] && h[..0] == [] && h[1..] == [];
    assert ScanUp(h, 0, c) == if x == target then Collector(0, 0, -1, [0], true) else c;
    assert RemoveFirst([x][1..], target, 1) == [] && RemoveFirst([x][1..], target, 0) == [];
    assert [x][0..1] == [x];
    assert Scanned([x], target, false, 0, -1, 0, 1) == if x == target then [0] else [];
  }

  /** A list of one empty element in a detached slot: LPOS finds nothing where the plain list has a
      match, LINSERT no pivot, LREM nothing to take. */
  lemma EmptyMissed()
    ensures var v: seq<Option<Bytes>> := [None];
            && Texts(v) == [[]]
            && Pos(v, Some([]), 1, None, 0) == Nil && Pos(Texts(v), [], 1, None, 0) == Number(0)
            && FirstIndex(v, Some([])) == None && FirstIndex(Texts(v), []) == Some(0)
            && Removed(v, Some([]), 1) == v && Removed(Texts(v), [], 1) == []
  {
    hide Pos, Removed;
    var v: seq<Option<Bytes>> := [None];
    assert Texts(v) == [[]];
    OfOne<Option<Bytes>>(None, Some([]));
    OfOne<Bytes>([], []);
  }
}
