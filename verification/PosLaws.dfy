/** LPOS by index: which indexes it reports, said by how many equal elements are before or behind each
    (f1srv/list.go, cmdLPos and lposScan). */
module PosLaws {
  import opened Bytes
  import opened ListSpec
  import opened ListCells
  import opened ListLaws
  import opened Scan

  /** The stretch from the a-th to before the b-th entry, as far as there are such. */
  function Slice(ps: seq<int>, a: nat, b: nat): (r: seq<int>)
    requires a <= b
  {
    ps[Min(a, |ps|)..Min(b, |ps|)]
  }

  lemma SliceSnoc(ps: seq<int>, p: int, a: nat, b: nat)
    requires a <= b
    ensures Slice(ps + [p], a, b) == Slice(ps, a, b) + if a <= |ps| < b then [p] else []
  {
  }

  lemma SliceCons(p: int, ps: seq<int>, a: nat, b: nat)
    requires a <= b
    ensures Slice([p] + ps, a, b)
         == if b == 0 then [] else if a == 0 then [p] + Slice(ps, 0, b - 1) else Slice(ps, a - 1, b - 1)
  {
  }

  lemma MatchesSnoc<T>(s: seq<T>, t: T, lo: nat, hi: nat)
    requires lo < hi <= |s|
    ensures s[lo..hi] == s[lo..hi - 1] + [s[hi - 1]]
    ensures Matches(s[lo..hi], t) == Matches(s[lo..hi - 1], t) + [s[hi - 1] == t]
    ensures AllHits(Matches(s[lo..hi], t), lo)
         == AllHits(Matches(s[lo..hi - 1], t), lo) + if s[hi - 1] == t then [hi - 1] else []
  {
    hide AllHits;
    var a, b := Matches(s[lo..hi - 1], t), Matches(s[lo..hi], t);
    assert s[lo..hi] == s[lo..hi - 1] + [s[hi - 1]];
    assert b == a + [s[hi - 1] == t] && b[..|b| - 1] == a;
    AllHitsSnoc(b, lo);
  }

  lemma {:induction false} UpNone(n: nat, p: int -> bool)
    requires forall j :: 0 <= j < n ==> !p(j)
    ensures Up(n, p) == [] && Down(n, p) == []
  {
    if n > 0 { UpNone(n - 1, p); }
  }

  /** A match in [lo, hi) with at least a and fewer than b before it in there. */
  predicate Rising<T(==)>(s: seq<T>, t: T, lo: nat, hi: nat, a: nat, b: nat, j: int)
    requires lo <= hi <= |s|
  {
    lo <= j < hi && s[j] == t && a <= Occurs(s[lo..j], t) < b
  }

  /** ... or behind it. */
  predicate Falling<T(==)>(s: seq<T>, t: T, lo: nat, hi: nat, a: nat, b: nat, j: int)
    requires lo <= hi <= |s|
  {
    lo <= j < hi && s[j] == t && a <= Occurs(s[j + 1..hi], t) < b
  }

  lemma {:induction false} RisingHits<T>(s: seq<T>, t: T, lo: nat, hi: nat, a: nat, b: nat)
    requires lo <= hi <= |s| && a <= b
    ensures Slice(AllHits(Matches(s[lo..hi], t), lo), a, b) == Up(hi, j => Rising(s, t, lo, hi, a, b, j))
    decreases hi - lo
  {
    hide AllHits, Occurs, Up, Slice, Matches;
    var p := j => Rising(s, t, lo, hi, a, b, j);
    if lo == hi {
      UpNone(hi, p);
      NoHits(s, t, lo);
      assert Slice([], a, b) == [] by { SliceNone(a, b); }
    } else {
      var k := hi - 1;
      var ps := AllHits(Matches(s[lo..k], t), lo);
      MatchesSnoc(s, t, lo, hi);
      RisingHits(s, t, lo, k, a, b);
      SliceSnoc(ps, k, a, b);
      OccursHits(s[lo..k], t, lo);
      UpSame(k, p, j => Rising(s, t, lo, k, a, b, j));
      UpNext(hi, p);
      assert ps + [] == ps && Slice(ps, a, b) + [] == Slice(ps, a, b);
    }
  }

  lemma SliceNone(a: nat, b: nat)
    requires a <= b
    ensures Slice([], a, b) == []
  {
  }

  lemma UpNext(n: nat, p: int -> bool)
    requires n > 0
    ensures Up(n, p) == Up(n - 1, p) + if p(n - 1) then [n - 1] else []
  {
  }

  lemma NoHits<T>(s: seq<T>, t: T, lo: nat)
    requires lo <= |s|
    ensures AllHits(Matches(s[lo..lo], t), lo) == []
  {
  }

  ghost function Falls<T>(s: seq<T>, t: T, lo: nat, hi: nat, a: nat, b: nat): (r: seq<int>)
    requires lo <= hi <= |s|
  {
    Down(hi, j => Falling(s, t, lo, hi, a, b, j))
  }

  lemma {:induction false} FallingHits<T>(s: seq<T>, t: T, lo: nat, hi: nat, a: nat, b: nat)
    requires lo <= hi <= |s| && a <= b
    ensures Slice(Backwards(AllHits(Matches(s[lo..hi], t), lo)), a, b) == Falls(s, t, lo, hi, a, b)
    decreases hi - lo
  {
    hide AllHits, Backwards, Matches, Falls, Slice;
    if lo == hi {
      NoneFalls(s, t, lo, a, b);
    } else {
      var k := hi - 1;
      var ps := AllHits(Matches(s[lo..k], t), lo);
      MatchesSnoc(s, t, lo, hi);
      FallsNext(s, t, lo, hi, a, b);
      if s[k] == t {
        var a', b' := if a == 0 then 0 else a - 1, if b == 0 then 0 else b - 1;
        FallingHits(s, t, lo, k, a', b');
        BackwardsSnoc(ps, k);
        SliceCons(k, Backwards(ps), a, b);
        NoSlice(Backwards(ps));
      } else {
        assert ps + [] == ps;
        FallingHits(s, t, lo, k, a, b);
      }
    }
  }

  lemma NoSlice(ps: seq<int>)
    ensures Slice(ps, 0, 0) == []
  {
  }

  lemma NoneFalls<T>(s: seq<T>, t: T, lo: nat, a: nat, b: nat)
    requires lo <= |s| && a <= b
    ensures Slice(Backwards(AllHits(Matches(s[lo..lo], t), lo)), a, b) == Falls(s, t, lo, lo, a, b)
  {
    hide AllHits, Matches;
    UpNone(lo, j => Falling(s, t, lo, lo, a, b, j));
    NoHits(s, t, lo);
    assert Backwards([]) == [];
  }

  /** A match at the top is the first to be met; with one met, one less is passed over and wanted. */
  lemma FallsNext<T>(s: seq<T>, t: T, lo: nat, hi: nat, a: nat, b: nat)
    requires lo < hi <= |s| && a <= b
    ensures var k := hi - 1;
            Falls(s, t, lo, hi, a, b) ==
            (if s[k] != t then Falls(s, t, lo, k, a, b)
             else (if a == 0 < b then [k] else []) + Falls(s, t, lo, k, if a == 0 then 0 else a - 1, if b == 0 then 0 else b - 1))
  {
    hide Falling, Down;
    var k := hi - 1;
    var a', b' := if s[k] != t || a == 0 then a else a - 1, if s[k] != t || b == 0 then b else b - 1;
    var p, q := j => Falling(s, t, lo, hi, a, b, j), j => Falling(s, t, lo, k, a', b', j);
    forall j | 0 <= j < k ensures p(j) == q(j) { FallingBelow(s, t, lo, hi, a, b, j); }
    DownSame(k, p, q);
    FallingTop(s, t, lo, hi, a, b);
    DownNext(hi, p);
    assert [] + Down(k, p) == Down(k, p);
  }

  lemma DownNext(n: nat, p: int -> bool)
    requires n > 0
    ensures Down(n, p) == (if p(n - 1) then [n - 1] else []) + Down(n - 1, p)
  {
  }

  lemma FallingBelow<T>(s: seq<T>, t: T, lo: nat, hi: nat, a: nat, b: nat, j: int)
    requires lo < hi <= |s| && a <= b && 0 <= j < hi - 1
    ensures var k := hi - 1;
            var a', b' := if s[k] != t || a == 0 then a else a - 1, if s[k] != t || b == 0 then b else b - 1;
            Falling(s, t, lo, hi, a, b, j) == Falling(s, t, lo, k, a', b', j)
  {
    hide Occurs;
    var k := hi - 1;
    assert s[j + 1..hi] == s[j + 1..k] + [s[k]];
    OccursSnoc(s[j + 1..k], s[k], t);
  }

  lemma FallingTop<T>(s: seq<T>, t: T, lo: nat, hi: nat, a: nat, b: nat)
    requires lo < hi <= |s| && a <= b
    ensures Falling(s, t, lo, hi, a, b, hi - 1) <==> s[hi - 1] == t && a == 0 < b
  {
    assert s[hi - 1 + 1..hi] == [];
  }

  /** A scan that passes over `skip` matches reports a stretch of them. */
  lemma ReportedSlice(skip: nat, want: int, ps: seq<int>, n: nat)
    requires |ps| <= n
    ensures Reported(Collector(0, skip, want, [], false), ps)
         == Slice(ps, skip, skip + if want < 0 then 1 else if want == 0 then n else want)
  {
  }

  /** How far LPOS looks. */
  function Reach(n: nat, maxlen: nat): (k: nat)
    ensures k <= n
  {
    if maxlen == 0 || maxlen > n then n else maxlen
  }

  /** Looked at from the head with rank r, an index is reported if and only if it is within reach, holds the target, has
      at least r - 1 of the same before it and, for a count that is not zero, fewer than r - 1 + count. */
  predicate Ranked<T(==)>(s: seq<T>, t: T, rank: int, count: nat, maxlen: nat, j: int)
    requires rank != 0
  {
    var n := |s|;
    if rank > 0 then
      && 0 <= j < Reach(n, maxlen) && s[j] == t
      && rank - 1 <= Occurs(s[..j], t) && (count == 0 || Occurs(s[..j], t) < rank - 1 + count)
    else
      && n - Reach(n, maxlen) <= j < n && s[j] == t
      && -rank - 1 <= Occurs(s[j + 1..], t) && (count == 0 || Occurs(s[j + 1..], t) < -rank - 1 + count)
  }

  /** LPOS reports exactly the indexes of its rank, from the head up or from the tail down. */
  ghost function Reports<T>(s: seq<T>, t: T, rank: int, count: nat, maxlen: nat): (r: seq<int>)
    requires rank != 0
  {
    if rank > 0 then Up(|s|, j => Ranked(s, t, rank, count, maxlen, j)) else Down(|s|, j => Ranked(s, t, rank, count, maxlen, j))
  }

  lemma {:induction false} UpShort(n: nat, m: nat, p: int -> bool)
    requires n <= m && forall j :: n <= j < m ==> !p(j)
    ensures Up(m, p) == Up(n, p)
  {
    if n < m { UpShort(n, m - 1, p); }
  }

  lemma ScannedReports<T>(s: seq<T>, t: T, rank: int, want: int, maxlen: nat)
    requires rank != 0
    ensures var (lo, hi) := Limited(|s|, rank < 0, maxlen);
            Scanned(s, t, rank < 0, Skipped(rank), want, lo, hi) == Reports(s, t, rank, if want < 0 then 1 else want, maxlen)
  {
    hide AllHits, Occurs, Reported, Backwards, Matches, ScanUp, ScanDown, Up, Down, Slice;
    var n, skip := |s|, if rank < 0 then -rank - 1 else rank - 1;
    var (lo, hi) := Limited(n, rank < 0, maxlen);
    var hits, c := Matches(s[lo..hi], t), Collector(0, skip, want, [], false);
    var ps := AllHits(hits, lo);
    var b := skip + if want < 0 then 1 else if want == 0 then n + 1 else want;
    OccursHits(s[lo..hi], t, lo);
    OccursBound(s[lo..hi], t);
    if rank > 0 {
      ScanUpReports(hits, lo, c);
      ReportedSlice(skip, want, ps, n + 1);
      RisingHits(s, t, lo, hi, skip, b);
      RankedRises(s, t, rank, want, maxlen);
    } else {
      ScanDownReports(hits, lo, c);
      ReportedSlice(skip, want, Backwards(ps), n + 1);
      FallingHits(s, t, lo, hi, skip, b);
      RankedFalls(s, t, rank, want, maxlen);
    }
  }

  lemma OccursBound<T>(s: seq<T>, t: T)
    ensures Occurs(s, t) <= |s|
  {
  }

  lemma RankedRises<T>(s: seq<T>, t: T, rank: int, want: int, maxlen: nat)
    requires rank > 0
    ensures var n, hi := |s|, Reach(|s|, maxlen);
            var b := rank - 1 + if want < 0 then 1 else if want == 0 then n + 1 else want;
            Up(hi, j => Rising(s, t, 0, hi, rank - 1, b, j)) == Reports(s, t, rank, if want < 0 then 1 else want, maxlen)
  {
    hide Occurs, Up;
    var n, hi := |s|, Reach(|s|, maxlen);
    var b := rank - 1 + if want < 0 then 1 else if want == 0 then n + 1 else want;
    var p, q := j => Rising(s, t, 0, hi, rank - 1, b, j), j => Ranked(s, t, rank, if want < 0 then 1 else want, maxlen, j);
    forall j | 0 <= j < hi ensures p(j) == q(j) {
      assert s[0..j] == s[..j];
      OccursBound(s[..j], t);
    }
    UpSame(hi, p, q);
    UpShort(hi, n, q);
  }

  lemma RankedFalls<T>(s: seq<T>, t: T, rank: int, want: int, maxlen: nat)
    requires rank < 0
    ensures var n, lo := |s|, |s| - Reach(|s|, maxlen);
            var b := -rank - 1 + if want < 0 then 1 else if want == 0 then n + 1 else want;
            Falls(s, t, lo, n, -rank - 1, b) == Reports(s, t, rank, if want < 0 then 1 else want, maxlen)
  {
    hide Occurs, Down;
    var n, lo := |s|, |s| - Reach(|s|, maxlen);
    var b := -rank - 1 + if want < 0 then 1 else if want == 0 then n + 1 else want;
    var p, q := j => Falling(s, t, lo, n, -rank - 1, b, j), j => Ranked(s, t, rank, if want < 0 then 1 else want, maxlen, j);
    forall j | 0 <= j < n ensures p(j) == q(j) {
      assert s[j + 1..n] == s[j + 1..];
      OccursBound(s[j + 1..], t);
    }
    DownSame(n, p, q);
  }

  /** LPOS with a count replies all the indexes of its rank, and without one the first of them. */
  lemma PosReports<T>(s: seq<T>, t: T, rank: int, count: Option<nat>, maxlen: nat)
    requires rank != 0
    ensures count.Some? ==> Pos(s, t, rank, count, maxlen) == Numbers(Reports(s, t, rank, count.value, maxlen))
    ensures count.None? ==>
              var found := Reports(s, t, rank, 1, maxlen);
              Pos(s, t, rank, None, maxlen) == if found == [] then Nil else Number(found[0])
  {
    hide Scanned, Reports, Limited;
    ScannedReports(s, t, rank, match count case None => -1 case Some(c) => c, maxlen);
  }
}
