/** What a list scan reports (f1srv/list.go, lposScan and the match passes of LINSERT and LREM),
    as a fold over which positions match. */
module Scan {
  /** A scan's running result: matches still to skip, how many to report (negative: one, zero: all),
      the reported positions relative to `base`, and whether the scan has enough. */
  datatype Collector = Collector(base: int, skip: int, want: int, out: seq<int>, done: bool)

  function Emit(c: Collector, pos: int): (c': Collector)
  {
    if c.skip > 0 then
      c.(skip := c.skip - 1)
    else
      var out := c.out + [pos - c.base];
      c.(out := out, done := c.want < 0 || (c.want > 0 && |out| >= c.want))
  }

  /** Visit one position: a match is emitted unless the scan already has enough. */
  function Visit(c: Collector, pos: int, hit: bool): (c': Collector)
  {
    if hit && !c.done then Emit(c, pos) else c
  }

  /** The element-by-element scan in ascending order; `hits[k]` is the verdict for position from+k. */
  function ScanUp(hits: seq<bool>, from: int, c: Collector): (c': Collector)
  {
    if hits == [] then c else ScanUp(hits[1..], from + 1, Visit(c, from, hits[0]))
  }

  /** The same scan in descending order. */
  function ScanDown(hits: seq<bool>, from: int, c: Collector): (c': Collector)
  {
    if hits == [] then c
    else
      var n := |hits| - 1;
      ScanDown(hits[..n], from, Visit(c, from + n, hits[n]))
  }

  lemma {:induction false} ScanUpConcat(a: seq<bool>, b: seq<bool>, from: int, c: Collector)
    ensures ScanUp(a + b, from, c) == ScanUp(b, from + |a|, ScanUp(a, from, c))
    decreases |a|
  {
    if a == [] {
      assert a + b == b;
    } else {
      assert (a + b)[1..] == a[1..] + b;
      ScanUpConcat(a[1..], b, from + 1, Visit(c, from, a[0]));
    }
  }

  lemma {:induction false} ScanDownConcat(a: seq<bool>, b: seq<bool>, from: int, c: Collector)
    ensures ScanDown(a + b, from, c) == ScanDown(a, from, ScanDown(b, from + |a|, c))
    decreases |b|
  {
    if b == [] {
      assert a + b == a;
    } else {
      var n := |b| - 1;
      assert (a + b)[..|a| + n] == a + b[..n];
      ScanDownConcat(a, b[..n], from, Visit(c, from + |a| + n, b[n]));
    }
  }

  /** A stretch without a match, or scanned after the scan has enough, changes nothing. */
  lemma {:induction false} ScanIdle(hits: seq<bool>, from: int, c: Collector)
    requires c.done || forall k :: 0 <= k < |hits| ==> !hits[k]
    ensures ScanUp(hits, from, c) == c && ScanDown(hits, from, c) == c
    decreases |hits|
  {
    if hits != [] {
      ScanIdle(hits[1..], from + 1, c);
      ScanIdle(hits[..|hits| - 1], from, c);
    }
  }

  lemma ScanUpIdle(hits: seq<bool>, from: int, c: Collector, i: int, j: int)
    requires 0 <= i <= j <= |hits|
    requires forall k :: i <= k < j ==> !hits[k]
    ensures ScanUp(hits[..j], from, c) == ScanUp(hits[..i], from, c)
  {
    assert hits[..j] == hits[..i] + hits[i..j];
    ScanUpConcat(hits[..i], hits[i..j], from, c);
    ScanIdle(hits[i..j], from + i, ScanUp(hits[..i], from, c));
  }

  lemma ScanDownIdle(hits: seq<bool>, from: int, c: Collector, i: int, j: int)
    requires 0 <= i <= j <= |hits|
    requires forall k :: i <= k < j ==> !hits[k]
    ensures ScanDown(hits[i..], from + i, c) == ScanDown(hits[j..], from + j, c)
  {
    assert hits[i..] == hits[i..j] + hits[j..];
    ScanDownConcat(hits[i..j], hits[j..], from + i, c);
    ScanIdle(hits[i..j], from + i, ScanDown(hits[j..], from + j, c));
  }

  /** Skipping an idle stretch and then visiting one position. */
  lemma ScanUpStep(hits: seq<bool>, from: int, c: Collector, i: int, j: int)
    requires 0 <= i <= j < |hits|
    requires forall k :: i <= k < j ==> !hits[k]
    ensures ScanUp(hits[..j + 1], from, c) == Visit(ScanUp(hits[..i], from, c), from + j, hits[j])
  {
    ScanUpIdle(hits, from, c, i, j);
    assert hits[..j + 1] == hits[..j] + [hits[j]];
    ScanUpConcat(hits[..j], [hits[j]], from, c);
  }

  lemma ScanDownStep(hits: seq<bool>, from: int, c: Collector, i: int, j: int)
    requires 0 <= i < j <= |hits|
    requires forall k :: i < k < j ==> !hits[k]
    ensures ScanDown(hits[i..], from + i, c) == Visit(ScanDown(hits[j..], from + j, c), from + i, hits[i])
  {
    ScanDownIdle(hits, from, c, i + 1, j);
    assert hits[i..] == [hits[i]] + hits[i + 1..];
    ScanDownConcat([hits[i]], hits[i + 1..], from + i, c);
  }

  /** The matching positions, in ascending order. */
  function AllHits(hits: seq<bool>, from: int): (ps: seq<int>)
    ensures forall p :: p in ps ==> from <= p < from + |hits|
  {
    if hits == [] then [] else (if hits[0] then [from] else []) + AllHits(hits[1..], from + 1)
  }

  lemma {:induction false} AllHitsSnoc(hits: seq<bool>, from: int)
    requires hits != []
    ensures var n := |hits| - 1;
            AllHits(hits, from) == AllHits(hits[..n], from) + (if hits[n] then [from + n] else [])
  {
    var n := |hits| - 1;
    if n > 0 {
      AllHitsSnoc(hits[1..], from + 1);
      assert hits[1..][..n - 1] == hits[..n][1..];
      var first, last := if hits[0] then [from] else [], if hits[n] then [from + n] else [];
      var mid := AllHits(hits[..n][1..], from + 1);
      assert first + (mid + last) == (first + mid) + last;
    }
  }

  /** How many more matches a scan wants, of n still to come. */
  function Wanted(c: Collector, n: nat): (k: int)
  {
    if c.done then 0
    else if c.want < 0 then (if n < 1 then n else 1)
    else if c.want == 0 then n
    else if c.want - |c.out| < n then c.want - |c.out|
    else n
  }

  function Relative(ps: seq<int>, base: int): (rs: seq<int>)
    ensures |rs| == |ps|
    ensures forall i :: 0 <= i < |ps| ==> rs[i] == ps[i] - base
  {
    seq(|ps|, i requires 0 <= i < |ps| => ps[i] - base)
  }

  /** A collector that has not yet collected all it wants. */
  predicate Open(c: Collector)
  {
    c.skip >= 0 && (c.done || c.want <= 0 || |c.out| < c.want)
  }

  /** What a scan adds to its result, out of the matches `ps` in visiting order: pass over `skip` of
      them, then report as many as are wanted. */
  function Reported(c: Collector, ps: seq<int>): (rs: seq<int>)
    requires Open(c)
  {
    if c.skip >= |ps| then [] else Relative(ps[c.skip..][..Wanted(c, |ps| - c.skip)], c.base)
  }

  /** The ascending scan reports the ascending matches. */
  lemma {:induction false} ScanUpReports(hits: seq<bool>, from: int, c: Collector)
    requires Open(c)
    ensures ScanUp(hits, from, c).out == c.out + Reported(c, AllHits(hits, from))
    decreases |hits|
  {
    if hits != [] {
      var c' := Visit(c, from, hits[0]);
      ScanUpReports(hits[1..], from + 1, c');
      var ps, rest := AllHits(hits, from), AllHits(hits[1..], from + 1);
      if !hits[0] {
        assert ps == rest;
      } else {
        assert ps == [from] + rest;
        ReportedStep(c, from, rest);
      }
    }
  }

  lemma ReportedStep(c: Collector, p: int, rest: seq<int>)
    requires Open(c)
    ensures Open(Visit(c, p, true))
    ensures c.out + Reported(c, [p] + rest) == Visit(c, p, true).out + Reported(Visit(c, p, true), rest)
  {
    if c.done {
    } else if c.skip > 0 {
      if c.skip <= |rest| {
        assert ([p] + rest)[c.skip..] == rest[c.skip - 1..];
      }
    } else {
      ReportedFirst(c, p, rest);
    }
  }

  lemma ReportedFirst(c: Collector, p: int, rest: seq<int>)
    requires Open(c) && !c.done && c.skip == 0
    ensures Reported(c, [p] + rest) == [p - c.base] + Reported(Emit(c, p), rest)
  {
    var ps, c' := [p] + rest, Emit(c, p);
    var k := Wanted(c, |ps|);
    assert ps[0..] == ps && rest[0..] == rest;
    assert Wanted(c', |rest|) == k - 1;
    RelativeCons(p, rest[..k - 1], c.base);
    assert ps[..k] == [p] + rest[..k - 1];
    assert rest == [] ==> Reported(c', rest) == [] == Relative(rest[..k - 1], c.base);
  }

  lemma RelativeCons(p: int, ps: seq<int>, base: int)
    ensures Relative([p] + ps, base) == [p - base] + Relative(ps, base)
  {
  }

  function Backwards(ps: seq<int>): (rs: seq<int>)
    ensures |rs| == |ps|
    ensures forall i :: 0 <= i < |ps| ==> rs[i] == ps[|ps| - 1 - i]
  {
    seq(|ps|, i requires 0 <= i < |ps| => ps[|ps| - 1 - i])
  }

  lemma BackwardsSnoc(ps: seq<int>, p: int)
    ensures Backwards(ps + [p]) == [p] + Backwards(ps)
  {
  }

  /** The descending scan reports the same matches from the other end. */
  lemma {:induction false} ScanDownReports(hits: seq<bool>, from: int, c: Collector)
    requires Open(c)
    ensures ScanDown(hits, from, c).out == c.out + Reported(c, Backwards(AllHits(hits, from)))
    decreases |hits|
  {
    hide AllHits, Reported, Backwards;
    if hits == [] {
      NothingReported(c, from);
    } else {
      var n := |hits| - 1;
      var rest := AllHits(hits[..n], from);
      AllHitsSnoc(hits, from);
      if hits[n] {
        BackwardsSnoc(rest, from + n);
        assert Backwards(AllHits(hits, from)) == [from + n] + Backwards(rest);
        ReportedStep(c, from + n, Backwards(rest));
      } else {
        assert rest + [] == rest;
      }
      ScanDownReports(hits[..n], from, Visit(c, from + n, hits[n]));
    }
  }

  lemma NothingReported(c: Collector, from: int)
    requires Open(c)
    ensures c.out + Reported(c, Backwards(AllHits([], from))) == c.out
  {
    assert Backwards(AllHits([], from)) == [];
  }

  /** Counting positions from elsewhere, base included, reports the same. */
  lemma {:induction false} ScanUpShift(hits: seq<bool>, from: int, c: Collector, d: int)
    ensures ScanUp(hits, from + d, c.(base := c.base + d)) == ScanUp(hits, from, c).(base := c.base + d)
    decreases |hits|
  {
    if hits != [] {
      ScanUpShift(hits[1..], from + 1, Visit(c, from, hits[0]), d);
    }
  }

  lemma {:induction false} ScanDownShift(hits: seq<bool>, from: int, c: Collector, d: int)
    ensures ScanDown(hits, from + d, c.(base := c.base + d)) == ScanDown(hits, from, c).(base := c.base + d)
    decreases |hits|
  {
    if hits != [] {
      var n := |hits| - 1;
      ScanDownShift(hits[..n], from, Visit(c, from + n, hits[n]), d);
    }
  }

  /* What a scan reports when it cannot see some of the matches. */

  ghost function Without(ps: seq<int>, gone: set<int>): (qs: seq<int>)
    ensures |qs| <= |ps|
  {
    if ps == [] then [] else (if ps[0] in gone then [] else [ps[0]]) + Without(ps[1..], gone)
  }

  ghost predicate Distinct(ps: seq<int>)
  {
    forall i, j :: 0 <= i < j < |ps| ==> ps[i] != ps[j]
  }

  /** Matches that are all seen stay in front. */
  lemma {:induction false} WithoutKeeps(ps: seq<int>, gone: set<int>, k: nat)
    requires k <= |ps| && forall i :: 0 <= i < k ==> ps[i] !in gone
    ensures |Without(ps, gone)| >= k && Without(ps, gone)[..k] == ps[..k]
    decreases |ps|
  {
    if k > 0 {
      forall i | 0 <= i < k - 1 ensures ps[1..][i] !in gone { assert ps[1..][i] == ps[i + 1]; }
      WithoutKeeps(ps[1..], gone, k - 1);
      var rest := Without(ps[1..], gone);
      assert ([ps[0]] + rest)[..k] == [ps[0]] + rest[..k - 1];
      assert ps[..k] == [ps[0]] + ps[1..][..k - 1];
    }
  }

  /** Each match that is left comes from no earlier in the list. */
  lemma {:induction false} WithoutFrom(ps: seq<int>, gone: set<int>, j: nat)
    requires j < |Without(ps, gone)|
    ensures Without(ps, gone)[j] in ps[j..] && Without(ps, gone)[j] !in gone
    decreases |ps|
  {
    if ps[0] in gone {
      WithoutFrom(ps[1..], gone, j);
      assert forall x :: x in ps[1..][j..] ==> x in ps[j..];
    } else if j > 0 {
      WithoutFrom(ps[1..], gone, j - 1);
      assert ps[1..][j - 1..] == ps[j..];
    }
  }

  /** Past a match that was missed, from later. */
  lemma {:induction false} WithoutLater(ps: seq<int>, gone: set<int>, i: nat, j: nat)
    requires i < |ps| && ps[i] in gone && i <= j < |Without(ps, gone)|
    ensures j < |ps| && Without(ps, gone)[j] in ps[j + 1..]
    decreases |ps|
  {
    if ps[0] in gone {
      WithoutFrom(ps[1..], gone, j);
      assert ps[1..][j..] == ps[j + 1..];
    } else {
      WithoutLater(ps[1..], gone, i - 1, j - 1);
      assert ps[1..][j..] == ps[j + 1..];
    }
  }

  /** A scan that misses some matches reports the same if and only if there is nothing to report, or the matches
      it would pass over and report are all seen. */
  lemma ReportedWithout(c: Collector, ps: seq<int>, gone: set<int>)
    requires Open(c) && !c.done && c.out == [] && Distinct(ps)
    ensures Reported(c, ps) == Reported(c, Without(ps, gone))
       <==> |ps| <= c.skip || forall i :: 0 <= i < c.skip + Wanted(c, |ps| - c.skip) ==> ps[i] !in gone
  {
    var qs := Without(ps, gone);
    if |ps| <= c.skip {
      return;
    }
    var k := c.skip + Wanted(c, |ps| - c.skip);
    if forall i :: 0 <= i < k ==> ps[i] !in gone {
      WithoutKeeps(ps, gone, k);
      assert Wanted(c, |qs| - c.skip) == k - c.skip;
      assert ps[c.skip..][..k - c.skip] == ps[..k][c.skip..] == qs[..k][c.skip..] == qs[c.skip..][..k - c.skip];
    } else {
      var i :| 0 <= i < k && ps[i] in gone;
      ReportedMisses(c, ps, gone, i);
    }
  }

  lemma ReportedMisses(c: Collector, ps: seq<int>, gone: set<int>, i: nat)
    requires Open(c) && !c.done && c.out == [] && Distinct(ps)
    requires |ps| > c.skip && i < c.skip + Wanted(c, |ps| - c.skip) && ps[i] in gone
    ensures Reported(c, ps) != Reported(c, Without(ps, gone))
  {
    var qs := Without(ps, gone);
    var j := if i < c.skip then c.skip else i;
    var w := Wanted(c, |ps| - c.skip);
    assert Reported(c, ps)[j - c.skip] == ps[c.skip..][..w][j - c.skip] - c.base == ps[j] - c.base;
    if |qs| > c.skip && j - c.skip < Wanted(c, |qs| - c.skip) {
      assert Reported(c, qs)[j - c.skip] == qs[j] - c.base;
      WithoutLater(ps, gone, i, j);
      LaterDiffers(ps, j, qs[j]);
    }
  }

  lemma LaterDiffers(ps: seq<int>, j: nat, x: int)
    requires Distinct(ps) && j < |ps| && x in ps[j + 1..]
    ensures x != ps[j]
  {
    var m :| 0 <= m < |ps[j + 1..]| && ps[j + 1..][m] == x;
    assert ps[j + 1 + m] == x;
  }

  /** The matches in the order a scan visits them. */
  function InOrder(ps: seq<int>, backward: bool): (r: seq<int>)
    ensures |r| == |ps|
  {
    if backward then Backwards(ps) else ps
  }

  lemma {:induction false} WithoutSnoc(ps: seq<int>, p: int, gone: set<int>)
    ensures Without(ps + [p], gone) == Without(ps, gone) + if p in gone then [] else [p]
    decreases |ps|
  {
    if ps == [] {
      assert ps + [p] == [p] && [p][1..] == [];
    } else {
      assert (ps + [p])[1..] == ps[1..] + [p];
      WithoutSnoc(ps[1..], p, gone);
    }
  }

  /** Missing matches and turning the order around commute. */
  lemma {:induction false} WithoutBackwards(ps: seq<int>, gone: set<int>)
    ensures Backwards(Without(ps, gone)) == Without(Backwards(ps), gone)
    decreases |ps|
  {
    if ps != [] {
      WithoutBackwards(ps[1..], gone);
      assert Backwards(ps) == Backwards(ps[1..]) + [ps[0]];
      WithoutSnoc(Backwards(ps[1..]), ps[0], gone);
      var rest := Without(ps[1..], gone);
      assert Backwards([ps[0]] + rest) == Backwards(rest) + [ps[0]];
    }
  }

  lemma {:induction false} HitsDistinct(hits: seq<bool>, from: int)
    ensures Distinct(AllHits(hits, from))
    decreases |hits|
  {
    if hits != [] {
      HitsDistinct(hits[1..], from + 1);
      var rest := AllHits(hits[1..], from + 1);
      if hits[0] {
        FirstDistinct(from, rest);
      } else {
        assert AllHits(hits, from) == rest;
      }
    }
  }

  lemma FirstDistinct(p: int, rest: seq<int>)
    requires Distinct(rest) && p !in rest
    ensures Distinct([p] + rest)
  {
  }

  lemma BackwardsDistinct(ps: seq<int>)
    requires Distinct(ps)
    ensures Distinct(Backwards(ps))
  {
  }
}
