/** LREM by positions: dropping the positions a scan selects is removing the first, the last or all
    matches (f1srv/list.go, the compaction passes of LREM). */
module ListRemoval {
  import opened Bytes
  import opened ListSize
  import opened ListSpec
  import opened Scan

  /** The entries whose positions, counted from `from`, are not dropped. */
  ghost function Kept<T>(s: seq<T>, from: int, del: set<int>): (r: seq<T>)
  {
    if s == [] then [] else (if from in del then [] else [s[0]]) + Kept(s[1..], from + 1, del)
  }

  lemma {:induction false} KeptSame<T>(s: seq<T>, from: int, del: set<int>, del': set<int>)
    requires forall p :: from <= p < from + |s| ==> (p in del <==> p in del')
    ensures Kept(s, from, del) == Kept(s, from, del')
    decreases |s|
  {
    if s != [] {
      KeptSame(s[1..], from + 1, del, del');
    }
  }

  ghost function ToSet(ps: seq<int>): (t: set<int>)
  {
    set p | p in ps
  }

  lemma SliceToSet(ps: seq<int>, a: nat, b: nat)
    requires a <= b <= |ps|
    ensures ToSet(ps[a..b]) <= ToSet(ps)
  {
    forall p | p in ps[a..b] ensures p in ps {
    }
  }

  lemma {:induction false} KeptNone<T>(s: seq<T>, from: int)
    ensures Kept(s, from, {}) == s
    decreases |s|
  {
    if s != [] {
      KeptNone(s[1..], from + 1);
    }
  }

  lemma {:induction false} RemoveNone<T>(s: seq<T>, target: T)
    ensures RemoveFirst(s, target, 0) == s
    ensures RemoveLast(s, target, 0) == s
    decreases |s|
  {
    if s != [] {
      RemoveNone(s[1..], target);
      RemoveNone(s[..|s| - 1], target);
    }
  }

  /** Dropping the first n matching positions is removing the first n matches. */
  lemma {:induction false} KeptFirst<T>(s: seq<T>, target: T, from: int, n: nat)
    ensures var ps := AllHits(Matches(s, target), from);
            Kept(s, from, ToSet(ps[..Min(n, |ps|)])) == RemoveFirst(s, target, n)
    decreases |s|
  {
    var ps := AllHits(Matches(s, target), from);
    if n == 0 {
      assert ToSet(ps[..0]) == {};
      KeptNone(s, from);
      RemoveNone(s, target);
    } else if s != [] {
      var rest := AllHits(Matches(s[1..], target), from + 1);
      assert Matches(s, target)[1..] == Matches(s[1..], target);
      if s[0] == target {
        KeptFirst(s[1..], target, from + 1, n - 1);
        assert ps[..Min(n, |ps|)] == [from] + rest[..Min(n - 1, |rest|)];
        KeptSame(s[1..], from + 1, ToSet(ps[..Min(n, |ps|)]), ToSet(rest[..Min(n - 1, |rest|)]));
      } else {
        KeptFirst(s[1..], target, from + 1, n);
        assert ps == rest;
        SliceToSet(ps, 0, Min(n, |ps|));
      }
    }
  }

  /** The last n entries. */
  function LastN<T>(s: seq<T>, n: nat): (r: seq<T>)
  {
    s[|s| - Min(n, |s|)..]
  }

  lemma LastNSnoc(ps: seq<int>, p: int, n: nat)
    requires n > 0
    ensures LastN(ps + [p], n) == LastN(ps, n - 1) + [p]
  {
  }

  lemma LastHits<T>(s: seq<T>, target: T, from: int, n: nat)
    requires s != [] && n > 0
    ensures var k, hit := |s| - 1, s[|s| - 1] == target;
            var del := ToSet(LastN(AllHits(Matches(s, target), from), n));
            var del' := ToSet(LastN(AllHits(Matches(s[..k], target), from), if hit then n - 1 else n));
            && (from + k in del <==> hit)
            && (forall p :: from <= p < from + k ==> (p in del <==> p in del'))
  {
    var k := |s| - 1;
    var ps, rest := AllHits(Matches(s, target), from), AllHits(Matches(s[..k], target), from);
    assert Matches(s, target)[..k] == Matches(s[..k], target);
    AllHitsSnoc(Matches(s, target), from);
    if s[k] == target {
      LastNSnoc(rest, from + k, n);
    } else {
      assert ps == rest;
      SliceToSet(ps, |ps| - Min(n, |ps|), |ps|);
    }
  }

  /** Dropping the last n matching positions is removing the last n matches. */
  lemma {:induction false} KeptLast<T>(s: seq<T>, target: T, from: int, n: nat)
    ensures Kept(s, from, ToSet(LastN(AllHits(Matches(s, target), from), n))) == RemoveLast(s, target, n)
    decreases |s|
  {
    var del := ToSet(LastN(AllHits(Matches(s, target), from), n));
    if n == 0 {
      assert del == {};
      KeptNone(s, from);
      RemoveNone(s, target);
    } else if s != [] {
      var k := |s| - 1;
      var n' := if s[k] == target then n - 1 else n;
      LastHits(s, target, from, n);
      KeptSnoc(s, from, del);
      KeptSame(s[..k], from, del, ToSet(LastN(AllHits(Matches(s[..k], target), from), n')));
      KeptLast(s[..k], target, from, n');
    }
  }

  lemma KeptFirst1<T>(s: seq<T>, from: int, del: set<int>)
    requires s != []
    ensures Kept(s, from, del) == (if from in del then [] else [s[0]]) + Kept(s[1..], from + 1, del)
  {
  }

  lemma {:induction false} KeptSnoc<T>(s: seq<T>, from: int, del: set<int>)
    requires s != []
    ensures var k := |s| - 1;
            Kept(s, from, del) == Kept(s[..k], from, del) + (if from + k in del then [] else [s[k]])
    decreases |s|
  {
    var k := |s| - 1;
    if k > 0 {
      KeptSnoc(s[1..], from + 1, del);
      assert s[1..][..k - 1] == s[..k][1..];
      hide Kept;
      KeptFirst1(s, from, del);
      KeptFirst1(s[..k], from, del);
      var first, rest := if from in del then [] else [s[0]], Kept(s[..k][1..], from + 1, del);
      var last := if from + k in del then [] else [s[k]];
      assert (first + rest) + last == first + (rest + last);
    }
  }

  /** Which of the matches LREM drops. */
  function Chosen(matches: seq<int>, count: int): (r: seq<int>)
  {
    if count > 0 then matches[..Min(count, |matches|)]
    else if count < 0 then LastN(matches, -count)
    else matches
  }

  /** Dropping the chosen matches is what LREM promises. */
  lemma ChosenRemoves<T>(s: seq<T>, target: T, from: int, count: int)
    ensures Kept(s, from, ToSet(Chosen(AllHits(Matches(s, target), from), count))) == Removed(s, target, count)
  {
    var all := AllHits(Matches(s, target), from);
    if count > 0 {
      KeptFirst(s, target, from, count);
    } else if count < 0 {
      KeptLast(s, target, from, -count);
    } else {
      KeptFirst(s, target, from, |s|);
      AllHitsCount(Matches(s, target), from);
      assert all[..Min(|s|, |all|)] == all;
    }
  }

  lemma {:induction false} AllHitsCount(hits: seq<bool>, from: int)
    ensures |AllHits(hits, from)| <= |hits|
    decreases |hits|
  {
    if hits != [] {
      AllHitsCount(hits[1..], from + 1);
    }
  }

  lemma KeptStep<T>(s: seq<T>, k: int, from: int, del: set<int>)
    requires 0 <= k < |s|
    ensures Kept(s[..k + 1], from, del) == Kept(s[..k], from, del) + (if from + k in del then [] else [s[k]])
  {
    KeptSnoc(s[..k + 1], from, del);
    assert s[..k + 1][..k] == s[..k];
  }

  /** The entry bytes dropped among the first k elements. */
  ghost function Lost(s: seq<Bytes>, k: int, from: int, del: set<int>): (n: int)
    requires 0 <= k <= |s|
  {
    if k == 0 then 0 else Lost(s, k - 1, from, del) + if from + k - 1 in del then EntryBytes([s[k - 1]]) else 0
  }

  lemma LostStart(s: seq<Bytes>, from: int, del: set<int>)
    ensures Kept(s[..0], from, del) == [] && Lost(s, 0, from, del) == 0
  {
  }

  lemma LostStep(s: seq<Bytes>, k: int, from: int, del: set<int>)
    requires 0 <= k < |s|
    ensures Lost(s, k + 1, from, del) == Lost(s, k, from, del) + if from + k in del then EntryBytes([s[k]]) else 0
  {
  }

  lemma {:induction false} LostIs(s: seq<Bytes>, k: int, from: int, del: set<int>)
    requires 0 <= k <= |s|
    ensures EntryBytes(s[..k]) == EntryBytes(Kept(s[..k], from, del)) + Lost(s, k, from, del)
  {
    hide EntryBytes;
    if k > 0 {
      LostIs(s, k - 1, from, del);
      KeptStep(s, k - 1, from, del);
      var kept := Kept(s[..k - 1], from, del);
      assert s[..k] == s[..k - 1] + [s[k - 1]];
      ListBytesConcat(s[..k - 1], [s[k - 1]]);
      ListBytesConcat(kept, [s[k - 1]]);
      assert kept + [] == kept;
    }
  }

  lemma {:induction false} RemovedSize(s: seq<Bytes>, from: int, del: set<int>)
    ensures EntryBytes(Kept(s, from, del)) <= EntryBytes(s)
    decreases |s|
  {
    if s != [] {
      RemovedSize(s[1..], from + 1, del);
      assert s == [s[0]] + s[1..];
      ListBytesConcat([s[0]], s[1..]);
      ListBytesConcat([s[0]], Kept(s[1..], from + 1, del));
      assert [] + Kept(s[1..], from + 1, del) == Kept(s[1..], from + 1, del);
      EntryBytesPositive(s[0]);
    }
  }

  lemma KeptSize(s: seq<Bytes>, from: int, del: set<int>)
    ensures ListBytes(Kept(s, from, del)) == ListBytes(s) - Lost(s, |s|, from, del) <= ListBytes(s)
  {
    hide Kept, Lost, EntrySize;
    LostIs(s, |s|, from, del);
    assert s[..|s|] == s;
    RemovedSize(s, from, del);
  }

  /** The first match is where the first selected position is. */
  lemma {:induction false} AllHitsFirst<T>(s: seq<T>, target: T, from: int)
    ensures match FirstIndex(s, target)
            case None => AllHits(Matches(s, target), from) == []
            case Some(k) => AllHits(Matches(s, target), from) != [] && AllHits(Matches(s, target), from)[0] == from + k
    decreases |s|
  {
    if s != [] {
      assert Matches(s, target)[1..] == Matches(s[1..], target);
      AllHitsFirst(s[1..], target, from + 1);
    }
  }

  /** A single-match scan finds the first match. */
  lemma ScanFirst<T>(s: seq<T>, target: T, from: int)
    ensures var c := ScanUp(Matches(s, target), from, Collector(from, 0, -1, [], false));
            match FirstIndex(s, target)
            case None => c.out == []
            case Some(k) => c.out == [k]
  {
    var c := Collector(from, 0, -1, [], false);
    ScanUpReports(Matches(s, target), from, c);
    AllHitsFirst(s, target, from);
    var ps := AllHits(Matches(s, target), from);
    if ps != [] {
      assert ps[0..][..1] == [ps[0]];
      assert Relative([ps[0]], from) == [ps[0] - from];
    }
  }

  /** The positions a bounded scan collects are the ones LREM drops. */
  lemma ScanChosen<T>(s: seq<T>, target: T, from: int, count: int)
    ensures var hits := Matches(s, target);
            var c := Collector(0, 0, if count < 0 then -count else count, [], false);
            var out := if count >= 0 then ScanUp(hits, from, c).out else ScanDown(hits, from, c).out;
            ToSet(out) == ToSet(Chosen(AllHits(hits, from), count))
  {
    hide ScanUp, ScanDown, AllHits;
    var hits := Matches(s, target);
    var c := Collector(0, 0, if count < 0 then -count else count, [], false);
    var all := AllHits(hits, from);
    if count >= 0 {
      ScanUpReports(hits, from, c);
      assert all[0..] == all;
      RelativeZero(all[..Wanted(c, |all|)]);
    } else {
      ScanDownReports(hits, from, c);
      assert Backwards(all)[0..] == Backwards(all);
      RelativeZero(Backwards(all)[..Wanted(c, |all|)]);
      BackwardsPrefix(all, Wanted(c, |all|));
    }
  }

  /** A scan from the back that wants the negated least count takes the last match. */
  lemma ScanLast<T>(s: seq<T>, target: T, from: int)
    ensures var hits := Matches(s, target);
            ScanDown(hits, from, Collector(0, 0, INT64_MIN, [], false)).out == ScanDown(hits, from, Collector(0, 0, 1, [], false)).out
  {
    hide ScanDown, AllHits;
    var hits := Matches(s, target);
    ScanDownReports(hits, from, Collector(0, 0, INT64_MIN, [], false));
    ScanDownReports(hits, from, Collector(0, 0, 1, [], false));
  }

  lemma NegatedLeast(count: int)
    requires INT64_MIN <= count < 0
    ensures Wrap64(-count) == if count == INT64_MIN then INT64_MIN else -count
  {
  }

  /** The positions a scan bounded by a count in int64 arithmetic collects. */
  lemma ScanCounted<T>(s: seq<T>, target: T, from: int, count: int)
    requires INT64_MIN <= count <= INT64_MAX
    ensures var hits := Matches(s, target);
            var c := Collector(0, 0, if count < 0 then Wrap64(-count) else count, [], false);
            var out := if count >= 0 then ScanUp(hits, from, c).out else ScanDown(hits, from, c).out;
            ToSet(out) == ToSet(Chosen(AllHits(hits, from), Counted(count)))
  {
    hide ScanUp, ScanDown, AllHits, Matches, Chosen, Wrap64, ToSet;
    if count < 0 { NegatedLeast(count); }
    ScanChosen(s, target, from, Counted(count));
    ScanLast(s, target, from);
  }

  /** A target that is not there. */
  lemma {:induction false} RemovedAbsent<T>(s: seq<T>, target: T, count: int)
    requires target !in s
    ensures Removed(s, target, count) == s
  {
    hide Kept;
    var hits := Matches(s, target);
    AbsentHits(hits, 0);
    ChosenRemoves(s, target, 0, count);
    KeptNone(s, 0);
    assert ToSet(Chosen([], count)) == {};
  }

  lemma {:induction false} AbsentHits(hits: seq<bool>, from: int)
    requires forall i :: 0 <= i < |hits| ==> !hits[i]
    ensures AllHits(hits, from) == []
    decreases |hits|
  {
    if hits != [] { AbsentHits(hits[1..], from + 1); }
  }

  /** How many LREM leaves. */
  lemma RemovedLength<T>(s: seq<T>, target: T, n: nat)
    ensures |RemoveLast(s, target, n)| == |s| - Min(n, |AllHits(Matches(s, target), 0)|)
    decreases |s|
  {
    if s != [] {
      var k := |s| - 1;
      AllHitsSnoc(Matches(s, target), 0);
      assert Matches(s, target)[..k] == Matches(s[..k], target);
      RemovedLength(s[..k], target, if s[k] == target && n > 0 then n - 1 else n);
    }
  }

  /** LREM with the least count takes what it should from a resident list if and only if there is at most one
      match. */
  lemma LeastCountExact<T>(s: seq<T>, target: T)
    ensures Removed(s, target, Counted(INT64_MIN)) == Removed(s, target, INT64_MIN)
       <==> |AllHits(Matches(s, target), 0)| <= 1
  {
    hide Kept;
    var all := AllHits(Matches(s, target), 0);
    if |all| <= 1 {
      ChosenRemoves(s, target, 0, -1);
      ChosenRemoves(s, target, 0, INT64_MIN);
    } else {
      RemovedLength(s, target, 1);
      RemovedLength(s, target, -INT64_MIN);
    }
  }

  /** Two equal elements: the least count takes one of them from a resident list, where it asks for all. */
  lemma LeastCountStops(x: Bytes)
    ensures Removed([x, x], x, Counted(INT64_MIN)) == [x] && Removed([x, x], x, INT64_MIN) == []
  {
    var one: seq<Bytes> := [x];
    var none: seq<Bytes> := [];
    assert [x, x][..1] == one && one[..0] == none;
    assert RemoveLast(none, x, -INT64_MIN - 2) == none;
    assert RemoveLast(one, x, 0) == one by { RemoveNone(one, x); }
    assert RemoveLast(one, x, -INT64_MIN - 1) == none;
  }

  lemma RelativeZero(ps: seq<int>)
    ensures Relative(ps, 0) == ps
  {
  }

  lemma BackwardsPrefix(ps: seq<int>, n: int)
    requires 0 <= n <= |ps|
    ensures ToSet(Backwards(ps)[..n]) == ToSet(LastN(ps, n))
  {
    var b, l := Backwards(ps)[..n], LastN(ps, n);
    forall p | p in b ensures p in l {
      var i :| 0 <= i < n && b[i] == p;
      assert l[n - 1 - i] == p;
    }
    forall p | p in l ensures p in b {
      var i :| 0 <= i < n && l[i] == p;
      assert b[n - 1 - i] == p;
    }
  }
}
