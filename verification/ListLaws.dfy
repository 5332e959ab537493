/** The list commands by index: which elements a reply reports and which stay, said of every index of the list and not
    by how a scan gets there (f1srv/list.go). */
module ListLaws {
  import opened Bytes
  import opened ListSize
  import opened ListSpec
  import opened ListPushes
  import opened Scan

  /** The elements at the indexes a test picks, in list order. */
  ghost function Those<T>(s: seq<T>, p: int -> bool): (r: seq<T>)
  {
    if s == [] then []
    else
      var k := |s| - 1;
      Those(s[..k], p) + if p(k) then [s[k]] else []
  }

  /** The indexes below n a test picks, in rising order. */
  ghost function Up(n: nat, p: int -> bool): (r: seq<int>)
  {
    if n == 0 then [] else Up(n - 1, p) + if p(n - 1) then [n - 1] else []
  }

  /** ... and in falling order. */
  ghost function Down(n: nat, p: int -> bool): (r: seq<int>)
  {
    if n == 0 then [] else (if p(n - 1) then [n - 1] else []) + Down(n - 1, p)
  }

  lemma {:induction false} ThoseSame<T>(s: seq<T>, p: int -> bool, q: int -> bool)
    requires forall i :: 0 <= i < |s| ==> p(i) == q(i)
    ensures Those(s, p) == Those(s, q)
  {
    if s != [] { ThoseSame(s[..|s| - 1], p, q); }
  }

  lemma {:induction false} UpSame(n: nat, p: int -> bool, q: int -> bool)
    requires forall i :: 0 <= i < n ==> p(i) == q(i)
    ensures Up(n, p) == Up(n, q)
  {
    if n > 0 { UpSame(n - 1, p, q); }
  }

  lemma {:induction false} DownSame(n: nat, p: int -> bool, q: int -> bool)
    requires forall i :: 0 <= i < n ==> p(i) == q(i)
    ensures Down(n, p) == Down(n, q)
  {
    if n > 0 { DownSame(n - 1, p, q); }
  }

  lemma ThoseStep<T>(s: seq<T>, p: int -> bool)
    ensures s == [] ==> Those(s, p) == []
    ensures s != [] ==> Those(s, p) == Those(s[..|s| - 1], p) + if p(|s| - 1) then [s[|s| - 1]] else []
  {
  }

  /** A test that picks a stretch picks the slice. */
  lemma {:induction false} ThoseRun<T>(s: seq<T>, p: int -> bool, lo: nat, hi: nat)
    requires lo <= hi <= |s| && forall i :: 0 <= i < |s| ==> (p(i) <==> lo <= i < hi)
    ensures Those(s, p) == s[lo..hi]
  {
    hide Those;
    ThoseStep(s, p);
    if s != [] {
      var k := |s| - 1;
      var lo', hi' := if lo <= k then lo else k, if hi <= k then hi else k;
      ThoseRun(s[..k], p, lo', hi');
      assert s[..k][lo'..hi'] == s[lo'..hi'];
      if lo <= k < hi {
        assert s[lo..hi] == s[lo..k] + [s[k]];
      } else {
        assert s[lo'..hi'] + [] == s[lo..hi];
      }
    }
  }

  /** An index as LRANGE takes it: counted from the end if negative. */
  function FromEnd(i: int, n: nat): (j: int)
  {
    if i < 0 then i + n else i
  }

  lemma InRange(start: int, stop: int, n: nat, i: int)
    requires 0 <= i < n
    ensures FromEnd(start, n) <= i <= FromEnd(stop, n) <==> Range(start, stop, n).0 <= i < Range(start, stop, n).1
  {
  }

  /** The elements whose indexes are between the two. */
  ghost function Between<T>(s: seq<T>, start: int, stop: int): (r: seq<T>)
  {
    Those(s, i => FromEnd(start, |s|) <= i <= FromEnd(stop, |s|))
  }

  /** LRANGE reports the element at an index if and only if the index is between its two bounds. */
  lemma RangeReports(d: Deque, start: int, stop: int)
    ensures LRange(d, start, stop) == Array(Between(d.elems, start, stop))
  {
    var n := |d.elems|;
    var (lo, hi) := Range(start, stop, n);
    var p := i => FromEnd(start, n) <= i <= FromEnd(stop, n);
    forall i | 0 <= i < n ensures p(i) <==> lo <= i < hi { InRange(start, stop, n, i); }
    ThoseRun(d.elems, p, lo, hi);
  }

  /** Pushes: the last element of an LPUSH comes to stand first, that of an RPUSH last; the rest keeps its order. */
  lemma PushStands(d: Deque, run: seq<Bytes>, atHead: bool, requireExisting: bool)
    ensures var (d', r) := Push(d, run, atHead, requireExisting);
            var s, t, k := d.elems, d'.elems, |run|;
            if requireExisting && s == [] then d' == d && r == Number(0)
            else
              && r == Number(|s| + k) && |t| == |s| + k
              && (atHead ==> (forall i :: 0 <= i < k ==> t[i] == run[k - 1 - i]) && forall i :: 0 <= i < |s| ==> t[k + i] == s[i])
              && (!atHead ==> (forall i :: 0 <= i < |s| ==> t[i] == s[i]) && forall i :: 0 <= i < k ==> t[|s| + i] == run[i])
  {
    hide ListBytes;
  }

  /** A list counts as large from the moment its listpack would take more than 8192 bytes, and no longer when it is
      gone. */
  lemma LargeIs(d: Deque, elems: seq<Bytes>)
    ensures Edited(d, elems).elems == elems
    ensures Edited(d, elems).large <==> elems != [] && (d.large || ListBytes(elems) > 8192)
  {
  }

  /** Pops: LPOP reports and takes elements from index 0 up, RPOP from the last down. */
  lemma PopReports(d: Deque, atHead: bool, count: Option<nat>)
    requires d.elems != []
    ensures var (d', r) := Pop(d, atHead, count);
            var s, t := d.elems, d'.elems;
            var k := match count case None => 1 case Some(c) => Min(c, |s|);
            && |t| == |s| - k && (forall i :: 0 <= i < |t| ==> t[i] == if atHead then s[k + i] else s[i])
            && (count.None? ==> r == Bulk(if atHead then s[0] else s[|s| - 1]))
            && (count.Some? ==> r.Array? && |r.vs| == k && forall i :: 0 <= i < k ==> r.vs[i] == if atHead then s[i] else s[|s| - 1 - i])
  {
    hide ListBytes;
  }

  /** One element popped, and one pushed. */
  lemma PopOne(d: Deque, atHead: bool)
    requires d.elems != []
    ensures var (d', r) := Pop(d, atHead, None);
            var s, n := d.elems, |d.elems|;
            r == Bulk(if atHead then s[0] else s[n - 1]) && d'.elems == (if atHead then s[1..] else s[..n - 1])
  {
    hide ListBytes;
  }

  lemma PushOne(d: Deque, v: Bytes, atHead: bool)
    ensures Push(d, [v], atHead, false).0.elems == if atHead then [v] + d.elems else d.elems + [v]
  {
    hide ListBytes, Push;
    PushStands(d, [v], atHead, false);
  }

  /** LMOVE: the element at one end of the source comes to stand at one end of the destination; all others keep their
      order. */
  lemma MoveStands(src: Deque, dst: Deque, fromHead: bool, toHead: bool)
    ensures var (src', dst', r) := Move(src, dst, fromHead, toHead);
            if src.elems == [] then src' == src && dst' == dst && r == Nil
            else
              var v := if fromHead then src.elems[0] else src.elems[|src.elems| - 1];
              && r == Bulk(v) && src'.elems == (if fromHead then src.elems[1..] else src.elems[..|src.elems| - 1])
              && dst'.elems == (if toHead then [v] + dst.elems else dst.elems + [v])
  {
    hide ListBytes, Push;
    if src.elems != [] {
      PopOne(src, fromHead);
      PushOne(dst, if fromHead then src.elems[0] else src.elems[|src.elems| - 1], toHead);
    }
  }

  /** ... and onto itself the list only turns. */
  lemma RotateStands(d: Deque, fromHead: bool, toHead: bool)
    requires d.elems != []
    ensures var (d', r) := Rotate(d, fromHead, toHead);
            var s, n := d.elems, |d.elems|;
            && r == Bulk(if fromHead then s[0] else s[n - 1])
            && d'.elems == (if fromHead == toHead then s else if fromHead then s[1..] + [s[0]] else [s[n - 1]] + s[..n - 1])
  {
    hide ListBytes, Pop, Push;
    var s, n := d.elems, |d.elems|;
    PopOne(d, fromHead);
    var (mid, r) := Pop(d, fromHead, None);
    PushOne(mid, r.v, toHead);
    assert s == [s[0]] + s[1..] && s == s[..n - 1] + [s[n - 1]];
  }

  /** LINSERT: the value comes next to the first element equal to the pivot, on the side asked for. */
  lemma InsertStands(d: Deque, pivot: Bytes, val: Bytes, before: bool, k: nat)
    requires k < |d.elems| && d.elems[k] == pivot && forall i :: 0 <= i < k ==> d.elems[i] != pivot
    ensures var (d', r) := Insert(d, FirstIndex(d.elems, pivot), val, before);
            var s, t := d.elems, d'.elems;
            && r == Number(|s| + 1) && |t| == |s| + 1
            && (before ==> t[k] == val && t[k + 1] == pivot) && (!before ==> t[k] == pivot && t[k + 1] == val)
            && (forall i :: 0 <= i < k ==> t[i] == s[i]) && forall i :: k < i < |s| ==> t[i + 1] == s[i]
  {
    hide ListBytes;
    FirstIndexIs(d.elems, pivot, k);
  }

  lemma {:induction false} FirstIndexIs<T>(s: seq<T>, t: T, k: nat)
    requires k < |s| && s[k] == t && forall i :: 0 <= i < k ==> s[i] != t
    ensures FirstIndex(s, t) == Some(k)
  {
    if k > 0 {
      FirstIndexIs(s[1..], t, k - 1);
    }
  }

  lemma InsertMisses(d: Deque, pivot: Bytes, val: Bytes, before: bool)
    requires pivot !in d.elems
    ensures Insert(d, FirstIndex(d.elems, pivot), val, before) == (d, Number(if d.elems == [] then 0 else -1))
  {
  }

  lemma {:induction false} OccursSnoc<T>(s: seq<T>, x: T, t: T)
    ensures Occurs(s + [x], t) == Occurs(s, t) + (if x == t then 1 else 0)
  {
    if s == [] {
      assert s + [x] == [x] && [x][1..] == [];
    } else {
      assert (s + [x])[1..] == s[1..] + [x];
      OccursSnoc(s[1..], x, t);
    }
  }

  /** How many of the entries before, and behind, an index equal the target. */
  function Before<T(==)>(s: seq<T>, t: T, j: int): (n: nat)
  {
    if 0 <= j <= |s| then Occurs(s[..j], t) else 0
  }

  function Behind<T(==)>(s: seq<T>, t: T, j: int): (n: nat)
  {
    if 0 <= j < |s| then Occurs(s[j + 1..], t) else 0
  }

  lemma {:induction false} RemoveFirstStays<T>(s: seq<T>, t: T, n: int)
    requires n >= 0
    ensures RemoveFirst(s, t, n) == Those(s, j => 0 <= j < |s| && (s[j] != t || Before(s, t, j) >= n))
  {
    hide Those;
    ThoseStep(s, j => 0 <= j < |s| && (s[j] != t || Before(s, t, j) >= n));
    if s != [] {
      var k := |s| - 1;
      RemoveFirstStays(s[..k], t, n);
      var p := j => 0 <= j < |s| && (s[j] != t || Before(s, t, j) >= n);
      var q := j => 0 <= j < k && (s[..k][j] != t || Before(s[..k], t, j) >= n);
      forall j | 0 <= j < k ensures p(j) == q(j) { assert s[..k][..j] == s[..j]; }
      ThoseSame(s[..k], p, q);
      RemoveFirstSnoc(s[..k], s[k], t, n);
      assert s == s[..k] + [s[k]];
    }
  }

  lemma {:induction false} RemoveFirstSnoc<T>(s: seq<T>, x: T, t: T, n: int)
    requires n >= 0
    ensures RemoveFirst(s + [x], t, n) == RemoveFirst(s, t, n) + if x == t && Occurs(s, t) < n then [] else [x]
  {
    var u := s + [x];
    if s == [] {
      assert u == [x] && [x][1..] == [];
    } else {
      assert u[1..] == s[1..] + [x] && u[0] == s[0];
      RemoveFirstSnoc(s[1..], x, t, if s[0] == t && n > 0 then n - 1 else n);
      var tail := if x == t && Occurs(s, t) < n then [] else [x];
      if s[0] != t || n <= 0 {
        assert [s[0]] + (RemoveFirst(s[1..], t, n) + tail) == ([s[0]] + RemoveFirst(s[1..], t, n)) + tail;
      }
    }
  }

  lemma {:induction false} RemoveLastStays<T>(s: seq<T>, t: T, n: int)
    requires n >= 0
    ensures RemoveLast(s, t, n) == Those(s, j => 0 <= j < |s| && (s[j] != t || Behind(s, t, j) >= n))
  {
    hide Those, Occurs;
    ThoseStep(s, j => 0 <= j < |s| && (s[j] != t || Behind(s, t, j) >= n));
    if s != [] {
      var k := |s| - 1;
      var m := if s[k] == t && n > 0 then n - 1 else n;
      RemoveLastStays(s[..k], t, m);
      var p := j => 0 <= j < |s| && (s[j] != t || Behind(s, t, j) >= n);
      var q := j => 0 <= j < k && (s[..k][j] != t || Behind(s[..k], t, j) >= m);
      forall j | 0 <= j < k ensures p(j) == q(j) {
        assert s[j + 1..] == s[..k][j + 1..] + [s[k]];
        OccursSnoc(s[..k][j + 1..], s[k], t);
      }
      ThoseSame(s[..k], p, q);
      assert s[k + 1..] == [];
    }
  }

  /** An element that LREM leaves: one that does not equal the victim, or has as many of the same before it as a
      positive count takes, or behind it as a negative one does; a count of zero takes all. */
  predicate Survives<T(==)>(s: seq<T>, t: T, count: int, j: int)
    requires 0 <= j < |s|
  {
    s[j] != t || (count > 0 && Before(s, t, j) >= count) || (count < 0 && Behind(s, t, j) >= -count)
  }

  lemma RemStays<T>(s: seq<T>, t: T, count: int)
    ensures Removed(s, t, count) == Those(s, j => 0 <= j < |s| && Survives(s, t, count, j))
  {
    hide Those, RemoveFirst, RemoveLast, Behind;
    var p := j => 0 <= j < |s| && Survives(s, t, count, j);
    if count < 0 {
      RemoveLastStays(s, t, -count);
      ThoseSame(s, p, j => 0 <= j < |s| && (s[j] != t || Behind(s, t, j) >= -count));
    } else {
      var n := if count > 0 then count else |s|;
      RemoveFirstStays(s, t, n);
      ThoseSame(s, p, j => 0 <= j < |s| && (s[j] != t || Before(s, t, j) >= n));
    }
  }
}
