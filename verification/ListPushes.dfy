/** Pushes on the plain deque: their sizes, and pipelines of them (f1srv/list.go). */
module ListPushes {
  import opened Bytes
  import opened ListSize
  import opened ListSpec
  import opened Pipeline

  lemma PushedLength(s: seq<Bytes>, run: seq<Bytes>, atHead: bool)
    ensures |Pushed(s, run, atHead)| == |s| + |run|
  {
  }

  lemma {:induction false} SizeOfReverse(s: seq<Bytes>)
    ensures EntryBytes(Reverse(s)) == EntryBytes(s)
  {
    if s != [] {
      SizeOfReverse(s[1..]);
      ListBytesConcat(Reverse(s[1..]), [s[0]]);
      assert s == [s[0]] + s[1..];
      ListBytesConcat([s[0]], s[1..]);
    }
  }

  lemma SizeOfLeft(s: seq<Bytes>, atHead: bool, n: int)
    requires 0 <= n <= |s|
    ensures ListBytes(Left(s, atHead, n)) == ListBytes(s) - EntryBytes(Taken(s, atHead, n)) <= ListBytes(s)
  {
    hide EntrySize;
    EntryBytesNonNegative(Taken(s, atHead, n), n);
    if atHead {
      assert s == s[..n] + s[n..];
      ListBytesConcat(s[..n], s[n..]);
    } else {
      var k := |s| - n;
      assert s == s[..k] + s[k..];
      ListBytesConcat(s[..k], s[k..]);
      SizeOfReverse(s[k..]);
    }
  }

  lemma SizeOfPushedRun(s: seq<Bytes>, run: seq<Bytes>, atHead: bool)
    ensures ListBytes(Pushed(s, run, atHead)) == ListBytes(s) + EntryBytes(run)
  {
    if atHead {
      SizeOfReverse(run);
      ListBytesConcat(Reverse(run), s);
    } else {
      ListBytesConcat(s, run);
    }
  }

  lemma PushedTwice(s: seq<Bytes>, a: seq<Bytes>, b: seq<Bytes>, atHead: bool)
    ensures Pushed(Pushed(s, a, atHead), b, atHead) == Pushed(s, a + b, atHead)
  {
    if atHead {
      ReverseConcat(a, b);
      assert Reverse(b) + (Reverse(a) + s) == (Reverse(b) + Reverse(a)) + s;
    } else {
      assert (s + a) + b == s + (a + b);
    }
  }

  /** Two growing edits latch what the second alone would. */
  lemma EditedTwice(d: Deque, s: seq<Bytes>, run: seq<Bytes>, atHead: bool)
    requires s != []
    ensures Edited(Edited(d, s), Pushed(s, run, atHead)) == Edited(d, Pushed(s, run, atHead))
  {
    hide EntrySize, Reverse;
    SizeOfPushedRun(s, run, atHead);
    EntryBytesNonNegative(run, |run|);
    PushedLength(s, run, atHead);
  }

  /** The replies to pushes that all land. */
  function Lengths(base: int, bnd: seq<int>, k: nat): (rs: seq<Reply>)
    requires k <= |bnd|
    ensures |rs| == k
  {
    seq(k, i requires 0 <= i < k => Number(base + bnd[i]))
  }

  function Zeros(k: nat): (rs: seq<Reply>)
    ensures |rs| == k && forall i :: 0 <= i < k ==> rs[i] == Number(0)
  {
    seq(k, _ => Number(0))
  }

  lemma LengthsStep(base: int, bnd: seq<int>, k: nat)
    requires 0 < k <= |bnd|
    ensures Lengths(base, bnd, k) == Lengths(base, bnd, k - 1) + [Number(base + bnd[k - 1])]
    ensures Zeros(k) == Zeros(k - 1) + [Number(0)]
  {
  }

  lemma PushNext(d: Deque, a: seq<Bytes>, b: seq<Bytes>, atHead: bool)
    requires a != []
    ensures Push(Edited(d, Pushed(d.elems, a, atHead)), b, atHead, false) ==
            (Edited(d, Pushed(d.elems, a + b, atHead)), Number(|d.elems| + |a| + |b|))
    ensures Edited(d, Pushed(d.elems, a, atHead)).elems == Pushed(d.elems, a, atHead) != []
  {
    hide ListBytes, Pushed;
    PushedLength(d.elems, a, atHead);
    PushedTwice(d.elems, a, b, atHead);
    EditedTwice(d, Pushed(d.elems, a, atHead), b, atHead);
  }

  /** One after another, the pushes leave what one big push leaves, and reply k is the length before
      the pipeline plus bnd[k]. */
  lemma {:induction false} PushEachIsOne(d: Deque, elems: seq<Bytes>, bnd: seq<int>, k: int, atHead: bool, requireExisting: bool)
    requires Boundaries(bnd, |elems|) && 1 <= k <= |bnd|
    ensures PushEach(d, elems, bnd, k, atHead, requireExisting) ==
            if requireExisting && d.elems == [] then (d, Zeros(k))
            else (Edited(d, Pushed(d.elems, elems[..bnd[k - 1]], atHead)), Lengths(|d.elems|, bnd, k))
  {
    hide Edited, Pushed, Lengths, Zeros;
    var from, to := Start(bnd, k - 1), bnd[k - 1];
    var run := elems[from..to];
    LengthsStep(|d.elems|, bnd, k);
    if k == 1 {
      assert elems[0..to] == elems[..to];
      assert PushEach(d, elems, bnd, 0, atHead, requireExisting) == (d, []);
      assert Zeros(0) == [] == Lengths(|d.elems|, bnd, 0);
    } else {
      PushEachIsOne(d, elems, bnd, k - 1, atHead, requireExisting);
      assert elems[..to] == elems[..from] + run;
      PushNext(d, elems[..from], run, atHead);
    }
  }
}
