/** Pipelined pops folded into one claim on the window, against the same pops one after another
    (f1srv/list.go, drainPop and popThroughWindowRun). */
module ListPops {
  import opened Bytes
  import opened ListSize
  import opened ListSpec
  import opened ListPushes
  import opened ListCells

  function Bulks(vs: seq<Bytes>): (rs: seq<Reply>)
    ensures |rs| == |vs| && forall i :: 0 <= i < |vs| ==> rs[i] == Bulk(vs[i])
  {
    seq(|vs|, i requires 0 <= i < |vs| => Bulk(vs[i]))
  }

  /** n pops of one element, one command after another. */
  function EachPop(c: Cell, atHead: bool, n: nat): (r: (Cell, seq<Reply>))
    ensures |r.1| == n
  {
    if n == 0 then (c, [])
    else
      var (c1, replies) := EachPop(c, atHead, n - 1);
      var (c2, reply) := PopIn(c1, atHead, None);
      (c2, replies + [reply])
  }

  /** A list with its window, less n elements at one end. */
  function Fewer(c: Cell, atHead: bool, n: nat): (c': Cell)
    requires n < |c.d.elems|
  {
    if n == 0 then c
    else c.(d := Edited(c.d, Left(c.d.elems, atHead, n)), head := c.head + if atHead then n else 0)
  }

  /** The folded pops: one claim if the window is there and the list outlives them, and otherwise each by itself. */
  function PopsIn(c: Cell, atHead: bool, n: nat): (r: (Cell, seq<Reply>))
  {
    if n > 1 && WindowPops(c, Some(n)) then (Fewer(c, atHead, n), Bulks(Taken(c.d.elems, atHead, n)))
    else EachPop(c, atHead, n)
  }

  lemma TakenNext(s: seq<Bytes>, atHead: bool, n: nat)
    requires n < |s|
    ensures Taken(s, atHead, n + 1) == Taken(s, atHead, n) + [EndOf(Left(s, atHead, n), atHead)]
    ensures Left(Left(s, atHead, n), atHead, 1) == Left(s, atHead, n + 1)
  {
    if !atHead {
      var k := |s| - n;
      assert s[k - 1..] == [s[k - 1]] + s[k..];
      ReverseConcat([s[k - 1]], s[k..]);
      assert Reverse([s[k - 1]]) == [s[k - 1]];
    }
  }

  /** One pop more. */
  lemma FewerNext(c: Cell, atHead: bool, n: nat)
    requires Coherent(c) && c.hot && n + 1 < |c.d.elems|
    ensures PopIn(Fewer(c, atHead, n), atHead, None)
         == (Fewer(c, atHead, n + 1), Bulk(EndOf(Left(c.d.elems, atHead, n), atHead)))
  {
    hide ListBytes, Left, Taken;
    var s := c.d.elems;
    TakenNext(s, atHead, n);
    assert Left(s, atHead, 0) == s by { LeftAll(s, atHead); }
    TakenOne(Left(s, atHead, n), atHead);
    SizeOfLeft(s, atHead, n);
    SizeOfLeft(s, atHead, n + 1);
    PoppedIs(Fewer(c, atHead, n), atHead, None);
  }

  lemma LeftAll(s: seq<Bytes>, atHead: bool)
    ensures Left(s, atHead, 0) == s
  {
  }

  /** Pops that leave the list alive, one after another. */
  lemma {:induction false} EachFewer(c: Cell, atHead: bool, n: nat)
    requires Coherent(c) && c.hot && n < |c.d.elems|
    ensures EachPop(c, atHead, n) == (Fewer(c, atHead, n), Bulks(Taken(c.d.elems, atHead, n)))
  {
    hide Coherent, Fewer, PopIn, Left, Taken;
    if n == 0 {
      assert Fewer(c, atHead, 0) == c && Bulks(Taken(c.d.elems, atHead, 0)) == [] by { FewerNone(c, atHead); }
    } else {
      EachFewer(c, atHead, n - 1);
      FewerNext(c, atHead, n - 1);
      TakenNext(c.d.elems, atHead, n - 1);
      var before, last := Taken(c.d.elems, atHead, n - 1), EndOf(Left(c.d.elems, atHead, n - 1), atHead);
      assert Bulks(before + [last]) == Bulks(before) + [Bulk(last)];
    }
  }

  lemma FewerNone(c: Cell, atHead: bool)
    requires 0 < |c.d.elems|
    ensures Fewer(c, atHead, 0) == c && Bulks(Taken(c.d.elems, atHead, 0)) == []
  {
  }

  /** Folded pops leave the list, its window, its rows and the replies of the pops one after another. */
  lemma PopsExact(c: Cell, atHead: bool, n: nat)
    requires Coherent(c)
    ensures PopsIn(c, atHead, n) == EachPop(c, atHead, n)
  {
    hide Coherent, Fewer, EachPop, Taken;
    if n > 1 && WindowPops(c, Some(n)) {
      EachFewer(c, atHead, n);
    }
  }
}
