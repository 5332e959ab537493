/** The plain deque a list stands for, and what each list command does to it (f1srv/list.go). */
module ListSpec {
  import opened Bytes
  import opened ListSize
  import opened Pipeline
  import opened Scan

  /** A list's elements and its sticky "has ever been large" flag. */
  datatype Deque = Deque(elems: seq<Bytes>, large: bool)

  /** `Refused` is the store's error for a value that is too long, `Several` the replies to a pipeline. */
  datatype Reply =
    | Nil | NilArray | Crash | Refused
    | Number(n: int) | Bulk(v: Bytes) | Array(vs: seq<Bytes>) | Numbers(ns: seq<int>) | Several(rs: seq<Reply>)

  /** The longest element the lock-free path takes. */
  const LIST_ELEM_FAST_MAX: int := 0xffff

  const Missing: Deque := Deque([], false)

  function Reverse<T>(s: seq<T>): (r: seq<T>)
    ensures |r| == |s|
    ensures forall i :: 0 <= i < |s| ==> r[i] == s[|s| - 1 - i]
  {
    if s == [] then [] else Reverse(s[1..]) + [s[0]]
  }

  lemma {:induction false} ReverseConcat<T>(a: seq<T>, b: seq<T>)
    ensures Reverse(a + b) == Reverse(b) + Reverse(a)
  {
    assert |Reverse(a + b)| == |Reverse(b) + Reverse(a)|;
  }

  /** The list after an edit: an emptied list is gone, a surviving one keeps its flag. */
  function Edited(d: Deque, elems: seq<Bytes>): (d': Deque)
  {
    if elems == [] then Missing else Deque(elems, d.large || ListBytes(elems) > LISTPACK_MAX_BYTES)
  }

  function Pushed(s: seq<Bytes>, run: seq<Bytes>, atHead: bool): (s': seq<Bytes>)
  {
    if atHead then Reverse(run) + s else s + run
  }

  function Push(d: Deque, run: seq<Bytes>, atHead: bool, requireExisting: bool): (r: (Deque, Reply))
  {
    if requireExisting && d.elems == [] then (d, Number(0))
    else (Edited(d, Pushed(d.elems, run, atHead)), Number(|d.elems| + |run|))
  }

  /** The first k pushes of a pipeline, one after another. */
  function PushEach(d: Deque, elems: seq<Bytes>, bnd: seq<int>, k: int, atHead: bool, requireExisting: bool): (r: (Deque, seq<Reply>))
    requires Boundaries(bnd, |elems|) && 0 <= k <= |bnd|
    ensures |r.1| == k
  {
    if k == 0 then (d, [])
    else
      var (d1, replies) := PushEach(d, elems, bnd, k - 1, atHead, requireExisting);
      var (d2, reply) := Push(d1, elems[Start(bnd, k - 1)..bnd[k - 1]], atHead, requireExisting);
      (d2, replies + [reply])
  }

  /** The elements a pop of n takes, in reply order. */
  function Taken(s: seq<Bytes>, atHead: bool, n: int): (r: seq<Bytes>)
    requires 0 <= n <= |s|
    ensures |r| == n
  {
    if atHead then s[..n] else Reverse(s[|s| - n..])
  }

  /** The element at the chosen end. */
  function EndOf(s: seq<Bytes>, atHead: bool): (v: Bytes)
    requires s != []
  {
    if atHead then s[0] else s[|s| - 1]
  }

  function Left(s: seq<Bytes>, atHead: bool, n: int): (r: seq<Bytes>)
    requires 0 <= n <= |s|
    ensures |r| == |s| - n
  {
    if atHead then s[n..] else s[..|s| - n]
  }

  function Min(a: int, b: int): int { if a < b then a else b }

  /** LPOP and RPOP; `count` is absent in the single-element form. */
  function Pop(d: Deque, atHead: bool, count: Option<nat>): (r: (Deque, Reply))
  {
    if d.elems == [] then (d, if count.None? then Nil else NilArray)
    else
      match count
      case None => (Edited(d, Left(d.elems, atHead, 1)), Bulk(Taken(d.elems, atHead, 1)[0]))
      case Some(c) =>
        var n := Min(c, |d.elems|);
        (Edited(d, Left(d.elems, atHead, n)), Array(Taken(d.elems, atHead, n)))
  }

  /** The inclusive index range of LRANGE and LTRIM, clamped into a list of n elements. */
  function Range(start: int, stop: int, n: int): (r: (int, int))
    requires n >= 0
    ensures 0 <= r.0 <= r.1 <= n
  {
    var lo := if start < 0 then (if start + n < 0 then 0 else start + n) else start;
    var hi := if stop < 0 then stop + n else stop;
    var hi' := if hi >= n then n - 1 else hi;
    if lo > hi' || lo >= n then (0, 0) else (lo, hi' + 1)
  }

  function LRange(d: Deque, start: int, stop: int): (r: Reply)
  {
    var (lo, hi) := Range(start, stop, |d.elems|);
    Array(d.elems[lo..hi])
  }

  /** Which entries equal the target. */
  function Matches<T(==)>(s: seq<T>, target: T): (h: seq<bool>)
    ensures |h| == |s|
    ensures forall i :: 0 <= i < |s| ==> h[i] == (s[i] == target)
  {
    seq(|s|, i requires 0 <= i < |s| => s[i] == target)
  }

  /** The indexes LPOS reports of [lo, hi), found by comparing element after element. */
  function Scanned<T(==)>(s: seq<T>, target: T, backward: bool, skip: int, want: int, lo: nat, hi: nat): (r: seq<int>)
    requires lo <= hi <= |s|
  {
    var c := Collector(0, skip, want, [], false);
    var hits := Matches(s[lo..hi], target);
    (if backward then ScanDown(hits, lo, c) else ScanUp(hits, lo, c)).out
  }

  /** The indexes a limit of maxlen comparisons leaves to a search of n elements. */
  function Limited(n: nat, backward: bool, maxlen: nat): (r: (nat, nat))
    ensures r.0 <= r.1 <= n
  {
    var k := if 0 < maxlen < n then maxlen else n;
    if backward then (n - k, n) else (0, k)
  }

  /** The same limit set on the positions [head, head + n), in int64 arithmetic. */
  function Examined(head: int, n: nat, backward: bool, maxlen: nat): (r: (nat, nat))
    ensures r.0 <= r.1 <= n
  {
    var tail := head + n;
    var lo := if backward && maxlen > 0 && Wrap64(tail - maxlen) > head then Wrap64(tail - maxlen) else head;
    var hi := if !backward && maxlen > 0 && Wrap64(head + maxlen) < tail then Wrap64(head + maxlen) else tail;
    if lo < hi then (lo - head, hi - head) else (0, 0)
  }

  /** The limit lies past every int64. */
  predicate Overruns(head: int, n: nat, backward: bool, maxlen: nat)
  {
    maxlen > 0 && if backward then head + n - maxlen < INT64_MIN else head + maxlen > INT64_MAX
  }

  /** A limit past every int64 leaves nothing to search; any other is the limit asked for. */
  lemma ExaminedIs(head: int, n: nat, backward: bool, maxlen: nat)
    requires INT64_MIN <= head <= head + n <= INT64_MAX && maxlen <= INT64_MAX
    ensures Overruns(head, n, backward, maxlen) ==>
              Examined(head, n, backward, maxlen) == (0, 0) && Limited(n, backward, maxlen) == (0, n)
    ensures !Overruns(head, n, backward, maxlen) ==> Examined(head, n, backward, maxlen) == Limited(n, backward, maxlen)
  {
    WrapTurns(head + n - maxlen, 1);
    WrapTurns(head + maxlen, -1);
    hide Wrap64;
  }

  /** How many entries equal x. */
  function Occurs<T(==)>(s: seq<T>, x: T): (n: nat)
    ensures n <= |s| && (n == 0 <==> x !in s)
  {
    if s == [] then 0 else (if s[0] == x then 1 else 0) + Occurs(s[1..], x)
  }

  /** The matches a rank passes over. */
  function Skipped(rank: int): (n: nat)
    requires rank != 0
  {
    if rank < 0 then -rank - 1 else rank - 1
  }

  /** LPOS over a range: the sign of the rank picks the direction, its size how many matches to pass over. */
  function PosIn<T(==)>(s: seq<T>, target: T, rank: int, count: Option<nat>, range: (nat, nat)): (r: Reply)
    requires rank != 0 && range.0 <= range.1 <= |s|
  {
    var skip := Skipped(rank);
    match count
    case Some(c) => Numbers(Scanned(s, target, rank < 0, skip, c, range.0, range.1))
    case None =>
      var found := Scanned(s, target, rank < 0, skip, -1, range.0, range.1);
      if found == [] then Nil else Number(found[0])
  }

  /** LPOS. */
  function Pos<T(==)>(s: seq<T>, target: T, rank: int, count: Option<nat>, maxlen: nat): (r: Reply)
    requires rank != 0
  {
    PosIn(s, target, rank, count, Limited(|s|, rank < 0, maxlen))
  }

  /** LPOS of a list whose first element sits at position head. */
  function PosAt<T(==)>(s: seq<T>, head: int, target: T, rank: int, count: Option<nat>, maxlen: nat): (r: Reply)
    requires rank != 0
  {
    PosIn(s, target, rank, count, Examined(head, |s|, rank < 0, maxlen))
  }

  /** The index of the first entry equal to the target. */
  function FirstIndex<T(==)>(s: seq<T>, target: T): (k: Option<nat>)
    ensures k.Some? ==> k.value < |s| && s[k.value] == target && target !in s[..k.value]
    ensures k.None? ==> target !in s
  {
    if s == [] then None
    else if s[0] == target then Some(0)
    else
      match FirstIndex(s[1..], target)
      case None => None
      case Some(k) => Some(k + 1)
  }

  /** LINSERT, given where the pivot was found. */
  function Insert(d: Deque, pivot: Option<nat>, val: Bytes, before: bool): (r: (Deque, Reply))
    requires pivot.Some? ==> pivot.value < |d.elems|
  {
    if d.elems == [] then (d, Number(0))
    else
      match pivot
      case None => (d, Number(-1))
      case Some(k) =>
        var i := if before then k else k + 1;
        (Edited(d, d.elems[..i] + [val] + d.elems[i..]), Number(|d.elems| + 1))
  }

  /** Drop the first n entries equal to the target. */
  function RemoveFirst<T(==)>(s: seq<T>, target: T, n: int): (r: seq<T>)
  {
    if s == [] then []
    else if s[0] == target && n > 0 then RemoveFirst(s[1..], target, n - 1)
    else [s[0]] + RemoveFirst(s[1..], target, n)
  }

  /** Drop the last n entries equal to the target. */
  function RemoveLast<T(==)>(s: seq<T>, target: T, n: int): (r: seq<T>)
  {
    if s == [] then []
    else
      var k := |s| - 1;
      if s[k] == target && n > 0 then RemoveLast(s[..k], target, n - 1)
      else RemoveLast(s[..k], target, n) + [s[k]]
  }

  /** LREM: the first count matches, the last |count|, or all of them. */
  function Removed<T(==)>(s: seq<T>, target: T, count: int): (r: seq<T>)
  {
    if count > 0 then RemoveFirst(s, target, count)
    else if count < 0 then RemoveLast(s, target, -count)
    else RemoveFirst(s, target, |s|)
  }

  /** LREM's count as the scan of a resident list takes it: the least int64 is its own negation, and a scan
      that wants fewer than none stops at the first match. */
  function Counted(count: int): (n: int)
  {
    if count == INT64_MIN then -1 else count
  }

  /** LREM, given the elements that stay. */
  function Rem(d: Deque, kept: seq<Bytes>): (r: (Deque, Reply))
  {
    (Edited(d, kept), Number(|d.elems| - |kept|))
  }

  /** LMOVE: a pop from one list and a push of what came onto another. */
  function Move(src: Deque, dst: Deque, fromHead: bool, toHead: bool): (r: (Deque, Deque, Reply))
  {
    var (src', reply) := Pop(src, fromHead, None);
    (src', if reply.Bulk? then Push(dst, [reply.v], toHead, false).0 else dst, reply)
  }

  /** LMOVE of a list onto itself: the pop lands before the push. */
  function Rotate(d: Deque, fromHead: bool, toHead: bool): (r: (Deque, Reply))
  {
    var (d', reply) := Pop(d, fromHead, None);
    (if reply.Bulk? then Push(d', [reply.v], toHead, false).0 else d', reply)
  }

  /** The list commands, as a client sends them.  A push in a transaction is `PushC`; pushes outside of one come
      as `PipeC`, those that follow each other in the pipeline folded into one.  `room` and `Retire` are the
      server's own doing: space for another window, and the retirement of this one. */
  datatype Command =
    | PushC(run: seq<Bytes>, atHead: bool, requireExisting: bool, room: bool)
    | PipeC(elems: seq<Bytes>, bnd: seq<int>, atHead: bool, requireExisting: bool, room: bool)
    | PopC(fromHead: bool, count: Option<nat>)
    | RangeC(start: int, stop: int)
    | PosC(target: Bytes, rank: int, limit: Option<nat>, maxlen: nat)
    | InsertC(pivot: Bytes, val: Bytes, before: bool)
    | RemC(victim: Bytes, howMany: int)
    | RotateC(from: bool, to: bool)
    | Retire

  /** Commands a client can send, with a non-empty search target; LREM's smallest count is apart. */
  predicate Sendable(c: Command)
  {
    match c
    case PushC(run, _, _, _) => run != []
    case PipeC(elems, bnd, _, _, _) => Boundaries(bnd, |elems|)
    case PosC(target, rank, _, maxlen) => target != [] && rank != 0 && maxlen <= INT64_MAX
    case InsertC(pivot, _, _) => pivot != []
    case RemC(victim, howMany) => victim != [] && INT64_MIN < howMany <= INT64_MAX
    case _ => true
  }

  /** One command on the plain deque. */
  function Apply(d: Deque, c: Command): (r: (Deque, Reply))
    requires Sendable(c)
  {
    match c
    case PushC(run, atHead, requireExisting, _) => Push(d, run, atHead, requireExisting)
    case PipeC(elems, bnd, atHead, requireExisting, _) =>
      var (d', rs) := PushEach(d, elems, bnd, |bnd|, atHead, requireExisting);
      (d', Several(rs))
    case PopC(fromHead, count) => Pop(d, fromHead, count)
    case RangeC(start, stop) => (d, LRange(d, start, stop))
    case PosC(target, rank, limit, maxlen) => (d, Pos(d.elems, target, rank, limit, maxlen))
    case InsertC(pivot, val, before) => Insert(d, FirstIndex(d.elems, pivot), val, before)
    case RemC(victim, howMany) => Rem(d, Removed(d.elems, victim, howMany))
    case RotateC(from, to) => Rotate(d, from, to)
    case Retire => (d, Nil)
  }
}
