/** The row store as the collections meet it: a map from positions to bytes whose Put refuses a value that is too
    long, and whose reads yield no bytes for a missing row (engine/f1raw/coll.go). */
module RowStore {
  import opened Bytes

  const VALUE_MAX: int := 0xffff
  const KEY_MAX: int := 0xffff

  predicate Fits(v: Bytes)
  {
    |v| <= VALUE_MAX
  }

  /** The store takes rows under the bare key: a string, a header, a hint. */
  predicate Titled(k: Bytes)
  {
    0 < |k| <= KEY_MAX
  }

  /** The store takes keys of 1 to 65535 bytes and values of up to 65535. */
  lemma LimitsAre(k: Bytes, v: Bytes)
    ensures Titled(k) <==> 1 <= |k| < 0x1_0000
    ensures Fits(v) <==> |v| < 0x1_0000
  {
  }

  predicate AllFit(vs: seq<Bytes>)
  {
    forall v :: v in vs ==> Fits(v)
  }

  type Strays = map<int, Bytes>

  /** Every stored value is one the store took. */
  ghost predicate Stored(rows: Strays)
  {
    forall p :: p in rows ==> Fits(rows[p])
  }

  /** PutKind: a refused value leaves the row as it was. */
  function Put(rows: Strays, p: int, v: Bytes): (rows': Strays)
    ensures Stored(rows) ==> Stored(rows')
    ensures forall q :: q != p ==> (q in rows' <==> q in rows) && (q in rows ==> rows'[q] == rows[q])
  {
    if Fits(v) then rows[p := v] else rows
  }

  /** The bytes a read or a take yields. */
  function Read(rows: Strays, p: int): (v: Bytes)
    ensures Stored(rows) ==> Fits(v)
  {
    if p in rows then rows[p] else []
  }

  /** The rows outside [a, b). */
  function Outside(rows: Strays, a: int, b: int): (rest: Strays)
    ensures Stored(rows) ==> Stored(rest)
  {
    map p | p in rows && !(a <= p < b) :: rows[p]
  }

  /** How many elements of a run the store takes before the first one it refuses. */
  function Landed(run: seq<Bytes>): (k: nat)
    ensures k <= |run| && AllFit(run[..k])
    ensures k < |run| ==> !Fits(run[k])
    ensures k == |run| <==> AllFit(run)
  {
    if run == [] || !Fits(run[0]) then
      assert run != [] ==> run[0] in run;
      0
    else
      var k := 1 + Landed(run[1..]);
      assert run == [run[0]] + run[1..] && run[..k] == [run[0]] + run[1..][..k - 1];
      k
  }

  /** A run written one row after another, from the bounds of a list outwards. */
  function Lay(rows: Strays, run: seq<Bytes>, head: int, tail: int, atHead: bool): (rows': Strays)
    ensures Stored(rows) && AllFit(run) ==> Stored(rows')
    ensures forall p :: !(if atHead then head - |run| <= p < head else tail <= p < tail + |run|) ==>
              (p in rows' <==> p in rows) && (p in rows ==> rows'[p] == rows[p])
  {
    if run == [] then rows
    else
      var k := |run| - 1;
      assert run[k] in run && forall v :: v in run[..k] ==> v in run;
      Lay(rows, run[..k], head, tail, atHead)[(if atHead then head - 1 - k else tail + k) := run[k]]
  }
}
