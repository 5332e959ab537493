/** The listpack byte accounting of a list (f1srv/list.go, listEntrySize and its callers). */
module ListSize {
  import opened Bytes
  import opened Decimal

  const LIST_HEADER_BYTES: int := 7
  const LISTPACK_MAX_BYTES: int := 8192

  /** The bytes of an element's encoding, before its back-length. */
  function EncodingSize(e: Bytes): (n: int)
    ensures n >= 1
  {
    match TryInteger(e)
    case Some(v) =>
      if 0 <= v <= 127 then 1
      else if -4096 <= v <= 4095 then 2
      else if -32768 <= v <= 32767 then 3
      else if -8388608 <= v <= 8388607 then 4
      else if -2147483648 <= v <= 2147483647 then 5
      else 9
    case None =>
      if |e| < 64 then 1 + |e|
      else if |e| < 4096 then 2 + |e|
      else 5 + |e|
  }

  /** The bytes of the back-length field of an entry whose encoding takes n bytes. */
  function BacklenSize(n: int): (k: int)
    ensures 1 <= k <= 5
  {
    if n <= 127 then 1
    else if n < 16384 then 2
    else if n < 2097152 then 3
    else if n < 268435456 then 4
    else 5
  }

  function EntrySize(e: Bytes): (n: int)
    ensures n >= 2
  {
    EncodingSize(e) + BacklenSize(EncodingSize(e))
  }

  /** The sum of a per-element measure over the first k entries. */
  function SumBy<T>(f: T -> int, s: seq<T>, k: nat): (n: int)
    requires k <= |s|
  {
    if k == 0 then 0 else SumBy(f, s, k - 1) + f(s[k - 1])
  }

  lemma {:induction false} SumByPrefix<T>(f: T -> int, s: seq<T>, t: seq<T>, k: nat)
    requires k <= |s| && k <= |t| && forall i :: 0 <= i < k ==> s[i] == t[i]
    ensures SumBy(f, s, k) == SumBy(f, t, k)
  {
    if k > 0 {
      SumByPrefix(f, s, t, k - 1);
    }
  }

  lemma {:induction false} SumByConcat<T>(f: T -> int, a: seq<T>, b: seq<T>, k: nat)
    requires k <= |b|
    ensures SumBy(f, a + b, |a| + k) == SumBy(f, a, |a|) + SumBy(f, b, k)
  {
    if k == 0 {
      SumByPrefix(f, a + b, a, |a|);
    } else {
      SumByConcat(f, a, b, k - 1);
    }
  }

  /** The entry bytes of a whole run of elements. */
  function EntryBytes(s: seq<Bytes>): (n: int)
  {
    SumBy(EntrySize, s, |s|)
  }

  /** The listpack size of a list: the fixed overhead and its entries. */
  function ListBytes(s: seq<Bytes>): (n: int)
  {
    LIST_HEADER_BYTES + EntryBytes(s)
  }

  lemma EntryBytesOfOne(e: Bytes)
    ensures EntryBytes([e]) == EntrySize(e)
  {
    assert SumBy(EntrySize, [e], 0) == 0;
  }

  lemma EntryBytesPositive(e: Bytes)
    ensures EntryBytes([e]) >= 2
  {
    EntryBytesOfOne(e);
  }

  lemma {:induction false} EntryBytesNonNegative(s: seq<Bytes>, k: nat)
    requires k <= |s|
    ensures SumBy(EntrySize, s, k) >= 0
  {
    if k > 0 {
      EntryBytesNonNegative(s, k - 1);
    }
  }

  lemma ListBytesConcat(a: seq<Bytes>, b: seq<Bytes>)
    ensures ListBytes(a + b) == ListBytes(a) + EntryBytes(b)
  {
    hide EntrySize;
    SumByConcat(EntrySize, a, b, |b|);
  }
}
