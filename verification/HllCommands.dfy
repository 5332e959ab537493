/** PFADD, PFCOUNT, PFMERGE and PFDEBUG TODENSE over a keyspace of strings (f1srv/hll.go). */
module HllCommands {
  import opened Bytes
  import opened Powers
  import opened HllDense
  import opened HllSparse
  import opened Hll
  import opened HllUnion
  import opened Division
  import RowStore

  type Word = n: int | 0 <= n < 0x1_0000_0000_0000_0000

  /** A register index and the count an element offers it. */
  type Pattern = (int, int)

  /** `Refused` is the store's error for a key that is empty or too long. */
  datatype Reply = Int(n: int) | Ok | WrongType | NotValid | NoKey | Refused

  function TrailingZeros(n: int): (k: nat)
    requires n > 0
  {
    if n % 2 == 1 then 0 else 1 + TrailingZeros(n / 2)
  }

  lemma {:induction false} TrailingZerosBound(n: int, k: nat)
    requires 0 < n < Pow2(k + 1)
    ensures TrailingZeros(n) <= k
  {
    if n % 2 == 0 {
      assert k > 0 by { assert Pow2(1) == 2 * Pow2(0); }
      TrailingZerosBound(n / 2, k - 1);
    }
  }

  /** The register a hash selects, and one more than the zeros that follow its index bits. */
  function PatternOf(hash: Word): (p: Pattern)
  {
    (hash % REGISTERS, 1 + TrailingZeros(hash / REGISTERS + Pow2(50)))
  }

  lemma Pow2Values()
    ensures Pow2(50) == 0x4_0000_0000_0000 && Pow2(51) == 0x8_0000_0000_0000
  {
    assert Pow2(10) == 1024 by { assert Pow2(5) == 32; }
    assert Pow2(20) == 0x10_0000 by { assert Pow2(15) == 32 * Pow2(10); }
    assert Pow2(30) == 0x4000_0000 by { assert Pow2(25) == 32 * Pow2(20); }
    assert Pow2(40) == 0x100_0000_0000 by { assert Pow2(35) == 32 * Pow2(30); }
    assert Pow2(45) == 32 * Pow2(40);
    assert Pow2(50) == 32 * Pow2(45);
    assert Pow2(51) == 2 * Pow2(50);
  }

  /** A pattern names a register and fits it. */
  lemma PatternFits(hash: Word)
    ensures 0 <= PatternOf(hash).0 < REGISTERS && 1 <= PatternOf(hash).1 <= 51
  {
    Pow2Values();
    TrailingZerosBound(hash / REGISTERS + Pow2(50), 50);
  }

  lemma {:induction false} TrailingZerosIs(n: int)
    requires n > 0
    ensures n % Pow2(TrailingZeros(n)) == 0 && n % Pow2(TrailingZeros(n) + 1) != 0
  {
    if n % 2 == 0 {
      TrailingZerosIs(n / 2);
      var m := Pow2(TrailingZeros(n / 2));
      HalfMod(n, m);
      HalfMod(n, 2 * m);
    }
  }

  lemma HalfMod(n: int, m: nat)
    requires n > 0 && n % 2 == 0 && m > 0
    ensures n % (2 * m) == 2 * (n / 2 % m)
  {
    var q, r := n / 2 / m, n / 2 % m;
    assert n / 2 == q * m + r;
    assert n == q * (2 * m) + 2 * r;
    DivUnique(q, 2 * r, 2 * m);
  }

  /** A high bit added above leaves the lower remainders alone. */
  lemma HighBit(q: nat, k: nat)
    requires k <= 50
    ensures (q + Pow2(50)) % Pow2(k) == q % Pow2(k)
  {
    hide Pow2;
    Pow2Sum(50 - k, k);
    ModAdd(q, Pow2(50 - k), Pow2(k));
  }

  /** The count of a pattern is one more than the zeros above the index bits, and 51 if there are only zeros. */
  lemma PatternCounts(hash: Word)
    ensures var (index, count) := PatternOf(hash);
            var q := hash / 16384;
            && hash == 16384 * q + index && 0 <= index < 16384 && 1 <= count <= 51
            && q % Pow2(count - 1) == 0 && ((q == 0 && count == 51) || q % Pow2(count) != 0)
  {
    var q, count := hash / 16384, PatternOf(hash).1;
    PatternFits(hash);
    Pow2Values();
    hide Pow2;
    TrailingZerosIs(q + Pow2(50));
    HighBit(q, count - 1);
    if count <= 50 {
      HighBit(q, count);
    } else {
      assert q % Pow2(50) == q;
    }
  }

  /** hllPatLen. */
  method PatLen(hash: Word) returns (index: int, count: int)
    ensures (index, count) == PatternOf(hash)
    ensures var q := hash / 16384;
            && hash == 16384 * q + index && 0 <= index < 16384 && 1 <= count <= 51
            && q % Pow2(count - 1) == 0 && ((q == 0 && count == 51) || q % Pow2(count) != 0)
  {
    Pow2Values();
    PatternCounts(hash);
    index := hash % REGISTERS;
    var w := hash / REGISTERS + 0x4_0000_0000_0000;
    count := 1;
    while w % 2 == 0
      invariant w > 0 && count + TrailingZeros(w) == PatternOf(hash).1
      decreases w
    {
      w := w / 2;
      count := count + 1;
    }
  }

  /** The registers hold, for each index, the largest count added for it. */
  ghost predicate IsMaxOf(r: Vector, added: set<Pattern>)
  {
    && |r| == REGISTERS
    && (forall p :: p in added ==> 0 <= p.0 < REGISTERS && p.1 <= r[p.0])
    && (forall i :: 0 <= i < REGISTERS ==> r[i] == 0 || (i, r[i]) in added)
    && (forall i :: 0 <= i < REGISTERS ==> 0 <= r[i])
  }

  /** What was added settles the registers: neither order nor encoding has a say. */
  lemma MaxUnique(r: Vector, s: Vector, added: set<Pattern>)
    requires IsMaxOf(r, added) && IsMaxOf(s, added)
    ensures r == s
  {
    forall i | 0 <= i < REGISTERS ensures r[i] == s[i] {
      assert r[i] == 0 || (i, r[i]) in added;
      assert s[i] == 0 || (i, s[i]) in added;
    }
  }

  lemma NothingAdded()
    ensures IsMaxOf(Fill(0, REGISTERS), {})
  {
  }

  lemma RaiseAdds(r: Vector, added: set<Pattern>, index: int, count: int)
    requires IsMaxOf(r, added) && 0 <= index < REGISTERS && 0 < count
    ensures IsMaxOf(Raise(r, index, count), added + {(index, count)})
  {
  }

  lemma UnionAdds(a: Vector, b: Vector, s: set<Pattern>, t: set<Pattern>)
    requires IsMaxOf(a, s) && IsMaxOf(b, t)
    ensures IsMaxOf(Union(a, b), s + t)
  {
  }

  /** The patterns of a run of elements. */
  ghost function Patterns(hash: Bytes -> Word, eles: seq<Bytes>): (s: set<Pattern>)
  {
    if eles == [] then {}
    else Patterns(hash, eles[..|eles| - 1]) + {PatternOf(hash(eles[|eles| - 1]))}
  }

  function ReadCache(blob: Bytes): (n: nat)
    requires |blob| >= HDR_SIZE
  {
    FromLe(blob[8..16])
  }

  function WriteCache(blob: Bytes, card: Word): (blob': Bytes)
    requires |blob| >= HDR_SIZE
    ensures |blob'| == |blob| && blob'[..8] == blob[..8] && Payload(blob') == Payload(blob)
  {
    blob[..8] + Le(card, 8) + blob[HDR_SIZE..]
  }

  lemma CacheRoundTrip(blob: Bytes, card: Word)
    requires |blob| >= HDR_SIZE
    ensures ReadCache(WriteCache(blob, card)) == card
  {
    assert WriteCache(blob, card)[8..16] == Le(card, 8);
    Pow256Values();
    LeRoundTrip(card, 8);
  }

  lemma WriteCacheKeeps(blob: Bytes, card: Word)
    requires Readable(blob)
    ensures Readable(WriteCache(blob, card)) && Registers(WriteCache(blob, card)) == Registers(blob)
    ensures Tagged(blob) ==> Tagged(WriteCache(blob, card))
  {
    hide Whole, Expand, Unpack;
    var b := WriteCache(blob, card);
    assert b[4] == b[..8][4] == blob[..8][4];
    assert b[..4] == b[..8][..4] == blob[..8][..4] == blob[..4];
  }

  /** One register of a stored sketch raised, by its encoding. */
  method SetRegister(blob: Bytes, index: int, count: int) returns (blob': Bytes, status: int)
    requires Sketch(blob) && Tagged(blob) && 0 <= index < REGISTERS && 1 <= count <= REGISTER_MAX
    ensures Sketch(blob') && Tagged(blob') && Registers(blob') == Raise(Registers(blob), index, count)
    ensures status == if count > Registers(blob)[index] then 1 else 0
    ensures status == 0 ==> blob' == blob
  {
    hide Whole, Expand, Unpack;
    if blob[4] == DENSE {
      blob', status := DenseSet(blob, index, count);
    } else {
      blob', status := SparseSet(blob, index, count);
    }
  }

  /** What the keyspace has been told, by sketch. */
  type Log = map<Bytes, set<Pattern>>

  /** Everything added to any of the first n keys. */
  ghost function AddedTo(log: Log, keys: seq<Bytes>, n: nat): (s: set<Pattern>)
    requires n <= |keys|
  {
    if n == 0 then {}
    else AddedTo(log, keys, n - 1) + (if keys[n - 1] in log then log[keys[n - 1]] else {})
  }

  /** The largest counts never fall: what one vector has over another it keeps. */
  ghost predicate Above(r: Vector, s: Vector)
  {
    |r| == |s| && forall i :: 0 <= i < |s| ==> s[i] <= r[i]
  }

  lemma RaiseAbove(r0: Vector, r: Vector, index: int, count: int)
    requires Above(r, r0) && 0 <= index < |r|
    ensures Above(Raise(r, index, count), r0)
    ensures Raise(r, index, count) == r0 <==> r == r0 && count <= r[index]
  {
    if count > r[index] {
      assert Raise(r, index, count)[index] > r0[index];
    }
  }

  class Keyspace {
    const hash: Bytes -> Word
    const estimate: seq<int> -> Word
    var strings: map<Bytes, Bytes>
    var collections: set<Bytes>
    ghost var added: Log

    /** A cached cardinality that reads as valid is the estimate of the current histogram. */
    ghost predicate Coherent(blob: Bytes)
      requires Sketch(blob)
    {
      CacheValid(blob) ==> ReadCache(blob) == estimate(Histogram(Registers(blob)))
    }

    /** A stored sketch stands for exactly what was added to it. */
    ghost predicate Sound(blob: Bytes, s: set<Pattern>)
    {
      Tagged(blob) && Sketch(blob) && Coherent(blob) && IsMaxOf(Registers(blob), s)
    }

    ghost predicate Valid()
      reads this
    {
      && (forall k :: k in added ==> k in strings && Sound(strings[k], added[k]))
      && (forall k :: k in strings && Tagged(strings[k]) ==> k in added)
      && collections !! strings.Keys && forall k :: k in strings ==> RowStore.Titled(k)
    }

    /** Why a key cannot take part, if it cannot. */
    ghost function Fault(key: Bytes): (f: Option<Reply>)
      reads this
    {
      if key in strings then (if Tagged(strings[key]) then None else Some(NotValid))
      else if key in collections then Some(WrongType) else None
    }

    /** The first key that cannot take part. */
    ghost function FirstFault(keys: seq<Bytes>, n: nat): (f: Option<Reply>)
      requires n <= |keys|
      reads this
    {
      if n == 0 then None
      else if FirstFault(keys, n - 1).Some? then FirstFault(keys, n - 1)
      else Fault(keys[n - 1])
    }

    constructor (hash: Bytes -> Word, estimate: seq<int> -> Word)
      ensures Valid() && this.hash == hash && this.estimate == estimate && added == map[]
    {
      this.hash, this.estimate := hash, estimate;
      strings, collections, added := map[], {}, map[];
    }

    /** The elements of a PFADD, one after another. */
    method AddElements(blob0: Bytes, eles: seq<Bytes>, ghost s: set<Pattern>) returns (blob: Bytes, updated: int)
      requires Tagged(blob0) && Sketch(blob0) && IsMaxOf(Registers(blob0), s)
      ensures Tagged(blob) && Sketch(blob) && IsMaxOf(Registers(blob), s + Patterns(hash, eles))
      ensures updated >= 0 && (updated == 0 <==> Registers(blob) == Registers(blob0))
      ensures updated == 0 ==> blob == blob0
    {
      hide Tagged, Readable, Registers, IsMaxOf, PatternOf, Raise, Above;
      blob, updated := blob0, 0;
      ghost var r0 := Registers(blob0);
      assert Above(r0, r0) by { AboveItself(r0); }
      var j := 0;
      assert s + Patterns(hash, eles[..0]) == s;
      while j < |eles|
        invariant 0 <= j <= |eles| && Tagged(blob) && Sketch(blob)
        invariant IsMaxOf(Registers(blob), s + Patterns(hash, eles[..j]))
        invariant Above(Registers(blob), r0) && updated >= 0
        invariant updated == 0 <==> Registers(blob) == r0
        invariant updated == 0 ==> blob == blob0
      {
        PatternFits(hash(eles[j]));
        var index, count := PatLen(hash(eles[j]));
        RaiseAdds(Registers(blob), s + Patterns(hash, eles[..j]), index, count);
        RaiseAbove(r0, Registers(blob), index, count);
        assert eles[..j + 1][..j] == eles[..j];
        assert s + Patterns(hash, eles[..j]) + {(index, count)} == s + Patterns(hash, eles[..j + 1]);
        var status;
        blob, status := SetRegister(blob, index, count);
        updated := updated + status;
        j := j + 1;
      }
      assert eles[..j] == eles;
    }

    /** Store a sketch whose cache is invalid, if the store takes the key. */
    method Save(key: Bytes, blob: Bytes, ghost s: set<Pattern>) returns (ok: bool)
      requires Valid() && Fault(key) == None && Tagged(blob) && Sketch(blob) && IsMaxOf(Registers(blob), s)
      modifies this
      ensures Valid() && collections == old(collections) && ok == RowStore.Titled(key)
      ensures if ok then added == old(added)[key := s] && strings == old(strings)[key := Invalidate(blob)]
              else added == old(added) && strings == old(strings)
    {
      hide Tagged, Readable, Registers, IsMaxOf, Invalidate, Histogram, ReadCache;
      ok := RowStore.Titled(key);
      if !ok {
        return;
      }
      Tags(blob);
      InvalidateKeeps(blob);
      strings := strings[key := Invalidate(blob)];
      added := added[key := s];
    }

    /** PFADD. */
    method PfAdd(key: Bytes, eles: seq<Bytes>) returns (reply: Reply)
      requires Valid()
      modifies this
      ensures Valid() && collections == old(collections)
      ensures old(Fault(key)) == None && RowStore.Titled(key) ==>
                added == old(added)[key := (if key in old(added) then old(added)[key] else {}) + Patterns(hash, eles)]
      ensures old(Fault(key)) == None && !RowStore.Titled(key) ==> reply == Refused && added == old(added) && strings == old(strings)
      ensures old(Fault(key)) == None && RowStore.Titled(key) ==>
                key in strings && reply == Int(if key !in old(strings) || Registers(strings[key]) != old(Registers(strings[key])) then 1 else 0)
      ensures old(Fault(key)).Some? ==> reply == old(Fault(key)).value && added == old(added) && strings == old(strings)
      ensures forall k :: k != key ==> (k in strings <==> k in old(strings)) && (k in strings ==> strings[k] == old(strings)[k])
    {
      hide Tagged, Readable, Registers, IsMaxOf, Invalidate, Patterns, Create;
      var updated := 0;
      var blob;
      ghost var s := {};
      if key !in strings {
        if key in collections {
          return WrongType;
        }
        blob := Create();
        CreateIsEmpty();
        NothingAdded();
        updated := 1;
      } else {
        blob := strings[key];
        if !Tagged(blob) {
          return NotValid;
        }
        s := added[key];
      }
      var more;
      blob, more := AddElements(blob, eles, s);
      if updated + more > 0 {
        InvalidateKeeps(blob);
        var ok := Save(key, blob, s + Patterns(hash, eles));
        reply := if ok then Int(1) else Refused;
      } else {
        added := added[key := s + Patterns(hash, eles)];
        reply := Int(0);
      }
    }

    /** PFCOUNT of one key. */
    method PfCount(key: Bytes) returns (reply: Reply)
      requires Valid()
      modifies this
      ensures Valid() && added == old(added) && collections == old(collections)
      ensures old(Fault(key)).Some? ==> reply == old(Fault(key)).value && strings == old(strings)
      ensures old(Fault(key)) == None && key !in old(strings) ==> reply == Int(0) && strings == old(strings)
      ensures key in old(added) ==> reply == Int(Signed(estimate(Histogram(old(Registers(strings[key]))))))
      ensures key in old(added) ==> Registers(strings[key]) == old(Registers(strings[key]))
      ensures key in old(added) ==>
                var was := old(strings[key]);
                strings[key] == if CacheValid(was) then was else WriteCache(was, estimate(Histogram(Registers(was))))
      ensures forall k :: k != key ==> (k in strings <==> k in old(strings)) && (k in strings ==> strings[k] == old(strings)[k])
    {
      hide Tagged, Readable, Registers, IsMaxOf, WriteCache, Histogram, ReadCache;
      if key !in strings {
        return if key in collections then WrongType else Int(0);
      }
      var blob := strings[key];
      if !Tagged(blob) {
        return NotValid;
      }
      Tags(blob);
      if CacheValid(blob) {
        return Int(Signed(ReadCache(blob)));
      }
      var h, ok, _ := RegHisto(blob);
      var card := estimate(h);
      CacheRoundTrip(blob, card);
      WriteCacheKeeps(blob, card);
      strings := strings[key := WriteCache(blob, card)];
      reply := Int(Signed(card));
    }

    /** Fold every key into max, stopping at the first that cannot take part. */
    method FoldKeys(keys: seq<Bytes>, max: array<Byte>) returns (fault: Option<Reply>, useDense: bool)
      requires Valid() && max.Length == REGISTERS && IsMaxOf(max[..], {}) && (forall i :: 0 <= i < REGISTERS ==> max[i] <= REGISTER_MAX)
      modifies max
      ensures fault == FirstFault(keys, |keys|)
      ensures fault == None ==> IsMaxOf(max[..], AddedTo(added, keys, |keys|))
      ensures fault == None ==> forall i :: 0 <= i < REGISTERS ==> max[i] <= REGISTER_MAX
    {
      hide Tagged, Registers, IsMaxOf, Union;
      useDense := false;
      var j := 0;
      while j < |keys|
        invariant 0 <= j <= |keys| && FirstFault(keys, j) == None
        invariant IsMaxOf(max[..], AddedTo(added, keys, j))
        invariant forall i :: 0 <= i < REGISTERS ==> max[i] <= REGISTER_MAX
      {
        var key := keys[j];
        if key in strings {
          if !Tagged(strings[key]) {
            FaultStays(keys, j);
            return Some(NotValid), useDense;
          }
          var blob := strings[key];
          Tags(blob);
          useDense := useDense || blob[4] == DENSE;
          UnionAdds(max[..], Registers(blob), AddedTo(added, keys, j), added[key]);
          RegistersRange(blob);
          ghost var was := max[..];
          var ok := Merge(max, blob);
          assert max[..] == Union(was, Registers(blob));
          assert forall i :: 0 <= i < REGISTERS ==> max[i] == max[..][i] == Max(was[i], Registers(blob)[i]);
        } else if key in collections {
          FaultStays(keys, j);
          return Some(WrongType), useDense;
        } else {
          assert AddedTo(added, keys, j + 1) == AddedTo(added, keys, j);
        }
        j := j + 1;
      }
      fault := None;
    }

    /** A fault found is the one reported. */
    lemma {:induction false} FaultStays(keys: seq<Bytes>, j: nat)
      requires j < |keys| && FirstFault(keys, j) == None && Fault(keys[j]).Some?
      ensures FirstFault(keys, |keys|) == Fault(keys[j])
    {
      var n := j + 1;
      while n < |keys|
        invariant j < n <= |keys| && FirstFault(keys, n) == Fault(keys[j])
      {
        n := n + 1;
      }
    }

    /** PFCOUNT of several keys: the estimate over the largest counts added to any of them. */
    method PfCountUnion(keys: seq<Bytes>) returns (reply: Reply, ghost r: Vector)
      requires Valid()
      ensures FirstFault(keys, |keys|).Some? ==> reply == FirstFault(keys, |keys|).value
      ensures FirstFault(keys, |keys|) == None ==>
                IsMaxOf(r, AddedTo(added, keys, |keys|)) && reply == Int(Signed(estimate(Histogram(r))))
    {
      hide Tagged, IsMaxOf, Histogram, Fill;
      var max := new Byte[REGISTERS](_ => 0);
      assert max[..] == Fill(0, REGISTERS) by { ZeroArray(max[..]); }
      NothingAdded();
      var fault, _ := FoldKeys(keys, max);
      r := max[..];
      if fault.Some? {
        return fault.value, r;
      }
      var raw := Zeros(4) + [RAW] + Zeros(11) + max[..];
      assert Payload(raw) == max[..];
      var h, ok, _ := RegHisto(raw);
      reply := Int(Signed(estimate(h)));
    }

    /** PFMERGE: the destination ends with the largest counts added to any of the keys, itself included. */
    method PfMerge(dest: Bytes, srcs: seq<Bytes>) returns (reply: Reply)
      requires Valid()
      modifies this
      ensures Valid() && collections == old(collections)
      ensures var keys := [dest] + srcs; var fault := old(FirstFault(keys, |keys|));
              && (fault.Some? ==> reply == fault.value && added == old(added) && strings == old(strings))
              && (fault == None && RowStore.Titled(dest) ==> reply == Ok && added == old(added)[dest := AddedTo(old(added), keys, |keys|)])
              && (fault == None && !RowStore.Titled(dest) ==> reply == Refused && added == old(added) && strings == old(strings))
      ensures forall k :: k != dest ==> (k in strings <==> k in old(strings)) && (k in strings ==> strings[k] == old(strings)[k])
    {
      hide Tagged, Readable, Registers, IsMaxOf, Fill, Create, Invalidate;
      var keys := [dest] + srcs;
      var max := new Byte[REGISTERS](_ => 0);
      assert max[..] == Fill(0, REGISTERS) by { ZeroArray(max[..]); }
      NothingAdded();
      var fault, useDense := FoldKeys(keys, max);
      if fault.Some? {
        return fault.value;
      }
      DestTakesPart(dest, srcs);
      var blob;
      ghost var s := {};
      if dest in strings {
        blob := strings[dest];
        s := added[dest];
      } else {
        blob := Create();
        CreateIsEmpty();
        NothingAdded();
      }
      DestIncluded(added, dest, srcs, |keys|);
      SubsetBelow(Registers(blob), max[..], s, AddedTo(added, keys, |keys|));
      if useDense {
        Tags(blob);
        var dense, ok := ToDense(blob);
        blob := dense;
      }
      blob := WriteMax(blob, max);
      var ok := Save(dest, blob, AddedTo(added, keys, |keys|));
      reply := if ok then Ok else Refused;
    }

    lemma {:induction false} NoFaultBefore(keys: seq<Bytes>, i: nat, n: nat)
      requires i < n <= |keys| && FirstFault(keys, n) == None
      ensures Fault(keys[i]) == None
    {
      if i < n - 1 { NoFaultBefore(keys, i, n - 1); }
    }

    lemma DestTakesPart(dest: Bytes, srcs: seq<Bytes>)
      requires FirstFault([dest] + srcs, |srcs| + 1) == None
      ensures Fault(dest) == None
    {
      NoFaultBefore([dest] + srcs, 0, |srcs| + 1);
    }

    /** PFDEBUG TODENSE: another encoding of the same registers. */
    method ToDenseKey(key: Bytes) returns (reply: Reply)
      requires Valid()
      modifies this
      ensures Valid() && added == old(added) && collections == old(collections)
      ensures key !in old(strings) ==> reply == NoKey && strings == old(strings)
      ensures key in old(strings) && key !in added ==> reply == NotValid && strings == old(strings)
      ensures key in added ==>
                && key in old(strings) && strings[key][4] == DENSE && Registers(strings[key]) == old(Registers(strings[key]))
                && reply == Int(if old(strings[key][4]) == SPARSE then 1 else 0)
      ensures forall k :: k != key ==> (k in strings <==> k in old(strings)) && (k in strings ==> strings[k] == old(strings)[k])
    {
      hide Registers, IsMaxOf, Histogram;
      if key !in strings {
        return NoKey;
      }
      var blob := strings[key];
      if !Tagged(blob) {
        return NotValid;
      }
      if blob[4] != SPARSE {
        return Int(0);
      }
      var dense, ok := ToDense(blob);
      CacheCarried(blob, dense);
      strings := strings[key := dense];
      reply := Int(1);
    }

    /** The string keys that hold no sketch. */
    ghost function Plain(): (s: set<Bytes>)
      reads this
    {
      set k | k in strings && !Tagged(strings[k])
    }

    /** A key's fault depends on what kind of value it holds. */
    lemma FaultIs(key: Bytes)
      requires Valid()
      ensures Fault(key) == FaultOf(Plain(), collections, key)
    {
    }

    lemma {:induction false} FirstFaultIs(keys: seq<Bytes>, n: nat)
      requires Valid() && n <= |keys|
      ensures FirstFault(keys, n) == FirstFaultOf(Plain(), collections, keys, n)
    {
      hide Valid, Fault, FaultOf, Plain;
      if n > 0 {
        FirstFaultIs(keys, n - 1);
        FaultIs(keys[n - 1]);
      }
    }

    method StepAdd(key: Bytes, eles: seq<Bytes>) returns (reply: Reply)
      requires Valid()
      modifies this
      ensures Valid() && collections == old(collections) && Plain() == old(Plain())
      ensures added == Logged(hash, old(Plain()), collections, old(added), Add(key, eles))
      ensures Answers(hash, estimate, old(Plain()), collections, old(added), Add(key, eles), reply)
    {
      hide Tagged, Readable, Registers, IsMaxOf, Histogram, Patterns, Coherent;
      FaultIs(key);
      reply := PfAdd(key, eles);
      if old(Fault(key)) == None && key in old(added) {
        GrownAnswer(old(Registers(strings[key])), Registers(strings[key]), old(added)[key], added[key], reply);
      }
    }

    method StepCount(keys: seq<Bytes>, one: bool) returns (reply: Reply)
      requires Valid() && (one ==> |keys| == 1)
      modifies this
      ensures Valid() && collections == old(collections) && Plain() == old(Plain()) && added == old(added)
      ensures Answers(hash, estimate, Plain(), collections, added, if one then Count(keys[0]) else CountUnion(keys), reply)
    {
      hide Tagged, Readable, Registers, IsMaxOf, Histogram, Estimates;
      ghost var r;
      if one {
        FaultIs(keys[0]);
        reply := PfCount(keys[0]);
        if keys[0] in added {
          EstimateAnswer(estimate, old(Registers(strings[keys[0]])), added[keys[0]], reply);
        }
      } else {
        FirstFaultIs(keys, |keys|);
        reply, r := PfCountUnion(keys);
        if FirstFault(keys, |keys|) == None {
          EstimateAnswer(estimate, r, AddedTo(added, keys, |keys|), reply);
        }
      }
    }

    method StepMerge(dest: Bytes, srcs: seq<Bytes>) returns (reply: Reply)
      requires Valid()
      modifies this
      ensures Valid() && collections == old(collections) && Plain() == old(Plain())
      ensures added == Logged(hash, old(Plain()), collections, old(added), MergeInto(dest, srcs))
      ensures Answers(hash, estimate, old(Plain()), collections, old(added), MergeInto(dest, srcs), reply)
    {
      hide Tagged, Readable, Registers, IsMaxOf, AddedTo, FirstFaultOf, Coherent;
      var keys := [dest] + srcs;
      FirstFaultIs(keys, |keys|);
      if FirstFault(keys, |keys|) == None { DestTakesPart(dest, srcs); }
      hide FirstFault;
      reply := PfMerge(dest, srcs);
    }

    method StepDense(key: Bytes) returns (reply: Reply)
      requires Valid()
      modifies this
      ensures Valid() && collections == old(collections) && Plain() == old(Plain()) && added == old(added)
      ensures Answers(hash, estimate, Plain(), collections, added, Dense(key), reply)
    {
      hide Tagged, Readable, Registers, IsMaxOf, Coherent;
      reply := ToDenseKey(key);
    }

    /** One command. */
    method Step(c: Command) returns (reply: Reply)
      requires Valid()
      modifies this
      ensures Valid() && collections == old(collections) && Plain() == old(Plain())
      ensures added == Logged(hash, old(Plain()), collections, old(added), c)
      ensures Answers(hash, estimate, old(Plain()), collections, old(added), c, reply)
    {
      hide Valid, Plain, Answers;
      match c
      case Add(key, eles) => reply := StepAdd(key, eles);
      case Count(key) => reply := StepCount([key], true);
      case CountUnion(keys) => reply := StepCount(keys, false);
      case MergeInto(dest, srcs) => reply := StepMerge(dest, srcs);
      case Dense(key) => reply := StepDense(key);
    }

    /** Every run: what has been added is what the commands say, every sketch holds the largest counts
        added to it in whatever encoding, and each reply depends on what had been added alone. */
    method Run(cs: seq<Command>) returns (replies: seq<Reply>)
      requires Valid()
      modifies this
      ensures Valid() && collections == old(collections) && Plain() == old(Plain())
      ensures |replies| == |cs| && added == LoggedAll(hash, Plain(), collections, old(added), cs, |cs|)
      ensures forall i :: 0 <= i < |cs| ==>
                Answers(hash, estimate, Plain(), collections, LoggedAll(hash, Plain(), collections, old(added), cs, i), cs[i], replies[i])
    {
      hide Valid, Plain, Answers, Logged;
      replies := [];
      var n := 0;
      while n < |cs|
        invariant 0 <= n <= |cs| && |replies| == n
        invariant Valid() && collections == old(collections) && Plain() == old(Plain())
        invariant added == LoggedAll(hash, Plain(), collections, old(added), cs, n)
        invariant forall i :: 0 <= i < n ==>
                    Answers(hash, estimate, Plain(), collections, LoggedAll(hash, Plain(), collections, old(added), cs, i), cs[i], replies[i])
      {
        var reply := Step(cs[n]);
        replies := replies + [reply];
        n := n + 1;
      }
    }
  }

  /** What has been added after the first n commands. */
  ghost function LoggedAll(hash: Bytes -> Word, plain: set<Bytes>, collections: set<Bytes>, log: Log, cs: seq<Command>, n: nat): (log': Log)
    requires n <= |cs|
  {
    if n == 0 then log else Logged(hash, plain, collections, LoggedAll(hash, plain, collections, log, cs, n - 1), cs[n - 1])
  }

  lemma EstimateAnswer(estimate: seq<int> -> Word, r: Vector, s: set<Pattern>, reply: Reply)
    requires IsMaxOf(r, s) && reply == Int(Signed(estimate(Histogram(r))))
    ensures Estimates(estimate, s, reply)
  {
    hide IsMaxOf, Histogram;
    forall q | IsMaxOf(q, s) ensures q == r { MaxUnique(q, r, s); }
  }

  lemma GrownAnswer(r: Vector, r': Vector, s: set<Pattern>, s': set<Pattern>, reply: Reply)
    requires IsMaxOf(r, s) && IsMaxOf(r', s') && reply == Int(if r' != r then 1 else 0)
    ensures forall q, q' :: IsMaxOf(q, s) && IsMaxOf(q', s') ==> reply == Int(if q' == q then 0 else 1)
  {
    hide IsMaxOf;
    forall q, q' | IsMaxOf(q, s) && IsMaxOf(q', s') ensures q == r && q' == r' {
      MaxUnique(q, r, s);
      MaxUnique(q', r', s');
    }
  }

  /** The commands of a client. */
  datatype Command =
    | Add(key: Bytes, eles: seq<Bytes>)
    | Count(key: Bytes)
    | CountUnion(keys: seq<Bytes>)
    | MergeInto(dest: Bytes, srcs: seq<Bytes>)
    | Dense(key: Bytes)

  ghost function FaultOf(plain: set<Bytes>, collections: set<Bytes>, key: Bytes): (f: Option<Reply>)
  {
    if key in plain then Some(NotValid) else if key in collections then Some(WrongType) else None
  }

  ghost function FirstFaultOf(plain: set<Bytes>, collections: set<Bytes>, keys: seq<Bytes>, n: nat): (f: Option<Reply>)
    requires n <= |keys|
  {
    if n == 0 then None
    else if FirstFaultOf(plain, collections, keys, n - 1).Some? then FirstFaultOf(plain, collections, keys, n - 1)
    else FaultOf(plain, collections, keys[n - 1])
  }

  /** What has been added after one more command. */
  ghost function Logged(hash: Bytes -> Word, plain: set<Bytes>, collections: set<Bytes>, log: Log, c: Command): (log': Log)
  {
    match c
    case Add(key, eles) =>
      if FaultOf(plain, collections, key).Some? || !RowStore.Titled(key) then log
      else log[key := (if key in log then log[key] else {}) + Patterns(hash, eles)]
    case MergeInto(dest, srcs) =>
      var keys := [dest] + srcs;
      if FirstFaultOf(plain, collections, keys, |keys|).Some? || !RowStore.Titled(dest) then log
      else log[dest := AddedTo(log, keys, |keys|)]
    case _ => log
  }

  /** The cardinality reported for what was added. */
  ghost predicate Estimates(estimate: seq<int> -> Word, s: set<Pattern>, reply: Reply)
  {
    forall r :: IsMaxOf(r, s) ==> reply == Int(Signed(estimate(Histogram(r))))
  }

  /** What a reply may be, given only what has been added. */
  ghost predicate Answers(hash: Bytes -> Word, estimate: seq<int> -> Word, plain: set<Bytes>, collections: set<Bytes>,
                          log: Log, c: Command, reply: Reply)
  {
    match c
    case Add(key, eles) =>
      if FaultOf(plain, collections, key).Some? then reply == FaultOf(plain, collections, key).value
      else if !RowStore.Titled(key) then reply == Refused
      else if key !in log then reply == Int(1)
      else
        forall r, r' :: IsMaxOf(r, log[key]) && IsMaxOf(r', log[key] + Patterns(hash, eles)) ==>
                          reply == Int(if r' == r then 0 else 1)
    case Count(key) =>
      if FaultOf(plain, collections, key).Some? then reply == FaultOf(plain, collections, key).value
      else if key !in log then reply == Int(0)
      else Estimates(estimate, log[key], reply)
    case CountUnion(keys) =>
      var fault := FirstFaultOf(plain, collections, keys, |keys|);
      if fault.Some? then reply == fault.value else Estimates(estimate, AddedTo(log, keys, |keys|), reply)
    case MergeInto(dest, srcs) =>
      var fault := FirstFaultOf(plain, collections, [dest] + srcs, |srcs| + 1);
      reply == if fault.Some? then fault.value else if RowStore.Titled(dest) then Ok else Refused
    case Dense(key) =>
      if key in log then reply == Int(0) || reply == Int(1)
      else reply == if key in plain then NotValid else NoKey
  }

  lemma {:induction false} DestIncluded(log: Log, dest: Bytes, srcs: seq<Bytes>, n: nat)
    requires 1 <= n <= |srcs| + 1
    ensures dest in log ==> log[dest] <= AddedTo(log, [dest] + srcs, n)
  {
    if n > 1 {
      DestIncluded(log, dest, srcs, n - 1);
    } else {
      assert ([dest] + srcs)[0] == dest;
      assert AddedTo(log, [dest] + srcs, 0) == {};
    }
  }

  lemma SubsetBelow(a: Vector, b: Vector, s: set<Pattern>, t: set<Pattern>)
    requires IsMaxOf(a, s) && IsMaxOf(b, t) && s <= t
    ensures Above(b, a)
  {
    forall i | 0 <= i < REGISTERS ensures a[i] <= b[i] {
      assert a[i] == 0 || (i, a[i]) in s;
    }
  }

  /** The first j registers have reached max; the rest are as they were. */
  ghost predicate Reached(r: Vector, was: Vector, max: Vector, j: int)
  {
    && |r| == |was| == |max| && 0 <= j <= |r|
    && (forall k :: 0 <= k < j ==> r[k] == max[k])
    && (forall k :: j <= k < |r| ==> r[k] == was[k])
  }

  lemma ReachOne(r: Vector, was: Vector, max: Vector, j: int)
    requires Reached(r, was, max, j) && j < |r| && Above(max, was)
    ensures Reached(Raise(r, j, max[j]), was, max, j + 1)
    ensures max[j] == was[j] ==> Reached(r, was, max, j + 1)
  {
  }

  /** Raise every register of a sketch to max. */
  method WriteMax(blob0: Bytes, max: array<Byte>) returns (blob: Bytes)
    requires Tagged(blob0) && Sketch(blob0) && max.Length == REGISTERS && Above(max[..], Registers(blob0))
    requires forall i :: 0 <= i < REGISTERS ==> max[i] <= REGISTER_MAX
    ensures Tagged(blob) && Sketch(blob) && Registers(blob) == max[..]
  {
    RegistersRange(blob0);
    hide Tagged, Readable, Registers, Reached, Raise;
    blob := blob0;
    ghost var was := Registers(blob0);
    var j := 0;
    assert Reached(was, was, max[..], 0) by { ReachNone(was, max[..]); }
    while j < REGISTERS
      invariant 0 <= j <= REGISTERS && Tagged(blob) && Sketch(blob)
      invariant Reached(Registers(blob), was, max[..], j)
    {
      ReachOne(Registers(blob), was, max[..], j);
      if max[j] != 0 {
        var status;
        blob, status := SetRegister(blob, j, max[j]);
      }
      j := j + 1;
    }
    ReachAll(Registers(blob), was, max[..]);
  }

  lemma ReachNone(was: Vector, max: Vector)
    requires |was| == |max|
    ensures Reached(was, was, max, 0)
  {
  }

  lemma ReachAll(r: Vector, was: Vector, max: Vector)
    requires Reached(r, was, max, |r|)
    ensures r == max
  {
  }

  lemma Tags(blob: Bytes)
    requires Tagged(blob)
    ensures |blob| >= HDR_SIZE && blob[4] != RAW
  {
  }

  function Signed(n: Word): (v: int)
  {
    ToSigned(n, 0x1_0000_0000_0000_0000)
  }

  lemma ZeroArray(b: Bytes)
    requires |b| == REGISTERS && forall i :: 0 <= i < |b| ==> b[i] == 0
    ensures b == Fill(0, REGISTERS)
  {
  }

  lemma CacheCarried(a: Bytes, b: Bytes)
    requires |a| >= HDR_SIZE && |b| >= HDR_SIZE && a[5..HDR_SIZE] == b[5..HDR_SIZE]
    ensures CacheValid(a) == CacheValid(b) && ReadCache(a) == ReadCache(b)
  {
    assert a[15] == a[5..HDR_SIZE][10] && b[15] == b[5..HDR_SIZE][10];
    assert a[8..16] == a[5..HDR_SIZE][3..11] && b[8..16] == b[5..HDR_SIZE][3..11];
  }

  lemma AboveItself(r: Vector)
    ensures Above(r, r)
  {
  }
}
