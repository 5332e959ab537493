/** The composite keys of element rows (f1srv/hash.go, fieldKey; f1srv/list.go, listElemKey). */
module RowKeys {
  import opened Bytes
  import opened RowStore

  /** binary.PutUvarint. */
  function Uvarint(n: nat): (b: Bytes)
    ensures b != []
  {
    if n < 128 then [n] else [n % 128 + 128] + Uvarint(n / 128)
  }

  /** Seven bits a byte, the lowest first. */
  function FromUvarint(b: Bytes): (n: nat)
  {
    if b == [] then 0 else b[0] % 128 + 128 * FromUvarint(b[1..])
  }

  /** The layout of a length: the high bit set on all bytes but the last, which is zero only for zero. */
  lemma {:induction false} UvarintIs(n: nat)
    ensures var b := Uvarint(n);
            && FromUvarint(b) == n && b[|b| - 1] < 128 && (n > 0 ==> b[|b| - 1] > 0)
            && (forall i :: 0 <= i < |b| - 1 ==> b[i] >= 128)
  {
    if n >= 128 {
      UvarintIs(n / 128);
      assert Uvarint(n)[1..] == Uvarint(n / 128);
    }
  }

  /** A length, the key, and a suffix. */
  function Framed(key: Bytes, suffix: Bytes): (b: Bytes)
  {
    Uvarint(|key|) + key + suffix
  }

  /** A row key is its length, its key and its suffix; the store takes those of up to 65535 bytes. */
  lemma FramedIs(key: Bytes, suffix: Bytes)
    ensures Framed(key, suffix) == Uvarint(|key|) + key + suffix
    ensures |Framed(key, suffix)| <= KEY_MAX <==> |Uvarint(|key|)| + |key| + |suffix| < 0x1_0000
  {
    hide Uvarint;
  }

  /** No length is the start of another. */
  lemma {:induction false} UvarintPrefixFree(m: nat, n: nat, a: Bytes, b: Bytes)
    requires Uvarint(m) + a == Uvarint(n) + b
    ensures m == n && a == b
  {
    var x, y := Uvarint(m) + a, Uvarint(n) + b;
    assert x[0] == Uvarint(m)[0] && y[0] == Uvarint(n)[0];
    if m < 128 {
      assert n < 128;
      assert a == x[1..] == y[1..] == b;
    } else {
      assert n >= 128;
      assert x[1..] == Uvarint(m / 128) + a;
      assert y[1..] == Uvarint(n / 128) + b;
      UvarintPrefixFree(m / 128, n / 128, a, b);
    }
  }

  /** A row key belongs to one key and one suffix. */
  lemma FramedInjective(k: Bytes, s: Bytes, k': Bytes, s': Bytes)
    requires Framed(k, s) == Framed(k', s')
    ensures k == k' && s == s'
  {
    hide Uvarint;
    assert Framed(k, s) == Uvarint(|k|) + (k + s);
    assert Framed(k', s') == Uvarint(|k'|) + (k' + s');
    UvarintPrefixFree(|k|, |k'|, k + s, k' + s');
    assert k == (k + s)[..|k|] && k' == (k' + s')[..|k'|];
    assert s == (k + s)[|k|..] && s' == (k' + s')[|k'|..];
  }

  /** A scan bounded by a key's prefix meets that key's rows and no other's. */
  lemma PrefixIsOwn(k: Bytes, k': Bytes, s: Bytes)
    ensures Framed(k, []) <= Framed(k', s) <==> k == k'
  {
    hide Uvarint;
    assert Framed(k, s) == Framed(k, []) + s;
    if Framed(k, []) <= Framed(k', s) {
      var rest := Framed(k', s)[|Framed(k, [])|..];
      assert Framed(k', s) == Framed(k, []) + rest == Framed(k, rest);
      FramedInjective(k, rest, k', s);
    }
  }

  /** listElemKey: the position in eight bytes, its sign bit flipped. */
  function ElementKey(key: Bytes, pos: int): (b: Bytes)
    requires INT64_MIN <= pos <= INT64_MAX
  {
    Framed(key, Be(pos - INT64_MIN, 8))
  }

  /** A list key under which the store takes a header row and element rows. */
  predicate Named(key: Bytes)
  {
    0 < |key| <= 65524
  }

  /** Which are the keys whose element keys are within the store's limit. */
  lemma NamedIs(key: Bytes, pos: int)
    requires INT64_MIN <= pos <= INT64_MAX
    ensures Named(key) <==> key != [] && |ElementKey(key, pos)| <= KEY_MAX
  {
    var n := |key|;
    assert |ElementKey(key, pos)| == |Uvarint(n)| + n + 8 by {
      hide Uvarint, Be;
    }
    UvarintLength(n);
  }

  lemma UvarintLength(n: nat)
    ensures n < 0x80 ==> |Uvarint(n)| == 1
    ensures 0x80 <= n < 0x4000 ==> |Uvarint(n)| == 2
    ensures 0x4000 <= n < 0x20_0000 ==> |Uvarint(n)| == 3
  {
    if 0x80 <= n < 0x20_0000 {
      UvarintLength(n / 128);
    }
  }

  lemma {:induction false} UvarintGrows(m: nat, n: nat)
    requires m <= n
    ensures |Uvarint(m)| <= |Uvarint(n)|
  {
    if m >= 128 {
      UvarintGrows(m / 128, n / 128);
    }
  }

  /** Two list rows share a key just when they are the same position of the same list. */
  lemma ElementKeyInjective(k: Bytes, p: int, k': Bytes, p': int)
    requires INT64_MIN <= p <= INT64_MAX && INT64_MIN <= p' <= INT64_MAX
    ensures ElementKey(k, p) == ElementKey(k', p') <==> k == k' && p == p'
  {
    hide Framed, Be;
    if ElementKey(k, p) == ElementKey(k', p') {
      FramedInjective(k, Be(p - INT64_MIN, 8), k', Be(p' - INT64_MIN, 8));
      Pow256Values();
      BeRoundTrip(p - INT64_MIN, 8);
      BeRoundTrip(p' - INT64_MIN, 8);
    }
  }
}
