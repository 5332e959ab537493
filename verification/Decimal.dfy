/** Decimal text of integers, as strconv.FormatInt and strconv.ParseInt treat it, and the
    canonical-integer test built on the two (f1srv/list.go, listTryInteger). */
module Decimal {
  import opened Bytes

  const MINUS: Byte := 45
  const PLUS: Byte := 43
  const ZERO: Byte := 48

  predicate IsDigit(b: Byte)
  {
    ZERO <= b <= ZERO + 9
  }

  function Digits(n: nat): (s: Bytes)
    ensures s != [] && forall i :: 0 <= i < |s| ==> IsDigit(s[i])
  {
    if n < 10 then [ZERO + n] else Digits(n / 10) + [ZERO + n % 10]
  }

  function FormatInt(v: int): (s: Bytes)
    ensures s != []
  {
    if v < 0 then [MINUS] + Digits(-v) else Digits(v)
  }

  /** The value of a run of digits; `None` when some byte is not a digit. */
  function ParseDigits(s: Bytes): (v: Option<nat>)
  {
    if s == [] then Some(0)
    else
      match ParseDigits(s[..|s| - 1])
      case None => None
      case Some(n) => if IsDigit(s[|s| - 1]) then Some(10 * n + s[|s| - 1] - ZERO) else None
  }

  /** strconv.ParseInt(s, 10, 64): an optional sign, at least one digit, and an int64 value. */
  function ParseInt64(s: Bytes): (v: Option<int>)
    ensures v.Some? ==> INT64_MIN <= v.value <= INT64_MAX
  {
    if s == [] then None
    else
      var signed := s[0] == MINUS || s[0] == PLUS;
      var digits := if signed then s[1..] else s;
      if digits == [] then None
      else
        match ParseDigits(digits)
        case None => None
        case Some(n: int) =>
          var v := if s[0] == MINUS then -n else n;
          if INT64_MIN <= v <= INT64_MAX then Some(v) else None
  }

  /** The test a listpack makes before storing an element as an integer. */
  function TryInteger(e: Bytes): (v: Option<int>)
  {
    if |e| == 0 || |e| > 20 then None
    else
      match ParseInt64(e)
      case None => None
      case Some(v) => if FormatInt(v) == e then Some(v) else None
  }

  lemma {:induction false} ParseDigitsOfDigits(n: nat)
    ensures ParseDigits(Digits(n)) == Some(n)
  {
    if n < 10 {
      assert Digits(n)[..0] == [];
    } else {
      ParseDigitsOfDigits(n / 10);
      assert Digits(n)[..|Digits(n)| - 1] == Digits(n / 10);
    }
  }

  /** Parsing undoes formatting on every int64. */
  lemma ParseOfFormat(v: int)
    requires INT64_MIN <= v <= INT64_MAX
    ensures ParseInt64(FormatInt(v)) == Some(v)
  {
    ParseDigitsOfDigits(if v < 0 then -v else v);
    assert v < 0 ==> FormatInt(v)[1..] == Digits(-v);
  }

  function Pow10(k: nat): (p: nat)
    ensures p >= 1
  {
    if k == 0 then 1 else 10 * Pow10(k - 1)
  }

  lemma {:induction false} DigitsWidth(n: nat, k: nat)
    requires 1 <= k && n < Pow10(k)
    ensures |Digits(n)| <= k
  {
    if n >= 10 {
      assert k >= 2 by { assert Pow10(1) == 10 * Pow10(0); }
      DigitsWidth(n / 10, k - 1);
    }
  }

  lemma Pow10Of19()
    ensures Pow10(19) == 10_000_000_000_000_000_000
    ensures Pow10(10) == 10_000_000_000
  {
    assert Pow10(4) == 10_000;
    assert Pow10(8) == 100_000_000 by { assert Pow10(6) == 100 * Pow10(4); }
    assert Pow10(10) == 100 * Pow10(8);
    assert Pow10(12) == 100 * Pow10(10);
    assert Pow10(14) == 100 * Pow10(12);
    assert Pow10(16) == 100 * Pow10(14);
    assert Pow10(18) == 100 * Pow10(16);
    assert Pow10(19) == 10 * Pow10(18);
  }

  /** An element is stored as an integer exactly when it is the decimal text of an int64. */
  lemma TryIntegerExact(e: Bytes, v: int)
    ensures TryInteger(e) == Some(v) <==> INT64_MIN <= v <= INT64_MAX && e == FormatInt(v)
  {
    if INT64_MIN <= v <= INT64_MAX {
      ParseOfFormat(v);
      Pow10Of19();
      DigitsWidth(if v < 0 then -v else v, 19);
    }
  }
}
