/** The bytes of requests and replies on the wire (f1srv/conn.go). */
module RespLaws {
  import opened Bytes
  import opened Decimal
  import opened Resp

  /** A bulk string is a dollar sign, the length in decimal, and the bytes, each ended by CR LF; an array header is a star
      and the count. */
  lemma WireIs(b: Bytes, n: nat)
    ensures Bulk(b) == [36] + Digits(|b|) + [13, 10] + b + [13, 10]
    ensures Header(n) == [42] + Digits(n) + [13, 10]
  {
    hide Digits;
  }

  /** A word of an inline command: not empty, and without spaces, CR and LF. */
  predicate Word(w: Bytes)
  {
    w != [] && forall i :: 0 <= i < |w| ==> w[i] != 32 && w[i] != 13 && w[i] != 10
  }

  /** Words with single spaces between them. */
  function Spaced(ws: seq<Bytes>): (line: Bytes)
  {
    if ws == [] then [] else if |ws| == 1 then ws[0] else ws[0] + [32] + Spaced(ws[1..])
  }

  lemma {:induction false} RunEndIs(line: Bytes, i: nat, e: nat, spaces: bool)
    requires i <= e <= |line| && (forall k :: i <= k < e ==> (line[k] == 32) == spaces)
    requires e == |line| || (line[e] == 32) != spaces
    ensures RunEnd(line, i, spaces) == e
    decreases e - i
  {
    if i < e { RunEndIs(line, i + 1, e, spaces); }
  }

  /** A space in front makes no difference. */
  lemma SpaceSkips(line: Bytes, i: nat)
    requires i < |line| && line[i] == 32
    ensures Words(line, i) == Words(line, i + 1)
  {
    assert RunEnd(line, i, true) == RunEnd(line, i + 1, true);
  }

  /** A word followed by a space or by nothing. */
  lemma WordAt(line: Bytes, i: nat, w: Bytes, tail: Bytes)
    requires i <= |line| && line[i..] == w + tail && Word(w) && (tail == [] || tail[0] == 32)
    ensures i + |w| <= |line| && line[i + |w|..] == tail && Words(line, i) == [w] + Words(line, i + |w|)
  {
    hide Words;
    var e := i + |w|;
    assert line[i..][..|w|] == w && line[i..][|w|..] == tail;
    assert line[i..e] == w && line[e..] == tail;
    assert forall k :: i <= k < e ==> line[k] == w[k - i];
    assert tail != [] ==> line[e] == tail[0];
    RunEndIs(line, i, i, true);
    RunEndIs(line, i, e, false);
    FirstWord(line, i, e);
  }

  predicate AllWords(ws: seq<Bytes>)
  {
    forall i :: 0 <= i < |ws| ==> Word(ws[i])
  }

  lemma {:induction false} WordsAre(line: Bytes, i: nat, ws: seq<Bytes>)
    requires i <= |line| && line[i..] == Spaced(ws) && AllWords(ws)
    ensures Words(line, i) == ws
    decreases |ws|
  {
    hide Words, Word;
    if ws == [] {
      NoWords(line, i);
    } else {
      var w, more := ws[0], ws[1..];
      var tail := if more == [] then [] else [32] + Spaced(more);
      assert Spaced(ws) == w + tail;
      WordAt(line, i, w, tail);
      var e := i + |w|;
      if more == [] {
        NoWords(line, e);
      } else {
        assert line[e..][1..] == Spaced(more) && line[e..][0] == line[e];
        assert line[e + 1..] == Spaced(more);
        SpaceSkips(line, e);
        WordsAre(line, e + 1, more);
      }
      assert ws == [w] + more;
    }
  }

  lemma NoWords(line: Bytes, i: nat)
    requires i == |line|
    ensures Words(line, i) == []
  {
  }

  lemma FirstWord(line: Bytes, i: nat, e: nat)
    requires i < e <= |line| && RunEnd(line, i, true) == i && RunEnd(line, i, false) == e
    ensures Words(line, i) == [line[i..e]] + Words(line, e)
  {
  }

  lemma {:induction false} IndexIs(b: Bytes, c: Byte, i: nat, k: nat)
    requires i <= k < |b| && b[k] == c && forall j :: i <= j < k ==> b[j] != c
    ensures IndexOf(b, c, i) == Some(k)
    decreases k - i
  {
    if i < k { IndexIs(b, c, i + 1, k); }
  }

  lemma {:induction false} SpacedBytes(ws: seq<Bytes>)
    requires AllWords(ws)
    ensures forall i :: 0 <= i < |Spaced(ws)| ==> Spaced(ws)[i] != 13 && Spaced(ws)[i] != 10
    ensures ws != [] ==> ws[0] != [] && Spaced(ws) != [] && Spaced(ws)[0] == ws[0][0]
  {
    if ws != [] {
      SpacedBytes(ws[1..]);
    }
  }

  /** An inline command: words with single spaces between them, ended by CR LF or LF alone, are those words and take
      exactly that line. */
  lemma InlineReads(ws: seq<Bytes>, crlf: bool, rest: Bytes, wide: bool)
    requires AllWords(ws) && (ws != [] ==> ws[0] != [] && ws[0][0] != 42)
    ensures var line := Spaced(ws) + if crlf then [13, 10] else [10];
            Judged(line + rest, wide) == Ok(ws, |line|)
  {
    hide Words, Spaced, IndexOf, Word, Bulks, Line;
    var text := Spaced(ws);
    var line := text + if crlf then [13, 10] else [10];
    var b := line + rest;
    SpacedBytes(ws);
    var nl := if crlf then |text| + 1 else |text|;
    FirstByte(ws, crlf);
    assert forall j :: 0 <= j < |line| ==> b[j] == line[j];
    IndexIs(b, 10, 0, nl);
    assert Trimmed(b, nl) == text;
    assert text[0..] == text;
    WordsAre(text, 0, ws);
  }

  lemma FirstByte(ws: seq<Bytes>, crlf: bool)
    requires AllWords(ws) && (ws != [] ==> ws[0] != [] && ws[0][0] != 42)
    ensures (Spaced(ws) + if crlf then [13, 10] else [10])[0] != 42
  {
    SpacedBytes(ws);
  }

  /** An array that declares fewer than one string is an empty command. */
  lemma NegativeCount(n: nat, rest: Bytes, wide: bool)
    requires n < 0x8000_0000_0000_0000
    ensures var line := [42, 45] + Digits(n) + [13, 10]; Judged(line + rest, wide) == Ok([], |line|)
  {
    hide Digits, DigitsEnd, ParseDigits, Bulks, Words, IndexOf;
    var line := [42, 45] + Digits(n) + [13, 10];
    var b, e := line + rest, 2 + |Digits(n)|;
    assert forall k :: 2 <= k < e ==> b[k] == Digits(n)[k - 2];
    assert b[e] == 13 && b[e + 1] == 10 && b[2..e] == Digits(n);
    DigitsEndIs(b, 2, e);
    ParseDigitsOfDigits(n);
  }

  /** What stands where a string of an array should begin must be a dollar sign. */
  lemma DollarWanted(n: nat, x: Byte, rest: Bytes, wide: bool)
    requires 0 < n < 0x8000_0000_0000_0000 && x != 36
    ensures Judged(Header(n) + [x] + rest, wide) == Bad
  {
    hide Digits, Line, Words, IndexOf;
    var b := Header(n) + [x] + rest;
    assert b == [42] + (Digits(n) + [13, 10] + ([x] + rest));
    LineReads([42], n, [x] + rest);
    assert b[|Header(n)|] == x;
  }

  /** A string of length -1 is an empty argument. */
  lemma NullReads(rest: Bytes, wide: bool)
    ensures Judged([42, 49, 13, 10, 36, 45, 49, 13, 10] + rest, wide) == Ok([[]], 9)
  {
    var b := [42, 49, 13, 10, 36, 45, 49, 13, 10] + rest;
    assert b[1..2] == [49] && b[6..7] == [49];
    DigitsEndIs(b, 1, 2);
    DigitsEndIs(b, 6, 7);
    assert [49][..0] == [] && ParseDigits([49]) == Some(1);
  }
}
