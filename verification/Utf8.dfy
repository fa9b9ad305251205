/** Decoding UTF-8 the way Go does: whatever is not a well-formed sequence is one bad byte at a time. */
module Utf8 {
  import opened RuneRange

  const RUNE_ERROR: int := 0xFFFD

  predicate Between(b: Byte, lo: int, hi: int) { lo <= b <= hi }

  /** The least and greatest second byte after a given first byte of a sequence of two or more. */
  function SecondByteRange(first: Byte): (int, int) {
    if first == 0xE0 then (0xA0, 0xBF)
    else if first == 0xED then (0x80, 0x9F)
    else if first == 0xF0 then (0x90, 0xBF)
    else if first == 0xF4 then (0x80, 0x8F)
    else (0x80, 0xBF)
  }

  /** How many bytes the first byte calls for; 0 for a byte that cannot start a sequence. */
  function SequenceLength(first: Byte): nat {
    if first < 0x80 then 1
    else if Between(first, 0xC2, 0xDF) then 2
    else if Between(first, 0xE0, 0xEF) then 3
    else if Between(first, 0xF0, 0xF4) then 4
    else 0
  }

  predicate WellFormedStart(s: seq<Byte>, n: nat)
    requires s != [] && n == SequenceLength(s[0])
  {
    && 0 < n <= |s|
    && (n >= 2 ==> Between(s[1], SecondByteRange(s[0]).0, SecondByteRange(s[0]).1))
    && (n >= 3 ==> Between(s[2], 0x80, 0xBF))
    && (n >= 4 ==> Between(s[3], 0x80, 0xBF))
  }

  function Bits(b: Byte, mark: int): int { (b as int) - mark }

  function DecodeRune(s: seq<Byte>): Rune {
    if s == [] then Rune(RUNE_ERROR, 0)
    else
      var n := SequenceLength(s[0]);
      if !WellFormedStart(s, n) then Rune(RUNE_ERROR, 1)
      else if n == 1 then Rune(s[0], 1)
      else if n == 2 then Rune(Bits(s[0], 0xC0) * 0x40 + Bits(s[1], 0x80), 2)
      else if n == 3 then Rune(Bits(s[0], 0xE0) * 0x1000 + Bits(s[1], 0x80) * 0x40 + Bits(s[2], 0x80), 3)
      else Rune(Bits(s[0], 0xF0) * 0x40000 + Bits(s[1], 0x80) * 0x1000 + Bits(s[2], 0x80) * 0x40 + Bits(s[3], 0x80), 4)
  }

  lemma {:induction false} DecodePrefix(s: seq<Byte>, n: nat)
    requires s != [] && DecodeRune(s).width <= n <= |s|
    ensures DecodeRune(s[..n]) == DecodeRune(s)
  {
    assert s[..n][0] == s[0];
    assert forall i :: 0 <= i < n ==> s[..n][i] == s[i];
  }

  /** Never a surrogate, never past the end, and independent of what follows the rune. */
  lemma {:induction false} DecodeRuneIsLawful()
    ensures Lawful(DecodeRune)
  {
    forall s: seq<Byte> | s != [] ensures Local(DecodeRune, s) {
      forall n | DecodeRune(s).width <= n <= |s| ensures DecodeRune(s[..n]) == DecodeRune(s) {
        DecodePrefix(s, n);
      }
    }
  }

  /** The runes of a text, decoded as Go does. */
  ghost function Chars(s: seq<Byte>): seq<Rune> {
    DecodeRuneIsLawful();
    Runes(DecodeRune, s)
  }

  ghost predicate AtRune(s: seq<Byte>, n: nat) {
    DecodeRuneIsLawful();
    Boundary(DecodeRune, s, n)
  }

  /** An ASCII byte is a rune of its own, whatever stands around it. */
  lemma {:induction false} AsciiIsOneRune(s: seq<Byte>, n: nat)
    requires n < |s| && s[n] < 0x80
    ensures AtRune(s, n) && AtRune(s, n + 1)
    decreases |s|
  {
    DecodeRuneIsLawful();
    var w := DecodeRune(s).width;
    if n > 0 {
      assert w <= n;
      AsciiIsOneRune(s[w..], n - w);
    } else {
      assert w == 1;
    }
  }

  /** Section 3 of RFC 3629. */
  function EncodeRune(code: int): (s: seq<Byte>)
    requires Scalar(code)
  {
    if code < 0x80 then [code]
    else if code < 0x800 then [0xC0 + code / 0x40, 0x80 + code % 0x40]
    else if code < 0x10000 then [0xE0 + code / 0x1000, 0x80 + code / 0x40 % 0x40, 0x80 + code % 0x40]
    else [0xF0 + code / 0x40000, 0x80 + code / 0x1000 % 0x40, 0x80 + code / 0x40 % 0x40, 0x80 + code % 0x40]
  }

  /** The table of section 3 of RFC 3629: length by range, and the bits of the character in order in the bytes. */
  lemma EncodingIs(code: int)
    requires Scalar(code)
    ensures var e: seq<int> := EncodeRune(code);
      && |e| == (if code <= 0x7F then 1 else if code <= 0x7FF then 2 else if code <= 0xFFFF then 3 else 4)
      && (forall i :: 1 <= i < |e| ==> 0x80 <= e[i] <= 0xBF)
      && (|e| == 1 ==> e[0] <= 0x7F && e[0] == code)
      && (|e| == 2 ==> 0xC0 <= e[0] <= 0xDF && (e[0] - 0xC0) * 0x40 + (e[1] - 0x80) == code)
      && (|e| == 3 ==> 0xE0 <= e[0] <= 0xEF
                       && (e[0] - 0xE0) * 0x1000 + (e[1] - 0x80) * 0x40 + (e[2] - 0x80) == code)
      && (|e| == 4 ==> 0xF0 <= e[0] <= 0xF7
                       && (e[0] - 0xF0) * 0x40000 + (e[1] - 0x80) * 0x1000 + (e[2] - 0x80) * 0x40 + (e[3] - 0x80) == code)
  {
    Digits3(code);
    Digits4(code);
  }

  lemma Digits3(code: nat)
    ensures code == code / 0x1000 * 0x1000 + code / 0x40 % 0x40 * 0x40 + code % 0x40
  {
    assert code / 0x1000 == code / 0x40 / 0x40;
  }

  lemma Digits4(code: nat)
    ensures code == code / 0x40000 * 0x40000 + code / 0x1000 % 0x40 * 0x1000 + code / 0x40 % 0x40 * 0x40 + code % 0x40
  {
    Digits3(code);
    assert code / 0x40000 == code / 0x1000 / 0x40;
  }

  lemma Number2(a: nat, b: nat)
    requires b < 0x40
    ensures var n := a * 0x40 + b; n / 0x40 == a && n % 0x40 == b
  {
  }

  lemma Number3(a: nat, b: nat, c: nat)
    requires b < 0x40 && c < 0x40
    ensures var n := a * 0x1000 + b * 0x40 + c; n / 0x1000 == a && n / 0x40 % 0x40 == b && n % 0x40 == c
  {
    var n := a * 0x1000 + b * 0x40 + c;
    Number2(a * 0x40 + b, c);
    Number2(a, b);
    assert n / 0x1000 == n / 0x40 / 0x40;
  }

  lemma Number4(a: nat, b: nat, c: nat, d: nat)
    requires b < 0x40 && c < 0x40 && d < 0x40
    ensures var n := a * 0x40000 + b * 0x1000 + c * 0x40 + d;
      n / 0x40000 == a && n / 0x1000 % 0x40 == b && n / 0x40 % 0x40 == c && n % 0x40 == d
  {
    var n := a * 0x40000 + b * 0x1000 + c * 0x40 + d;
    Number3(a * 0x40 + b, c, d);
    Number2(a, b);
    assert n / 0x40000 == n / 0x1000 / 0x40;
  }

  /** What the decoder sees of a well-formed start, byte by byte. */
  lemma DecodeBytes(s: seq<Byte>, n: nat)
    requires s != [] && n == SequenceLength(s[0]) && WellFormedStart(s, n)
    ensures DecodeRune(s) == Rune(
      if n == 1 then s[0]
      else if n == 2 then Bits(s[0], 0xC0) * 0x40 + Bits(s[1], 0x80)
      else if n == 3 then Bits(s[0], 0xE0) * 0x1000 + Bits(s[1], 0x80) * 0x40 + Bits(s[2], 0x80)
      else Bits(s[0], 0xF0) * 0x40000 + Bits(s[1], 0x80) * 0x1000 + Bits(s[2], 0x80) * 0x40 + Bits(s[3], 0x80), n)
  {
  }

  lemma EncodedStart(code: int, s: seq<Byte>)
    requires Scalar(code) && EncodeRune(code) <= s
    ensures SequenceLength(s[0]) == |EncodeRune(code)| && WellFormedStart(s, SequenceLength(s[0]))
  {
    assert forall i :: 0 <= i < |EncodeRune(code)| ==> s[i] == EncodeRune(code)[i];
  }

  /** Every character decodes from its own encoding, whatever follows. */
  lemma {:induction false} DecodeEncoded(code: int, s: seq<Byte>)
    requires Scalar(code) && EncodeRune(code) <= s
    ensures DecodeRune(s) == Rune(code, |EncodeRune(code)|)
  {
    hide DecodeRune, SequenceLength, WellFormedStart, SecondByteRange;
    assert forall i :: 0 <= i < |EncodeRune(code)| ==> s[i] == EncodeRune(code)[i];
    EncodedStart(code, s);
    DecodeBytes(s, SequenceLength(s[0]));
    Digits3(code);
    Digits4(code);
  }

  /** And nothing else decodes: a rune other than one bad byte was an encoding. */
  lemma {:induction false} DecodedIsEncoded(s: seq<Byte>)
    requires s != [] && DecodeRune(s) != Rune(RUNE_ERROR, 1)
    ensures var r := DecodeRune(s); Scalar(r.code) && EncodeRune(r.code) <= s && r.width == |EncodeRune(r.code)|
  {
    var n := SequenceLength(s[0]);
    DecodeBytes(s, n);
    if n == 2 {
      Number2(Bits(s[0], 0xC0), Bits(s[1], 0x80));
      assert s[..2] == [s[0], s[1]];
    } else if n == 3 {
      Number3(Bits(s[0], 0xE0), Bits(s[1], 0x80), Bits(s[2], 0x80));
      assert s[..3] == [s[0], s[1], s[2]];
    } else if n == 4 {
      Number4(Bits(s[0], 0xF0), Bits(s[1], 0x80), Bits(s[2], 0x80), Bits(s[3], 0x80));
      assert s[..4] == [s[0], s[1], s[2], s[3]];
    }
  }
}
