/**
  Ranging over a string with a rune decoder, and the UTF-16 length of what is
  decoded. Everything here holds for any decoder whose runes do not depend on the
  bytes after them.
 */
module RuneRange {
  type Byte = b: int | 0 <= b < 256

  datatype Rune = Rune(code: int, width: nat)

  type Decoder = seq<Byte> -> Rune

  predicate Scalar(code: int) {
    0 <= code <= 0x10FFFF && !(0xD800 <= code <= 0xDFFF)
  }

  /** What a decoder finds at the front of a text does not depend on the bytes after it. */
  ghost predicate Local(decode: Decoder, s: seq<Byte>) {
    forall n :: decode(s).width <= n <= |s| ==> decode(s[..n]) == decode(s)
  }

  ghost predicate Lawful(decode: Decoder) {
    && (forall s :: s != [] ==> 1 <= decode(s).width <= |s| && Scalar(decode(s).code))
    && (forall s :: s != [] ==> Local(decode, s))
  }

  lemma DecodeOfPrefix(decode: Decoder, a: seq<Byte>, b: seq<Byte>)
    requires Lawful(decode) && a != [] && decode(a + b).width <= |a|
    ensures decode(a) == decode(a + b)
    ensures (a + b)[decode(a).width..] == a[decode(a).width..] + b
  {
    assert Local(decode, a + b);
    assert (a + b)[..|a|] == a;
  }

  /** The runes a `range` loop visits. */
  ghost function Runes(decode: Decoder, s: seq<Byte>): seq<Rune>
    requires Lawful(decode)
  {
    if s == [] then [] else [decode(s)] + Runes(decode, s[decode(s).width..])
  }

  /** Byte offset `n` is where some rune of the loop starts, or the end. */
  ghost predicate Boundary(decode: Decoder, s: seq<Byte>, n: nat)
    requires Lawful(decode)
  {
    n == 0 ||
    (s != [] && decode(s).width <= n && Boundary(decode, s[decode(s).width..], n - decode(s).width))
  }

  /** Section 2.1 of RFC 2781: one code unit below U+10000, a surrogate pair from there on. */
  function EncodeUtf16(code: int): seq<int> {
    if code < 0x10000 then [code]
    else [0xD800 + (code - 0x10000) / 0x400, 0xDC00 + (code - 0x10000) % 0x400]
  }

  /** Section 2.2 of RFC 2781: the units give the character back. */
  lemma Utf16Is(code: int)
    requires Scalar(code)
    ensures var u := EncodeUtf16(code);
      && (code <= 0xFFFF ==> |u| == 1 && u[0] == code && !(0xD800 <= u[0] <= 0xDFFF))
      && (code > 0xFFFF ==> |u| == 2 && 0xD800 <= u[0] <= 0xDBFF && 0xDC00 <= u[1] <= 0xDFFF
                            && (u[0] - 0xD800) * 0x400 + (u[1] - 0xDC00) + 0x10000 == code)
  {
    assert code > 0xFFFF ==> (code - 0x10000) / 0x400 * 0x400 + (code - 0x10000) % 0x400 == code - 0x10000;
  }

  function Utf16Of(runes: seq<Rune>): seq<int> {
    if runes == [] then [] else EncodeUtf16(runes[0].code) + Utf16Of(runes[1..])
  }

  ghost function Utf16(decode: Decoder, s: seq<Byte>): seq<int>
    requires Lawful(decode)
  {
    Utf16Of(Runes(decode, s))
  }

  lemma {:induction false} Utf16OfConcat(a: seq<Rune>, b: seq<Rune>)
    ensures |Utf16Of(a + b)| == |Utf16Of(a)| + |Utf16Of(b)|
  {
    if a == [] {
      assert a + b == b;
    } else {
      Utf16OfConcat(a[1..], b);
      assert (a + b)[0] == a[0] && (a + b)[1..] == a[1..] + b;
    }
  }

  lemma RunesCons(decode: Decoder, s: seq<Byte>)
    requires Lawful(decode) && s != []
    ensures Runes(decode, s) == [decode(s)] + Runes(decode, s[decode(s).width..])
  {
  }

  /** Cutting at a boundary cuts the decoded runes. */
  lemma {:induction false} RunesConcat(decode: Decoder, a: seq<Byte>, b: seq<Byte>)
    requires Lawful(decode) && Boundary(decode, a + b, |a|)
    ensures Runes(decode, a + b) == Runes(decode, a) + Runes(decode, b)
    decreases |a|
  {
    hide Runes;
    if a == [] {
      assert a + b == b;
      assert Runes(decode, a) == [] by { NoRunes(decode); }
    } else {
      var w := decode(a + b).width;
      DecodeOfPrefix(decode, a, b);
      RunesConcat(decode, a[w..], b);
      RunesCons(decode, a);
      RunesCons(decode, a + b);
    }
  }

  lemma NoRunes(decode: Decoder)
    requires Lawful(decode)
    ensures Runes(decode, []) == []
  {
  }

  /** Past a boundary, the boundaries of a text are those of the rest. */
  lemma {:induction false} BoundaryShift(decode: Decoder, a: seq<Byte>, b: seq<Byte>, n: nat)
    requires Lawful(decode) && Boundary(decode, a + b, |a|)
    ensures Boundary(decode, a + b, |a| + n) <==> Boundary(decode, b, n)
    decreases |a|
  {
    if a == [] {
      assert a + b == b;
    } else {
      var w := decode(a + b).width;
      DecodeOfPrefix(decode, a, b);
      BoundaryShift(decode, a[w..], b, n);
    }
  }

  lemma {:induction false} BoundaryOfPrefix(decode: Decoder, a: seq<Byte>, b: seq<Byte>, n: nat)
    requires Lawful(decode) && Boundary(decode, a + b, |a|) && Boundary(decode, a + b, n) && n <= |a|
    ensures Boundary(decode, a, n)
    decreases |a|
  {
    if n > 0 {
      var w := decode(a + b).width;
      DecodeOfPrefix(decode, a, b);
      BoundaryOfPrefix(decode, a[w..], b, n - w);
    }
  }

  function Widths(runes: seq<Rune>): nat {
    if runes == [] then 0 else runes[0].width + Widths(runes[1..])
  }

  predicate NoneEmpty(runes: seq<Rune>) {
    forall i :: 0 <= i < |runes| ==> runes[i].width > 0
  }

  lemma {:induction false} WidthsConcat(a: seq<Rune>, b: seq<Rune>)
    ensures Widths(a + b) == Widths(a) + Widths(b)
  {
    if a == [] {
      assert a + b == b;
    } else {
      WidthsConcat(a[1..], b);
      assert (a + b)[1..] == a[1..] + b;
    }
  }

  /** The runes of a text account for all of its bytes, each for at least one. */
  lemma {:induction false} WidthsOfRunes(decode: Decoder, s: seq<Byte>)
    requires Lawful(decode)
    ensures Widths(Runes(decode, s)) == |s|
    ensures NoneEmpty(Runes(decode, s))
    decreases |s|
  {
    if s != [] {
      var rest := s[decode(s).width..];
      WidthsOfRunes(decode, rest);
      assert Runes(decode, s) == [decode(s)] + Runes(decode, rest);
    }
  }

  /** Runes a text starts with end at a boundary. */
  lemma {:induction false} PrefixEndsAtBoundary(decode: Decoder, s: seq<Byte>, first: seq<Rune>, rest: seq<Rune>)
    requires Lawful(decode) && Runes(decode, s) == first + rest
    ensures Boundary(decode, s, Widths(first))
    decreases |s|
  {
    if first != [] {
      var w := decode(s).width;
      assert Runes(decode, s)[0] == decode(s) == first[0];
      assert Runes(decode, s[w..]) == Runes(decode, s)[1..] == first[1..] + rest;
      PrefixEndsAtBoundary(decode, s[w..], first[1..], rest);
    }
  }

  /** A cut keeps the runes exactly when it is a boundary. */
  lemma {:induction false} CutKeepsRunesIff(decode: Decoder, a: seq<Byte>, b: seq<Byte>)
    requires Lawful(decode)
    ensures Runes(decode, a + b) == Runes(decode, a) + Runes(decode, b) <==> Boundary(decode, a + b, |a|)
  {
    hide Runes, Boundary, Widths;
    if Boundary(decode, a + b, |a|) {
      RunesConcat(decode, a, b);
    }
    if Runes(decode, a + b) == Runes(decode, a) + Runes(decode, b) {
      PrefixEndsAtBoundary(decode, a + b, Runes(decode, a), Runes(decode, b));
      WidthsOfRunes(decode, a);
    }
  }

  /** Lists of runes that are equal and whose first parts are equally wide are equal part by part. */
  lemma {:induction false} SameWidthSameParts(a: seq<Rune>, b: seq<Rune>, a': seq<Rune>, b': seq<Rune>)
    requires a + b == a' + b' && Widths(a) == Widths(a')
    requires NoneEmpty(a) && NoneEmpty(a')
    ensures a == a' && b == b'
  {
    if a != [] && a' != [] {
      assert (a + b)[0] == a[0] && (a' + b')[0] == a'[0];
      assert (a + b)[1..] == a[1..] + b && (a' + b')[1..] == a'[1..] + b';
      SameWidthSameParts(a[1..], b, a'[1..], b');
      assert a == [a[0]] + a[1..] && a' == [a'[0]] + a'[1..];
    } else {
      assert a + b == b || a' + b' == b';
      assert a == [] && a' == [];
      assert a + b == b && a' + b' == b';
    }
  }

  lemma RunesOfOne(decode: Decoder, rune: seq<Byte>)
    requires Lawful(decode) && rune != [] && decode(rune).width == |rune|
    ensures Runes(decode, rune) == [decode(rune)]
  {
    assert rune[|rune|..] == [];
  }

  lemma OneRune(decode: Decoder, s: seq<Byte>)
    requires Lawful(decode) && s != []
    ensures var w := decode(s).width;
      Runes(decode, s[..w]) == [decode(s)] && Boundary(decode, s, w)
  {
    assert Local(decode, s);
    RunesOfOne(decode, s[..decode(s).width]);
  }

  /** The first `n` runes of a text, by the loop that counts them. */
  method TruncateRunes(decode: Decoder, s: seq<Byte>, n: int) returns (r: seq<Byte>)
    requires Lawful(decode)
    ensures |r| <= |s| && r == s[..|r|] && Boundary(decode, s, |r|)
    ensures Runes(decode, r) ==
      if n <= 0 then [] else if n < |Runes(decode, s)| then Runes(decode, s)[..n] else Runes(decode, s)
  {
    hide Runes;
    NoRunes(decode);
    assert s[..0] == [];
    var i, count := 0, 0;
    while i < |s|
      invariant 0 <= i <= |s| && Boundary(decode, s, i) && count == |Runes(decode, s[..i])|
      invariant count == 0 || count <= n
      decreases |s| - i
    {
      assert s == s[..i] + s[i..];
      RunesConcat(decode, s[..i], s[i..]);
      if count >= n {
        return s[..i];
      }
      var w := decode(s[i..]).width;
      ghost var after := NextRune(decode, s, i);
      i, count := i + w, count + 1;
    }
    assert s[..i] == s;
    return s;
  }

  lemma NextRune(decode: Decoder, s: seq<Byte>, i: nat) returns (after: nat)
    requires Lawful(decode) && i < |s| && Boundary(decode, s, i)
    ensures after == i + decode(s[i..]).width <= |s|
    ensures Boundary(decode, s, after)
    ensures Runes(decode, s[..after]) == Runes(decode, s[..i]) + [decode(s[i..])]
  {
    hide Runes, Boundary;
    var w := decode(s[i..]).width;
    after := i + w;
    assert s == s[..i] + s[i..];
    OneRune(decode, s[i..]);
    BoundaryShift(decode, s[..i], s[i..], w);
    var rune := s[i..][..w];
    assert s[..after] == s[..i] + rune && s == s[..after] + s[after..];
    BoundaryOfPrefix(decode, s[..after], s[after..], i);
    RunesConcat(decode, s[..i], rune);
  }
}
