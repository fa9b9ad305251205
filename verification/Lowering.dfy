/**
  Lower-casing a byte string rune by rune, as strings.ToLower does: whatever does
  not decode becomes U+FFFD. And what that does to a text cut at a byte.
 */
module Lowering {
  import opened RuneRange
  import opened Sequences
  import opened Utf8

  type Text = seq<Byte>

  /** Maps characters to characters, and only U+FFFD to U+FFFD; unicode.ToLower does. */
  ghost predicate Casing(lower: int -> int) {
    forall c :: Scalar(c) ==> Scalar(lower(c)) && (lower(c) == RUNE_ERROR <==> c == RUNE_ERROR)
  }

  /** utf8.AppendRune: what is no character is written as U+FFFD. */
  function AppendRune(code: int): Text {
    EncodeRune(if Scalar(code) then code else RUNE_ERROR)
  }

  function Lower(lower: int -> int, s: Text): Text {
    if s == [] then [] else AppendRune(lower(DecodeRune(s).code)) + Lower(lower, s[DecodeRune(s).width..])
  }

  function LowerCodes(lower: int -> int, codes: seq<int>): Text {
    if codes == [] then [] else LowerCodes(lower, codes[..|codes| - 1]) + AppendRune(lower(codes[|codes| - 1]))
  }

  /** The characters of a text. */
  ghost function Codes(s: Text): seq<int> {
    CodesOf(Chars(s))
  }

  function CodesOf(runes: seq<Rune>): seq<int> {
    seq(|runes|, i requires 0 <= i < |runes| => runes[i].code)
  }

  lemma {:induction false} LowerCodesConcat(lower: int -> int, a: seq<int>, b: seq<int>)
    ensures LowerCodes(lower, a + b) == LowerCodes(lower, a) + LowerCodes(lower, b)
  {
    hide AppendRune;
    if b == [] {
      assert a + b == a;
    } else {
      var n := |b| - 1;
      assert (a + b)[..|a| + n] == a + b[..n];
      LowerCodesConcat(lower, a, b[..n]);
    }
  }

  lemma CharsFirst(s: Text)
    requires s != []
    ensures Chars(s) == [DecodeRune(s)] + Chars(s[DecodeRune(s).width..])
  {
    DecodeRuneIsLawful();
    RunesCons(DecodeRune, s);
  }

  lemma CodesFirst(s: Text)
    requires s != []
    ensures Codes(s) == [DecodeRune(s).code] + Codes(s[DecodeRune(s).width..])
  {
    CharsFirst(s);
    hide Chars, DecodeRune;
  }

  lemma LowerCodesFirst(lower: int -> int, c: int, codes: seq<int>)
    ensures LowerCodes(lower, [c] + codes) == AppendRune(lower(c)) + LowerCodes(lower, codes)
  {
    hide AppendRune;
    LowerCodesConcat(lower, [c], codes);
    assert LowerCodes(lower, []) == [];
  }

  lemma LowerNothing(lower: int -> int)
    ensures Lower(lower, []) == LowerCodes(lower, []) == []
  {
  }

  lemma EncodedFirst(c: int, t: Text)
    requires Scalar(c)
    ensures Codes(EncodeRune(c) + t) == [c] + Codes(t)
  {
    var e := EncodeRune(c);
    DecodeEncoded(c, e + t);
    hide DecodeRune, EncodeRune, Codes;
    assert (e + t)[|e|..] == t;
    CodesFirst(e + t);
  }

  lemma LowerFirst(lower: int -> int, s: Text)
    requires Casing(lower) && s != []
    ensures DecodeRune(s).width <= |s|
    ensures var c, rest := DecodeRune(s).code, s[DecodeRune(s).width..];
      && Scalar(c) && Scalar(lower(c)) && |rest| < |s|
      && Lower(lower, s) == EncodeRune(lower(c)) + Lower(lower, rest)
  {
    hide DecodeRune, EncodeRune;
    DecodeRuneIsLawful();
  }

  /** Character by character: the characters of the lower-cased text are the lower-cased characters, in order. */
  lemma {:induction false} LowerIsByCharacter(lower: int -> int, s: Text)
    requires Casing(lower)
    ensures |Codes(Lower(lower, s))| == |Codes(s)|
    ensures forall i :: 0 <= i < |Codes(s)| ==> Codes(Lower(lower, s))[i] == lower(Codes(s)[i])
    decreases |s|
  {
    hide Codes, DecodeRune, EncodeRune;
    if s == [] {
      NoCodes();
    } else {
      hide Lower, Casing;
      LowerFirst(lower, s);
      var c, rest := DecodeRune(s).code, s[DecodeRune(s).width..];
      LowerIsByCharacter(lower, rest);
      CodesFirst(s);
      EncodedFirst(lower(c), Lower(lower, rest));
    }
  }

  /** Lower-casing depends on the characters alone. */
  lemma {:induction false} LowerIs(lower: int -> int, s: Text)
    ensures Lower(lower, s) == LowerCodes(lower, Codes(s))
    decreases |s|
  {
    hide AppendRune, Codes, LowerCodes;
    if s == [] {
      NoCodes();
      LowerNothing(lower);
    } else {
      var first := DecodeRune(s);
      LowerIs(lower, s[first.width..]);
      CodesFirst(s);
      hide DecodeRune;
      LowerCodesFirst(lower, first.code, Codes(s[first.width..]));
    }
  }

  // ---------- a text cut at a byte ----------

  function BadCodes(k: nat): seq<int> {
    seq(k, _ => RUNE_ERROR)
  }

  /** A rune cut short is as many bad bytes as are left of it. */
  lemma CutRune(s: Text, d: nat)
    requires s != [] && 0 < d < DecodeRune(s).width
    ensures d <= 3 && Codes(s[..d]) == BadCodes(d)
  {
    var t := s[..d];
    CharsFirst(t);
    assert Chars([]) == [];
    assert DecodeRune(t) == Rune(RUNE_ERROR, 1);
    if d > 1 {
      assert t[1..][0] == s[1];
      assert DecodeRune(t[1..]) == Rune(RUNE_ERROR, 1);
      CharsFirst(t[1..]);
      if d > 2 {
        assert t[1..][1..] == t[2..] && t[2..][0] == s[2];
        assert DecodeRune(t[2..]) == Rune(RUNE_ERROR, 1);
        CharsFirst(t[2..]);
      }
    }
  }

  lemma TakeDrop(s: Text, w: nat, n: nat)
    requires w <= n <= |s|
    ensures s[..n][w..] == s[w..][..n - w]
  {
  }

  /** The characters of a prefix that holds the first rune. */
  lemma PrefixCodes(s: Text, n: nat)
    requires s != [] && DecodeRune(s).width <= n <= |s|
    ensures Codes(s[..n]) == [DecodeRune(s).code] + Codes(s[DecodeRune(s).width..][..n - DecodeRune(s).width])
    ensures Codes(s) == [DecodeRune(s).code] + Codes(s[DecodeRune(s).width..])
  {
    var w := DecodeRune(s).width;
    DecodePrefix(s, n);
    CharsFirst(s);
    CharsFirst(s[..n]);
    hide DecodeRune, Chars;
    TakeDrop(s, w, n);
  }

  /** The last start of a rune (or end of the text) up to offset `n`. */
  ghost function LastCut(s: Text, n: nat): (m: nat)
    requires n <= |s|
    ensures m <= n
  {
    if n == 0 || n < DecodeRune(s).width then 0
    else DecodeRune(s).width + LastCut(s[DecodeRune(s).width..], n - DecodeRune(s).width)
  }

  lemma AtRuneNext(s: Text, n: nat)
    requires s != [] && n > 0
    ensures var w := DecodeRune(s).width; 0 < w <= |s| && (AtRune(s, n) <==> w <= n && AtRune(s[w..], n - w))
  {
    DecodeRuneIsLawful();
  }

  lemma AtRuneZero(s: Text)
    ensures AtRune(s, 0)
  {
  }

  lemma {:induction false} LastCutIs(s: Text, n: nat)
    requires n <= |s|
    ensures n - 3 <= LastCut(s, n) <= n && AtRune(s, LastCut(s, n))
    ensures forall i :: LastCut(s, n) < i <= n ==> !AtRune(s, i)
    decreases n
  {
    hide AtRune;
    AtRuneZero(s);
    if n > 0 {
      var w := DecodeRune(s).width;
      assert w <= 4;
      hide DecodeRune;
      AtRuneNext(s, n);
      if w <= n {
        LastCutIs(s[w..], n - w);
        AtRuneNext(s, LastCut(s, n));
      }
      forall i | LastCut(s, n) < i <= n ensures !AtRune(s, i) {
        AtRuneNext(s, i);
      }
    }
  }

  /** A cut keeps the runes up to the last boundary, and what is left of the next one is as many bad characters. */
  lemma {:induction false} CutCodes(s: Text, n: nat)
    requires n <= |s|
    ensures Codes(s[..n]) == Codes(s[..LastCut(s, n)]) + BadCodes(n - LastCut(s, n))
    decreases n
  {
    hide Codes;
    assert s[..0] == [];
    NoCodes();
    if n > 0 {
      var w := DecodeRune(s).width;
      if n < w {
        CutRune(s, n);
      } else {
        var rest := s[w..];
        CutCodes(rest, n - w);
        assert LastCut(s, n) == w + LastCut(rest, n - w);
        hide DecodeRune, LastCut;
        PrefixCodes(s, LastCut(s, n));
        PrefixCodes(s, n);
      }
    }
  }

  lemma CharsAtRune(s: Text, n: nat)
    requires n <= |s| && AtRune(s, n)
    ensures Chars(s) == Chars(s[..n]) + Chars(s[n..])
  {
    hide DecodeRune, Runes, Boundary;
    DecodeRuneIsLawful();
    assert s == s[..n] + s[n..];
    RunesConcat(DecodeRune, s[..n], s[n..]);
  }

  /** Cut between runes, a text has the characters of its parts. */
  lemma CodesAtRune(s: Text, n: nat)
    requires n <= |s| && AtRune(s, n)
    ensures Codes(s) == Codes(s[..n]) + Codes(s[n..])
  {
    CharsAtRune(s, n);
    hide Chars, AtRune;
  }

  lemma NoCodes()
    ensures Codes([]) == [] == BadCodes(0)
  {
  }

  // ---------- what the lower-cased rest of a cut can match ----------

  /** U+FFFD encoded `k` times. */
  function BadBytes(k: nat): Text {
    seq(3 * k, i requires 0 <= i < 3 * k => if i % 3 == 0 then 0xEF else if i % 3 == 1 then 0xBF else 0xBD)
  }

  const BAD: Text := [0xEF, 0xBF, 0xBD]

  lemma BadBytesNext(k: nat)
    ensures BadBytes(k + 1) == BadBytes(k) + BAD
    ensures BadCodes(k + 1) == BadCodes(k) + [RUNE_ERROR]
  {
  }

  lemma {:induction false} LowerBad(lower: int -> int, k: nat)
    requires Casing(lower)
    ensures LowerCodes(lower, BadCodes(k)) == BadBytes(k)
  {
    if k > 0 {
      LowerBad(lower, k - 1);
      BadBytesNext(k - 1);
      assert lower(RUNE_ERROR) == RUNE_ERROR;
      assert AppendRune(RUNE_ERROR) == BAD;
      hide BadBytes, BadCodes, AppendRune;
      assert (BadCodes(k - 1) + [RUNE_ERROR])[..|BadCodes(k - 1)|] == BadCodes(k - 1);
    }
  }

  lemma CharBytes(c: int)
    requires Scalar(c)
    ensures var e := EncodeRune(c);
      && (|e| == 1 ==> e[0] < 0x80) && (|e| == 2 ==> e[0] < 0xE0) && (|e| == 4 ==> e[0] >= 0xF0)
      && (|e| >= 2 ==> 0xC0 <= e[0])
      && (forall i :: 1 <= i < |e| ==> 0x80 <= e[i] < 0xC0)
      && (e == BAD ==> c == RUNE_ERROR)
  {
    Digits3(c);
  }

  /** A character that ends inside encoded U+FFFDs is one of them. */
  lemma EndsOnBad(t: Text, start: nat, k: nat, c: int, end: nat)
    requires Scalar(c) && start + 3 * k == |t| && t == t[..start] + BadBytes(k)
    requires start < end <= |t| && |EncodeRune(c)| <= end && t[end - |EncodeRune(c)|..end] == EncodeRune(c)
    ensures c == RUNE_ERROR && (end - start) % 3 == 0
  {
    var e := EncodeRune(c);
    var d := end - start;
    CharBytes(c);
    hide EncodeRune;
    LastByteOf(t, start, k, e, end, 1);
    assert |e| >= 2 && d >= 2;
    LastByteOf(t, start, k, e, end, 2);
    assert d % 3 == 0 && |e| >= 3;
    LastByteOf(t, start, k, e, end, 3);
    assert e == BAD;
  }

  /** The `i`-th byte from the end of a character that ends inside encoded U+FFFDs. */
  lemma LastByteOf(t: Text, start: nat, k: nat, e: Text, end: nat, i: nat)
    requires start + 3 * k == |t| && t == t[..start] + BadBytes(k)
    requires |e| <= end <= |t| && t[end - |e|..end] == e && 1 <= i <= |e| && start <= end - i
    ensures var p := (end - start - i) % 3; e[|e| - i] == if p == 0 then 0xEF else if p == 1 then 0xBF else 0xBD
  {
    assert e[|e| - i] == t[end - |e|..end][|e| - i] == t[end - i] == BadBytes(k)[end - i - start];
  }

  lemma QueryEnd(lower: int -> int, q: seq<int>)
    requires q != []
    ensures LowerCodes(lower, q) == LowerCodes(lower, q[..|q| - 1]) + AppendRune(lower(q[|q| - 1]))
  {
  }

  /** A query that reaches into encoded U+FFFDs behind a text ends with one, at the end of one of them. */
  lemma ReachesIntoBad(lower: int -> int, a: Text, k: nat, q: seq<int>, j: nat) returns (m: nat)
    requires Casing(lower) && q != [] && Scalar(q[|q| - 1])
    requires var lq := LowerCodes(lower, q); OccursAt(a + BadBytes(k), lq, j) && j + |lq| > |a|
    ensures q[|q| - 1] == RUNE_ERROR && 1 <= m <= k && EndsWith(a + BadBytes(m), LowerCodes(lower, q))
  {
    hide EncodeRune, LowerCodes;
    var lq := LowerCodes(lower, q);
    var t := a + BadBytes(k);
    var c := lower(q[|q| - 1]);
    var end := j + |lq|;
    QueryEnd(lower, q);
    assert t[..|a|] == a;
    assert t[end - |EncodeRune(c)|..end] == lq[|lq| - |EncodeRune(c)|..] == EncodeRune(c);
    EndsOnBad(t, |a|, k, c, end);
    m := (end - |a|) / 3;
    assert BadBytes(m) == BadBytes(k)[..3 * m];
    assert t[..end] == a + BadBytes(m);
    assert (a + BadBytes(m))[j..] == lq;
  }

  /** What ends with some of the bad characters behind a text is found there. */
  lemma EndsAmongBad(a: Text, k: nat, m: nat, sub: Text)
    requires m <= k && EndsWith(a + BadBytes(m), sub)
    ensures Contains(a + BadBytes(k), sub)
  {
    assert BadBytes(m) == BadBytes(k)[..3 * m];
    hide BadBytes;
    EndIsContained(a + BadBytes(m), sub);
    PrefixContains(a + BadBytes(m), a + BadBytes(k), sub);
  }

  lemma OccursBefore(a: Text, rest: Text, sub: Text, j: nat)
    requires OccursAt(a + rest, sub, j) && j + |sub| <= |a|
    ensures Contains(a, sub)
  {
    assert a[j..j + |sub|] == (a + rest)[j..j + |sub|];
    assert OccursAt(a, sub, j);
  }

  /** What matches a text with bad characters behind it: what matches the text, or ends with some of them. */
  lemma {:induction false} BadBehindIff(lower: int -> int, a: Text, k: nat, q: seq<int>)
    requires Casing(lower) && (q != [] ==> Scalar(q[|q| - 1]))
    ensures Contains(a + BadBytes(k), LowerCodes(lower, q)) <==>
      Contains(a, LowerCodes(lower, q)) || exists m: nat :: 1 <= m <= k && EndsWith(a + BadBytes(m), LowerCodes(lower, q))
  {
    hide BadBytes, Casing, EndsWith, AppendRune;
    var lq := LowerCodes(lower, q);
    assert q == [] ==> lq == [];
    hide LowerCodes;
    var t := a + BadBytes(k);
    if Contains(a, lq) { PrefixContains(a, t, lq); }
    if m: nat :| 1 <= m <= k && EndsWith(a + BadBytes(m), lq) {
      EndsAmongBad(a, k, m, lq);
    }
    if j :| 0 <= j <= |t| && OccursAt(t, lq, j) {
      if j + |lq| <= |a| {
        OccursBefore(a, BadBytes(k), lq, j);
      } else if q == [] {
        assert OccursAt(a, lq, 0);
      } else {
        var m := ReachesIntoBad(lower, a, k, q, j);
      }
    }
  }

  // ---------- searching a text cut short ----------

  lemma {:induction false} CodesAreScalar(s: Text)
    ensures forall i :: 0 <= i < |Codes(s)| ==> Scalar(Codes(s)[i])
    decreases |s|
  {
    hide Codes;
    if s == [] {
      NoCodes();
    } else {
      DecodeRuneIsLawful();
      CodesAreScalar(s[DecodeRune(s).width..]);
      CodesFirst(s);
    }
  }

  lemma {:induction false} AsciiCodes(s: Text)
    requires forall i :: 0 <= i < |s| ==> s[i] < 0x80
    ensures RUNE_ERROR !in Codes(s)
    decreases |s|
  {
    hide Codes;
    if s == [] {
      NoCodes();
    } else {
      CodesFirst(s);
      AsciiCodes(s[1..]);
    }
  }

  lemma LowerCut(lower: int -> int, s: Text, n: nat)
    requires Casing(lower) && n <= |s|
    ensures Lower(lower, s[..n]) == Lower(lower, s[..LastCut(s, n)]) + BadBytes(n - LastCut(s, n))
    ensures Lower(lower, s) == Lower(lower, s[..LastCut(s, n)]) + Lower(lower, s[LastCut(s, n)..])
  {
    hide Codes, Lower, LowerCodes, BadBytes, BadCodes, Casing, LastCut;
    var m := LastCut(s, n);
    LastCutIs(s, n);
    CutCodes(s, n);
    CodesAtRune(s, m);
    LowerIs(lower, s);
    LowerIs(lower, s[..n]);
    LowerIs(lower, s[..m]);
    LowerIs(lower, s[m..]);
    LowerCodesConcat(lower, Codes(s[..m]), Codes(s[m..]));
    LowerCodesConcat(lower, Codes(s[..m]), BadCodes(n - m));
    LowerBad(lower, n - m);
  }

  /**
    What a text cut at byte `n` matches, cases aside: what the text up to the last
    whole rune matches, or what ends with a bad character the cut has left.
   */
  lemma {:induction false} CutMatchIff(lower: int -> int, s: Text, n: nat, query: Text)
    requires Casing(lower) && n <= |s|
    ensures var m, lq := LastCut(s, n), Lower(lower, query);
      Contains(Lower(lower, s[..n]), lq) <==>
        || Contains(Lower(lower, s[..m]), lq)
        || exists k: nat :: 1 <= k <= n - m && EndsWith(Lower(lower, s[..m]) + BadBytes(k), lq)
  {
    hide Codes, Lower, LowerCodes, BadBytes, Casing, LastCut;
    LowerCut(lower, s, n);
    LowerIs(lower, query);
    CodesAreScalar(query);
    BadBehindIff(lower, Lower(lower, s[..LastCut(s, n)]), n - LastCut(s, n), Codes(query));
  }

  /** The text ends with U+FFFD, or with a byte that does not decode. */
  ghost predicate EndsBad(s: Text) {
    s != [] && Codes(s) != [] && Codes(s)[|Codes(s)| - 1] == RUNE_ERROR
  }

  lemma BadEnd(lower: int -> int, a: Text, k: nat, query: Text)
    requires Casing(lower) && k > 0 && query != []
    ensures EndsWith(a + BadBytes(k), Lower(lower, query)) ==> EndsBad(query)
  {
    var q := Codes(query);
    LowerIs(lower, query);
    CodesAreScalar(query);
    assert q != [] by { CharsFirst(query); }
    hide Codes, LowerCodes, Lower, BadBytes, AppendRune, Casing, OccursAt;
    if EndsWith(a + BadBytes(k), LowerCodes(lower, q)) {
      var j := EndOccurs(lower, a + BadBytes(k), q);
      var m := ReachesIntoBad(lower, a, k, q, j);
    }
  }

  lemma EndOccurs(lower: int -> int, t: Text, q: seq<int>) returns (j: nat)
    requires q != [] && EndsWith(t, LowerCodes(lower, q))
    ensures OccursAt(t, LowerCodes(lower, q), j) && j + |LowerCodes(lower, q)| == |t|
  {
    j := |t| - |LowerCodes(lower, q)|;
  }

  /** A cut between runes, or a query that does not end with U+FFFD: what the cut text matches, the text matches. */
  lemma {:induction false} CutIsHarmless(lower: int -> int, s: Text, n: nat, query: Text)
    requires Casing(lower) && n <= |s| && (AtRune(s, n) || !EndsBad(query))
    requires Contains(Lower(lower, s[..n]), Lower(lower, query))
    ensures Contains(Lower(lower, s), Lower(lower, query))
  {
    hide Codes, Lower, LowerCodes, BadBytes, LastCut;
    var m, lq := LastCut(s, n), Lower(lower, query);
    LowerCut(lower, s, n);
    LastCutIs(s, n);
    CutMatchIff(lower, s, n, query);
    var a := Lower(lower, s[..m]);
    if query == [] {
      LowerNothing(lower);
      assert OccursAt(a, lq, 0);
    } else if !AtRune(s, n) {
      forall k: nat | 1 <= k <= n - m ensures !EndsWith(a + BadBytes(k), lq) {
        BadEnd(lower, a, k, query);
      }
    }
    PrefixContains(a, Lower(lower, s), lq);
  }

  // ---------- the query U+FFFD ----------

  /** U+FFFD is found where it stands, and never across two characters. */
  lemma BadAtEnd(x: Text, c: int, j: nat)
    requires Scalar(c) && OccursAt(x + EncodeRune(c), BAD, j) && j + 3 > |x|
    ensures c == RUNE_ERROR
  {
    var e := EncodeRune(c);
    var t := x + e;
    CharBytes(c);
    hide EncodeRune;
    assert t[j..j + 3][0] == t[j] && t[j..j + 3][1] == t[j + 1] && t[j..j + 3][2] == t[j + 2];
    assert t[|x|] == e[0];
    assert j >= |x|;
    assert t[j] == e[j - |x|];
    assert j == |x|;
    assert e[1] == t[j + 1] && e[2] == t[j + 2];
    assert e == BAD;
  }

  lemma BadInNext(x: Text, c: int)
    requires Scalar(c)
    ensures Contains(x + EncodeRune(c), BAD) <==> Contains(x, BAD) || c == RUNE_ERROR
  {
    var e := EncodeRune(c);
    assert c == RUNE_ERROR ==> e == BAD;
    hide EncodeRune;
    if Contains(x, BAD) { PrefixContains(x, x + e, BAD); }
    if c == RUNE_ERROR { assert OccursAt(x + e, BAD, |x|); }
    if j :| 0 <= j <= |x + e| && OccursAt(x + e, BAD, j) {
      if j + 3 <= |x| {
        assert x[j..j + 3] == (x + e)[j..j + 3];
        assert OccursAt(x, BAD, j);
      } else {
        BadAtEnd(x, c, j);
      }
    }
  }

  lemma {:induction false} BadIn(lower: int -> int, codes: seq<int>)
    requires Casing(lower) && forall i :: 0 <= i < |codes| ==> Scalar(codes[i])
    ensures Contains(LowerCodes(lower, codes), BAD) <==> RUNE_ERROR in codes
  {
    hide EncodeRune, Contains;
    if codes == [] {
      NothingContains(BAD);
    } else {
      var n := |codes| - 1;
      BadIn(lower, codes[..n]);
      BadInNext(LowerCodes(lower, codes[..n]), lower(codes[n]));
      assert codes == codes[..n] + [codes[n]];
    }
  }

  /** Asked for U+FFFD, a cut inside a rune answers yes for a text that has none; and only such a cut does. */
  lemma {:induction false} BadQueryIff(lower: int -> int, s: Text, n: nat)
    requires Casing(lower) && n <= |s|
    ensures Contains(Lower(lower, s[..n]), Lower(lower, BAD)) && !Contains(Lower(lower, s), Lower(lower, BAD))
       <==> !AtRune(s, n) && RUNE_ERROR !in Codes(s)
  {
    LowerOfBad(lower);
    LowerIs(lower, s);
    LowerIs(lower, s[..n]);
    CodesAreScalar(s);
    CodesAreScalar(s[..n]);
    CutCodes(s, n);
    LastCutIs(s, n);
    CodesAtRune(s, LastCut(s, n));
    hide Codes, LowerCodes, Lower, LastCut, AtRune, Casing;
    BadIn(lower, Codes(s));
    BadIn(lower, Codes(s[..n]));
    var k := n - LastCut(s, n);
    assert k > 0 ==> BadCodes(k)[0] == RUNE_ERROR;
  }

  lemma LowerOfBad(lower: int -> int)
    requires Casing(lower)
    ensures Lower(lower, BAD) == BAD
  {
    assert DecodeRune(BAD) == Rune(RUNE_ERROR, 3);
    assert BAD[3..] == [];
    assert lower(RUNE_ERROR) == RUNE_ERROR;
  }
}
