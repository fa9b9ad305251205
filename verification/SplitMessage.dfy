/** Splitting a message into as few pieces as the limit on UTF-16 code units allows. */
module SplitMessage {
  import opened RuneRange
  import opened Sequences
  import Utf8

  /** The UTF-16 length the splitter charges for a rune. */
  function Size(code: int): (n: nat)
    ensures n == |EncodeUtf16(code)|
  {
    if code < 0x10000 then 1 else 2
  }

  /** The pieces still to come when `rest` is left and the open piece is `open`, charged `used` units. */
  ghost function Split(decode: Decoder, rest: seq<Byte>, open: seq<Byte>, used: int, maxLen: int): seq<seq<Byte>>
    requires Lawful(decode)
    decreases |rest|
  {
    if rest == [] then [open]
    else
      var r := decode(rest);
      if used + Size(r.code) > maxLen
      then [open] + Split(decode, rest[r.width..], rest[..r.width], Size(r.code), maxLen)
      else Split(decode, rest[r.width..], open + rest[..r.width], used + Size(r.code), maxLen)
  }

  method SplitMessage(decode: Decoder, text: seq<Byte>, maxLen: int) returns (chunks: seq<seq<Byte>>)
    requires Lawful(decode)
    ensures chunks == Split(decode, text, [], 0, maxLen)
  {
    hide OnCourse, Split;
    chunks := [];
    var start, unitCount := 0, 0;
    var i := 0;
    SplitBegin(decode, text, maxLen);
    while i < |text|
      invariant 0 <= start <= i <= |text|
      invariant OnCourse(decode, text, maxLen, chunks, start, i, unitCount)
      decreases |text| - i
    {
      var r := decode(text[i..]);
      var size := Size(r.code);
      SplitStep(decode, text, maxLen, chunks, start, i, unitCount);
      if unitCount + size > maxLen {
        chunks := chunks + [text[start..i]];
        start := i;
        unitCount := 0;
      }
      unitCount := unitCount + size;
      i := i + r.width;
    }
    SplitEnd(decode, text, maxLen, chunks, start, unitCount);
    chunks := chunks + [text[start..]];
  }

  /** The chunks so far and the pieces still to come are the pieces of the whole text. */
  ghost predicate OnCourse(decode: Decoder, text: seq<Byte>, maxLen: int,
                           chunks: seq<seq<Byte>>, start: nat, i: nat, used: int)
    requires Lawful(decode) && start <= i <= |text|
  {
    chunks + Split(decode, text[i..], text[start..i], used, maxLen) == Split(decode, text, [], 0, maxLen)
  }

  lemma SplitBegin(decode: Decoder, text: seq<Byte>, maxLen: int)
    requires Lawful(decode)
    ensures OnCourse(decode, text, maxLen, [], 0, 0, 0)
  {
    assert text[0..] == text && text[0..0] == [];
    var all := Split(decode, text, [], 0, maxLen);
    assert [] + all == all;
  }

  lemma SplitEnd(decode: Decoder, text: seq<Byte>, maxLen: int, chunks: seq<seq<Byte>>, start: nat, used: int)
    requires Lawful(decode) && start <= |text| && OnCourse(decode, text, maxLen, chunks, start, |text|, used)
    ensures chunks + [text[start..]] == Split(decode, text, [], 0, maxLen)
  {
    assert text[|text|..] == [] && text[start..|text|] == text[start..];
  }

  lemma PutChunk(chunks: seq<seq<Byte>>, chunk: seq<Byte>, left: seq<seq<Byte>>)
    ensures chunks + ([chunk] + left) == (chunks + [chunk]) + left
  {
  }

  /** One round of the loop: a full open piece goes out before the next rune is taken. */
  lemma SplitStep(decode: Decoder, text: seq<Byte>, maxLen: int, chunks: seq<seq<Byte>>, start: nat, i: nat, used: int)
    requires Lawful(decode) && start <= i < |text| && OnCourse(decode, text, maxLen, chunks, start, i, used)
    ensures var r := decode(text[i..]); var size := Size(r.code);
      && i + r.width <= |text|
      && if used + size > maxLen
         then OnCourse(decode, text, maxLen, chunks + [text[start..i]], i, i + r.width, 0 + size)
         else OnCourse(decode, text, maxLen, chunks, start, i + r.width, used + size)
  {
    hide Split;
    var r := decode(text[i..]);
    var rune, tail := SplitNext(decode, text[i..], text[start..i], used, maxLen);
    Slices(text, start, i, rune, tail);
    PutChunk(chunks, text[start..i], Split(decode, tail, rune, Size(r.code), maxLen));
  }

  lemma Slices(text: seq<Byte>, start: nat, i: nat, rune: seq<Byte>, tail: seq<Byte>)
    requires start <= i <= |text| && text[i..] == rune + tail
    ensures text[i + |rune|..] == tail && text[i..i + |rune|] == rune
    ensures text[start..i] + rune == text[start..i + |rune|]
  {
    assert forall k :: 0 <= k < |text| - i ==> text[i + k] == text[i..][k];
  }

  lemma Regroup(a: seq<Byte>, b: seq<Byte>, c: seq<Byte>)
    ensures (a + b) + c == a + (b + c)
  {
  }

  /** The splitter's next step, with the rune it moves spelled out. */
  lemma SplitNext(decode: Decoder, rest: seq<Byte>, open: seq<Byte>, used: int, maxLen: int)
      returns (rune: seq<Byte>, tail: seq<Byte>)
    requires Lawful(decode) && rest != []
    ensures rest == rune + tail && |rune| == decode(rest).width && |tail| < |rest| && tail == rest[|rune|..]
    ensures Split(decode, rest, open, used, maxLen)
      == var size := Size(decode(rest).code);
         if used + size > maxLen then [open] + Split(decode, tail, rune, size, maxLen)
         else Split(decode, tail, open + rune, used + size, maxLen)
  {
    rune, tail := rest[..decode(rest).width], rest[decode(rest).width..];
  }

  // ---------- nothing lost, only whole runes ----------

  lemma FlattenCons(piece: seq<Byte>, pieces: seq<seq<Byte>>)
    ensures Flatten([piece] + pieces) == piece + Flatten(pieces)
  {
    FlattenFirst([piece] + pieces);
    assert ([piece] + pieces)[1..] == pieces;
  }

  lemma {:induction false} SplitKeepsText(decode: Decoder, rest: seq<Byte>, open: seq<Byte>, used: int, maxLen: int)
    requires Lawful(decode)
    ensures Flatten(Split(decode, rest, open, used, maxLen)) == open + rest
    decreases |rest|
  {
    if rest == [] {
      FlattenCons(open, []);
      assert [open] + [] == [open];
    } else {
      var r := decode(rest);
      var rune, tail := SplitNext(decode, rest, open, used, maxLen);
      if used + Size(r.code) > maxLen {
        SplitKeepsText(decode, tail, rune, Size(r.code), maxLen);
        FlattenCons(open, Split(decode, tail, rune, Size(r.code), maxLen));
      } else {
        SplitKeepsText(decode, tail, open + rune, used + Size(r.code), maxLen);
        Regroup(open, rune, tail);
      }
    }
  }

  /** Pieces that together are `text`, each ending where a rune of `text` ends. */
  ghost predicate CutsAtRunes(decode: Decoder, pieces: seq<seq<Byte>>, text: seq<Byte>)
    requires Lawful(decode)
  {
    if pieces == [] then text == []
    else
      && |pieces[0]| <= |text| && pieces[0] == text[..|pieces[0]|]
      && Boundary(decode, text, |pieces[0]|)
      && CutsAtRunes(decode, pieces[1..], text[|pieces[0]|..])
  }

  lemma CutsCons(decode: Decoder, piece: seq<Byte>, pieces: seq<seq<Byte>>, text: seq<Byte>)
    requires Lawful(decode)
    requires Boundary(decode, piece + text, |piece|) && CutsAtRunes(decode, pieces, text)
    ensures CutsAtRunes(decode, [piece] + pieces, piece + text)
  {
    assert ([piece] + pieces)[1..] == pieces && ([piece] + pieces)[0] == piece;
    assert (piece + text)[..|piece|] == piece && (piece + text)[|piece|..] == text;
  }

  lemma {:induction false} SplitCutsAtRunes(decode: Decoder, rest: seq<Byte>, open: seq<Byte>, used: int, maxLen: int)
    requires Lawful(decode)
    requires Boundary(decode, open + rest, |open|)
    ensures CutsAtRunes(decode, Split(decode, rest, open, used, maxLen), open + rest)
    decreases |rest|
  {
    if rest == [] {
      CutsCons(decode, open, [], []);
      assert [open] + [] == [open];
    } else {
      var r := decode(rest);
      var rune, tail := SplitNext(decode, rest, open, used, maxLen);
      AddRune(decode, open, rune, tail, r);
      if used + Size(r.code) > maxLen {
        SplitCutsAtRunes(decode, tail, rune, Size(r.code), maxLen);
        CutsCons(decode, open, Split(decode, tail, rune, Size(r.code), maxLen), rest);
      } else {
        SplitCutsAtRunes(decode, tail, open + rune, used + Size(r.code), maxLen);
        Regroup(open, rune, tail);
      }
    }
  }

  // ---------- within the limit ----------

  ghost predicate WithinLimit(decode: Decoder, pieces: seq<seq<Byte>>, maxLen: int)
    requires Lawful(decode)
  {
    forall i :: 0 <= i < |pieces| ==> |Utf16(decode, pieces[i])| <= maxLen
  }

  /** No rune is larger than the limit; always so from a limit of 2 on. */
  ghost predicate RunesFit(decode: Decoder, text: seq<Byte>, maxLen: int)
    requires Lawful(decode)
  {
    maxLen >= 0 && forall r :: r in Runes(decode, text) ==> |EncodeUtf16(r.code)| <= maxLen
  }

  /** Moving the next rune into the open piece adds its size and keeps the cut between runes. */
  lemma AddRune(decode: Decoder, open: seq<Byte>, rune: seq<Byte>, tail: seq<Byte>, r: Rune)
    requires Lawful(decode)
    requires rune + tail != [] && r == decode(rune + tail) && |rune| == r.width
    requires Boundary(decode, open + (rune + tail), |open|)
    ensures Boundary(decode, (open + rune) + tail, |open + rune|) && Boundary(decode, rune + tail, |rune|)
    ensures |Utf16(decode, open + rune)| == |Utf16(decode, open)| + Size(r.code)
    ensures |Utf16(decode, rune)| == Size(r.code)
  {
    hide Runes, Boundary;
    assert (rune + tail)[..r.width] == rune;
    OneRune(decode, rune + tail);
    assert Boundary(decode, rune + tail, r.width);
    BoundaryShift(decode, open, rune + tail, r.width);
    assert open + (rune + tail) == (open + rune) + tail;
    BoundaryOfPrefix(decode, open + rune, tail, |open|);
    RunesConcat(decode, open, rune);
    Utf16OfConcat(Runes(decode, open), [r]);
    assert Utf16Of([r]) == EncodeUtf16(r.code) + [];
  }

  lemma WithinCons(decode: Decoder, piece: seq<Byte>, pieces: seq<seq<Byte>>, maxLen: int)
    requires Lawful(decode) && |Utf16(decode, piece)| <= maxLen && WithinLimit(decode, pieces, maxLen)
    ensures WithinLimit(decode, [piece] + pieces, maxLen)
  {
    hide Utf16;
  }

  lemma SplitLast(decode: Decoder, open: seq<Byte>, used: int, maxLen: int)
    requires Lawful(decode)
    ensures Split(decode, [], open, used, maxLen) == [open]
  {
  }

  lemma {:induction false} SplitFits(decode: Decoder, rest: seq<Byte>, open: seq<Byte>, used: int, maxLen: int)
    requires Lawful(decode)
    requires Boundary(decode, open + rest, |open|) && used == |Utf16(decode, open)| <= maxLen
    requires RunesFit(decode, rest, maxLen)
    ensures WithinLimit(decode, Split(decode, rest, open, used, maxLen), maxLen)
    decreases |rest|
  {
    hide Runes, Boundary, Utf16, RunesFit, Split;
    if rest == [] {
      SplitLast(decode, open, used, maxLen);
    } else {
      hide WithinLimit;
      var r := decode(rest);
      var rune, tail := SplitNext(decode, rest, open, used, maxLen);
      AddRune(decode, open, rune, tail, r);
      RestFits(decode, rest, maxLen);
      if used + Size(r.code) > maxLen {
        SplitFits(decode, tail, rune, Size(r.code), maxLen);
        WithinCons(decode, open, Split(decode, tail, rune, Size(r.code), maxLen), maxLen);
      } else {
        SplitFits(decode, tail, open + rune, used + Size(r.code), maxLen);
      }
    }
  }

  lemma RestFits(decode: Decoder, rest: seq<Byte>, maxLen: int)
    requires Lawful(decode)
    requires rest != [] && RunesFit(decode, rest, maxLen)
    ensures RunesFit(decode, rest[decode(rest).width..], maxLen) && Size(decode(rest).code) <= maxLen
  {
    assert decode(rest) in Runes(decode, rest);
    assert forall x :: x in Runes(decode, rest[decode(rest).width..]) ==> x in Runes(decode, rest);
  }

  lemma {:induction false} RuneInUtf16(runes: seq<Rune>, r: Rune)
    requires r in runes
    ensures |EncodeUtf16(r.code)| <= |Utf16Of(runes)|
  {
    if r != runes[0] {
      RuneInUtf16(runes[1..], r);
    }
  }

  lemma {:induction false} FittingPiecesNeedFittingRunes(decode: Decoder, pieces: seq<seq<Byte>>, text: seq<Byte>,
                                                         maxLen: int)
    requires Lawful(decode)
    requires CutsAtRunes(decode, pieces, text) && WithinLimit(decode, pieces, maxLen) && pieces != []
    ensures RunesFit(decode, text, maxLen)
  {
    var a, b := pieces[0], text[|pieces[0]|..];
    assert text == a + b;
    RunesConcat(decode, a, b);
    assert |Utf16(decode, a)| <= maxLen;
    if pieces[1..] != [] {
      FittingPiecesNeedFittingRunes(decode, pieces[1..], b, maxLen);
    }
    forall r | r in Runes(decode, text) ensures |EncodeUtf16(r.code)| <= maxLen {
      if r in Runes(decode, a) { RuneInUtf16(Runes(decode, a), r); }
    }
  }

  // ---------- as few pieces as possible ----------

  /** How many pieces the splitter makes of these runes, with `used` units in the open one. */
  function Pieces(runes: seq<Rune>, used: int, maxLen: int): nat {
    if runes == [] then 1
    else
      var size := |EncodeUtf16(runes[0].code)|;
      if used + size > maxLen then 1 + Pieces(runes[1..], size, maxLen)
      else Pieces(runes[1..], used + size, maxLen)
  }

  lemma {:induction false} SplitCount(decode: Decoder, rest: seq<Byte>, open: seq<Byte>, used: int, maxLen: int)
    requires Lawful(decode)
    ensures |Split(decode, rest, open, used, maxLen)| == Pieces(Runes(decode, rest), used, maxLen)
    decreases |rest|
  {
    if rest != [] {
      var r := decode(rest);
      assert Runes(decode, rest)[1..] == Runes(decode, rest[r.width..]);
      if used + Size(r.code) > maxLen {
        SplitCount(decode, rest[r.width..], rest[..r.width], Size(r.code), maxLen);
      } else {
        SplitCount(decode, rest[r.width..], open + rest[..r.width], used + Size(r.code), maxLen);
      }
    }
  }

  /** Having used more of the open piece costs at most one piece more, and never saves one. */
  lemma {:induction false} UsedCostsAtMostOne(runes: seq<Rune>, less: int, more: int, maxLen: int)
    requires 0 <= less <= more
    ensures Pieces(runes, less, maxLen) <= Pieces(runes, more, maxLen) <= Pieces(runes, less, maxLen) + 1
  {
    if runes != [] {
      var size := |EncodeUtf16(runes[0].code)|;
      if less + size > maxLen {
      } else if more + size > maxLen {
        UsedCostsAtMostOne(runes[1..], size, less + size, maxLen);
      } else {
        UsedCostsAtMostOne(runes[1..], less + size, more + size, maxLen);
      }
    }
  }

  /** Runes that fit into the open piece are taken without a cut. */
  lemma {:induction false} TakesWhatFits(first: seq<Rune>, rest: seq<Rune>, used: int, maxLen: int)
    requires used >= 0 && used + |Utf16Of(first)| <= maxLen
    ensures Pieces(first + rest, used, maxLen) == Pieces(rest, used + |Utf16Of(first)|, maxLen)
  {
    if first == [] {
      assert first + rest == rest;
    } else {
      var size := |EncodeUtf16(first[0].code)|;
      assert (first + rest)[0] == first[0] && (first + rest)[1..] == first[1..] + rest;
      TakesWhatFits(first[1..], rest, used + size, maxLen);
    }
  }

  /** A piece within the limit is one the splitter could have taken whole. */
  lemma FirstPiece(decode: Decoder, a: seq<Byte>, b: seq<Byte>, maxLen: int)
    requires Lawful(decode) && Boundary(decode, a + b, |a|) && |Utf16(decode, a)| <= maxLen
    ensures Pieces(Runes(decode, a + b), 0, maxLen) == Pieces(Runes(decode, b), |Utf16(decode, a)|, maxLen)
    ensures Pieces(Runes(decode, a + b), 0, maxLen) <= Pieces(Runes(decode, b), 0, maxLen) + 1
  {
    hide Runes, Boundary, Pieces;
    RunesConcat(decode, a, b);
    TakesWhatFits(Runes(decode, a), Runes(decode, b), 0, maxLen);
    UsedCostsAtMostOne(Runes(decode, b), 0, |Utf16(decode, a)|, maxLen);
  }

  lemma {:induction false} NoFewerPieces(decode: Decoder, pieces: seq<seq<Byte>>, text: seq<Byte>, maxLen: int)
    requires Lawful(decode)
    requires pieces != [] && CutsAtRunes(decode, pieces, text) && WithinLimit(decode, pieces, maxLen)
    ensures Pieces(Runes(decode, text), 0, maxLen) <= |pieces|
  {
    var a, b := pieces[0], text[|pieces[0]|..];
    assert text == a + b;
    FirstPiece(decode, a, b, maxLen);
    if pieces[1..] != [] {
      NoFewerPieces(decode, pieces[1..], b, maxLen);
    }
  }

  // ---------- every piece takes what it can ----------

  /** The piece was closed because the first rune of the next one did not fit into it any more. */
  ghost predicate Full(decode: Decoder, piece: seq<Byte>, next: seq<Byte>, maxLen: int)
    requires Lawful(decode)
  {
    next != [] && |Utf16(decode, piece)| + |EncodeUtf16(decode(next).code)| > maxLen
  }

  /** Every piece is full before the next one starts, and over the limit only as a single rune. */
  ghost predicate Greedy(decode: Decoder, pieces: seq<seq<Byte>>, maxLen: int)
    requires Lawful(decode)
  {
    && (forall i :: 0 < i < |pieces| ==> Full(decode, pieces[i - 1], pieces[i], maxLen))
    && (forall i :: 0 <= i < |pieces| ==> Modest(decode, pieces[i], maxLen))
  }

  ghost predicate Modest(decode: Decoder, piece: seq<Byte>, maxLen: int)
    requires Lawful(decode)
  {
    |Utf16(decode, piece)| <= maxLen || |Runes(decode, piece)| <= 1
  }

  lemma GreedyCons(decode: Decoder, piece: seq<Byte>, pieces: seq<seq<Byte>>, maxLen: int)
    requires Lawful(decode) && pieces != [] && Greedy(decode, pieces, maxLen)
    requires Modest(decode, piece, maxLen) && Full(decode, piece, pieces[0], maxLen)
    ensures Greedy(decode, [piece] + pieces, maxLen)
  {
    hide Full, Modest;
    var all := [piece] + pieces;
    forall i | 0 < i < |all| ensures Full(decode, all[i - 1], all[i], maxLen) {
      if i > 1 { assert Full(decode, pieces[i - 1 - 1], pieces[i - 1], maxLen); }
    }
  }

  /** The piece after a closed one starts with the rune that did not fit. */
  lemma NextPieceStarts(decode: Decoder, rest: seq<Byte>, rune: seq<Byte>, tail: seq<Byte>, maxLen: int)
    requires Lawful(decode) && rest != [] && rest == rune + tail && |rune| == decode(rest).width
    ensures var pieces := Split(decode, tail, rune, Size(decode(rest).code), maxLen);
      pieces != [] && (rune <= pieces[0] ==> pieces[0] != [] && decode(pieces[0]) == decode(rest))
  {
    var pieces := Split(decode, tail, rune, Size(decode(rest).code), maxLen);
    SplitKeepsText(decode, tail, rune, Size(decode(rest).code), maxLen);
    if pieces != [] {
      FlattenFirst(pieces);
      assert Local(decode, rest) && rest[..|pieces[0]|] == pieces[0];
    }
  }

  lemma {:induction false} SplitGreedily(decode: Decoder, rest: seq<Byte>, open: seq<Byte>, used: int, maxLen: int)
    requires Lawful(decode) && Boundary(decode, open + rest, |open|) && used == |Utf16(decode, open)|
    requires Modest(decode, open, maxLen)
    ensures var pieces := Split(decode, rest, open, used, maxLen);
      pieces != [] && open <= pieces[0] && Greedy(decode, pieces, maxLen)
    decreases |rest|
  {
    hide Runes, Boundary, Utf16Of, Greedy;
    if rest == [] {
      assert Greedy(decode, [open], maxLen) by { GreedyOne(decode, open, maxLen); }
    } else {
      var r := decode(rest);
      var rune, tail := SplitNext(decode, rest, open, used, maxLen);
      AddRune(decode, open, rune, tail, r);
      if used + Size(r.code) > maxLen {
        OneRune(decode, rest);
        assert rest[..r.width] == rune;
        SplitGreedily(decode, tail, rune, Size(r.code), maxLen);
        NextPieceStarts(decode, rest, rune, tail, maxLen);
        GreedyCons(decode, open, Split(decode, tail, rune, Size(r.code), maxLen), maxLen);
      } else {
        SplitGreedily(decode, tail, open + rune, used + Size(r.code), maxLen);
      }
    }
  }

  lemma GreedyOne(decode: Decoder, open: seq<Byte>, maxLen: int)
    requires Lawful(decode) && Modest(decode, open, maxLen)
    ensures Greedy(decode, [open], maxLen)
  {
    hide Modest, Full;
  }

  lemma GreedySays(decode: Decoder, chunks: seq<seq<Byte>>, maxLen: int)
    requires Lawful(decode) && Greedy(decode, chunks, maxLen)
    ensures forall i :: 0 < i < |chunks| ==>
      chunks[i] != [] && |Utf16(decode, chunks[i - 1])| + |EncodeUtf16(decode(chunks[i]).code)| > maxLen
    ensures forall i :: 0 <= i < |chunks| ==> |Utf16(decode, chunks[i])| <= maxLen || |Runes(decode, chunks[i])| <= 1
  {
    hide Utf16, Runes, EncodeUtf16, Full, Modest;
    forall i | 0 < i < |chunks|
      ensures chunks[i] != [] && |Utf16(decode, chunks[i - 1])| + |EncodeUtf16(decode(chunks[i]).code)| > maxLen
    {
      FullSays(decode, chunks[i - 1], chunks[i], maxLen);
    }
    forall i | 0 <= i < |chunks| ensures |Utf16(decode, chunks[i])| <= maxLen || |Runes(decode, chunks[i])| <= 1 {
      ModestSays(decode, chunks[i], maxLen);
    }
  }

  lemma FullSays(decode: Decoder, piece: seq<Byte>, next: seq<Byte>, maxLen: int)
    requires Lawful(decode) && Full(decode, piece, next, maxLen)
    ensures next != [] && |Utf16(decode, piece)| + |EncodeUtf16(decode(next).code)| > maxLen
  {
    hide Utf16;
  }

  lemma ModestSays(decode: Decoder, piece: seq<Byte>, maxLen: int)
    requires Lawful(decode) && Modest(decode, piece, maxLen)
    ensures |Utf16(decode, piece)| <= maxLen || |Runes(decode, piece)| <= 1
  {
    hide Utf16, Runes;
  }

  lemma NothingOpen(decode: Decoder, maxLen: int)
    requires Lawful(decode)
    ensures |Utf16(decode, [])| == 0 && Modest(decode, [], maxLen)
  {
    NoRunes(decode);
  }

  /** The first piece is empty only in front of a first rune that does not fit. */
  lemma FirstPieceEmpty(decode: Decoder, text: seq<Byte>, maxLen: int)
    requires Lawful(decode) && text != []
    ensures var chunks := Split(decode, text, [], 0, maxLen);
      chunks != [] && (chunks[0] == [] <==> |EncodeUtf16(decode(text).code)| > maxLen)
  {
    hide Utf16, Runes, Boundary, Greedy;
    NothingOpen(decode, maxLen);
    var rune, tail := SplitNext(decode, text, [], 0, maxLen);
    assert [] + rune == rune && [] + (rune + tail) == rune + tail;
    assert Boundary(decode, rune + tail, 0) by { NoneBefore(decode, rune + tail); }
    AddRune(decode, [], rune, tail, decode(text));
    if Size(decode(text).code) <= maxLen {
      assert Modest(decode, rune, maxLen);
      SplitGreedily(decode, tail, rune, Size(decode(text).code), maxLen);
    }
  }

  lemma NoneBefore(decode: Decoder, text: seq<Byte>)
    requires Lawful(decode)
    ensures Boundary(decode, text, 0)
  {
  }

  /**
    For every limit, even one that no rune meets: no piece could have taken the next
    rune as well, and a piece is empty only in front of a first rune that does not fit.
   */
  lemma SplitIsGreedy(decode: Decoder, text: seq<Byte>, maxLen: int)
    requires Lawful(decode)
    ensures var chunks := Split(decode, text, [], 0, maxLen);
      && chunks != []
      && (forall i :: 0 < i < |chunks| ==>
            chunks[i] != [] && |Utf16(decode, chunks[i - 1])| + |EncodeUtf16(decode(chunks[i]).code)| > maxLen)
      && (forall i :: 0 <= i < |chunks| ==> |Utf16(decode, chunks[i])| <= maxLen || |Runes(decode, chunks[i])| <= 1)
      && (text != [] ==> (chunks[0] == [] <==> |EncodeUtf16(decode(text).code)| > maxLen))
  {
    hide Split, Runes, Utf16, Boundary, Greedy, EncodeUtf16;
    assert [] + text == text;
    NoneBefore(decode, text);
    NothingOpen(decode, maxLen);
    SplitGreedily(decode, text, [], 0, maxLen);
    GreedySays(decode, Split(decode, text, [], 0, maxLen), maxLen);
    if text != [] {
      FirstPieceEmpty(decode, text, maxLen);
    }
  }

  // ---------- the guarantee ----------

  /**
    For every text and limit: the pieces are the text, cut between runes; they meet
    the limit exactly when every single rune does; and no other way of cutting
    between runes within the limit has fewer pieces.
   */
  lemma SplitIsOptimal(decode: Decoder, text: seq<Byte>, maxLen: int)
    requires Lawful(decode)
    ensures var chunks := Split(decode, text, [], 0, maxLen);
      && chunks != [] && Flatten(chunks) == text && CutsAtRunes(decode, chunks, text)
      && (WithinLimit(decode, chunks, maxLen) <==> RunesFit(decode, text, maxLen))
      && forall other :: other != [] && CutsAtRunes(decode, other, text) && WithinLimit(decode, other, maxLen) ==>
           |chunks| <= |other|
  {
    var chunks := Split(decode, text, [], 0, maxLen);
    assert [] + text == text;
    SplitKeepsText(decode, text, [], 0, maxLen);
    SplitCutsAtRunes(decode, text, [], 0, maxLen);
    SplitCount(decode, text, [], 0, maxLen);
    if RunesFit(decode, text, maxLen) {
      SplitFits(decode, text, [], 0, maxLen);
    }
    if WithinLimit(decode, chunks, maxLen) {
      FittingPiecesNeedFittingRunes(decode, chunks, text, maxLen);
    }
    forall other | other != [] && CutsAtRunes(decode, other, text) && WithinLimit(decode, other, maxLen)
      ensures |chunks| <= |other|
    {
      NoFewerPieces(decode, other, text, maxLen);
    }
  }

  lemma LimitOfTwoAlwaysFits(decode: Decoder, text: seq<Byte>, maxLen: int)
    requires Lawful(decode)
    requires maxLen >= 2
    ensures WithinLimit(decode, Split(decode, text, [], 0, maxLen), maxLen)
  {
    SplitIsOptimal(decode, text, maxLen);
  }

  /** Below two a surrogate pair does not fit: U+1F600 against a limit of one. */
  lemma LimitOfOneCanBeBroken()
    ensures Lawful(Utf8.DecodeRune)
    ensures !WithinLimit(Utf8.DecodeRune, Split(Utf8.DecodeRune, [0xF0, 0x9F, 0x98, 0x80], [], 0, 1), 1)
  {
    Utf8.DecodeRuneIsLawful();
    var text: seq<Byte> := [0xF0, 0x9F, 0x98, 0x80];
    assert Utf8.DecodeRune(text) == Rune(0x1F600, 4);
    assert Utf8.DecodeRune(text) in Runes(Utf8.DecodeRune, text);
    SplitIsOptimal(Utf8.DecodeRune, text, 1);
  }
}
