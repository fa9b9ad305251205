/** Splitting an outbound message at blank lines, with a hard cut for whatever is still too long. */
module Chunker {
  import opened RuneRange
  import opened Sequences
  import Utf8

  type Text = seq<Byte>

  const HARD_CAP: int := 4096
  const SEP: Text := [10, 10]

  datatype Mode = Length | Newline

  // ---------- cutting by length ----------

  /** Whole lengths of `limit`, then the rest; no empty chunk unless the text is empty. */
  ghost predicate CutByLength(text: Text, limit: nat, chunks: seq<Text>) {
    && chunks != [] && Flatten(chunks) == text
    && (forall i :: 0 <= i < |chunks| - 1 ==> |chunks[i]| == limit)
    && |chunks[|chunks| - 1]| <= limit
    && (text != [] ==> chunks[|chunks| - 1] != [])
  }

  method SplitLength(text: Text, limit: nat) returns (out: seq<Text>)
    requires limit > 0
    ensures CutByLength(text, limit, out)
  {
    out := [];
    var left := text;
    while |left| > limit
      invariant Flatten(out) + left == text && (text != [] ==> left != [])
      invariant forall i :: 0 <= i < |out| ==> |out[i]| == limit
    {
      FlattenLast(out, left[..limit]);
      assert (Flatten(out) + left[..limit]) + left[limit..] == Flatten(out) + left;
      out := out + [left[..limit]];
      left := left[limit..];
    }
    FlattenLast(out, left);
    out := out + [left];
  }

  /** There is only one such cut. */
  lemma {:induction false} CutIsUnique(text: Text, limit: nat, a: seq<Text>, b: seq<Text>)
    requires limit > 0 && CutByLength(text, limit, a) && CutByLength(text, limit, b)
    ensures a == b
    decreases |a|
  {
    FlattenFirst(a);
    FlattenFirst(b);
    CutFirst(text, limit, a);
    CutFirst(text, limit, b);
    if |text| > limit {
      var rest := text[limit..];
      CutIsUnique(rest, limit, a[1..], b[1..]);
      assert a == [a[0]] + a[1..] && b == [b[0]] + b[1..];
    }
  }

  lemma CutFirst(text: Text, limit: nat, a: seq<Text>)
    requires limit > 0 && CutByLength(text, limit, a)
    ensures |text| <= limit ==> a == [text]
    ensures |text| > limit ==> a[0] == text[..limit] && CutByLength(text[limit..], limit, a[1..])
  {
    FlattenFirst(a);
    if |a| == 1 {
      assert a == [a[0]] && a[1..] == [];
      assert text == a[0];
    } else {
      FlattenConcat(a[1..|a| - 1], [a[|a| - 1]]);
      assert a[1..] == a[1..|a| - 1] + [a[|a| - 1]];
      assert Flatten(a[1..]) == Flatten(a[1..|a| - 1]) + a[|a| - 1];
      assert |a[0]| == limit;
    }
  }

  // ---------- paragraphs ----------

  /** strings.Split at blank lines: leftmost separators, not overlapping. */
  function Paragraphs(text: Text): (paras: seq<Text>)
    ensures paras != []
  {
    if text == [] then [[]]
    else if SEP <= text then [[]] + Paragraphs(text[2..])
    else
      var rest := Paragraphs(text[1..]);
      [[text[0]] + rest[0]] + rest[1..]
  }

  function Joined(paras: seq<Text>): Text {
    if paras == [] then []
    else if |paras| == 1 then paras[0]
    else Joined(paras[..|paras| - 1]) + SEP + paras[|paras| - 1]
  }

  lemma JoinedLast(paras: seq<Text>, p: Text)
    ensures Joined(paras + [p]) == if paras == [] then p else Joined(paras) + SEP + p
  {
    assert (paras + [p])[..|paras|] == paras;
  }

  lemma JoinedOne(p: Text)
    ensures Joined([p]) == p
  {
  }

  lemma {:induction false} JoinedConcat(a: seq<Text>, b: seq<Text>)
    requires a != [] && b != []
    ensures Joined(a + b) == Joined(a) + SEP + Joined(b)
  {
    hide Joined;
    var n := |b| - 1;
    assert a + b == (a + b[..n]) + [b[n]];
    JoinedLast(a + b[..n], b[n]);
    if n == 0 {
      assert a + b[..n] == a && b == [b[0]];
      JoinedOne(b[0]);
    } else {
      JoinedConcat(a, b[..n]);
      assert b == b[..n] + [b[n]];
      JoinedLast(b[..n], b[n]);
      Regroup(Joined(a) + SEP, Joined(b[..n]), SEP + b[n]);
      Regroup(Joined(b[..n]), SEP, b[n]);
      Regroup(Joined(a) + SEP + Joined(b[..n]), SEP, b[n]);
    }
  }

  lemma Regroup(a: Text, b: Text, c: Text)
    ensures (a + b) + c == a + (b + c)
  {
  }

  lemma {:induction false} JoinedPrefix(paras: seq<Text>, n: nat)
    requires n <= |paras|
    ensures |Joined(paras[..n])| <= |Joined(paras)|
  {
    if n < |paras| {
      var m := |paras| - 1;
      JoinedPrefix(paras[..m], n);
      assert paras[..m][..n] == paras[..n];
      assert paras == paras[..m] + [paras[m]];
      JoinedLast(paras[..m], paras[m]);
    } else {
      assert paras[..n] == paras;
    }
  }

  /** Joining the paragraphs with blank lines gives the text back. */
  lemma {:induction false} ParagraphsRejoin(text: Text)
    ensures Joined(Paragraphs(text)) == text
    decreases |text|
  {
    if text == [] {
    } else if SEP <= text {
      var rest := Paragraphs(text[2..]);
      ParagraphsRejoin(text[2..]);
      JoinedConcat([[]], rest);
      assert text == [] + SEP + text[2..];
    } else {
      var rest := Paragraphs(text[1..]);
      ParagraphsRejoin(text[1..]);
      PrependByte(text[0], rest);
      assert text == [text[0]] + text[1..];
    }
  }

  lemma PrependByte(b: Byte, paras: seq<Text>)
    requires paras != []
    ensures Joined([[b] + paras[0]] + paras[1..]) == [b] + Joined(paras)
  {
    var first, rest := paras[0], paras[1..];
    assert paras == [first] + rest;
    if rest == [] {
      assert [[b] + first] + rest == [[b] + first];
    } else {
      JoinedConcat([first], rest);
      JoinedConcat([[b] + first], rest);
      Regroup([b], first, SEP + Joined(rest));
    }
  }

  ghost predicate NoBlankLine(para: Text) {
    forall k :: 0 <= k < |para| - 1 ==> !(para[k] == 10 && para[k + 1] == 10)
  }

  /** Every blank line of the text is a cut: no paragraph has one inside. */
  lemma {:induction false} ParagraphsHaveNoBlankLine(text: Text)
    ensures forall i :: 0 <= i < |Paragraphs(text)| ==> NoBlankLine(Paragraphs(text)[i])
    ensures text != [] && Paragraphs(text)[0] != [] ==> Paragraphs(text)[0][0] == text[0]
  {
    if text != [] {
      if SEP <= text {
        ParagraphsHaveNoBlankLine(text[2..]);
      } else {
        ParagraphsHaveNoBlankLine(text[1..]);
        var rest := Paragraphs(text[1..]);
        var first := [text[0]] + rest[0];
        assert NoBlankLine(first) by {
          assert NoBlankLine(rest[0]);
          if |first| > 1 && first[0] == 10 && first[1] == 10 {
            assert false;
          }
          forall k | 1 <= k < |first| - 1 ensures !(first[k] == 10 && first[k + 1] == 10) {
            assert first[k] == rest[0][k - 1] && first[k + 1] == rest[0][k];
          }
        }
      }
    }
  }

  predicate EndsInNewline(para: Text) { para != [] && para[|para| - 1] == 10 }

  /** Where the cuts of strings.Split are: no paragraph has a blank line inside, and none but the last ends in a newline. */
  ghost predicate CutLeftmost(paras: seq<Text>) {
    && paras != []
    && (forall i :: 0 <= i < |paras| ==> NoBlankLine(paras[i]))
    && (forall i :: 0 <= i < |paras| - 1 ==> !EndsInNewline(paras[i]))
  }

  lemma BlankLineAt(text: Text)
    ensures SEP <= text <==> |text| >= 2 && text[0] == 10 && text[1] == 10
  {
  }

  lemma {:induction false} ParagraphsAreLeftmost(text: Text)
    ensures CutLeftmost(Paragraphs(text))
    ensures text != [] && Paragraphs(text)[0] == [] ==> SEP <= text
    decreases |text|
  {
    ParagraphsHaveNoBlankLine(text);
    hide NoBlankLine;
    if text == [] {
    } else if SEP <= text {
      ParagraphsAreLeftmost(text[2..]);
      var all, rest := Paragraphs(text), Paragraphs(text[2..]);
      assert forall i :: 0 < i < |all| ==> all[i] == rest[i - 1];
    } else {
      ParagraphsAreLeftmost(text[1..]);
      var all, rest := Paragraphs(text), Paragraphs(text[1..]);
      assert forall i :: 0 < i < |all| ==> all[i] == rest[i];
      BlankLineAt(text);
      BlankLineAt(text[1..]);
      assert rest[0] != [] ==> all[0][|all[0]| - 1] == rest[0][|rest[0]| - 1];
      assert |all| > 1 ==> !EndsInNewline(rest[0]);
    }
  }

  lemma {:induction false} OneParagraph(para: Text)
    requires NoBlankLine(para)
    ensures Paragraphs(para) == [para]
    decreases |para|
  {
    if para != [] {
      BlankLineAt(para);
      NoBlankLineRest(para);
      OneParagraph(para[1..]);
      assert para == [para[0]] + para[1..];
    }
  }

  lemma NoBlankLineRest(para: Text)
    requires NoBlankLine(para) && para != []
    ensures NoBlankLine(para[1..])
  {
    forall k | 0 <= k < |para[1..]| - 1 ensures !(para[1..][k] == 10 && para[1..][k + 1] == 10) {
      assert para[1..][k] == para[k + 1] && para[1..][k + 1] == para[k + 2];
    }
  }

  lemma {:induction false} FirstParagraph(para: Text, rest: Text)
    requires NoBlankLine(para) && !EndsInNewline(para)
    ensures Paragraphs(para + SEP + rest) == [para] + Paragraphs(rest)
    decreases |para|
  {
    var text := para + SEP + rest;
    if para == [] {
      assert text == SEP + rest && text[2..] == rest;
    } else {
      BlankLineAt(text);
      assert text[0] == para[0] && (|para| > 1 ==> text[1] == para[1]);
      NoBlankLineRest(para);
      FirstParagraph(para[1..], rest);
      assert text[1..] == para[1..] + SEP + rest;
      assert para == [para[0]] + para[1..];
    }
  }

  /** And these are the only paragraphs that are cut like that and give the text back. */
  lemma {:induction false} ParagraphsAreUnique(paras: seq<Text>)
    requires CutLeftmost(paras)
    ensures Paragraphs(Joined(paras)) == paras
    decreases |paras|
  {
    if |paras| == 1 {
      JoinedOne(paras[0]);
      OneParagraph(paras[0]);
      assert paras == [paras[0]];
    } else {
      var rest := paras[1..];
      hide NoBlankLine, EndsInNewline;
      assert CutLeftmost(rest) by {
        assert forall i :: 0 <= i < |rest| ==> rest[i] == paras[i + 1];
      }
      ParagraphsAreUnique(rest);
      JoinedConcat([paras[0]], rest);
      JoinedOne(paras[0]);
      assert paras == [paras[0]] + rest;
      FirstParagraph(paras[0], Joined(rest));
    }
  }

  // ---------- packing paragraphs ----------

  /** What becomes of the paragraphs: a group sent as one chunk, one cut by length, or an empty one dropped. */
  datatype Piece = Soft(paras: seq<Text>) | Hard(para: Text, cut: seq<Text>) | Blank

  function ParasOf(p: Piece): seq<Text> {
    match p
    case Soft(paras) => paras
    case Hard(para, _) => [para]
    case Blank => [[]]
  }

  function ChunksOf(p: Piece): seq<Text> {
    match p
    case Soft(paras) => [Joined(paras)]
    case Hard(_, cut) => cut
    case Blank => []
  }

  function AllParas(pieces: seq<Piece>): seq<Text> {
    if pieces == [] then [] else AllParas(pieces[..|pieces| - 1]) + ParasOf(pieces[|pieces| - 1])
  }

  function AllChunks(pieces: seq<Piece>): seq<Text> {
    if pieces == [] then [] else AllChunks(pieces[..|pieces| - 1]) + ChunksOf(pieces[|pieces| - 1])
  }

  /** A group starts with a real paragraph and fits; only a paragraph that does not fit is cut. */
  ghost predicate Sound(p: Piece, limit: nat) {
    match p
    case Soft(paras) => paras != [] && paras[0] != [] && |Joined(paras)| <= limit
    case Hard(para, cut) => |para| > limit && CutByLength(para, limit, cut)
    case Blank => true
  }

  /** A group was closed only because the next paragraph did not fit into it any more. */
  predicate ClosedFor(p: Piece, next: Piece, limit: nat) {
    p.Soft? && !next.Hard? && ParasOf(next) != []
    ==> |Joined(p.paras)| + |SEP| + |ParasOf(next)[0]| > limit
  }

  ghost predicate Packing(pieces: seq<Piece>, paras: seq<Text>, limit: nat) {
    && AllParas(pieces) == paras
    && (forall i :: 0 <= i < |pieces| ==> Sound(pieces[i], limit))
    && (forall i :: 0 < i < |pieces| ==> ClosedFor(pieces[i - 1], pieces[i], limit))
  }

  function Open(pieces: seq<Piece>, group: seq<Text>): seq<Piece> {
    if group == [] then pieces else pieces + [Soft(group)]
  }

  lemma PieceLast(pieces: seq<Piece>, p: Piece)
    ensures AllParas(pieces + [p]) == AllParas(pieces) + ParasOf(p)
    ensures AllChunks(pieces + [p]) == AllChunks(pieces) + ChunksOf(p)
  {
    assert (pieces + [p])[..|pieces|] == pieces;
  }

  /** One more piece after a packing. */
  lemma AddPiece(pieces: seq<Piece>, paras: seq<Text>, p: Piece, limit: nat)
    requires Packing(pieces, paras, limit) && Sound(p, limit)
    requires pieces != [] ==> ClosedFor(pieces[|pieces| - 1], p, limit)
    ensures Packing(pieces + [p], paras + ParasOf(p), limit)
  {
    PieceLast(pieces, p);
  }

  /** One more paragraph in the group at the end of a packing. */
  lemma GrowGroup(pieces: seq<Piece>, paras: seq<Text>, group: seq<Text>, p: Text, limit: nat)
    requires Packing(pieces + [Soft(group)], paras, limit) && |Joined(group + [p])| <= limit
    ensures Packing(pieces + [Soft(group + [p])], paras + [p], limit)
  {
    var before, after := pieces + [Soft(group)], pieces + [Soft(group + [p])];
    PieceLast(pieces, Soft(group));
    PieceLast(pieces, Soft(group + [p]));
    assert AllParas(pieces) + (group + [p]) == (AllParas(pieces) + group) + [p];
    assert Sound(before[|pieces|], limit);
    forall i | 0 < i < |after| ensures ClosedFor(after[i - 1], after[i], limit) {
      assert ClosedFor(before[i - 1], before[i], limit);
    }
    forall i | 0 <= i < |after| ensures Sound(after[i], limit) {
      assert i < |pieces| ==> Sound(before[i], limit);
    }
  }

  lemma SoftLast(pieces: seq<Piece>, group: seq<Text>)
    ensures AllChunks(pieces + [Soft(group)]) == AllChunks(pieces) + [Joined(group)]
  {
    PieceLast(pieces, Soft(group));
  }

  lemma HardLast(pieces: seq<Piece>, para: Text, cut: seq<Text>)
    ensures AllChunks(pieces + [Hard(para, cut)]) == AllChunks(pieces) + cut
  {
    PieceLast(pieces, Hard(para, cut));
  }

  lemma BlankLast(pieces: seq<Piece>)
    ensures AllChunks(pieces + [Blank]) == AllChunks(pieces)
  {
    PieceLast(pieces, Blank);
  }

  method SplitNewline(text: Text, limit: nat) returns (out: seq<Text>)
    requires limit > 0
    ensures exists pieces :: Packed(text, limit, out, pieces)
  {
    hide Packed, Packing, Joined, AllChunks, AllParas, Flatten, Paragraphs, CutByLength, ClosedFor, Sound, ParasOf, ChunksOf;
    var paras := Paragraphs(text);
    out := [];
    var cur: Text := [];
    ghost var pieces: seq<Piece> := [];
    ghost var group: seq<Text> := [];
    StartPacking(limit);
    assert paras[..0] == [];
    for i := 0 to |paras|
      invariant out == AllChunks(pieces)
      invariant cur == Joined(group) && (group == [] <==> cur == [])
      invariant group == [] && pieces != [] ==> !pieces[|pieces| - 1].Soft?
      invariant Packing(Open(pieces, group), paras[..i], limit)
    {
      var p := paras[i];
      assert paras[..i + 1] == paras[..i] + [p];
      if |p| > limit {
        if |cur| > 0 {
          SoftLast(pieces, group);
          out, pieces := out + [cur], pieces + [Soft(group)];
          cur, group := [], [];
          NoParas();
        }
        var cut := SplitLength(p, limit);
        HardLast(pieces, p, cut);
        CutPiece(pieces, paras[..i], p, cut, limit);
        out, pieces := out + cut, pieces + [Hard(p, cut)];
        continue;
      }
      var sep: Text := if |cur| > 0 then SEP else [];
      JoinedLast(group, p);
      if |cur| + |sep| + |p| > limit {
        SoftLast(pieces, group);
        out, pieces := out + [cur], pieces + [Soft(group)];
        cur, group := [], [];
        NoParas();
        StartGroup(pieces, paras[..i], p, limit);
        if p == [] { BlankLast(pieces); pieces := pieces + [Blank]; } else { group := [p]; }
        cur := p;
      } else if |cur| > 0 {
        GrowGroup(pieces, paras[..i], group, p, limit);
        cur, group := cur + sep + p, group + [p];
      } else {
        StartGroup(pieces, paras[..i], p, limit);
        if p == [] { BlankLast(pieces); pieces := pieces + [Blank]; } else { group := [p]; }
        cur := cur + sep + p;
      }
    }
    assert paras[..|paras|] == paras;
    assert Packing(Open(pieces, group), paras, limit);
    if |cur| > 0 {
      SoftLast(pieces, group);
      out, pieces := out + [cur], pieces + [Soft(group)];
    }
    if |out| == 0 {
      out := [[]];
    }
    IsPacked(text, limit, out, pieces);
  }

  /** The chunks sent for a text: those of its packing, or one empty chunk if there are none. */
  ghost predicate Packed(text: Text, limit: nat, out: seq<Text>, pieces: seq<Piece>) {
    Packing(pieces, Paragraphs(text), limit) && out == if AllChunks(pieces) == [] then [[]] else AllChunks(pieces)
  }

  lemma IsPacked(text: Text, limit: nat, out: seq<Text>, pieces: seq<Piece>)
    requires Packing(pieces, Paragraphs(text), limit)
    requires out == if AllChunks(pieces) == [] then [[]] else AllChunks(pieces)
    ensures Packed(text, limit, out, pieces)
  {
  }

  lemma CutPiece(pieces: seq<Piece>, paras: seq<Text>, p: Text, cut: seq<Text>, limit: nat)
    requires Packing(pieces, paras, limit) && |p| > limit && CutByLength(p, limit, cut)
    ensures Packing(pieces + [Hard(p, cut)], paras + [p], limit)
  {
    AddPiece(pieces, paras, Hard(p, cut), limit);
  }

  lemma NoParas()
    ensures Joined([]) == []
  {
  }

  lemma StartPacking(limit: nat)
    ensures Packing([], [], limit) && AllChunks([]) == [] && Joined([]) == []
  {
  }

  /** A paragraph that fits, after the last group was closed (or with none open). */
  lemma StartGroup(pieces: seq<Piece>, paras: seq<Text>, p: Text, limit: nat)
    requires Packing(pieces, paras, limit) && |p| <= limit
    requires pieces != [] && pieces[|pieces| - 1].Soft?
      ==> |Joined(pieces[|pieces| - 1].paras)| + |SEP| + |p| > limit
    ensures Joined([p]) == p
    ensures Packing(pieces + [if p == [] then Blank else Soft([p])], paras + [p], limit)
  {
    AddPiece(pieces, paras, if p == [] then Blank else Soft([p]), limit);
  }

  // ---------- the text comes back ----------

  function Seps(k: nat): Text {
    if k == 0 then [] else Seps(k - 1) + SEP
  }

  /** The chunks with `counts[i]` separators before the i-th, and `counts[|chunks|]` after the last. */
  function Weave(counts: seq<nat>, chunks: seq<Text>): Text
    requires |counts| == |chunks| + 1
  {
    if chunks == [] then Seps(counts[0])
    else
      var n := |chunks| - 1;
      Weave(counts[..n + 1], chunks[..n]) + chunks[n] + Seps(counts[n + 1])
  }

  lemma WeaveLast(counts: seq<nat>, chunks: seq<Text>, k: nat, c: Text)
    requires |counts| == |chunks| + 1
    ensures Weave(counts + [k], chunks + [c]) == Weave(counts, chunks) + c + Seps(k)
  {
    assert (counts + [k])[..|counts|] == counts && (chunks + [c])[..|chunks|] == chunks;
  }

  /** A separator more at the end. */
  lemma WeaveBump(counts: seq<nat>, chunks: seq<Text>)
    requires |counts| == |chunks| + 1
    ensures Weave(counts[|chunks| := counts[|chunks|] + 1], chunks) == Weave(counts, chunks) + SEP
  {
    var n := |chunks|;
    var more := counts[n := counts[n] + 1];
    if n > 0 {
      assert more[..n] == counts[..n];
      Regroup(Weave(counts[..n], chunks[..n - 1]) + chunks[n - 1], Seps(counts[n]), SEP);
    }
  }

  /** Chunks with nothing between them. */
  lemma {:induction false} WeaveAll(counts: seq<nat>, chunks: seq<Text>, more: seq<Text>) returns (counts': seq<nat>)
    requires |counts| == |chunks| + 1
    ensures |counts'| == |chunks + more| + 1
    ensures Weave(counts', chunks + more) == Weave(counts, chunks) + Flatten(more)
  {
    if more == [] {
      assert chunks + more == chunks;
      counts' := counts;
    } else {
      var n := |more| - 1;
      var c := WeaveAll(counts, chunks, more[..n]);
      assert chunks + more == (chunks + more[..n]) + [more[n]];
      WeaveLast(c, chunks + more[..n], 0, more[n]);
      Regroup(Weave(counts, chunks), Flatten(more[..n]), more[n]);
      counts' := c + [0];
    }
  }

  lemma PieceText(p: Piece, limit: nat)
    requires Sound(p, limit)
    ensures ParasOf(p) != [] && Flatten(ChunksOf(p)) == Joined(ParasOf(p))
  {
    match p
    case Soft(paras) => assert Flatten([Joined(paras)]) == Joined(paras);
    case Hard(para, _) => JoinedOne(para);
    case Blank => JoinedOne([]);
  }

  /** The chunks of a packing, with separators put back, are the paragraphs joined by blank lines. */
  lemma {:induction false} PackingWeaves(pieces: seq<Piece>, paras: seq<Text>, limit: nat) returns (counts: seq<nat>)
    requires Packing(pieces, paras, limit)
    ensures |counts| == |AllChunks(pieces)| + 1
    ensures Weave(counts, AllChunks(pieces)) == Joined(paras)
    decreases |pieces|
  {
    if pieces == [] {
      counts := [0];
    } else {
      var n := |pieces| - 1;
      var init, last := pieces[..n], pieces[n];
      assert pieces == init + [last];
      PieceLast(init, last);
      assert Sound(last, limit);
      PieceText(last, limit);
      InitPacking(pieces, paras, limit);
      var before := PackingWeaves(init, AllParas(init), limit);
      var chunks := AllChunks(init);
      if init == [] {
        assert AllParas(init) == [] && paras == ParasOf(last);
        counts := WeaveAll(before, chunks, ChunksOf(last));
      } else {
        WeaveBump(before, chunks);
        JoinedConcat(AllParas(init), ParasOf(last));
        counts := WeaveAll(before[|chunks| := before[|chunks|] + 1], chunks, ChunksOf(last));
      }
    }
  }

  lemma InitPacking(pieces: seq<Piece>, paras: seq<Text>, limit: nat)
    requires Packing(pieces, paras, limit) && pieces != []
    ensures var n := |pieces| - 1;
      && Packing(pieces[..n], AllParas(pieces[..n]), limit)
      && (n > 0 ==> AllParas(pieces[..n]) != [])
  {
    var n := |pieces| - 1;
    var init := pieces[..n];
    forall i | 0 <= i < n ensures Sound(init[i], limit) {
      assert Sound(pieces[i], limit);
    }
    forall i | 0 < i < n ensures ClosedFor(init[i - 1], init[i], limit) {
      assert ClosedFor(pieces[i - 1], pieces[i], limit);
    }
    if n > 0 {
      assert Sound(pieces[n - 1], limit);
      PieceText(pieces[n - 1], limit);
      assert init == init[..n - 1] + [pieces[n - 1]];
      PieceLast(init[..n - 1], pieces[n - 1]);
    }
  }

  // ---------- sizes, and when nothing is left ----------

  ghost predicate Sized(chunks: seq<Text>, limit: nat) {
    forall i :: 0 <= i < |chunks| ==> 1 <= |chunks[i]| <= limit
  }

  lemma CutSizes(text: Text, limit: nat, cut: seq<Text>)
    requires CutByLength(text, limit, cut) && text != [] && limit > 0
    ensures Sized(cut, limit)
  {
  }

  lemma {:induction false} JoinedAtLeast(paras: seq<Text>)
    requires paras != []
    ensures |Joined(paras)| >= |paras[0]|
  {
    JoinedPrefix(paras, 1);
    assert paras[..1] == [paras[0]];
    JoinedOne(paras[0]);
  }

  lemma {:induction false} PackingSizes(pieces: seq<Piece>, limit: nat)
    requires limit > 0 && forall i :: 0 <= i < |pieces| ==> Sound(pieces[i], limit)
    ensures Sized(AllChunks(pieces), limit)
    ensures AllChunks(pieces) == [] <==> forall i :: 0 <= i < |pieces| ==> pieces[i] == Blank
  {
    if pieces != [] {
      var n := |pieces| - 1;
      var init, last := pieces[..n], pieces[n];
      assert pieces == init + [last];
      PackingSizes(init, limit);
      PieceLast(init, last);
      assert Sound(last, limit);
      match last
      case Soft(paras) => JoinedAtLeast(paras);
      case Hard(para, cut) => CutSizes(para, limit, cut);
      case Blank =>
    }
  }

  predicate AllEmpty(paras: seq<Text>) {
    forall i :: 0 <= i < |paras| ==> paras[i] == []
  }

  lemma BlankPiece(p: Piece, limit: nat)
    requires Sound(p, limit)
    ensures AllEmpty(ParasOf(p)) <==> p == Blank
  {
    if p.Soft? { assert p.paras[0] != []; }
    if p.Hard? { assert ParasOf(p)[0] == p.para; }
  }

  lemma {:induction false} BlankParas(pieces: seq<Piece>, limit: nat)
    requires forall i :: 0 <= i < |pieces| ==> Sound(pieces[i], limit)
    ensures AllEmpty(AllParas(pieces)) <==> forall i :: 0 <= i < |pieces| ==> pieces[i] == Blank
  {
    if pieces != [] {
      var n := |pieces| - 1;
      var init, last := pieces[..n], pieces[n];
      assert pieces == init + [last];
      BlankParas(init, limit);
      PieceLast(init, last);
      assert Sound(last, limit);
      var a, b := AllParas(init), ParasOf(last);
      assert AllEmpty(a + b) <==> AllEmpty(a) && AllEmpty(b) by {
        assert forall i :: 0 <= i < |b| ==> (a + b)[|a| + i] == b[i];
        assert forall i :: 0 <= i < |a| ==> (a + b)[i] == a[i];
      }
      BlankPiece(last, limit);
    }
  }

  lemma {:induction false} SepsFirst(k: nat)
    requires k > 0
    ensures Seps(k) == SEP + Seps(k - 1)
  {
    if k > 1 {
      SepsFirst(k - 1);
      Regroup(SEP, Seps(k - 2), SEP);
    }
  }

  lemma {:induction false} ParagraphsOfSeps(k: nat)
    ensures AllEmpty(Paragraphs(Seps(k)))
  {
    if k > 0 {
      SepsFirst(k);
      ParagraphsOfSeps(k - 1);
      assert Seps(k)[2..] == Seps(k - 1);
    }
  }

  lemma {:induction false} EmptyParasAreSeps(paras: seq<Text>)
    requires paras != [] && AllEmpty(paras)
    ensures Joined(paras) == Seps(|paras| - 1)
  {
    if |paras| > 1 {
      EmptyParasAreSeps(paras[..|paras| - 1]);
      assert Joined(paras) == Seps(|paras| - 2) + SEP + [];
    }
  }

  ghost predicate OnlySeparators(text: Text) {
    exists k :: text == Seps(k)
  }

  /** Nothing to send exactly when the text is blank lines and nothing else. */
  lemma {:induction false} NothingLeft(text: Text, pieces: seq<Piece>, limit: nat)
    requires limit > 0 && Packing(pieces, Paragraphs(text), limit)
    ensures AllChunks(pieces) == [] <==> OnlySeparators(text)
  {
    PackingSizes(pieces, limit);
    BlankParas(pieces, limit);
    if AllEmpty(Paragraphs(text)) {
      EmptyParasAreSeps(Paragraphs(text));
      ParagraphsRejoin(text);
    }
    if OnlySeparators(text) {
      var k :| text == Seps(k);
      ParagraphsOfSeps(k);
    }
  }

  // ---------- only one packing ----------

  lemma {:induction false} AllParasFirst(pieces: seq<Piece>)
    requires pieces != []
    ensures AllParas(pieces) == ParasOf(pieces[0]) + AllParas(pieces[1..])
  {
    var n := |pieces| - 1;
    if n == 0 {
      assert pieces == [] + [pieces[0]];
      PieceLast([], pieces[0]);
    } else {
      hide AllParas;
      AllParasFirst(pieces[..n]);
      var middle := pieces[..n][1..];
      assert pieces == pieces[..n] + [pieces[n]] && pieces[1..] == middle + [pieces[n]];
      PieceLast(pieces[..n], pieces[n]);
      PieceLast(middle, pieces[n]);
      RegroupParas(ParasOf(pieces[0]), AllParas(middle), ParasOf(pieces[n]));
    }
  }

  lemma NoPieces()
    ensures AllParas([]) == []
  {
  }

  lemma RegroupParas(a: seq<Text>, b: seq<Text>, c: seq<Text>)
    ensures (a + b) + c == a + (b + c)
  {
  }

  lemma RestPacking(pieces: seq<Piece>, paras: seq<Text>, limit: nat)
    requires Packing(pieces, paras, limit) && pieces != []
    ensures var p := ParasOf(pieces[0]);
      && p != [] && p <= paras
      && Packing(pieces[1..], paras[|p|..], limit)
  {
    assert Sound(pieces[0], limit);
    AllParasFirst(pieces);
    var rest := pieces[1..];
    forall i | 0 <= i < |rest| ensures Sound(rest[i], limit) {
      assert Sound(pieces[i + 1], limit);
    }
    forall i | 0 < i < |rest| ensures ClosedFor(rest[i - 1], rest[i], limit) {
      assert ClosedFor(pieces[i], pieces[i + 1], limit);
    }
  }

  /**
    What a packing is worth, in bytes sent: a group fits the limit and the next
    paragraph joined to it does not, unless that one is cut by length, which only
    those longer than the limit are.
   */
  lemma GroupsAreFull(pieces: seq<Piece>, paras: seq<Text>, limit: nat, i: nat)
    requires Packing(pieces, paras, limit) && i < |pieces|
    ensures match pieces[i]
      case Soft(group) => && group != [] && |Joined(group)| <= limit
                          && (i + 1 < |pieces| && !pieces[i + 1].Hard? ==>
                                ParasOf(pieces[i + 1]) != [] && |Joined(group + [ParasOf(pieces[i + 1])[0]])| > limit)
      case Hard(para, cut) => |para| > limit && Flatten(cut) == para && forall j :: 0 <= j < |cut| - 1 ==> |cut[j]| == limit
      case Blank => true
  {
    hide Joined;
    assert Sound(pieces[i], limit);
    if pieces[i].Soft? && i + 1 < |pieces| {
      assert ClosedFor(pieces[i + 1 - 1], pieces[i + 1], limit) && Sound(pieces[i + 1], limit);
      JoinedLast(pieces[i].paras, ParasOf(pieces[i + 1])[0]);
    }
  }

  lemma NextFits(g: seq<Text>, h: seq<Text>)
    requires g < h && g != []
    ensures |Joined(g)| + |SEP| + |h[|g|]| <= |Joined(h)|
  {
    assert h[..|g| + 1] == g + [h[|g|]];
    hide Joined;
    JoinedLast(g, h[|g|]);
    JoinedPrefix(h, |g| + 1);
  }

  /** A group cannot stop short of what another group of the same paragraphs could still take. */
  lemma GroupsAgree(a: seq<Piece>, b: seq<Piece>, paras: seq<Text>, limit: nat)
    requires Packing(a, paras, limit) && Packing(b, paras, limit) && a != [] && b != []
    requires a[0].Soft? && b[0].Soft?
    ensures |b[0].paras| <= |a[0].paras|
  {
    hide AllParas, Joined, CutByLength;
    RestPacking(a, paras, limit);
    RestPacking(b, paras, limit);
    var g, h := a[0].paras, b[0].paras;
    assert Sound(a[0], limit) && Sound(b[0], limit);
    if |g| < |h| {
      NoPieces();
      RestPacking(a[1..], paras[|g|..], limit);
      assert Sound(a[1], limit) && ClosedFor(a[0], a[1], limit);
      assert ParasOf(a[1])[0] == paras[|g|] == h[|g|];
      NextFits(g, h);
    }
  }

  lemma FirstAgrees(a: seq<Piece>, b: seq<Piece>, paras: seq<Text>, limit: nat)
    requires Packing(a, paras, limit) && Packing(b, paras, limit) && a != [] && b != [] && limit > 0
    ensures a[0] == b[0]
  {
    RestPacking(a, paras, limit);
    RestPacking(b, paras, limit);
    assert Sound(a[0], limit) && Sound(b[0], limit);
    FirstKind(a[0], paras[0], limit);
    FirstKind(b[0], paras[0], limit);
    if a[0].Soft? {
      GroupsAgree(a, b, paras, limit);
      GroupsAgree(b, a, paras, limit);
    } else if a[0].Hard? {
      CutIsUnique(paras[0], limit, a[0].cut, b[0].cut);
    }
  }

  lemma FirstKind(p: Piece, first: Text, limit: nat)
    requires Sound(p, limit) && ParasOf(p) != [] && ParasOf(p)[0] == first
    ensures p.Hard? <==> |first| > limit
    ensures p.Blank? <==> first == []
  {
    if p.Soft? { JoinedAtLeast(p.paras); }
  }

  /** The packing, and with it the chunks, is determined by the text and the limit. */
  lemma {:induction false} PackingIsUnique(a: seq<Piece>, b: seq<Piece>, paras: seq<Text>, limit: nat)
    requires Packing(a, paras, limit) && Packing(b, paras, limit) && limit > 0
    ensures a == b
    decreases |a|
  {
    if a == [] || b == [] {
      if a != [] { RestPacking(a, paras, limit); }
      if b != [] { RestPacking(b, paras, limit); }
    } else {
      FirstAgrees(a, b, paras, limit);
      RestPacking(a, paras, limit);
      RestPacking(b, paras, limit);
      PackingIsUnique(a[1..], b[1..], paras[|ParasOf(a[0])|..], limit);
      assert a == [a[0]] + a[1..] && b == [b[0]] + b[1..];
    }
  }

  // ---------- the entry point ----------

  function Clamped(limit: int): (l: nat)
    ensures (1 <= limit <= 4096 ==> l == limit) && (limit <= 0 || limit > 4096 ==> l == 4096)
  {
    if limit <= 0 || limit > HARD_CAP then HARD_CAP else limit
  }

  lemma EmptyChunk(counts: seq<nat>)
    requires |counts| == 1
    ensures Weave(counts + [0], [[]]) == Weave(counts, []) && Flatten<Byte>([[]]) == []
  {
    var none: seq<Text> := [];
    assert none + [[]] == [[]];
    WeaveLast(counts, none, 0, []);
    FlattenLast(none, []);
  }

  /**
    Chunks of 1 to the clamped limit of bytes (or the single empty chunk); the text
    is the chunks with zero or more blank lines put back around and between them,
    none at all when cutting by length.
   */
  method Split(text: Text, mode: Mode, limit: int) returns (chunks: seq<Text>, ghost counts: seq<nat>)
    ensures chunks == [[]] || Sized(chunks, Clamped(limit))
    ensures chunks == [[]] <==> if mode.Newline? then OnlySeparators(text) else text == []
    ensures |counts| == |chunks| + 1 && Weave(counts, chunks) == text
    ensures mode.Length? ==> CutByLength(text, Clamped(limit), chunks)
    ensures mode.Newline? && text != [] ==> exists pieces :: Packed(text, Clamped(limit), chunks, pieces)
  {
    var l := Clamped(limit);
    if text == [] {
      assert text == Seps(0);
      EmptyChunk([0]);
      chunks, counts := [[]], [0] + [0];
      return;
    }
    if mode.Newline? {
      chunks := SplitNewline(text, l);
      ghost var pieces :| Packed(text, l, chunks, pieces);
      ParagraphsRejoin(text);
      NothingLeft(text, pieces, l);
      PackingSizes(pieces, l);
      counts := PackingWeaves(pieces, Paragraphs(text), l);
      if AllChunks(pieces) == [] {
        EmptyChunk(counts);
        counts := counts + [0];
      }
      return;
    }
    chunks := SplitLength(text, l);
    CutSizes(text, l, chunks);
    counts := WeaveAll([0], [], chunks);
    assert [] + chunks == chunks;
  }

  // ---------- when the cuts fall between runes ----------

  /** The runes of a list of chunks, each decoded on its own. */
  ghost function CharsOf(chunks: seq<Text>): seq<Rune> {
    if chunks == [] then [] else Utf8.Chars(chunks[0]) + CharsOf(chunks[1..])
  }

  /** Every multiple of the limit inside the text is the start of a rune. */
  ghost predicate WholeRunes(text: Text, limit: nat)
    requires limit > 0
  {
    forall n: nat :: 0 < n < |text| && n % limit == 0 ==> Utf8.AtRune(text, n)
  }

  lemma CharsWidths(s: Text)
    ensures Widths(Utf8.Chars(s)) == |s|
    ensures NoneEmpty(Utf8.Chars(s))
  {
    Utf8.DecodeRuneIsLawful();
    WidthsOfRunes(Utf8.DecodeRune, s);
  }

  /** Beyond a cut between runes, the multiples of the limit are those of the rest. */
  lemma WholeRunesRest(text: Text, limit: nat)
    requires 0 < limit < |text| && Utf8.AtRune(text, limit)
    ensures WholeRunes(text, limit) <==> WholeRunes(text[limit..], limit)
  {
    Utf8.DecodeRuneIsLawful();
    var a, b := text[..limit], text[limit..];
    assert text == a + b;
    forall n: nat | 0 < n < |b| && n % limit == 0 ensures Utf8.AtRune(text, limit + n) <==> Utf8.AtRune(b, n) {
      BoundaryShift(Utf8.DecodeRune, a, b, n);
    }
    if WholeRunes(b, limit) {
      forall n: nat | 0 < n < |text| && n % limit == 0 ensures Utf8.AtRune(text, n) {
        if n != limit {
          NextMultiple(n, limit);
          assert Utf8.AtRune(b, n - limit);
        }
      }
    }
    if WholeRunes(text, limit) {
      forall n: nat | 0 < n < |b| && n % limit == 0 ensures Utf8.AtRune(b, n) {
        NextMultiple(limit + n, limit);
        assert Utf8.AtRune(text, limit + n);
      }
    }
  }

  lemma NextMultiple(n: nat, limit: nat)
    requires 0 < limit && 0 < n && n != limit
    ensures n >= limit ==> (n % limit == 0 <==> (n - limit) % limit == 0)
    ensures n < limit ==> n % limit != 0
  {
    if n >= limit {
      var q, r := (n - limit) / limit, (n - limit) % limit;
      assert n == (q + 1) * limit + r;
      QuotientIs(n, limit, q + 1, r);
    }
  }

  lemma Product(k: int, d: nat)
    requires k >= 1
    ensures k * d >= d
  {
    assert k * d == (k - 1) * d + d;
  }

  lemma QuotientIs(n: nat, d: nat, q: nat, r: nat)
    requires 0 < d && r < d && n == q * d + r
    ensures n % d == r
  {
    var q', r' := n / d, n % d;
    assert (q' - q) * d == r - r';
    assert (q - q') * d == r' - r;
    if q' > q {
      Product(q' - q, d);
    } else if q' < q {
      Product(q - q', d);
    }
  }

  lemma CharsCut(a: Text, b: Text)
    ensures Utf8.Chars(a + b) == Utf8.Chars(a) + Utf8.Chars(b) <==> Utf8.AtRune(a + b, |a|)
  {
    Utf8.DecodeRuneIsLawful();
    CutKeepsRunesIff(Utf8.DecodeRune, a, b);
  }

  lemma {:induction false} CharsOfWidths(chunks: seq<Text>)
    ensures Widths(CharsOf(chunks)) == |Flatten(chunks)|
    ensures NoneEmpty(CharsOf(chunks))
  {
    if chunks != [] {
      FlattenFirst(chunks);
      CharsWidths(chunks[0]);
      CharsOfWidths(chunks[1..]);
      WidthsConcat(Utf8.Chars(chunks[0]), CharsOf(chunks[1..]));
    }
  }

  lemma CharsPrefix(text: Text, first: seq<Rune>, rest: seq<Rune>)
    requires Utf8.Chars(text) == first + rest
    ensures Utf8.AtRune(text, Widths(first))
  {
    Utf8.DecodeRuneIsLawful();
    PrefixEndsAtBoundary(Utf8.DecodeRune, text, first, rest);
  }

  lemma CharsOfOne(chunk: Text)
    ensures CharsOf([chunk]) == Utf8.Chars(chunk)
  {
    assert CharsOf([]) == [];
  }

  lemma SamePrefix(a: seq<Rune>, b: seq<Rune>, c: seq<Rune>)
    ensures a + b == a + c <==> b == c
  {
    assert (a + b)[|a|..] == b && (a + c)[|a|..] == c;
  }

  /** Chunks cut by length read as the text does if and only if every multiple of the limit starts a rune. */
  lemma {:induction false} LengthKeepsRunesIff(text: Text, limit: nat, chunks: seq<Text>)
    requires limit > 0 && CutByLength(text, limit, chunks)
    ensures CharsOf(chunks) == Utf8.Chars(text) <==> WholeRunes(text, limit)
    decreases |text|
  {
    hide Utf8.Chars, Utf8.AtRune, Utf8.DecodeRune, Widths;
    CutFirst(text, limit, chunks);
    if |text| <= limit {
      CharsOfOne(text);
    } else {
      hide CutByLength;
      var a, b := text[..limit], text[limit..];
      assert text == a + b;
      LengthKeepsRunesIff(b, limit, chunks[1..]);
      if Utf8.AtRune(text, limit) {
        CharsCut(a, b);
        WholeRunesRest(text, limit);
        SamePrefix(Utf8.Chars(a), CharsOf(chunks[1..]), Utf8.Chars(b));
      } else {
        assert limit % limit == 0;
        CharsWidths(a);
        if CharsOf(chunks) == Utf8.Chars(text) { CharsPrefix(text, Utf8.Chars(a), CharsOf(chunks[1..])); }
      }
    }
  }

  // ---------- the same for packed paragraphs ----------

  /** What a packing sends, piece by piece, with a blank line put back between pieces. */
  ghost function CharsSent(pieces: seq<Piece>): seq<Rune> {
    if pieces == [] then []
    else
      var last := CharsOf(ChunksOf(pieces[|pieces| - 1]));
      if |pieces| == 1 then last else CharsSent(pieces[..|pieces| - 1]) + Utf8.Chars(SEP) + last
  }

  lemma CharsSentLast(pieces: seq<Piece>, p: Piece)
    ensures CharsSent(pieces + [p]) ==
      if pieces == [] then CharsOf(ChunksOf(p)) else CharsSent(pieces) + Utf8.Chars(SEP) + CharsOf(ChunksOf(p))
  {
    assert (pieces + [p])[..|pieces|] == pieces;
  }

  /** Around a blank line a text decodes as its parts do. */
  lemma CharsAroundBlankLine(a: Text, b: Text)
    ensures Utf8.Chars(a + SEP + b) == Utf8.Chars(a) + Utf8.Chars(SEP) + Utf8.Chars(b)
  {
    var text := a + SEP + b;
    assert text[|a|] == 10 && text[|a| + 1] == 10;
    Utf8.AsciiIsOneRune(text, |a| + 1);
    CharsCut(a + SEP, b);
    assert (a + SEP)[|a|] == 10;
    Utf8.AsciiIsOneRune(a + SEP, |a|);
    CharsCut(a, SEP);
  }

  ghost predicate AllWhole(paras: seq<Text>, limit: nat)
    requires limit > 0
  {
    forall i :: 0 <= i < |paras| ==> WholeRunes(paras[i], limit)
  }

  lemma AllWholeConcat(a: seq<Text>, b: seq<Text>, limit: nat)
    requires limit > 0
    ensures AllWhole(a + b, limit) <==> AllWhole(a, limit) && AllWhole(b, limit)
  {
    if AllWhole(a + b, limit) {
      assert forall i :: 0 <= i < |a| ==> (a + b)[i] == a[i];
      assert forall i :: 0 <= i < |b| ==> (a + b)[|a| + i] == b[i];
    }
  }

  lemma {:induction false} ParaFits(paras: seq<Text>, i: nat)
    requires i < |paras|
    ensures |paras[i]| <= |Joined(paras)|
  {
    var m := |paras| - 1;
    if i < m {
      ParaFits(paras[..m], i);
    }
  }

  lemma ShortIsWhole(para: Text, limit: nat)
    requires limit > 0 && |para| <= limit
    ensures WholeRunes(para, limit)
  {
    hide Utf8.AtRune;
    forall n: nat | 0 < n < |para| ensures n % limit != 0 {
      NextMultiple(n, limit);
    }
  }

  lemma GroupIsWhole(paras: seq<Text>, limit: nat)
    requires limit > 0 && |Joined(paras)| <= limit
    ensures AllWhole(paras, limit)
  {
    hide Joined, WholeRunes;
    forall i | 0 <= i < |paras| ensures WholeRunes(paras[i], limit) {
      ParaFits(paras, i);
      ShortIsWhole(paras[i], limit);
    }
  }

  /** A group is decoded as it stands; a cut paragraph is, exactly when its cuts fall between runes. */
  lemma PieceKeepsRunesIff(p: Piece, limit: nat)
    requires limit > 0 && Sound(p, limit)
    ensures CharsOf(ChunksOf(p)) == Utf8.Chars(Joined(ParasOf(p))) <==> AllWhole(ParasOf(p), limit)
    ensures Widths(CharsOf(ChunksOf(p))) == |Joined(ParasOf(p))|
  {
    hide Utf8.Chars, WholeRunes, CharsOf, Widths;
    match p
    case Soft(paras) =>
      GroupIsWhole(paras, limit);
      hide Joined, AllWhole;
      CharsOfOne(Joined(paras));
      CharsWidths(Joined(paras));
    case Hard(para, cut) =>
      LengthKeepsRunesIff(para, limit, cut);
      CharsOfWidths(cut);
    case Blank =>
      NoChars();
      GroupIsWhole([[]], limit);
  }

  lemma NoChars()
    ensures CharsOf([]) == Utf8.Chars([]) == [] && Widths([]) == 0
  {
  }

  /** Two parts around a blank line match their texts together exactly when each does. */
  lemma PartsAroundBlankLine(x: seq<Rune>, y: seq<Rune>, a: Text, b: Text)
    requires Widths(x) == |a| && NoneEmpty(x)
    ensures x + Utf8.Chars(SEP) + y == Utf8.Chars(a + SEP + b) <==> x == Utf8.Chars(a) && y == Utf8.Chars(b)
  {
    hide Utf8.Chars, Widths;
    var nl := Utf8.Chars(SEP);
    CharsAroundBlankLine(a, b);
    CharsWidths(a);
    if x + nl + y == Utf8.Chars(a + SEP + b) {
      assert x + (nl + y) == x + nl + y && Utf8.Chars(a) + (nl + Utf8.Chars(b)) == Utf8.Chars(a) + nl + Utf8.Chars(b);
      SameWidthSameParts(x, nl + y, Utf8.Chars(a), nl + Utf8.Chars(b));
      SamePrefix(nl, y, Utf8.Chars(b));
    }
  }

  lemma SomeParas(pieces: seq<Piece>, limit: nat)
    requires pieces != [] && Sound(pieces[|pieces| - 1], limit)
    ensures AllParas(pieces) != []
  {
  }

  /** The last piece of a packing, in the text and in what is sent. */
  lemma LastSent(init: seq<Piece>, p: Piece, limit: nat)
    requires Sound(p, limit) && (init != [] ==> Sound(init[|init| - 1], limit))
    ensures AllParas(init + [p]) == AllParas(init) + ParasOf(p)
    ensures Joined(AllParas(init + [p])) ==
      if init == [] then Joined(ParasOf(p)) else Joined(AllParas(init)) + SEP + Joined(ParasOf(p))
    ensures CharsSent(init + [p]) ==
      if init == [] then CharsOf(ChunksOf(p)) else CharsSent(init) + Utf8.Chars(SEP) + CharsOf(ChunksOf(p))
  {
    hide Joined, CharsSent, Utf8.Chars, CharsOf;
    PieceLast(init, p);
    CharsSentLast(init, p);
    if init == [] {
      NoPieces();
      assert AllParas(init) + ParasOf(p) == ParasOf(p);
    } else {
      SomeParas(init, limit);
      JoinedConcat(AllParas(init), ParasOf(p));
    }
  }

  lemma JoinRunes(a: seq<Rune>, b: seq<Rune>, c: seq<Rune>)
    ensures Widths(a + b + c) == Widths(a) + Widths(b) + Widths(c)
    ensures NoneEmpty(a) && NoneEmpty(b) && NoneEmpty(c) ==> NoneEmpty(a + b + c)
  {
    WidthsConcat(a, b);
    WidthsConcat(a + b, c);
  }

  lemma {:induction false} SentWidths(pieces: seq<Piece>, limit: nat)
    requires limit > 0 && forall i :: 0 <= i < |pieces| ==> Sound(pieces[i], limit)
    ensures Widths(CharsSent(pieces)) == |Joined(AllParas(pieces))|
    ensures NoneEmpty(CharsSent(pieces))
  {
    if pieces == [] {
      NoChars();
    } else {
      hide Utf8.Chars, Widths, NoneEmpty, CharsOf, Sound, AllParas, Joined, CharsSent, ChunksOf;
      var n := |pieces| - 1;
      var init, p := pieces[..n], pieces[n];
      assert pieces == init + [p];
      LastSent(init, p, limit);
      PieceKeepsRunesIff(p, limit);
      CharsOfWidths(ChunksOf(p));
      if init != [] {
        SentWidths(init, limit);
        CharsWidths(SEP);
        JoinRunes(CharsSent(init), Utf8.Chars(SEP), CharsOf(ChunksOf(p)));
      }
    }
  }

  lemma {:induction false} SentKeepsRunesIff(pieces: seq<Piece>, limit: nat)
    requires limit > 0 && forall i :: 0 <= i < |pieces| ==> Sound(pieces[i], limit)
    ensures CharsSent(pieces) == Utf8.Chars(Joined(AllParas(pieces))) <==> AllWhole(AllParas(pieces), limit)
  {
    if pieces == [] {
      NoChars();
    } else {
      hide Utf8.Chars, Widths, CharsOf, Sound, AllParas, Joined, CharsSent, ChunksOf, AllWhole;
      var n := |pieces| - 1;
      var init, p := pieces[..n], pieces[n];
      assert pieces == init + [p];
      LastSent(init, p, limit);
      PieceKeepsRunesIff(p, limit);
      AllWholeConcat(AllParas(init), ParasOf(p), limit);
      if init == [] {
        NothingIsWhole(limit);
      } else {
        SentKeepsRunesIff(init, limit);
        SentWidths(init, limit);
        PartsAroundBlankLine(CharsSent(init), CharsOf(ChunksOf(p)), Joined(AllParas(init)), Joined(ParasOf(p)));
      }
    }
  }

  lemma NothingIsWhole(limit: nat)
    requires limit > 0
    ensures AllWhole(AllParas([]), limit)
  {
  }

  /**
    Packed chunks read as the text does, blank lines put back, if and only if in
    every paragraph every multiple of the limit starts a rune. Paragraphs within
    the limit have no such multiple inside.
   */
  lemma {:induction false} PackingKeepsRunesIff(text: Text, limit: nat, chunks: seq<Text>, pieces: seq<Piece>)
    requires limit > 0 && Packed(text, limit, chunks, pieces)
    ensures CharsSent(pieces) == Utf8.Chars(text) <==> AllWhole(Paragraphs(text), limit)
  {
    hide Utf8.Chars, AllWhole, CharsSent, Joined;
    ParagraphsRejoin(text);
    SentKeepsRunesIff(pieces, limit);
  }

  predicate Ascii(text: Text) {
    forall i :: 0 <= i < |text| ==> text[i] < 0x80
  }

  lemma {:induction false} AsciiParagraphs(text: Text)
    requires Ascii(text)
    ensures forall i :: 0 <= i < |Paragraphs(text)| ==> Ascii(Paragraphs(text)[i])
  {
    if text != [] {
      if SEP <= text {
        AsciiParagraphs(text[2..]);
      } else {
        AsciiParagraphs(text[1..]);
        var rest := Paragraphs(text[1..]);
        assert Ascii(rest[0]);
      }
    }
  }

  /** So nothing of an ASCII text is ever split, whatever the limit and the mode. */
  lemma {:induction false} AsciiIsNeverSplit(text: Text, limit: nat, chunks: seq<Text>, pieces: seq<Piece>)
    requires limit > 0 && Ascii(text)
    ensures CutByLength(text, limit, chunks) ==> CharsOf(chunks) == Utf8.Chars(text)
    ensures Packed(text, limit, chunks, pieces) ==> CharsSent(pieces) == Utf8.Chars(text)
  {
    hide Utf8.Chars, CharsSent, CharsOf, CutByLength, Packed;
    AsciiParagraphs(text);
    forall para: Text | Ascii(para) ensures WholeRunes(para, limit) {
      forall n: nat | 0 < n < |para| && n % limit == 0 ensures Utf8.AtRune(para, n) {
        Utf8.AsciiIsOneRune(para, n);
      }
    }
    if CutByLength(text, limit, chunks) { LengthKeepsRunesIff(text, limit, chunks); }
    if Packed(text, limit, chunks, pieces) { PackingKeepsRunesIff(text, limit, chunks, pieces); }
  }

  /** Lengths are bytes: a limit can fall inside a rune, and what is cut there no longer decodes. */
  lemma {:induction false} ACutCanSplitARune()
    ensures CutByLength([0xC3, 0xA9], 1, [[0xC3], [0xA9]])
    ensures Utf8.DecodeRune([0xC3, 0xA9]) == Rune(0xE9, 2)
    ensures Utf8.DecodeRune([0xC3]) == Utf8.DecodeRune([0xA9]) == Rune(Utf8.RUNE_ERROR, 1)
  {
    assert Flatten([[0xC3]]) == [0xC3];
    FlattenLast([[0xC3]], [0xA9]);
    assert [[0xC3 as Byte]] + [[0xA9]] == [[0xC3], [0xA9]];
  }
}
