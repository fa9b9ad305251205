/** Ranking memory entries by how many of a prompt's words they contain. */
module Match {
  import opened Basics
  import opened Sequences
  import opened SliceSort
  import MemoryStore

  /** A memory entry, its text taken as characters. */
  type Entry = MemoryStore.Record<string>

  /** Lower-casing and white space, character by character. */
  datatype Alphabet = Alphabet(lower: char -> char, space: char -> bool)

  const PUNCTUATION: string := ".,;:!?\"'()[]{}"

  // ---------- words ----------

  function Lowered(lower: char -> char, s: string): string {
    seq(|s|, i requires 0 <= i < |s| => lower(s[i]))
  }

  /** How many characters of `s` come before the first space. */
  function RunLength(space: char -> bool, s: string): (n: nat)
    ensures n <= |s| && (n < |s| ==> space(s[n]))
    ensures forall i :: 0 <= i < n ==> !space(s[i])
  {
    if s == "" || space(s[0]) then 0 else 1 + RunLength(space, s[1..])
  }

  /** strings.Fields: the runs between spaces. */
  function Fields(space: char -> bool, s: string): seq<string>
    decreases |s|
  {
    if s == "" then []
    else if space(s[0]) then Fields(space, s[1..])
    else
      var n := RunLength(space, s);
      [s[..n]] + Fields(space, s[n..])
  }

  /** `s[i..j]` is a run: not empty, no space inside, and nothing but space or the ends around it. */
  predicate RunAt(space: char -> bool, s: string, i: int, j: int) {
    && 0 <= i < j <= |s|
    && (forall k :: i <= k < j ==> !space(s[k]))
    && (i > 0 ==> space(s[i - 1]))
    && (j < |s| ==> space(s[j]))
  }

  /** Fields finds exactly the maximal runs. */
  lemma {:induction false} FieldsAreRuns(space: char -> bool, s: string, w: string)
    ensures w in Fields(space, s) <==> exists i, j :: RunAt(space, s, i, j) && s[i..j] == w
    decreases |s|
  {
    if s != "" {
      var n := if space(s[0]) then 1 else RunLength(space, s);
      FieldsAreRuns(space, s[n..], w);
      if w in Fields(space, s[n..]) {
        var i, j :| RunAt(space, s[n..], i, j) && s[n..][i..j] == w;
        LaterRun(space, s, n, i, j);
        assert RunAt(space, s, n + i, n + j) && s[n + i..n + j] == w;
      }
      if !space(s[0]) {
        assert RunAt(space, s, 0, n) && s[0..n] == s[..n];
      }
      if exists i, j :: RunAt(space, s, i, j) && s[i..j] == w {
        var i, j :| RunAt(space, s, i, j) && s[i..j] == w;
        EarlierRun(space, s, n, i, j);
      }
    }
  }

  lemma ShiftRun(space: char -> bool, head: string, tail: string, i: int, j: int)
    requires RunAt(space, tail, i, j) && (i == 0 && head != "" ==> space(head[|head| - 1]))
    ensures RunAt(space, head + tail, |head| + i, |head| + j)
    ensures (head + tail)[|head| + i..|head| + j] == tail[i..j]
  {
    forall k | |head| + i <= k < |head| + j ensures !space((head + tail)[k]) {
      assert (head + tail)[k] == tail[k - |head|];
    }
    assert (head + tail)[|head|..] == tail;
    assert (head + tail)[|head| + i..|head| + j] == (head + tail)[|head|..][i..j];
  }

  lemma RunStarts(space: char -> bool, s: string, i: int, j: int)
    requires RunAt(space, s, i, j)
    ensures 0 <= i < j <= |s| && !space(s[i])
  {
  }

  lemma LaterRun(space: char -> bool, s: string, n: nat, i: int, j: int)
    requires 0 < n <= |s| && RunAt(space, s[n..], i, j)
    requires if space(s[0]) then n == 1 else n == RunLength(space, s)
    ensures RunAt(space, s, n + i, n + j) && s[n + i..n + j] == s[n..][i..j]
  {
    hide RunLength, RunAt;
    RunStarts(space, s[n..], i, j);
    if i == 0 {
      assert s[n..][0] == s[n] && s[..n][n - 1] == s[n - 1];
    }
    ShiftRun(space, s[..n], s[n..], i, j);
    assert s[..n] + s[n..] == s;
  }

  lemma EarlierRun(space: char -> bool, s: string, n: nat, i: int, j: int)
    requires s != "" && RunAt(space, s, i, j)
    requires if space(s[0]) then n == 1 else n == RunLength(space, s)
    ensures (i == 0 && j == n && !space(s[0])) ||
      (n <= i && RunAt(space, s[n..], i - n, j - n) && s[n..][i - n..j - n] == s[i..j])
  {
    if !space(s[0]) && i < n {
      assert i == 0;
      assert j == n;
    } else {
      assert i >= n;
      assert forall k :: 0 <= k < |s| - n ==> s[n..][k] == s[n + k];
    }
  }

  predicate IsPunctuation(c: char) { c in PUNCTUATION }

  function TrimLeft(s: string): string {
    if s != "" && IsPunctuation(s[0]) then TrimLeft(s[1..]) else s
  }

  /** strings.Trim: punctuation off both ends. */
  function Strip(s: string): string {
    if s != "" && IsPunctuation(s[|s| - 1]) then Strip(s[..|s| - 1]) else TrimLeft(s)
  }

  predicate AllPunctuation(s: string) {
    forall i :: 0 <= i < |s| ==> IsPunctuation(s[i])
  }

  lemma {:induction false} TrimLeftIs(s: string) returns (front: string)
    ensures s == front + TrimLeft(s) && AllPunctuation(front)
    ensures TrimLeft(s) != "" ==> !IsPunctuation(TrimLeft(s)[0])
  {
    hide IsPunctuation;
    if s != "" && IsPunctuation(s[0]) {
      var f := TrimLeftIs(s[1..]);
      front := [s[0]] + f;
      assert s == [s[0]] + s[1..];
    } else {
      front := "";
    }
  }

  /** What is stripped is punctuation around the word, all of it. */
  lemma {:induction false} StripIs(s: string) returns (front: string, back: string)
    ensures s == front + Strip(s) + back && AllPunctuation(front) && AllPunctuation(back)
    ensures Strip(s) != "" ==> !IsPunctuation(Strip(s)[0]) && !IsPunctuation(Strip(s)[|Strip(s)| - 1])
  {
    hide IsPunctuation;
    if s != "" && IsPunctuation(s[|s| - 1]) {
      var f, b := StripIs(s[..|s| - 1]);
      front, back := f, b + [s[|s| - 1]];
      assert s == s[..|s| - 1] + [s[|s| - 1]];
    } else {
      front := TrimLeftIs(s);
      back := "";
      if Strip(s) != "" {
        assert s[|s| - 1] == Strip(s)[|Strip(s)| - 1];
      }
    }
  }

  /** The same with the characters written out. */
  lemma StripSays(s: string) returns (front: string, back: string)
    ensures s == front + Strip(s) + back
    ensures forall c :: c in front || c in back ==> c in ".,;:!?\"'()[]{}"
    ensures Strip(s) != "" ==>
      Strip(s)[0] !in ".,;:!?\"'()[]{}" && Strip(s)[|Strip(s)| - 1] !in ".,;:!?\"'()[]{}"
  {
    hide Strip;
    front, back := StripIs(s);
  }

  /** The normalised words of a text. */
  function Words(ab: Alphabet, text: string): set<string> {
    set f | f in Fields(ab.space, Lowered(ab.lower, text)) && Strip(f) != "" :: Strip(f)
  }

  method Tokenize(ab: Alphabet, text: string) returns (words: seq<string>)
    ensures Distinct(words)
    ensures forall w :: w in words <==> w in Words(ab, text)
    ensures forall w :: w in words <==>
      w != "" && exists f :: f in Fields(ab.space, Lowered(ab.lower, text)) && Strip(f) == w
  {
    var fields := Fields(ab.space, Lowered(ab.lower, text));
    var seen: set<string> := {};
    words := [];
    for i := 0 to |fields|
      invariant Distinct(words) && forall w :: w in words <==> w in seen
      invariant forall w :: w in seen <==> w != "" && exists j :: 0 <= j < i && Strip(fields[j]) == w
    {
      var f := Strip(fields[i]);
      if f == "" { continue; }
      if f !in seen {
        seen := seen + {f};
        words := words + [f];
      }
    }
    forall w ensures w in words <==> w in Words(ab, text) {
      if w in Words(ab, text) {
        var f :| f in fields && Strip(f) == w;
        var j :| 0 <= j < |fields| && fields[j] == f;
      }
    }
  }

  // ---------- scores ----------

  /** The word occurs in the content or in some tag. */
  predicate Hits(ab: Alphabet, e: Entry, w: string) {
    Contains(Lowered(ab.lower, e.content), w) || exists t :: t in e.tags && Contains(Lowered(ab.lower, t), w)
  }

  /** How many different words of the prompt the entry contains. */
  function Score(ab: Alphabet, e: Entry, words: set<string>): nat {
    |set w | w in words && Hits(ab, e, w)|
  }

  function Seen(words: seq<string>, n: nat): set<string>
    requires n <= |words|
  {
    set i | 0 <= i < n :: words[i]
  }

  lemma SeenNext(words: seq<string>, n: nat)
    requires Distinct(words) && n < |words|
    ensures Seen(words, n + 1) == Seen(words, n) + {words[n]} && words[n] !in Seen(words, n)
  {
  }

  lemma ScoreAdd(ab: Alphabet, e: Entry, before: set<string>, w: string)
    requires w !in before
    ensures Score(ab, e, before + {w}) == Score(ab, e, before) + if Hits(ab, e, w) then 1 else 0
  {
    hide Hits;
    var hit := set v | v in before && Hits(ab, e, v);
    assert (set v | v in before + {w} && Hits(ab, e, v)) == if Hits(ab, e, w) then hit + {w} else hit;
  }

  lemma ScoreNext(ab: Alphabet, e: Entry, words: seq<string>, n: nat)
    requires Distinct(words) && n < |words|
    ensures Score(ab, e, Seen(words, n + 1)) == Score(ab, e, Seen(words, n)) + if Hits(ab, e, words[n]) then 1 else 0
  {
    hide Hits, Score, Seen;
    SeenNext(words, n);
    ScoreAdd(ab, e, Seen(words, n), words[n]);
  }

  lemma ScoreNone(ab: Alphabet, e: Entry, words: seq<string>)
    ensures Score(ab, e, Seen(words, 0)) == 0
  {
    assert (set w | w in Seen(words, 0) && Hits(ab, e, w)) == {};
  }

  method ScoreEntry(ab: Alphabet, e: Entry, words: seq<string>) returns (score: nat)
    requires Distinct(words)
    ensures score == Score(ab, e, set w | w in words)
    ensures score == |set w | w in words
      && (|| Contains(Lowered(ab.lower, e.content), w)
          || exists t :: t in e.tags && Contains(Lowered(ab.lower, t), w))|
  {
    hide Lowered, Contains, Score, Seen;
    var lowerContent := Lowered(ab.lower, e.content);
    var lowerTags := seq(|e.tags|, i requires 0 <= i < |e.tags| => Lowered(ab.lower, e.tags[i]));
    score := 0;
    ScoreNone(ab, e, words);
    for i := 0 to |words|
      invariant score == Score(ab, e, Seen(words, i))
    {
      var w := words[i];
      ScoreNext(ab, e, words, i);
      if Contains(lowerContent, w) {
        score := score + 1;
        continue;
      }
      for k := 0 to |lowerTags|
        invariant score == Score(ab, e, Seen(words, i))
        invariant forall j :: 0 <= j < k ==> !Contains(Lowered(ab.lower, e.tags[j]), w)
      {
        if Contains(lowerTags[k], w) {
          assert e.tags[k] in e.tags;
          score := score + 1;
          break;
        }
      }
    }
    SeenAll(words);
    ScoreCounts(ab, e, words);
  }

  lemma ScoreCounts(ab: Alphabet, e: Entry, words: seq<string>)
    ensures Score(ab, e, set w | w in words) == |set w | w in words
      && (|| Contains(Lowered(ab.lower, e.content), w)
          || exists t :: t in e.tags && Contains(Lowered(ab.lower, t), w))|
  {
    var all := set w | w in words;
    assert (set w | w in all && Hits(ab, e, w)) == set w | w in words
      && (|| Contains(Lowered(ab.lower, e.content), w)
          || exists t :: t in e.tags && Contains(Lowered(ab.lower, t), w));
  }

  lemma SeenAll(words: seq<string>)
    ensures Seen(words, |words|) == set w | w in words
  {
  }

  // ---------- ranking ----------

  datatype Scored = Scored(entry: Entry, score: nat, place: nat)

  /** A higher score first; the newer entry among equals. */
  predicate Beats(score: nat, createdAt: int, score': nat, createdAt': int) {
    if score != score' then score > score' else createdAt > createdAt'
  }

  predicate Better(a: Scored, b: Scored) {
    Beats(a.score, a.entry.createdAt, b.score, b.entry.createdAt)
  }

  /** The places of the entries that contain some word of the prompt. */
  function Relevant(ab: Alphabet, entries: seq<Option<Entry>>, words: set<string>, n: nat): set<nat>
    requires n <= |entries|
  {
    set i: nat | i < n && entries[i].Some? && Score(ab, entries[i].value, words) > 0
  }

  ghost predicate Ranking(ab: Alphabet, entries: seq<Option<Entry>>, words: set<string>, ranked: seq<Scored>) {
    && (forall i :: 0 <= i < |ranked| ==>
          && ranked[i].place < |entries| && entries[ranked[i].place] == Some(ranked[i].entry)
          && ranked[i].score == Score(ab, ranked[i].entry, words) > 0)
    && (forall i, j :: 0 <= i < j < |ranked| ==> ranked[i].place != ranked[j].place)
  }

  /**
    The best entries of the prompt: each from a place of its own in `entries`, all
    relevant, the better one first, as many as there are up to the limit, and none
    left out that beats one taken.
   */
  ghost predicate TopEntries(ab: Alphabet, entries: seq<Option<Entry>>, words: set<string>, limit: int,
                             results: seq<Entry>, places: seq<nat>)
  {
    var relevant := set i: nat | i < |entries| && entries[i].Some? && Score(ab, entries[i].value, words) > 0;
    && |places| == |results| == (if 0 < limit < |relevant| then limit else |relevant|)
    && (forall i :: 0 <= i < |places| ==> places[i] in relevant && entries[places[i]] == Some(results[i]))
    && (forall i, j :: 0 <= i < j < |places| ==> places[i] != places[j])
    && (forall i, j :: 0 <= i < j < |results| ==>
          || Score(ab, results[i], words) > Score(ab, results[j], words)
          || (Score(ab, results[i], words) == Score(ab, results[j], words)
              && results[i].createdAt >= results[j].createdAt))
    && (forall k, i :: k in relevant && k !in places && 0 <= i < |results| ==>
          || Score(ab, entries[k].value, words) < Score(ab, results[i], words)
          || (Score(ab, entries[k].value, words) == Score(ab, results[i], words)
              && entries[k].value.createdAt <= results[i].createdAt))
  }

  /** `a` may stand before `b`: more words, or as many and not older. */
  predicate AtLeast(ab: Alphabet, words: set<string>, a: Entry, b: Entry) {
    || Score(ab, a, words) > Score(ab, b, words)
    || (Score(ab, a, words) == Score(ab, b, words) && a.createdAt >= b.createdAt)
  }

  method MatchRelevant(ab: Alphabet, entries: seq<Option<Entry>>, prompt: string, limit: int)
      returns (results: seq<Entry>)
    ensures exists places :: TopEntries(ab, entries, Words(ab, prompt), limit, results, places)
  {
    hide Words, Score, Relevant, Ranking, TopEntries, Better, StrictWeak, Rearranged, Ordered, Distinct;
    var words := Tokenize(ab, prompt);
    ghost var wanted := Words(ab, prompt);
    assert (set w | w in words) == wanted;
    NoEntries(ab, entries, wanted);
    BetterIsAnOrder();
    if |words| == 0 {
      NoWords(ab, entries, wanted, limit);
      return [];
    }
    var candidates: seq<Scored> := [];
    for i := 0 to |entries|
      invariant Ranking(ab, entries, wanted, candidates)
      invariant forall k :: k in Places(candidates) <==> k in Relevant(ab, entries, wanted, i)
    {
      NextEntry(ab, entries, wanted, i);
      if entries[i] == None { continue; }
      var e := entries[i].value;
      var s := ScoreEntry(ab, e, words);
      if s > 0 {
        AddCandidate(ab, entries, wanted, candidates, Scored(e, s, i));
        candidates := candidates + [Scored(e, s, i)];
      }
    }
    var sorted, perm := SortSlice(candidates, Better);
    TopOfSorted(ab, entries, wanted, candidates, sorted, perm, limit);
    if limit > 0 && |sorted| > limit {
      sorted := sorted[..limit];
    }
    results := [];
    for i := 0 to |sorted|
      invariant results == EntriesOf(sorted[..i])
    {
      results := results + [sorted[i].entry];
    }
    assert sorted[..|sorted|] == sorted;
    assert TopEntries(ab, entries, wanted, limit, results, Places(sorted));
  }

  lemma NoEntries(ab: Alphabet, entries: seq<Option<Entry>>, words: set<string>)
    ensures Relevant(ab, entries, words, 0) == {} && Ranking(ab, entries, words, [])
  {
  }

  lemma BetterIsAnOrder()
    ensures StrictWeak(Better)
  {
  }

  lemma NextEntry(ab: Alphabet, entries: seq<Option<Entry>>, words: set<string>, i: nat)
    requires i < |entries|
    ensures i !in Relevant(ab, entries, words, i)
    ensures Relevant(ab, entries, words, i + 1)
      == if entries[i].Some? && Score(ab, entries[i].value, words) > 0
         then Relevant(ab, entries, words, i) + {i} else Relevant(ab, entries, words, i)
  {
    hide Score;
  }

  lemma AddCandidate(ab: Alphabet, entries: seq<Option<Entry>>, words: set<string>, ranked: seq<Scored>, c: Scored)
    requires Ranking(ab, entries, words, ranked) && c.place !in Places(ranked)
    requires c.place < |entries| && entries[c.place] == Some(c.entry) && c.score == Score(ab, c.entry, words) > 0
    ensures Ranking(ab, entries, words, ranked + [c])
    ensures Places(ranked + [c]) == Places(ranked) + [c.place]
  {
    hide Score;
    assert forall i :: 0 <= i < |ranked| ==> Places(ranked)[i] == ranked[i].place;
  }

  function Places(ranked: seq<Scored>): seq<nat> {
    seq(|ranked|, i requires 0 <= i < |ranked| => ranked[i].place)
  }

  function EntriesOf(ranked: seq<Scored>): seq<Entry> {
    seq(|ranked|, i requires 0 <= i < |ranked| => ranked[i].entry)
  }

  lemma NoWords(ab: Alphabet, entries: seq<Option<Entry>>, words: set<string>, limit: int)
    requires words == {}
    ensures TopEntries(ab, entries, words, limit, [], [])
  {
    forall e: Entry ensures Score(ab, e, words) == 0 {
      assert (set w | w in words && Hits(ab, e, w)) == {};
    }
    assert Relevant(ab, entries, words, |entries|) == {};
  }

  lemma {:induction false} CountDistinct(places: seq<nat>, all: set<nat>)
    requires forall k :: k in places <==> k in all
    requires forall i, j :: 0 <= i < j < |places| ==> places[i] != places[j]
    ensures |places| == |all|
  {
    if places == [] {
      assert all == {};
    } else {
      var n := |places| - 1;
      var last := places[n];
      assert places == places[..n] + [last];
      CountDistinct(places[..n], all - {last});
    }
  }

  lemma NoneLeftOutBeats(ab: Alphabet, entries: seq<Option<Entry>>, words: set<string>, sorted: seq<Scored>,
                         n: nat, k: nat, i: nat)
    requires Ranking(ab, entries, words, sorted) && Ordered(sorted, Better)
    requires i < n <= |sorted| && k in Places(sorted) && k !in Places(sorted[..n])
    ensures k < |entries| && entries[k].Some?
    ensures AtLeast(ab, words, sorted[i].entry, entries[k].value)
  {
    hide Score;
    assert forall j :: 0 <= j < n ==> Places(sorted)[j] == Places(sorted[..n])[j];
    var j :| 0 <= j < |sorted| && Places(sorted)[j] == k;
    assert !Better(sorted[j], sorted[i]);
  }

  lemma OrderedEntries(ab: Alphabet, entries: seq<Option<Entry>>, words: set<string>, sorted: seq<Scored>,
                       i: nat, j: nat)
    requires Ranking(ab, entries, words, sorted) && Ordered(sorted, Better) && i < j < |sorted|
    ensures AtLeast(ab, words, sorted[i].entry, sorted[j].entry)
  {
    hide Score;
    assert !Better(sorted[j], sorted[i]);
  }

  lemma TopIs(ab: Alphabet, entries: seq<Option<Entry>>, words: set<string>, limit: int,
              results: seq<Entry>, places: seq<nat>)
    requires var relevant := Relevant(ab, entries, words, |entries|);
      && |places| == |results| == (if 0 < limit < |relevant| then limit else |relevant|)
      && (forall i :: 0 <= i < |places| ==> places[i] in relevant && entries[places[i]] == Some(results[i]))
      && (forall i, j :: 0 <= i < j < |places| ==> places[i] != places[j])
      && (forall i, j :: 0 <= i < j < |results| ==> AtLeast(ab, words, results[i], results[j]))
      && (forall k, i :: k in relevant && k !in places && 0 <= i < |results| ==>
            AtLeast(ab, words, results[i], entries[k].value))
    ensures TopEntries(ab, entries, words, limit, results, places)
  {
    hide Score;
    var relevant := set i: nat | i < |entries| && entries[i].Some? && Score(ab, entries[i].value, words) > 0;
    assert Relevant(ab, entries, words, |entries|) == relevant;
    hide Relevant;
  }

  /** The first so many of the sorted candidates are the best. */
  lemma TopOfSorted(ab: Alphabet, entries: seq<Option<Entry>>, words: set<string>, candidates: seq<Scored>,
                    sorted: seq<Scored>, perm: seq<nat>, limit: int)
    requires Ranking(ab, entries, words, candidates)
    requires forall k :: k in Places(candidates) <==> k in Relevant(ab, entries, words, |entries|)
    requires Rearranged(sorted, candidates, perm) && Ordered(sorted, Better)
    ensures var top := if 0 < limit < |sorted| then sorted[..limit] else sorted;
      TopEntries(ab, entries, words, limit, EntriesOf(top), Places(top))
  {
    hide Score, Rearranged, Ordered, TopEntries, AtLeast, Better;
    var relevant := Relevant(ab, entries, words, |entries|);
    var n := if 0 < limit < |sorted| then limit else |sorted|;
    var top := sorted[..n];
    assert sorted[..|sorted|] == sorted;
    SortedRanking(ab, entries, words, candidates, sorted, perm);
    CountDistinct(Places(sorted), relevant);
    forall i | 0 <= i < n ensures Places(top)[i] in relevant {
      assert Places(sorted)[i] in relevant;
    }
    forall i, j | 0 <= i < j < n ensures AtLeast(ab, words, top[i].entry, top[j].entry) {
      OrderedEntries(ab, entries, words, sorted, i, j);
    }
    forall k, i | k in relevant && k !in Places(top) && 0 <= i < n
      ensures AtLeast(ab, words, top[i].entry, entries[k].value)
    {
      NoneLeftOutBeats(ab, entries, words, sorted, n, k, i);
    }
    TopIs(ab, entries, words, limit, EntriesOf(top), Places(top));
  }

  lemma SortedRanking(ab: Alphabet, entries: seq<Option<Entry>>, words: set<string>, candidates: seq<Scored>,
                      sorted: seq<Scored>, perm: seq<nat>)
    requires Ranking(ab, entries, words, candidates) && Rearranged(sorted, candidates, perm)
    ensures Ranking(ab, entries, words, sorted)
    ensures forall k :: k in Places(sorted) <==> k in Places(candidates)
  {
    hide Score;
    SameElements(sorted, candidates, perm);
    forall i, j | 0 <= i < j < |sorted| ensures sorted[i].place != sorted[j].place {
      assert perm[i] != perm[j];
    }
    forall k ensures k in Places(sorted) <==> k in Places(candidates) {
      if k in Places(sorted) {
        var i :| 0 <= i < |sorted| && Places(sorted)[i] == k;
        assert Places(candidates)[perm[i]] == k;
      }
      if k in Places(candidates) {
        var i :| 0 <= i < |candidates| && Places(candidates)[i] == k;
        assert candidates[i] in sorted;
        var j :| 0 <= j < |sorted| && sorted[j] == candidates[i];
        assert Places(sorted)[j] == k;
      }
    }
  }
}
