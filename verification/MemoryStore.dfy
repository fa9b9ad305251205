/**
  The memory store: one file per entry, and an index of truncated summaries that
  is searched first. Text is bytes, and a summary is cut at a byte.
 */
module MemoryStore {
  import opened AtomicFs
  import opened Basics
  import opened Lowering
  import opened Sequences
  import opened SliceSort
  import RR = RuneRange
  import Utf8

  type Id = string

  const SUMMARY_LENGTH: nat := 100

  /** `T` is the form text is looked at in: bytes here, characters for ranking. */
  datatype Record<T> = Entry(id: Id, content: T, tags: seq<T>, createdAt: int, updatedAt: int, source: string)

  type Entry = Record<Text>

  datatype IndexEntry = IndexEntry(id: Id, summary: Text, tags: seq<Text>, createdAt: int)

  // ---------- tags ----------

  /** Every required tag is among the tags, cases aside. */
  predicate TagsInclude(lower: int -> int, tags: seq<Text>, required: seq<Text>) {
    forall r :: r in required ==> exists t :: t in tags && Lower(lower, t) == Lower(lower, r)
  }

  method MatchTags(lower: int -> int, tags: seq<Text>, required: seq<Text>) returns (ok: bool)
    ensures ok <==> TagsInclude(lower, tags, required)
    ensures ok <==> forall r :: r in required ==> exists t :: t in tags && Lower(lower, t) == Lower(lower, r)
  {
    hide Lower;
    if |required| == 0 { return true; }
    var tagSet: set<Text> := {};
    for i := 0 to |tags|
      invariant forall l :: l in tagSet <==> exists j :: 0 <= j < i && Lower(lower, tags[j]) == l
    {
      tagSet := tagSet + {Lower(lower, tags[i])};
    }
    for i := 0 to |required|
      invariant forall j :: 0 <= j < i ==> Lower(lower, required[j]) in tagSet
    {
      if Lower(lower, required[i]) !in tagSet {
        assert required[i] in required;
        return false;
      }
    }
    return true;
  }

  // ---------- what is searched for ----------

  /** Where a match may come from: the content alone, or a summary of it as well. */
  datatype How = Plainly | ViaSummary

  function Summary(content: Text): Text {
    if |content| > SUMMARY_LENGTH then content[..SUMMARY_LENGTH] else content
  }

  predicate Matches(how: How, lower: int -> int, e: Entry, query: Text, tags: seq<Text>) {
    && (|| query == []
        || Contains(Lower(lower, e.content), Lower(lower, query))
        || (how.ViaSummary? && Contains(Lower(lower, Summary(e.content)), Lower(lower, query))))
    && TagsInclude(lower, e.tags, tags)
  }

  function Matching(how: How, lower: int -> int, order: seq<Entry>, query: Text, tags: seq<Text>): seq<Entry> {
    if order == [] then []
    else
      var init := Matching(how, lower, order[..|order| - 1], query, tags);
      if Matches(how, lower, order[|order| - 1], query, tags) then init + [order[|order| - 1]] else init
  }

  function First(results: seq<Entry>, limit: int): seq<Entry> {
    if 0 < limit < |results| then results[..limit] else results
  }

  /** `order` lists exactly these entries, each once, newest first. */
  ghost predicate NewestFirst(order: seq<Entry>, contents: map<Id, Entry>) {
    && (forall e :: e in order <==> e.id in contents && contents[e.id] == e)
    && (forall i, j :: 0 <= i < j < |order| ==> order[i].id != order[j].id && order[i].createdAt >= order[j].createdAt)
  }

  /** The result of a scan of everything in the given newest-first order. */
  ghost predicate FoundBy(how: How, lower: int -> int, order: seq<Entry>, contents: map<Id, Entry>,
                          query: Text, tags: seq<Text>, limit: int, results: seq<Entry>)
  {
    NewestFirst(order, contents) && results == First(Matching(how, lower, order, query, tags), limit)
  }

  /**
    Wanted, written out: the query is empty or occurs, cases aside, in the content
    (or, through the index, in its first 100 bytes), and every tag asked for is there.
   */
  ghost predicate Wanted(indexed: bool, lower: int -> int, e: Entry, query: Text, tags: seq<Text>) {
    && (|| query == []
        || Contains(Lower(lower, e.content), Lower(lower, query))
        || (indexed && |e.content| > 100 && Contains(Lower(lower, e.content[..100]), Lower(lower, query))))
    && forall r :: r in tags ==> exists t :: t in e.tags && Lower(lower, t) == Lower(lower, r)
  }

  /**
    The answer of a search: wanted entries of the contents, each once, the newest
    first, up to the limit if there is one. Any other wanted entry was left out
    because the limit was reached, and is not newer than those taken.
   */
  ghost predicate Answer(indexed: bool, lower: int -> int, contents: map<Id, Entry>, query: Text, tags: seq<Text>,
                         limit: int, results: seq<Entry>)
  {
    && (forall e :: e in results ==> e.id in contents && contents[e.id] == e && Wanted(indexed, lower, e, query, tags))
    && (forall i, j :: 0 <= i < j < |results| ==>
          results[i].id != results[j].id && results[i].createdAt >= results[j].createdAt)
    && (limit > 0 ==> |results| <= limit)
    && (forall e: Entry ::
          e.id in contents && contents[e.id] == e && Wanted(indexed, lower, e, query, tags) && e !in results ==>
            && 0 < limit == |results|
            && forall i :: 0 <= i < |results| ==> results[i].createdAt >= e.createdAt)
  }

  lemma WantedIs(how: How, lower: int -> int, e: Entry, query: Text, tags: seq<Text>)
    ensures Matches(how, lower, e, query, tags) <==> Wanted(how.ViaSummary?, lower, e, query, tags)
  {
    hide Contains, Lower;
  }

  lemma {:induction false} MatchingIs(how: How, lower: int -> int, order: seq<Entry>, query: Text, tags: seq<Text>)
    requires forall i, j :: 0 <= i < j < |order| ==> order[i].id != order[j].id && order[i].createdAt >= order[j].createdAt
    ensures var found := Matching(how, lower, order, query, tags);
      && (forall e :: e in found <==> e in order && Matches(how, lower, e, query, tags))
      && (forall i, j :: 0 <= i < j < |found| ==> found[i].id != found[j].id && found[i].createdAt >= found[j].createdAt)
  {
    hide Matches;
    if order != [] {
      var n := |order| - 1;
      MatchingIs(how, lower, order[..n], query, tags);
      var found := Matching(how, lower, order[..n], query, tags);
      forall i | 0 <= i < |found| ensures found[i].id != order[n].id && found[i].createdAt >= order[n].createdAt {
        assert found[i] in found;
        var p :| 0 <= p < n && order[p] == found[i];
      }
      assert order == order[..n] + [order[n]];
    }
  }

  predicate Listing(found: seq<Entry>) {
    forall i, j :: 0 <= i < j < |found| ==> found[i].id != found[j].id && found[i].createdAt >= found[j].createdAt
  }

  lemma FirstIs(found: seq<Entry>, limit: int)
    requires Listing(found)
    ensures var results := First(found, limit);
      && Listing(results) && (limit > 0 ==> |results| <= limit)
      && (forall e :: e in results ==> e in found)
      && (forall e :: e in found && e !in results ==>
            0 < limit == |results| && forall i :: 0 <= i < |results| ==> results[i].createdAt >= e.createdAt)
  {
    var results := First(found, limit);
    forall e | e in found && e !in results
      ensures 0 < limit == |results| && forall i :: 0 <= i < |results| ==> results[i].createdAt >= e.createdAt
    {
      var k :| 0 <= k < |found| && found[k] == e;
    }
  }

  lemma AnswerIs(how: How, lower: int -> int, order: seq<Entry>, contents: map<Id, Entry>, query: Text,
                 tags: seq<Text>, limit: int, results: seq<Entry>)
    requires FoundBy(how, lower, order, contents, query, tags, limit, results)
    ensures Answer(how.ViaSummary?, lower, contents, query, tags, limit, results)
  {
    hide Matches, Wanted;
    MatchingIs(how, lower, order, query, tags);
    FirstIs(Matching(how, lower, order, query, tags), limit);
    hide Matching, First;
    forall e: Entry ensures Matches(how, lower, e, query, tags) <==> Wanted(how.ViaSummary?, lower, e, query, tags) {
      WantedIs(how, lower, e, query, tags);
    }
  }

  // ---------- index and files ----------

  /**
    The index entry tells the truth about the file, as far as it goes. The summary
    may have been through the index file, which writes what does not decode as the
    character it decodes to.
   */
  ghost predicate Agrees(ie: IndexEntry, e: Entry) {
    ie.id == e.id && Codes(ie.summary) == Codes(Summary(e.content)) && ie.tags == e.tags && ie.createdAt == e.createdAt
  }

  ghost predicate Indexed(index: seq<IndexEntry>, id: Id) {
    exists i :: 0 <= i < |index| && index[i].id == id
  }

  predicate DistinctIds(index: seq<IndexEntry>) {
    forall i, j :: 0 <= i < j < |index| ==> index[i].id != index[j].id
  }

  ghost predicate IndexOk(index: seq<IndexEntry>, files: map<Id, Entry>) {
    && DistinctIds(index)
    && (forall ie :: ie in index && ie.id in files ==> Agrees(ie, files[ie.id]))
  }

  predicate FilesOk(files: map<Id, Entry>) {
    forall id :: id in files ==> files[id].id == id
  }

  /** The index without the entries of one id, in order. */
  function Without(index: seq<IndexEntry>, id: Id): seq<IndexEntry> {
    if index == [] then []
    else
      var init := Without(index[..|index| - 1], id);
      if index[|index| - 1].id != id then init + [index[|index| - 1]] else init
  }

  lemma {:induction false} WithoutIs(index: seq<IndexEntry>, id: Id)
    requires DistinctIds(index)
    ensures forall ie :: ie in Without(index, id) <==> ie in index && ie.id != id
    ensures DistinctIds(Without(index, id))
  {
    if index != [] {
      var n := |index| - 1;
      var init, last := index[..n], index[n];
      assert index == init + [last];
      WithoutIs(init, id);
      var kept := Without(init, id);
      assert forall j :: 0 <= j < |kept| ==> kept[j] in init;
    }
  }

  /** What a search can find: indexed, and with its file in place. */
  ghost function Shown(index: seq<IndexEntry>, files: map<Id, Entry>): map<Id, Entry> {
    map id | id in files && Indexed(index, id) :: files[id]
  }

  /** The files behind an index, in its order, without those that cannot be read. */
  function Readable(index: seq<IndexEntry>, files: map<Id, Entry>, unreadable: set<Id>): seq<Entry> {
    if index == [] then []
    else
      var init := Readable(index[..|index| - 1], files, unreadable);
      var id := index[|index| - 1].id;
      if id in files && id !in unreadable then init + [files[id]] else init
  }

  predicate Newer(a: IndexEntry, b: IndexEntry) { a.createdAt > b.createdAt }

  predicate Descending(index: seq<IndexEntry>) {
    forall i, j :: 0 <= i < j < |index| ==> index[i].createdAt >= index[j].createdAt
  }

  lemma ShownNext(init: seq<IndexEntry>, last: IndexEntry, files: map<Id, Entry>, unreadable: set<Id>)
    requires DistinctIds(init + [last])
    ensures !Indexed(init, last.id)
    ensures Shown(init + [last], files) - unreadable
      == if last.id in files && last.id !in unreadable
         then (Shown(init, files) - unreadable)[last.id := files[last.id]] else Shown(init, files) - unreadable
  {
    var index := init + [last];
    assert index[|init|] == last && forall i :: 0 <= i < |init| ==> index[i] == init[i];
    assert forall id :: Indexed(index, id) <==> Indexed(init, id) || id == last.id;
  }

  /** One more entry, older than all listed. */
  lemma ListNext(order: seq<Entry>, contents: map<Id, Entry>, e: Entry)
    requires NewestFirst(order, contents) && e.id !in contents
    requires forall i :: 0 <= i < |order| ==> order[i].createdAt >= e.createdAt
    ensures NewestFirst(order + [e], contents[e.id := e])
  {
    forall i | 0 <= i < |order| ensures order[i].id != e.id {
      assert order[i] in order;
    }
  }

  lemma {:induction false} ReadableIsNewestFirst(index: seq<IndexEntry>, files: map<Id, Entry>, unreadable: set<Id>)
    requires IndexOk(index, files) && FilesOk(files) && Descending(index)
    ensures NewestFirst(Readable(index, files, unreadable), Shown(index, files) - unreadable)
  {
    if index != [] {
      var n := |index| - 1;
      var init, last := index[..n], index[n];
      assert index == init + [last];
      ReadableIsNewestFirst(init, files, unreadable);
      ShownNext(init, last, files, unreadable);
      var order := Readable(init, files, unreadable);
      if last.id in files && last.id !in unreadable {
        OlderThanListed(init, last, files, unreadable);
        assert Agrees(last, files[last.id]);
        ListNext(order, Shown(init, files) - unreadable, files[last.id]);
      }
      hide NewestFirst, Shown;
    }
  }

  lemma OlderThanListed(init: seq<IndexEntry>, last: IndexEntry, files: map<Id, Entry>, unreadable: set<Id>)
    requires IndexOk(init, files) && Descending(init + [last])
    requires NewestFirst(Readable(init, files, unreadable), Shown(init, files) - unreadable)
    ensures var order := Readable(init, files, unreadable);
      forall i :: 0 <= i < |order| ==> order[i].createdAt >= last.createdAt
  {
    hide Readable;
    var order := Readable(init, files, unreadable);
    var index := init + [last];
    forall i | 0 <= i < |order| ensures order[i].createdAt >= last.createdAt {
      var e := order[i];
      assert e in order && Indexed(init, e.id);
      var k :| 0 <= k < |init| && init[k].id == e.id;
      assert init[k] in init && Agrees(init[k], e);
      assert index[k] == init[k] && index[|init|] == last;
    }
  }

  lemma SortedIndex(index: seq<IndexEntry>, sorted: seq<IndexEntry>, perm: seq<nat>, files: map<Id, Entry>)
    requires IndexOk(index, files) && Rearranged(sorted, index, perm) && Ordered(sorted, Newer)
    ensures IndexOk(sorted, files) && Descending(sorted) && Shown(sorted, files) == Shown(index, files)
  {
    SameElements(sorted, index, perm);
    forall id ensures Indexed(sorted, id) <==> Indexed(index, id) {
      if Indexed(sorted, id) {
        var i :| 0 <= i < |sorted| && sorted[i].id == id;
        assert index[perm[i]].id == id;
      }
      if Indexed(index, id) {
        var i :| 0 <= i < |index| && index[i].id == id;
        assert index[i] in sorted;
      }
    }
    forall i, j | 0 <= i < j < |sorted|
      ensures sorted[i].id != sorted[j].id && sorted[i].createdAt >= sorted[j].createdAt
    {
      assert perm[i] != perm[j];
      assert !Newer(sorted[j], sorted[i]);
    }
  }

  lemma MatchingNext(how: How, lower: int -> int, order: seq<Entry>, e: Entry, query: Text, tags: seq<Text>)
    ensures Matching(how, lower, order + [e], query, tags)
      == if Matches(how, lower, e, query, tags) then Matching(how, lower, order, query, tags) + [e]
         else Matching(how, lower, order, query, tags)
  {
    assert (order + [e])[..|order|] == order;
  }

  lemma ReadableNext(index: seq<IndexEntry>, i: nat, files: map<Id, Entry>, unreadable: set<Id>)
    requires i < |index|
    ensures var id := index[i].id;
      Readable(index[..i + 1], files, unreadable)
      == if id in files && id !in unreadable then Readable(index[..i], files, unreadable) + [files[id]]
         else Readable(index[..i], files, unreadable)
  {
    assert index[..i + 1][..i] == index[..i];
  }

  /** What has been found after part of the index stays in front of what is found after all of it. */
  lemma {:induction false} MatchingGrows(how: How, lower: int -> int, index: seq<IndexEntry>, i: nat, files: map<Id, Entry>,
                                         unreadable: set<Id>, query: Text, tags: seq<Text>)
    requires i <= |index|
    ensures Matching(how, lower, Readable(index[..i], files, unreadable), query, tags)
         <= Matching(how, lower, Readable(index, files, unreadable), query, tags)
    decreases |index| - i
  {
    if i == |index| {
      assert index[..i] == index;
    } else {
      hide Matching, Readable, Matches;
      ReadableNext(index, i, files, unreadable);
      var id := index[i].id;
      if id in files && id !in unreadable {
        MatchingNext(how, lower, Readable(index[..i], files, unreadable), files[id], query, tags);
      }
      MatchingGrows(how, lower, index, i + 1, files, unreadable, query, tags);
    }
  }

  /** The search loop over the sorted index: the summary first, the file when the summary does not say. */
  method Scan(lower: int -> int, entries: seq<IndexEntry>, files: map<Id, Entry>, unreadable: set<Id>,
              query: Text, tags: seq<Text>, limit: int) returns (results: seq<Entry>)
    requires IndexOk(entries, files)
    ensures results == First(Matching(ViaSummary, lower, Readable(entries, files, unreadable), query, tags), limit)
  {
    hide Readable, Matching, Matches, Lower, Contains, TagsInclude, IndexOk, Summary;
    var lowerQuery := Lower(lower, query);
    results := [];
    StartSearch(lower, files, unreadable, query, tags);
    assert entries[..0] == [];
    for i := 0 to |entries|
      invariant results == Matching(ViaSummary, lower, Readable(entries[..i], files, unreadable), query, tags)
      invariant limit > 0 ==> |results| < limit
    {
      var ie := entries[i];
      SearchStep(lower, entries, i, files, unreadable, query, tags);
      MatchingGrows(ViaSummary, lower, entries, i + 1, files, unreadable, query, tags);
      var tagsMatch := MatchTags(lower, ie.tags, tags);
      if query != [] && !Contains(Lower(lower, ie.summary), lowerQuery) {
        if ie.id !in files || ie.id in unreadable { continue; }
        var e := files[ie.id];
        if !Contains(Lower(lower, e.content), lowerQuery) { continue; }
        if !tagsMatch { continue; }
        results := results + [e];
      } else {
        if !tagsMatch { continue; }
        if ie.id !in files || ie.id in unreadable { continue; }
        results := results + [files[ie.id]];
      }
      if limit > 0 && |results| >= limit { return; }
    }
    assert entries[..|entries|] == entries;
  }

  class Store {
    var files: map<Id, Entry>
    var index: seq<IndexEntry>
    const indexFile: FileSystem<seq<IndexEntry>>

    ghost predicate Valid()
      reads this, indexFile
    {
      && FilesOk(files) && IndexOk(index, files)
      && indexFile.View().Valid() && IndexOk(StoredIndex(), files)
    }

    /** The index as a new process would load it: an unreadable one counts as empty. */
    ghost function StoredIndex(): seq<IndexEntry>
      reads this, indexFile
    {
      if indexFile.file.Whole? then indexFile.file.data else []
    }

    /** The entries that can be found. */
    ghost function Contents(): map<Id, Entry>
      reads this
    {
      Shown(index, files)
    }

    /** The entries that could be found after a restart. */
    ghost function Stored(): map<Id, Entry>
      reads this, indexFile
    {
      Shown(StoredIndex(), files)
    }

    /** NewStore on an existing directory. */
    constructor Open(files: map<Id, Entry>, indexFile: FileSystem<seq<IndexEntry>>)
      requires FilesOk(files) && indexFile.View().Valid()
      requires indexFile.file.Whole? ==> IndexOk(indexFile.file.data, files)
      ensures Valid() && this.files == files && this.indexFile == indexFile
      ensures Contents() == Stored()
    {
      this.files, this.indexFile := files, indexFile;
      index := if indexFile.file.Whole? then indexFile.file.data else [];
    }

    /**
      The new entry can be found as soon as its file is written, whether or not the
      index reaches the disk; it survives a restart when the save was acknowledged.
     */
    method Save(id: Id, content: Text, tags: seq<Text>, source: string, now: int,
                entryFault: Fault, indexFault: Fault) returns (saved: Option<Entry>)
      requires Valid()
      requires id !in files && !Indexed(index, id) && !Indexed(StoredIndex(), id)
      modifies this, indexFile
      ensures Valid()
      ensures var entry := Entry(id, content, tags, now, now, source);
        && Contents() == (if WriteOutcome(entryFault) == Done then old(Contents())[id := entry] else old(Contents()))
        && saved == (if WriteOutcome(entryFault) == Done && WriteOutcome(indexFault) == Done then Some(entry) else None)
      ensures saved.Some? <==> entryFault == NoFault && indexFault == NoFault
      ensures saved.Some? ==> Stored() == Contents()
      ensures entryFault == NoFault ==>
        index == old(index) + [IndexEntry(id, if |content| > 100 then content[..100] else content, tags, now)]
      ensures files == if PastRename(entryFault) then old(files)[id := Entry(id, content, tags, now, now, source)]
                       else old(files)
      ensures index == if WriteOutcome(entryFault) == Done
                       then old(index) + [IndexEntry(id, Summary(content), tags, now)] else old(index)
      ensures indexFile.View() == if WriteOutcome(entryFault) == Done
                                  then AfterWrite(old(indexFile.View()), index, indexFault) else old(indexFile.View())
    {
      var entry := Entry(id, content, tags, now, now, source);
      if PastRename(entryFault) {
        files := files[id := entry];
      }
      if WriteOutcome(entryFault) != Done {
        UnlistedFile(index, old(files), entry);
        return None;
      }
      AppendIndex(index, old(files), entry);
      index := index + [IndexEntry(id, Summary(content), tags, now)];
      var outcome := indexFile.WriteFile(index, indexFault);
      if outcome != Done { return None; }
      return Some(entry);
    }

    /** A deleted entry is gone for searches at once, and for restarts too: its file is no more. */
    method Delete(id: Id, removeFails: bool, indexFault: Fault) returns (ok: bool)
      requires Valid()
      modifies this, indexFile
      ensures Valid()
      ensures Contents() == if removeFails then old(Contents()) else old(Contents()) - {id}
      ensures !removeFails ==> id !in files && id !in Contents() && id !in Stored()
      ensures ok <==> !removeFails && WriteOutcome(indexFault) == Done
      ensures ok <==> !removeFails && indexFault == NoFault
      ensures ok ==> Stored() == Contents()
      ensures files == if removeFails then old(files) else old(files) - {id}
      ensures index == if removeFails then old(index) else Without(old(index), id)
      ensures indexFile.View() == if removeFails then old(indexFile.View())
                                  else AfterWrite(old(indexFile.View()), index, indexFault)
    {
      assert DistinctIds(index) && DistinctIds(StoredIndex());
      hide IndexOk, Shown;
      if removeFails { return false; }
      FilteredOk(StoredIndex(), StoredIndex(), files, id);
      var filtered: seq<IndexEntry> := [];
      for i := 0 to |index|
        invariant filtered == Without(index[..i], id)
      {
        assert index[..i + 1][..i] == index[..i];
        if index[i].id != id {
          filtered := filtered + [index[i]];
        }
      }
      assert index[..|index|] == index;
      WithoutIs(index, id);
      FilteredOk(index, filtered, files, id);
      FilterShown(index, filtered, files, id);
      files := files - {id};
      index := filtered;
      var outcome := indexFile.WriteFile(index, indexFault);
      ShownHaveFiles(index, files);
      ShownHaveFiles(StoredIndex(), files);
      ok := outcome == Done;
    }

    /**
      The search through the index: the first `limit` matches of some newest-first
      order of the entries that can be read. It is what a scan of the contents finds
      unless the query ends with U+FFFD and some summary is cut inside a character.
     */
    method Search(lower: int -> int, query: Text, tags: seq<Text>, limit: int, unreadable: set<Id>)
        returns (results: seq<Entry>)
      requires Valid()
      ensures exists order :: FoundBy(ViaSummary, lower, order, Contents() - unreadable, query, tags, limit, results)
      ensures Casing(lower) && (!EndsBad(query) || CutBetweenRunes(Contents())) ==>
        exists order :: FoundBy(Plainly, lower, order, Contents() - unreadable, query, tags, limit, results)
      ensures Answer(true, lower, Contents() - unreadable, query, tags, limit, results)
      ensures Casing(lower) && (!EndsBad(query) || CutBetweenRunes(Contents())) ==>
        Answer(false, lower, Contents() - unreadable, query, tags, limit, results)
    {
      hide Answer;
      var entries, perm := SortSlice(index, Newer);
      SortedIndex(index, entries, perm, files);
      ReadableIsNewestFirst(entries, files, unreadable);
      ghost var order := Readable(entries, files, unreadable);
      results := Scan(lower, entries, files, unreadable, query, tags, limit);
      assert FoundBy(ViaSummary, lower, order, Contents() - unreadable, query, tags, limit, results);
      AnswerIs(ViaSummary, lower, order, Contents() - unreadable, query, tags, limit, results);
      if Casing(lower) && (!EndsBad(query) || CutBetweenRunes(Contents())) {
        SearchIsScan(lower, order, Contents(), query, tags);
        assert FoundBy(Plainly, lower, order, Contents() - unreadable, query, tags, limit, results);
        AnswerIs(Plainly, lower, order, Contents() - unreadable, query, tags, limit, results);
      }
    }

    method List(lower: int -> int, limit: int, unreadable: set<Id>) returns (results: seq<Entry>)
      requires Valid()
      ensures exists order :: NewestFirst(order, Contents() - unreadable) && results == First(order, limit)
      ensures Answer(true, lower, Contents() - unreadable, [], [], limit, results)
    {
      results := Search(lower, [], [], limit, unreadable);
      ghost var order :| FoundBy(ViaSummary, lower, order, Contents() - unreadable, [], [], limit, results);
      EverythingMatches(ViaSummary, lower, order);
    }
  }

  /** No summary ends inside a character. */
  ghost predicate CutBetweenRunes(contents: map<Id, Entry>) {
    forall id :: id in contents && |contents[id].content| > SUMMARY_LENGTH ==>
      Utf8.AtRune(contents[id].content, SUMMARY_LENGTH)
  }

  lemma SummaryIsHarmless(lower: int -> int, e: Entry, query: Text, tags: seq<Text>)
    requires Casing(lower)
    requires !EndsBad(query) || |e.content| <= SUMMARY_LENGTH || Utf8.AtRune(e.content, SUMMARY_LENGTH)
    ensures Matches(Plainly, lower, e, query, tags) == Matches(ViaSummary, lower, e, query, tags)
  {
    hide Lower, Contains, Casing, EndsBad;
    if |e.content| > SUMMARY_LENGTH && Contains(Lower(lower, Summary(e.content)), Lower(lower, query)) {
      CutIsHarmless(lower, e.content, SUMMARY_LENGTH, query);
    }
  }

  /** Entry by entry, and so for the whole list, the summaries make no difference. */
  lemma {:induction false} SearchIsScan(lower: int -> int, order: seq<Entry>, contents: map<Id, Entry>,
                                        query: Text, tags: seq<Text>)
    requires Casing(lower) && (!EndsBad(query) || CutBetweenRunes(contents))
    requires forall e :: e in order ==> e.id in contents && contents[e.id] == e
    ensures Matching(Plainly, lower, order, query, tags) == Matching(ViaSummary, lower, order, query, tags)
  {
    hide Casing, EndsBad, Matches;
    if order != [] {
      var n := |order| - 1;
      assert order[n] in order;
      SearchIsScan(lower, order[..n], contents, query, tags);
      SummaryIsHarmless(lower, order[n], query, tags);
    }
  }

  /**
    The query U+FFFD finds an entry by its summary alone exactly when the summary is
    cut inside a character and the content has no U+FFFD.
   */
  lemma {:induction false} BadQueryFindsCuts(lower: int -> int, e: Entry)
    requires Casing(lower)
    ensures Matches(ViaSummary, lower, e, BAD, []) && !Matches(Plainly, lower, e, BAD, []) <==>
      |e.content| > SUMMARY_LENGTH && !Utf8.AtRune(e.content, SUMMARY_LENGTH) && Utf8.RUNE_ERROR !in Codes(e.content)
  {
    hide Lower, Contains, Casing, Codes;
    if |e.content| > SUMMARY_LENGTH {
      BadQueryIff(lower, e.content, SUMMARY_LENGTH);
    }
  }

  const ACCENTED: Text := [0xC3, 0xA9]

  /** The accented letter behind 99 ASCII bytes: cut in two at byte 100, and not U+FFFD. */
  lemma AccentIsCut(pad: Text)
    requires |pad| == 99 && forall i :: 0 <= i < |pad| ==> pad[i] < 0x80
    ensures !Utf8.AtRune(pad + ACCENTED, 100) && Utf8.RUNE_ERROR !in Codes(pad + ACCENTED)
  {
    hide Codes, Lowering.CodesOf;
    var s := pad + ACCENTED;
    assert s[..99] == pad && s[99..] == ACCENTED;
    Utf8.AsciiIsOneRune(s, 98);
    CodesAtRune(s, 99);
    AsciiCodes(pad);
    CodesFirst(ACCENTED);
    NoCodes();
    assert Utf8.DecodeRune(ACCENTED) == RR.Rune(0xE9, 2) && ACCENTED[2..] == [];
    assert Codes(ACCENTED) == [0xE9];
    Utf8.DecodeRuneIsLawful();
    RR.BoundaryShift(Utf8.DecodeRune, pad, ACCENTED, 1);
  }

  /** An entry that shows it: the summary cuts its last letter in two. */
  lemma FoundByItsSummary(lower: int -> int, pad: Text, e: Entry)
    requires Casing(lower) && |pad| == 99 && forall i :: 0 <= i < |pad| ==> pad[i] < 0x80
    requires e.content == pad + ACCENTED
    ensures Matches(ViaSummary, lower, e, BAD, []) && !Matches(Plainly, lower, e, BAD, [])
  {
    hide Matches, Casing, Codes, Utf8.AtRune;
    AccentIsCut(pad);
    BadQueryFindsCuts(lower, e);
  }

  lemma StartSearch(lower: int -> int, files: map<Id, Entry>, unreadable: set<Id>, query: Text, tags: seq<Text>)
    ensures Matching(ViaSummary, lower, Readable([], files, unreadable), query, tags) == []
  {
  }

  /** Looking at the indexed summary first and at the file only then comes to looking at both of the entry's. */
  lemma SearchStep(lower: int -> int, index: seq<IndexEntry>, i: nat, files: map<Id, Entry>, unreadable: set<Id>,
                   query: Text, tags: seq<Text>)
    requires i < |index| && IndexOk(index, files)
    ensures var ie := index[i];
      var found := Matching(ViaSummary, lower, Readable(index[..i], files, unreadable), query, tags);
      var inSummary := query == [] || Contains(Lower(lower, ie.summary), Lower(lower, query));
      Matching(ViaSummary, lower, Readable(index[..i + 1], files, unreadable), query, tags)
      == if ie.id in files && ie.id !in unreadable && TagsInclude(lower, ie.tags, tags)
            && (inSummary || Contains(Lower(lower, files[ie.id].content), Lower(lower, query)))
         then found + [files[ie.id]] else found
  {
    var ie := index[i];
    ReadableNext(index, i, files, unreadable);
    if ie.id in files && ie.id !in unreadable {
      var e := files[ie.id];
      assert Agrees(ie, e);
      LowerIs(lower, ie.summary);
      LowerIs(lower, Summary(e.content));
      MatchingNext(ViaSummary, lower, Readable(index[..i], files, unreadable), e, query, tags);
    }
  }

  lemma {:induction false} EverythingMatches(how: How, lower: int -> int, order: seq<Entry>)
    ensures Matching(how, lower, order, [], []) == order
  {
    if order != [] {
      var n := |order| - 1;
      EverythingMatches(how, lower, order[..n]);
      assert order == order[..n] + [order[n]];
    }
  }

  lemma ShownHaveFiles(index: seq<IndexEntry>, files: map<Id, Entry>)
    ensures Shown(index, files).Keys <= files.Keys
  {
  }

  lemma UnlistedFile(index: seq<IndexEntry>, files: map<Id, Entry>, e: Entry)
    requires e.id !in files && !Indexed(index, e.id)
    ensures Shown(index, files[e.id := e]) == Shown(index, files)
  {
  }

  lemma AppendIndex(index: seq<IndexEntry>, files: map<Id, Entry>, e: Entry)
    requires e.id !in files && !Indexed(index, e.id) && IndexOk(index, files)
    ensures var index' := index + [IndexEntry(e.id, Summary(e.content), e.tags, e.createdAt)];
      IndexOk(index', files[e.id := e]) && Shown(index', files[e.id := e]) == Shown(index, files)[e.id := e]
  {
    var ie := IndexEntry(e.id, Summary(e.content), e.tags, e.createdAt);
    AppendIndexOk(index, files, e, ie);
    hide IndexOk, Summary, Indexed;
    forall id ensures Indexed(index + [ie], id) <==> Indexed(index, id) || id == e.id {
      IndexedAppend(index, ie, id);
    }
  }

  lemma IndexedAppend(index: seq<IndexEntry>, ie: IndexEntry, id: Id)
    ensures Indexed(index + [ie], id) <==> Indexed(index, id) || id == ie.id
  {
    var index' := index + [ie];
    assert index'[|index|] == ie;
    if i :| 0 <= i < |index| && index[i].id == id {
      assert index'[i] == index[i];
    }
  }

  lemma AppendIndexOk(index: seq<IndexEntry>, files: map<Id, Entry>, e: Entry, ie: IndexEntry)
    requires e.id !in files && !Indexed(index, e.id) && IndexOk(index, files) && Agrees(ie, e)
    ensures IndexOk(index + [ie], files[e.id := e])
  {
    var index' := index + [ie];
    assert DistinctIds(index') by {
      assert forall i :: 0 <= i < |index| ==> index'[i] == index[i] && index[i].id != e.id;
    }
    forall x | x in index' && x.id in files[e.id := e] ensures Agrees(x, files[e.id := e][x.id]) {
      if x != ie {
        assert x in index;
        var i :| 0 <= i < |index| && index[i] == x;
        assert x.id != e.id;
      }
    }
  }

  lemma FilteredOk(index: seq<IndexEntry>, filtered: seq<IndexEntry>, files: map<Id, Entry>, id: Id)
    requires IndexOk(index, files) && DistinctIds(filtered) && forall ie :: ie in filtered ==> ie in index
    ensures IndexOk(filtered, files - {id})
  {
    hide DistinctIds, Agrees;
    forall x | x in filtered && x.id in files - {id} ensures Agrees(x, (files - {id})[x.id]) {
      assert x in index;
    }
  }

  lemma FilterShown(index: seq<IndexEntry>, filtered: seq<IndexEntry>, files: map<Id, Entry>, id: Id)
    requires forall ie :: ie in filtered <==> ie in index && ie.id != id
    ensures Shown(filtered, files - {id}) == Shown(index, files) - {id}
  {
    forall x ensures Indexed(filtered, x) <==> Indexed(index, x) && x != id {
      if Indexed(filtered, x) {
        var i :| 0 <= i < |filtered| && filtered[i].id == x;
        assert filtered[i] in filtered;
        assert filtered[i] in index;
      }
      if Indexed(index, x) && x != id {
        var i :| 0 <= i < |index| && index[i].id == x;
        assert index[i] in index;
        assert index[i] in filtered;
      }
    }
  }
}
