/** Reading a warm worker's output lines up to the message that is waited for. */
module WarmProto {
  import opened Basics

  const MAX_CONSECUTIVE_FAILURES: nat := 100

  datatype ResultMessage = ResultMessage(result: string, isError: bool, errors: seq<string>)

  /** One output line: not JSON, or a message whose type and subtype decode. `body` is None when a full decode fails. */
  datatype Line =
    | Malformed
    | Message(kind: string, subtype: string, body: Option<ResultMessage>)

  datatype Target = Init | Result

  predicate Matches(line: Line, target: Target) {
    line.Message? &&
    match target
    case Init => line.kind == "system" && line.subtype == "init"
    case Result => line.kind == "result"
  }

  /** The child's output and how far it has been read. */
  class Scanner {
    const lines: seq<Line>
    const broken: bool // the stream ends in a read error rather than end of file
    var pos: nat

    constructor (lines: seq<Line>, broken: bool)
      ensures this.lines == lines && this.broken == broken && pos == 0
    {
      this.lines, this.broken, pos := lines, broken, 0;
    }

    ghost predicate Valid()
      reads this
    {
      pos <= |lines|
    }
  }

  /** 101 malformed lines in a row, starting at `i`. */
  ghost predicate Stretch(lines: seq<Line>, i: int) {
    && 0 <= i && i + MAX_CONSECUTIVE_FAILURES + 1 <= |lines|
    && forall j :: i <= j < i + MAX_CONSECUTIVE_FAILURES + 1 ==> lines[j].Malformed?
  }

  /** Line `k` is the first match from `from` on, and no stretch comes before it. */
  ghost predicate Reaches(lines: seq<Line>, from: nat, target: Target, k: int) {
    && from <= k < |lines| && Matches(lines[k], target)
    && (forall j :: from <= j < k ==> !Matches(lines[j], target))
    && (forall i :: from <= i && i + MAX_CONSECUTIVE_FAILURES + 1 <= k ==> !Stretch(lines, i))
  }

  /** A stretch ends at `k` before anything matched, and none ended earlier. */
  ghost predicate Drowns(lines: seq<Line>, from: nat, target: Target, k: int) {
    && from <= k - MAX_CONSECUTIVE_FAILURES - 1 && k <= |lines|
    && Stretch(lines, k - MAX_CONSECUTIVE_FAILURES - 1)
    && (forall j :: from <= j < k ==> !Matches(lines[j], target))
    && (forall i :: from <= i && i + MAX_CONSECUTIVE_FAILURES + 1 < k ==> !Stretch(lines, i))
  }

  /**
    What it takes to reach the init message and the result, with the fields and the
    limit written out: no 101 malformed lines in a row come before them.
   */
  lemma ReachesSays(lines: seq<Line>, from: nat, k: int)
    ensures Reaches(lines, from, Init, k) <==>
      && from <= k < |lines|
      && lines[k].Message? && lines[k].kind == "system" && lines[k].subtype == "init"
      && (forall j :: from <= j < k && lines[j].Message? ==> !(lines[j].kind == "system" && lines[j].subtype == "init"))
      && (forall i :: from <= i <= k - 101 && lines[i].Malformed? ==> exists j :: i < j < i + 101 && lines[j].Message?)
    ensures Reaches(lines, from, Result, k) <==>
      && from <= k < |lines| && lines[k].Message? && lines[k].kind == "result"
      && (forall j :: from <= j < k && lines[j].Message? ==> lines[j].kind != "result")
      && (forall i :: from <= i <= k - 101 && lines[i].Malformed? ==> exists j :: i < j < i + 101 && lines[j].Message?)
  {
    if from <= k < |lines| {
      forall i | from <= i <= k - 101
        ensures Stretch(lines, i) <==> lines[i].Malformed? && !exists j :: i < j < i + 101 && lines[j].Message?
      {
      }
    }
  }

  datatype Skip = Found | TooManyMalformed | ReadError | EndOfFile

  /** The loop both readers have: skip until a match, give up after more than 100 malformed lines in a row. */
  method SkipUntil(scanner: Scanner, target: Target) returns (skip: Skip)
    requires scanner.Valid()
    modifies scanner
    ensures scanner.Valid() && old(scanner.pos) <= scanner.pos
    ensures skip == Found <==> exists k :: Reaches(scanner.lines, old(scanner.pos), target, k)
    ensures skip == Found ==> scanner.pos > 0 && Reaches(scanner.lines, old(scanner.pos), target, scanner.pos - 1)
    ensures skip == TooManyMalformed <==> exists k :: Drowns(scanner.lines, old(scanner.pos), target, k)
    ensures skip == TooManyMalformed ==> Drowns(scanner.lines, old(scanner.pos), target, scanner.pos)
    ensures skip == ReadError ==> scanner.broken && scanner.pos == |scanner.lines|
    ensures skip == EndOfFile ==> !scanner.broken && scanner.pos == |scanner.lines|
  {
    ghost var from := scanner.pos;
    var failures := 0;
    while scanner.pos < |scanner.lines|
      invariant from <= scanner.pos <= |scanner.lines|
      invariant 0 <= failures <= MAX_CONSECUTIVE_FAILURES && failures <= scanner.pos - from
      invariant forall j :: scanner.pos - failures <= j < scanner.pos ==> scanner.lines[j].Malformed?
      invariant failures < scanner.pos - from ==> !scanner.lines[scanner.pos - failures - 1].Malformed?
      invariant forall j :: from <= j < scanner.pos ==> !Matches(scanner.lines[j], target)
      invariant forall i :: from <= i && i + MAX_CONSECUTIVE_FAILURES + 1 <= scanner.pos ==> !Stretch(scanner.lines, i)
      decreases |scanner.lines| - scanner.pos
    {
      var line := scanner.lines[scanner.pos];
      scanner.pos := scanner.pos + 1;
      if line.Malformed? {
        failures := failures + 1;
        if failures > MAX_CONSECUTIVE_FAILURES {
          assert Drowns(scanner.lines, from, target, scanner.pos);
          return TooManyMalformed;
        }
        continue;
      }
      failures := 0;
      if Matches(line, target) {
        assert Reaches(scanner.lines, from, target, scanner.pos - 1);
        return Found;
      }
    }
    return if scanner.broken then ReadError else EndOfFile;
  }

  method ReadUntilInit(scanner: Scanner) returns (ok: bool)
    requires scanner.Valid()
    modifies scanner
    ensures scanner.Valid() && old(scanner.pos) <= scanner.pos
    ensures ok <==> exists k :: Reaches(scanner.lines, old(scanner.pos), Init, k)
    ensures ok ==> scanner.pos > 0 && Reaches(scanner.lines, old(scanner.pos), Init, scanner.pos - 1)
  {
    var skip := SkipUntil(scanner, Init);
    ok := skip == Found;
  }

  /**
    Succeeds exactly when a result line is reached before a stretch of malformed
    lines and decodes; it is the first result line, and reading stops right after it.
   */
  method ReadUntilResult(scanner: Scanner) returns (r: Option<ResultMessage>)
    requires scanner.Valid()
    modifies scanner
    ensures scanner.Valid() && old(scanner.pos) <= scanner.pos
    ensures r.Some? <==>
      exists k :: Reaches(scanner.lines, old(scanner.pos), Result, k) && scanner.lines[k].body.Some?
    ensures r.Some? ==>
      scanner.pos > 0 && Reaches(scanner.lines, old(scanner.pos), Result, scanner.pos - 1)
      && r == scanner.lines[scanner.pos - 1].body
  {
    var skip := SkipUntil(scanner, Result);
    if skip == Found {
      r := scanner.lines[scanner.pos - 1].body;
    } else {
      r := None;
    }
  }
}
