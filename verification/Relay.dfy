/**
  The relay's incremental reader of the result stream: response headers, then
  lines, of which the `data: ` ones carry JSON. Whatever the cuts between the
  chunks that arrive, the events pushed are those of the text as a whole.
 */
module Relay {
  import opened Basics

  const HEADER_END: string := "\r\n\r\n"
  const DATA: string := "data: "

  /** JSON.stringify on the daemon's side, JSON.parse on the relay's; None for text that is not JSON. */
  datatype Codec<!E> = Codec(show: E -> string, parse: string -> Option<E>)

  ghost predicate Faithful<E(!new)>(codec: Codec<E>) {
    forall e :: codec.parse(codec.show(e)) == Some(e) && OneLine(codec.show(e))
  }

  /** A JSON object's text: on one line, and nothing for trim() to take off. */
  predicate OneLine(s: string) {
    s != "" && '\n' !in s && !IsSpace(s[0]) && !IsSpace(s[|s| - 1])
  }

  /** The white space and line terminators that JavaScript's trim() removes. */
  predicate IsSpace(c: char) {
    var n := c as int;
    9 <= n <= 13 || n == 0x20 || n == 0xA0 || n == 0x1680 || 0x2000 <= n <= 0x200A
    || n == 0x2028 || n == 0x2029 || n == 0x202F || n == 0x205F || n == 0x3000 || n == 0xFEFF
  }

  function TrimStart(s: string): string {
    if s != "" && IsSpace(s[0]) then TrimStart(s[1..]) else s
  }

  function Trim(s: string): string {
    if s != "" && IsSpace(s[|s| - 1]) then Trim(s[..|s| - 1]) else TrimStart(s)
  }

  /** What split("\n") gives: one piece more than there are newlines. */
  function Lines(s: string): (lines: seq<string>)
    ensures lines != []
  {
    if s == "" then [""]
    else
      var l := Lines(s[..|s| - 1]);
      if s[|s| - 1] == '\n' then l + [""] else l[..|l| - 1] + [l[|l| - 1] + [s[|s| - 1]]]
  }

  function Complete(s: string): seq<string> { Lines(s)[..|Lines(s)| - 1] }
  function Partial(s: string): string { Lines(s)[|Lines(s)| - 1] }

  /** Where the headers end, if they do. */
  function HeaderEnd(s: string): (k: Option<nat>)
    ensures k.Some? ==> k.value + |HEADER_END| <= |s| && s[k.value..k.value + |HEADER_END|] == HEADER_END
  {
    if HEADER_END <= s then Some(0)
    else if s == "" then None
    else Later(HeaderEnd(s[1..]))
  }

  function Later(k: Option<nat>): Option<nat> {
    match k case None => None case Some(n) => Some(n + 1)
  }

  /** The event a line carries: none unless it is a `data: ` line with something in it that parses. */
  function EventOf<E>(codec: Codec<E>, line: string): Option<E> {
    if DATA <= line then
      var json := Trim(line[|DATA|..]);
      if json == "" then None else codec.parse(json)
    else None
  }

  function Events<E>(codec: Codec<E>, lines: seq<string>): seq<E> {
    if lines == [] then []
    else
      var init := Events(codec, lines[..|lines| - 1]);
      match EventOf(codec, lines[|lines| - 1])
      case None => init
      case Some(e) => init + [e]
  }

  /** The reader's closure variables and what it has pushed so far. */
  datatype Reader<E> = Reader(buffer: string, headersParsed: bool, pushed: seq<E>)

  function AtStart<E>(): Reader<E> { Reader("", false, []) }

  /** The simple form: the response text as a whole, headers off, every finished line looked at once. */
  function Whole<E>(codec: Codec<E>, text: string): Reader<E> {
    match HeaderEnd(text)
    case None => Reader(text, false, [])
    case Some(k) =>
      var body := text[k + |HEADER_END|..];
      Reader(Partial(body), true, Events(codec, Complete(body)))
  }

  function Concat(chunks: seq<string>): string {
    if chunks == [] then "" else Concat(chunks[..|chunks| - 1]) + chunks[|chunks| - 1]
  }

  class Connection<E> {
    const codec: Codec<E>
    var buffer: string
    var headersParsed: bool
    var pushed: seq<E>

    function State(): Reader<E>
      reads this
    {
      Reader(buffer, headersParsed, pushed)
    }

    constructor (codec: Codec<E>)
      ensures this.codec == codec && State() == AtStart() == Whole(codec, "")
    {
      this.codec, buffer, headersParsed, pushed := codec, "", false, [];
    }

    /** One `data` event of the socket, after the text `before` has already arrived. */
    method OnData(chunk: string, ghost before: string)
      requires State() == Whole(codec, before)
      modifies this
      ensures State() == Whole(codec, before + chunk)
      ensures old(pushed) <= pushed
    {
      Arrive(codec, before, chunk);
      hide HeaderEnd, Complete, Partial, Events, Trim, Whole;
      buffer := buffer + chunk;
      if !headersParsed {
        match HeaderEnd(buffer)
        case None => return;
        case Some(k) =>
          buffer := buffer[k + |HEADER_END|..];
          headersParsed := true;
      }
      var lines := Complete(buffer);
      buffer := Partial(buffer);
      ghost var had := pushed;
      EventsOfNone(codec, had);
      assert lines[..0] == [];
      for i := 0 to |lines|
        modifies this`pushed
        invariant pushed == had + Events(codec, lines[..i])
      {
        AddLine(codec, had, lines, i);
        if DATA <= lines[i] {
          var json := Trim(lines[i][|DATA|..]);
          if json == "" { continue; }
          match codec.parse(json)
          case None =>
          case Some(event) => pushed := pushed + [event];
        }
      }
      assert lines[..|lines|] == lines;
    }
  }

  lemma EventsOfNone<E>(codec: Codec<E>, had: seq<E>)
    ensures had == had + Events(codec, [])
  {
  }

  lemma AddLine<E>(codec: Codec<E>, had: seq<E>, lines: seq<string>, i: nat)
    requires i < |lines|
    ensures had + Events(codec, lines[..i + 1])
      == match EventOf(codec, lines[i])
         case None => had + Events(codec, lines[..i])
         case Some(e) => (had + Events(codec, lines[..i])) + [e]
  {
    assert lines[..i + 1][..i] == lines[..i];
  }

  // ---------- the library calls do what their names say ----------

  function Joined(lines: seq<string>): string
    requires lines != []
  {
    if |lines| == 1 then lines[0] else Joined(lines[..|lines| - 1]) + "\n" + lines[|lines| - 1]
  }

  /** The pieces have no newline in them, and newlines between them give the text back. */
  lemma {:induction false} LinesRejoin(s: string)
    ensures Joined(Lines(s)) == s
    ensures forall i :: 0 <= i < |Lines(s)| ==> '\n' !in Lines(s)[i]
  {
    if s != "" {
      var n := |s| - 1;
      LinesRejoin(s[..n]);
      assert s == s[..n] + [s[n]];
      var l := Lines(s[..n]);
      assert Lines(s) == if s[n] == '\n' then l + [""] else l[..|l| - 1] + [l[|l| - 1] + [s[n]]];
      hide Lines;
      if s[n] == '\n' {
        assert (l + [""])[..|l|] == l;
      } else {
        var m := l[..|l| - 1] + [l[|l| - 1] + [s[n]]];
        assert m[..|m| - 1] == l[..|l| - 1];
      }
    }
  }

  predicate Blank(s: string) { forall i :: 0 <= i < |s| ==> IsSpace(s[i]) }

  lemma {:induction false} TrimStartIs(s: string) returns (front: string)
    ensures s == front + TrimStart(s) && Blank(front)
    ensures TrimStart(s) != "" ==> !IsSpace(TrimStart(s)[0])
  {
    hide IsSpace;
    if s != "" && IsSpace(s[0]) {
      var f := TrimStartIs(s[1..]);
      front := [s[0]] + f;
      assert s == [s[0]] + s[1..];
    } else {
      front := "";
    }
  }

  /** What is trimmed is the white space around the text, all of it. */
  lemma {:induction false} TrimIs(s: string) returns (front: string, back: string)
    ensures s == front + Trim(s) + back && Blank(front) && Blank(back)
    ensures Trim(s) != "" ==> !IsSpace(Trim(s)[0]) && !IsSpace(Trim(s)[|Trim(s)| - 1])
  {
    hide IsSpace;
    if s != "" && IsSpace(s[|s| - 1]) {
      var f, b := TrimIs(s[..|s| - 1]);
      front, back := f, b + [s[|s| - 1]];
      assert s == s[..|s| - 1] + [s[|s| - 1]];
    } else {
      front := TrimStartIs(s);
      back := "";
      if Trim(s) != "" {
        assert s[|s| - 1] == Trim(s)[|Trim(s)| - 1];
      }
    }
  }

  /** The event of a line, without the trimming: what stands behind "data: ", white space aside, is what is parsed. */
  lemma EventIs<E>(codec: Codec<E>, line: string) returns (front: string, json: string, back: string)
    ensures !("data: " <= line) ==> EventOf(codec, line) == None
    ensures "data: " <= line ==>
      && line == "data: " + front + json + back && Blank(front) && Blank(back)
      && (json != "" ==> !IsSpace(json[0]) && !IsSpace(json[|json| - 1]))
      && EventOf(codec, line) == if json == "" then None else codec.parse(json)
  {
    front, json, back := "", "", "";
    if "data: " <= line {
      front, back := TrimIs(line[6..]);
      json := Trim(line[6..]);
      assert line == "data: " + line[6..];
    }
  }

  lemma {:induction false} HeaderEndIsFirst(s: string, j: nat)
    requires j <= |s| && HEADER_END <= s[j..]
    ensures HeaderEnd(s).Some? && HeaderEnd(s).value <= j
  {
    if j > 0 && !(HEADER_END <= s) {
      assert s[1..][j - 1..] == s[j..];
      HeaderEndIsFirst(s[1..], j - 1);
    }
  }

  // ---------- cutting the text anywhere ----------

  lemma LinesSnoc(s: string, c: char)
    ensures Complete(s + [c]) == if c == '\n' then Complete(s) + [Partial(s)] else Complete(s)
    ensures Partial(s + [c]) == if c == '\n' then "" else Partial(s) + [c]
  {
    assert (s + [c])[..|s|] == s;
  }

  lemma SnocConcat(a: string, b: string)
    requires b != ""
    ensures a + b == (a + b[..|b| - 1]) + [b[|b| - 1]]
  {
  }

  lemma AppendOne(x: seq<string>, y: seq<string>, z: string)
    ensures (x + y) + [z] == x + (y + [z])
  {
  }

  lemma {:induction false} LinesConcat(a: string, b: string)
    ensures Complete(a + b) == Complete(a) + Complete(Partial(a) + b)
    ensures Partial(a + b) == Partial(Partial(a) + b)
  {
    if b == "" {
      assert a + b == a && Partial(a) + b == Partial(a);
      PartialIsOneLine(a);
    } else {
      hide Complete, Partial;
      var n := |b| - 1;
      LinesConcat(a, b[..n]);
      var a', p' := a + b[..n], Partial(a) + b[..n];
      SnocConcat(a, b);
      SnocConcat(Partial(a), b);
      LinesSnoc(a', b[n]);
      LinesSnoc(p', b[n]);
      AppendOne(Complete(a), Complete(p'), Partial(p'));
    }
  }

  /** The last piece of a split has no newline left in it. */
  lemma {:induction false} PartialIsOneLine(s: string)
    ensures '\n' !in Partial(s)
    ensures Lines(Partial(s)) == [Partial(s)]
  {
    if s != "" {
      PartialIsOneLine(s[..|s| - 1]);
      if s[|s| - 1] != '\n' {
        var p := Partial(s[..|s| - 1]);
        assert Partial(s) == p + [s[|s| - 1]];
        assert Partial(s)[..|p|] == p;
      }
    }
  }

  /** One character that does not start the end of the headers. */
  lemma HeaderSkip(c: char, s: string)
    requires !(HEADER_END <= [c] + s)
    ensures HeaderEnd([c] + s) == Later(HeaderEnd(s))
  {
    assert ([c] + s)[1..] == s;
  }

  lemma OtherStart(c: char, s: string)
    requires c != '\r'
    ensures !(HEADER_END <= [c] + s)
  {
    assert ([c] + s)[0] == c != HEADER_END[0];
  }

  lemma HeaderHere(s: string)
    requires HEADER_END <= s
    ensures HeaderEnd(s) == Some(0)
  {
  }

  lemma {:induction false} HeaderEndStays(a: string, b: string)
    requires HeaderEnd(a).Some?
    ensures HeaderEnd(a + b) == HeaderEnd(a)
  {
    if HEADER_END <= a {
      HeaderHere(a + b);
    } else {
      assert a + b == [a[0]] + (a[1..] + b) && a == [a[0]] + a[1..];
      HeaderSkip(a[0], a[1..]);
      hide HeaderEnd;
      HeaderEndStays(a[1..], b);
      LongEnough(a, b);
      HeaderSkip(a[0], a[1..] + b);
    }
  }

  lemma LongEnough(a: string, b: string)
    requires HeaderEnd(a).Some? && !(HEADER_END <= a)
    ensures !(HEADER_END <= a + b)
  {
    assert |a| >= |HEADER_END|;
    assert (a + b)[..|HEADER_END|] == a[..|HEADER_END|];
  }

  lemma {:induction false} EventsConcat<E>(codec: Codec<E>, a: seq<string>, b: seq<string>)
    ensures Events(codec, a + b) == Events(codec, a) + Events(codec, b)
  {
    if b == [] {
      assert a + b == a;
    } else {
      EventsConcat(codec, a, b[..|b| - 1]);
      assert (a + b)[..|a + b| - 1] == a + b[..|b| - 1];
    }
  }

  /** What one more chunk makes of the text read so far, in terms of what the reader kept of it. */
  lemma Arrive<E>(codec: Codec<E>, a: string, b: string)
    ensures var r, r' := Whole(codec, a), Whole(codec, a + b);
      if r.headersParsed then
        r' == Reader(Partial(r.buffer + b), true, r.pushed + Events(codec, Complete(r.buffer + b)))
      else
        && r.buffer == a && r.pushed == []
        && match HeaderEnd(a + b)
           case None => r' == Reader(a + b, false, [])
           case Some(k) =>
             var body := (a + b)[k + |HEADER_END|..];
             r' == Reader(Partial(body), true, r.pushed + Events(codec, Complete(body)))
  {
    hide HeaderEnd, Complete, Partial, Events;
    match HeaderEnd(a)
    case None =>
    case Some(k) =>
      HeaderEndStays(a, b);
      var body := a[k + |HEADER_END|..];
      assert (a + b)[k + |HEADER_END|..] == body + b;
      LinesConcat(body, b);
      EventsConcat(codec, Complete(body), Complete(Partial(body) + b));
  }

  /** A connection fed chunk by chunk ends where the whole text leads, wherever the cuts are. */
  method Receive<E>(codec: Codec<E>, chunks: seq<string>) returns (c: Connection<E>)
    ensures c.State() == Whole(codec, Concat(chunks))
  {
    c := new Connection(codec);
    assert chunks[..0] == [];
    for i := 0 to |chunks|
      invariant fresh(c) && c.codec == codec
      invariant c.State() == Whole(codec, Concat(chunks[..i]))
    {
      assert chunks[..i + 1][..i] == chunks[..i];
      c.OnData(chunks[i], Concat(chunks[..i]));
    }
    assert chunks[..|chunks|] == chunks;
  }

  // ---------- the printer ----------

  /** A line of the body: an event, or a line the reader passes over (comments, blank lines, chunk framing). */
  datatype Item<E> = Noise(line: string) | Data(event: E)

  predicate Quiet(line: string) { '\n' !in line && !(DATA <= line) }

  predicate AllQuiet<E>(items: seq<Item<E>>) {
    forall i :: 0 <= i < |items| && items[i].Noise? ==> Quiet(items[i].line)
  }

  function PrintItem<E>(codec: Codec<E>, item: Item<E>): string {
    match item
    case Noise(line) => line + "\n"
    case Data(e) => "data: " + codec.show(e) + "\n\n"
  }

  function PrintBody<E>(codec: Codec<E>, items: seq<Item<E>>): string {
    if items == [] then "" else PrintBody(codec, items[..|items| - 1]) + PrintItem(codec, items[|items| - 1])
  }

  function EventsIn<E>(items: seq<Item<E>>): seq<E> {
    if items == [] then []
    else
      var init := EventsIn(items[..|items| - 1]);
      match items[|items| - 1]
      case Noise(_) => init
      case Data(e) => init + [e]
  }

  /** Status line and header fields: each on a line of its own, none empty. */
  predicate HeaderLine(line: string) { line != "" && '\r' !in line && '\n' !in line }

  function PrintHeaders(lines: seq<string>): string {
    if lines == [] then "" else lines[0] + "\r\n" + PrintHeaders(lines[1..])
  }

  function Response<E>(codec: Codec<E>, headers: seq<string>, items: seq<Item<E>>): string {
    PrintHeaders(headers) + "\r\n" + PrintBody(codec, items)
  }

  lemma AtEmptyLine(body: string)
    ensures HeaderEnd("\r\n" + ("\r\n" + body)) == Some(0)
  {
    assert HEADER_END <= "\r\n" + ("\r\n" + body);
  }

  lemma AtNextLine(rest: string)
    requires rest != "" && rest[0] != '\r' && HeaderEnd(rest).Some?
    ensures HeaderEnd("\r\n" + rest) == Some(2 + HeaderEnd(rest).value)
  {
    hide HeaderEnd;
    assert "\r\n" + rest == ['\r'] + (['\n'] + rest);
    assert (['\r'] + (['\n'] + rest))[2] == rest[0];
    HeaderSkip('\r', ['\n'] + rest);
    OtherStart('\n', rest);
    HeaderSkip('\n', rest);
  }

  /** The headers end at the first empty line, not before. */
  lemma {:induction false} HeadersEndThere(headers: seq<string>, body: string)
    requires headers != [] && forall i :: 0 <= i < |headers| ==> HeaderLine(headers[i])
    ensures |PrintHeaders(headers)| >= 2
    ensures HeaderEnd(PrintHeaders(headers) + "\r\n" + body) == Some(|PrintHeaders(headers)| - 2)
  {
    hide HeaderEnd;
    var rest := PrintHeaders(headers[1..]) + "\r\n" + body;
    assert PrintHeaders(headers) + "\r\n" + body == headers[0] + ("\r\n" + rest);
    if headers[1..] == [] {
      AtEmptyLine(body);
      assert rest == "\r\n" + body;
    } else {
      HeadersEndThere(headers[1..], body);
      assert HeaderLine(headers[1..][0]) && rest[0] == headers[1..][0][0];
      AtNextLine(rest);
    }
    SkipLine(headers[0], "\r\n" + rest);
  }

  lemma {:induction false} SkipLine(line: string, rest: string)
    requires '\r' !in line && HeaderEnd(rest).Some?
    ensures HeaderEnd(line + rest) == Some(|line| + HeaderEnd(rest).value)
  {
    hide HeaderEnd;
    if line == "" {
      assert line + rest == rest;
    } else {
      SkipLine(line[1..], rest);
      assert line + rest == [line[0]] + (line[1..] + rest);
      OtherStart(line[0], line[1..] + rest);
      HeaderSkip(line[0], line[1..] + rest);
    }
  }

  lemma {:induction false} OneLineLines(line: string)
    requires '\n' !in line
    ensures Lines(line) == [line]
  {
    if line != "" {
      OneLineLines(line[..|line| - 1]);
      assert line[..|line| - 1] + [line[|line| - 1]] == line;
    }
  }

  /** A finished line at the end of a text that ends with finished lines. */
  lemma AppendLine(text: string, line: string)
    requires Partial(text) == "" && '\n' !in line
    ensures Complete(text + (line + "\n")) == Complete(text) + [line]
    ensures Partial(text + (line + "\n")) == ""
  {
    LinesConcat(text, line + "\n");
    assert "" + (line + "\n") == line + "\n";
    OneLineLines(line);
    assert (line + "\n")[..|line|] == line;
  }

  lemma DataLine<E(!new)>(codec: Codec<E>, e: E)
    requires Faithful(codec)
    ensures '\n' !in DATA + codec.show(e)
    ensures EventOf(codec, DATA + codec.show(e)) == Some(e)
  {
    var json := codec.show(e);
    assert OneLine(json);
    assert (DATA + json)[|DATA|..] == json;
    assert Trim(json) == json;
  }

  lemma {:induction false} BodyRoundTrip<E(!new)>(codec: Codec<E>, items: seq<Item<E>>)
    requires Faithful(codec) && AllQuiet(items)
    ensures Partial(PrintBody(codec, items)) == ""
    ensures Events(codec, Complete(PrintBody(codec, items))) == EventsIn(items)
  {
    if items != [] {
      var n := |items| - 1;
      var text := PrintBody(codec, items[..n]);
      BodyRoundTrip(codec, items[..n]);
      match items[n]
      case Noise(line) =>
        assert Quiet(line);
        AppendLine(text, line);
        AddLast(codec, Complete(text), line);
      case Data(e) =>
        var line := DATA + codec.show(e);
        DataLine(codec, e);
        AppendLine(text, line);
        AppendLine(text + (line + "\n"), "");
        assert text + (line + "\n\n") == (text + (line + "\n")) + ("" + "\n");
        assert PrintItem(codec, items[n]) == line + "\n\n";
        AddLast(codec, Complete(text), line);
        AddLast(codec, Complete(text) + [line], "");
    }
  }

  lemma AddLast<E>(codec: Codec<E>, lines: seq<string>, line: string)
    ensures Events(codec, lines + [line])
      == match EventOf(codec, line) case None => Events(codec, lines) case Some(e) => Events(codec, lines) + [e]
  {
    assert (lines + [line])[..|lines|] == lines;
  }

  /** Print, then read the whole: exactly the printed events, in order, with nothing left over. */
  lemma RoundTrip<E(!new)>(codec: Codec<E>, headers: seq<string>, items: seq<Item<E>>)
    requires Faithful(codec) && AllQuiet(items)
    requires headers != [] && forall i :: 0 <= i < |headers| ==> HeaderLine(headers[i])
    ensures Whole(codec, Response(codec, headers, items)) == Reader("", true, EventsIn(items))
  {
    var body := PrintBody(codec, items);
    var head := PrintHeaders(headers) + "\r\n";
    HeadersEndThere(headers, body);
    assert (head + body)[|head|..] == body;
    BodyRoundTrip(codec, items);
  }

  /** The daemon's body: the greeting comment, then one frame for each event. */
  function Served<E>(events: seq<E>): seq<Item<E>> {
    [Noise(": connected"), Noise("")] + seq(|events|, i requires 0 <= i < |events| => Data(events[i]))
  }

  lemma ServedIsQuiet<E>(events: seq<E>)
    ensures AllQuiet(Served(events))
  {
    assert DATA[0] != ": connected"[0];
  }

  lemma {:induction false} ServedEvents<E>(events: seq<E>)
    ensures EventsIn(Served(events)) == events
  {
    if events == [] {
      var one, two: seq<Item<E>> := [Noise(": connected")], [Noise(": connected"), Noise("")];
      assert EventsIn(one) == [];
      assert Served(events) == two && two[..1] == one;
    } else {
      var n := |events| - 1;
      ServedEvents(events[..n]);
      assert Served(events)[..n + 2] == Served(events[..n]);
      assert events == events[..n] + [events[n]];
    }
  }

  /** End to end: whatever the cuts, the relay pushes exactly the events the daemon served, in order. */
  method RelayAll<E(!new)>(codec: Codec<E>, headers: seq<string>, events: seq<E>, chunks: seq<string>)
      returns (pushed: seq<E>)
    requires Faithful(codec)
    requires headers != [] && forall i :: 0 <= i < |headers| ==> HeaderLine(headers[i])
    requires Concat(chunks) == Response(codec, headers, Served(events))
    ensures pushed == events
  {
    var c := Receive(codec, chunks);
    ServedIsQuiet(events);
    ServedEvents(events);
    RoundTrip(codec, headers, Served(events));
    pushed := c.pushed;
  }

  /** A prefix of the response never makes the relay push anything else: what it has pushed is a prefix. */
  lemma PushesOnlyGrow<E>(codec: Codec<E>, before: string, after: string)
    ensures Whole(codec, before).pushed <= Whole(codec, before + after).pushed
  {
    Arrive(codec, before, after);
  }
}
