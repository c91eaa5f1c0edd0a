/**
 * internal/api/sse.go: the server-sent events parser. It follows section 9.2.6 of the WHATWG HTML
 * standard except where the source differs: empty data is dispatched and ids are per event.
 */
module Sse {
  import opened Prelude

  datatype Event = Event(typ: string, data: string, id: string)

  // ----- Lines of a text (bufio.ScanLines) -----

  function DropCR(line: string): string
  {
    if line != "" && line[|line| - 1] == '\r' then line[..|line| - 1] else line
  }

  /** The first line and what follows its line feed, if it has one. */
  function CutAt(text: string, c: char): (string, Option<string>)
  {
    if text == "" then ("", None)
    else if text[0] == c then ("", Some(text[1..]))
    else
      var (head, rest) := CutAt(text[1..], c);
      ([text[0]] + head, rest)
  }

  lemma {:induction false} CutShrinks(text: string, c: char)
    ensures var (head, rest) := CutAt(text, c);
            c !in head && text == head + (if rest.Some? then [c] + rest.value else "")
  {
    if text != "" && text[0] != c {
      CutShrinks(text[1..], c);
    }
  }

  lemma {:induction false} CutConcat(head: string, rest: string, c: char)
    requires c !in head
    ensures CutAt(head + [c] + rest, c) == (head, Some(rest))
  {
    var text := head + [c] + rest;
    if head == "" {
      assert text[1..] == rest;
    } else {
      assert text[1..] == head[1..] + [c] + rest;
      CutConcat(head[1..], rest, c);
      assert [head[0]] + head[1..] == head;
    }
  }

  function ScanLines(text: string): seq<string>
    decreases |text|
  {
    if text == "" then []
    else
      var (line, rest) := CutAt(text, '\n');
      CutShrinks(text, '\n');
      match rest
      case None => [DropCR(line)]
      case Some(more) => [DropCR(line)] + ScanLines(more)
  }

  function Unlines(lines: seq<string>): string
  {
    if lines == [] then "" else lines[0] + "\n" + Unlines(lines[1..])
  }

  predicate PlainLine(line: string)
  {
    '\n' !in line && (line == "" || line[|line| - 1] != '\r')
  }

  lemma {:induction false} ScanUnlines(lines: seq<string>)
    requires forall i | 0 <= i < |lines| :: PlainLine(lines[i])
    ensures ScanLines(Unlines(lines)) == lines
  {
    if lines == [] {
    } else {
      CutConcat(lines[0], Unlines(lines[1..]), '\n');
      ScanUnlines(lines[1..]);
    }
  }

  // ----- Specification of the parser -----

  /** The fields collected since the last blank line. */
  datatype Pending = Pending(typ: string, data: seq<string>, id: string)

  const EMPTY := Pending("", [], "")

  function Field(line: string): (string, string)
  {
    var (name, rest) := CutAt(line, ':');
    var value := if rest.Some? then rest.value else "";
    (name, if value != "" && value[0] == ' ' then value[1..] else value)
  }

  function Feed(p: Pending, line: string): Pending
    requires line != ""
  {
    if line[0] == ':' then p
    else
      var (name, value) := Field(line);
      if name == "event" then p.(typ := value)
      else if name == "data" then p.(data := p.data + [value])
      else if name == "id" then p.(id := value)
      else p
  }

  function JoinLF(parts: seq<string>): string
    requires parts != []
  {
    if |parts| == 1 then parts[0] else parts[0] + "\n" + JoinLF(parts[1..])
  }

  function Dispatch(p: Pending): Option<Event>
  {
    if p.data == [] then None
    else Some(Event(if p.typ == "" then "message" else p.typ, JoinLF(p.data), p.id))
  }

  function ToSeq(e: Option<Event>): seq<Event>
  {
    if e.Some? then [e.value] else []
  }

  /** Every event of the lines, given what was pending; an unfinished block at the end is discarded. */
  function Events(lines: seq<string>, p: Pending): seq<Event>
    decreases |lines|
  {
    if lines == [] then []
    else if lines[0] == "" then ToSeq(Dispatch(p)) + Events(lines[1..], EMPTY)
    else Events(lines[1..], Feed(p, lines[0]))
  }

  function LastId(events: seq<Event>, before: string): string
  {
    if events == [] then before
    else if events[|events| - 1].id != "" then events[|events| - 1].id
    else LastId(events[..|events| - 1], before)
  }

  /** The interval a line asks for; `atoi` is strconv.Atoi, None on error. */
  function RetryOf(atoi: string -> Option<int>, line: string): seq<int>
  {
    if line == "" || line[0] == ':' || Field(line).0 != "retry" || atoi(Field(line).1) == None then []
    else [atoi(Field(line).1).value]
  }

  /** The intervals the lines ask for, in order. */
  function Retries(atoi: string -> Option<int>, lines: seq<string>): seq<int>
  {
    if lines == [] then [] else RetryOf(atoi, lines[0]) + Retries(atoi, lines[1..])
  }

  // ----- The parser -----

  class SSEParser {
    const atoi: string -> Option<int>
    var lines: seq<string>
    var lastEventID: string
    var retries: seq<int>     // the retry callback's calls, in milliseconds

    constructor (text: string, atoi: string -> Option<int>)
      ensures lines == ScanLines(text) && lastEventID == "" && retries == [] && this.atoi == atoi
    {
      this.atoi, lines, lastEventID, retries := atoi, ScanLines(text), "", [];
    }

    /** The callback's calls so far, and those the remaining lines will cause. */
    ghost function AllRetries(): seq<int>
      reads this
    {
      retries + Retries(atoi, lines)
    }

    /** One field line, after comments have been skipped. */
    method TakeField(line: string, eventType: string, data: seq<string>, id: string)
      returns (eventType': string, data': seq<string>, id': string)
      requires line != "" && line[0] != ':'
      modifies this`retries
      ensures Pending(eventType', data', id') == Feed(Pending(eventType, data, id), line)
      ensures retries == old(retries) + RetryOf(atoi, line)
    {
      eventType', data', id' := eventType, data, id;
      var (field, value) := Field(line);
      if field == "event" {
        eventType' := value;
      } else if field == "data" {
        data' := data + [value];
      } else if field == "id" {
        id' := value;
      } else if field == "retry" {
        var ms := atoi(value);
        if ms.Some? {
          retries := retries + [ms.value];
        }
      }
    }

    method Next() returns (event: Option<Event>)
      modifies this
      ensures AllRetries() == old(AllRetries())
      ensures event.Some? ==> |lines| < |old(lines)|
      ensures Events(old(lines), EMPTY) == ToSeq(event) + Events(lines, EMPTY)
      ensures event == None ==> lines == []
      ensures lastEventID == if event.Some? && event.value.id != "" then event.value.id else old(lastEventID)
    {
      var eventType, data, id := "", [], "";
      ghost var total := AllRetries();
      while lines != []
        invariant |lines| <= |old(lines)| && lastEventID == old(lastEventID)
        invariant retries + Retries(atoi, lines) == total
        invariant Events(lines, Pending(eventType, data, id)) == Events(old(lines), EMPTY)
        decreases |lines|
      {
        var line := lines[0];
        RetryMoves(retries, lines);
        lines := lines[1..];
        if line == "" {
          if |data| > 0 {
            if eventType == "" {
              eventType := "message";
            }
            if id != "" {
              lastEventID := id;
            }
            return Some(Event(eventType, JoinLF(data), id));
          }
          eventType, data, id := "", [], "";
          continue;
        }
        if line[0] == ':' {
          continue;
        }
        eventType, data, id := TakeField(line, eventType, data, id);
      }
      event := None;
    }

    lemma {:induction false} RetryMoves(calls: seq<int>, lines: seq<string>)
      requires lines != []
      ensures calls + Retries(atoi, lines) == calls + RetryOf(atoi, lines[0]) + Retries(atoi, lines[1..])
      ensures RetryOf(atoi, lines[0]) == [] ==> calls + Retries(atoi, lines) == calls + Retries(atoi, lines[1..])
    {
      Regroup(calls, RetryOf(atoi, lines[0]), Retries(atoi, lines[1..]));
    }

    /** Calling Next until it reports exhaustion. */
    method Drain() returns (events: seq<Event>)
      modifies this
      ensures events == Events(old(lines), EMPTY)
      ensures lastEventID == LastId(events, old(lastEventID))
      ensures lines == [] && retries == old(retries) + Retries(atoi, old(lines))
    {
      events := [];
      var event := Next();
      LastIdStep([], event, old(lastEventID));
      while event.Some?
        invariant AllRetries() == old(AllRetries())
        invariant event == None ==> lines == []
        invariant events + ToSeq(event) + Events(lines, EMPTY) == Events(old(lines), EMPTY)
        invariant lastEventID == LastId(events + ToSeq(event), old(lastEventID))
        decreases event.Some?, |lines|
      {
        events := events + ToSeq(event);
        event := Next();
        LastIdStep(events, event, old(lastEventID));
        Regroup(events, ToSeq(event), Events(lines, EMPTY));
      }
      Regroup(events, [], []);
      Regroup(retries, [], []);
    }
  }

  lemma LastIdStep(events: seq<Event>, e: Option<Event>, before: string)
    ensures LastId(events + ToSeq(e), before)
         == if e.Some? && e.value.id != "" then e.value.id else LastId(events, before)
  {
    if e.Some? {
      assert (events + ToSeq(e))[..|events|] == events;
    } else {
      assert events + ToSeq(e) == events;
    }
  }

  // ----- Printing -----

  function SplitLF(data: string): seq<string>
    decreases |data|
  {
    var (line, rest) := CutAt(data, '\n');
    CutShrinks(data, '\n');
    match rest
    case None => [line]
    case Some(more) => [line] + SplitLF(more)
  }

  lemma {:induction false} JoinSplit(data: string)
    ensures JoinLF(SplitLF(data)) == data
    ensures forall i | 0 <= i < |SplitLF(data)| :: '\n' !in SplitLF(data)[i]
    decreases |data|
  {
    var (line, rest) := CutAt(data, '\n');
    CutShrinks(data, '\n');
    if rest.Some? {
      JoinSplit(rest.value);
      assert SplitLF(data)[1..] == SplitLF(rest.value);
    }
  }

  function DataLines(parts: seq<string>): seq<string>
  {
    seq(|parts|, i requires 0 <= i < |parts| => "data: " + parts[i])
  }

  function IdLines(id: string): seq<string>
  {
    if id == "" then [] else ["id: " + id]
  }

  function PrintEvent(e: Event): seq<string>
  {
    ["event: " + e.typ] + IdLines(e.id) + DataLines(SplitLF(e.data)) + [""]
  }

  function PrintEvents(events: seq<Event>): seq<string>
  {
    if events == [] then [] else PrintEvent(events[0]) + PrintEvents(events[1..])
  }

  /** A type, and no carriage return or line feed where it would be taken for a line end. */
  predicate Printable(e: Event)
  {
    && e.typ != "" && PlainLine(e.typ) && PlainLine(e.id)
    && forall i | 0 <= i < |SplitLF(e.data)| :: PlainLine(SplitLF(e.data)[i])
  }

  // ----- Parsing a concatenation -----

  /** What is pending after lines without a blank one. */
  function FeedAll(p: Pending, lines: seq<string>): Pending
    requires forall i | 0 <= i < |lines| :: lines[i] != ""
    decreases |lines|
  {
    if lines == [] then p else FeedAll(Feed(p, lines[0]), lines[1..])
  }

  lemma {:induction false} FeedConcat(p: Pending, xs: seq<string>, ys: seq<string>)
    requires forall i | 0 <= i < |xs| :: xs[i] != ""
    requires forall i | 0 <= i < |ys| :: ys[i] != ""
    ensures FeedAll(p, xs + ys) == FeedAll(FeedAll(p, xs), ys)
    decreases |xs|
  {
    if xs == [] {
      assert xs + ys == ys;
    } else {
      assert (xs + ys)[1..] == xs[1..] + ys;
      FeedConcat(Feed(p, xs[0]), xs[1..], ys);
    }
  }

  lemma {:induction false} EventsOfBlock(block: seq<string>, rest: seq<string>, p: Pending)
    requires forall i | 0 <= i < |block| :: block[i] != ""
    ensures Events(block + [""] + rest, p) == ToSeq(Dispatch(FeedAll(p, block))) + Events(rest, EMPTY)
    decreases |block|
  {
    var lines := block + [""] + rest;
    if block == [] {
      assert lines[1..] == rest;
    } else {
      assert lines[1..] == block[1..] + [""] + rest;
      EventsOfBlock(block[1..], rest, Feed(p, block[0]));
    }
  }

  /** Parsing distributes over concatenation at a blank line. */
  lemma {:induction false} ParseDistributes(xs: seq<string>, ys: seq<string>, p: Pending)
    ensures Events(xs + [""] + ys, p) == Events(xs + [""], p) + Events(ys, EMPTY)
    decreases |xs|
  {
    var lines := xs + [""] + ys;
    if xs == [] {
      assert lines[1..] == ys;
      assert xs + [""] == [""] && [""][1..] == [];
      assert ToSeq(Dispatch(p)) + [] == ToSeq(Dispatch(p));
    } else {
      assert lines[1..] == xs[1..] + [""] + ys && (xs + [""])[1..] == xs[1..] + [""];
      if xs[0] == "" {
        ParseDistributes(xs[1..], ys, EMPTY);
        assert ToSeq(Dispatch(p)) + (Events(xs[1..] + [""], EMPTY) + Events(ys, EMPTY))
            == ToSeq(Dispatch(p)) + Events(xs[1..] + [""], EMPTY) + Events(ys, EMPTY);
      } else {
        ParseDistributes(xs[1..], ys, Feed(p, xs[0]));
      }
    }
  }

  /** A comment, or a field the parser does not build events from. */
  predicate Ignorable(line: string)
  {
    line != "" && (line[0] == ':' || Field(line).0 !in {"event", "data", "id"})
  }

  lemma {:induction false} IgnorableLineChangesNothing(xs: seq<string>, line: string, ys: seq<string>, p: Pending)
    requires Ignorable(line)
    ensures Events(xs + [line] + ys, p) == Events(xs + ys, p)
    decreases |xs|
  {
    var with := xs + [line] + ys;
    if xs == [] {
      assert with[1..] == ys && xs + ys == ys;
    } else {
      assert with[1..] == xs[1..] + [line] + ys && (xs + ys)[1..] == xs[1..] + ys;
      IgnorableLineChangesNothing(xs[1..], line, ys, if xs[0] == "" then EMPTY else Feed(p, xs[0]));
    }
  }

  // ----- Round trip -----

  lemma FieldOf(name: string, value: string)
    requires ':' !in name
    ensures Field(name + ": " + value) == (name, value)
  {
    assert name + ": " + value == name + [':'] + (" " + value);
    CutConcat(name, " " + value, ':');
    assert (" " + value)[1..] == value;
  }

  lemma {:induction false} FeedData(p: Pending, parts: seq<string>)
    ensures forall i | 0 <= i < |DataLines(parts)| :: DataLines(parts)[i] != ""
    ensures FeedAll(p, DataLines(parts)) == p.(data := p.data + parts)
    decreases |parts|
  {
    if parts != [] {
      var lines := DataLines(parts);
      FieldOf("data", parts[0]);
      assert lines[0] == "data" + ": " + parts[0] && lines[0][0] == 'd';
      assert lines[1..] == DataLines(parts[1..]);
      var q := Feed(p, lines[0]);
      assert q == p.(data := p.data + [parts[0]]);
      FeedData(q, parts[1..]);
      assert p.data + [parts[0]] + parts[1..] == p.data + parts;
    } else {
      assert p.data + [] == p.data;
    }
  }

  lemma FeedHead(typ: string, id: string)
    ensures FeedAll(EMPTY, ["event: " + typ] + IdLines(id)) == Pending(typ, [], id)
  {
    FieldOf("event", typ);
    FieldOf("id", id);
    var first := ["event: " + typ];
    assert first[0] == "event" + ": " + typ && first[0][0] == 'e';
    assert "id: " + id == "id" + ": " + id && ("id: " + id)[0] == 'i';
    assert FeedAll(EMPTY, first) == Feed(EMPTY, first[0]) == Pending(typ, [], "") by {
      assert first[1..] == [];
    }
    if id == "" {
      assert first + IdLines(id) == first;
    } else {
      FeedConcat(EMPTY, first, IdLines(id));
      assert IdLines(id)[1..] == [];
    }
  }

  lemma EventOfPrinted(e: Event, rest: seq<string>)
    requires e.typ != ""
    ensures Events(PrintEvent(e) + rest, EMPTY) == [e] + Events(rest, EMPTY)
  {
    var head, parts := ["event: " + e.typ] + IdLines(e.id), SplitLF(e.data);
    FeedHead(e.typ, e.id);
    FeedData(Pending(e.typ, [], e.id), parts);
    FeedConcat(EMPTY, head, DataLines(parts));
    assert [] + parts == parts;
    JoinSplit(e.data);
    EventsOfBlock(head + DataLines(parts), rest, EMPTY);
    assert PrintEvent(e) + rest == head + DataLines(parts) + [""] + rest;
  }

  lemma {:induction false} EventsOfPrinted(events: seq<Event>)
    requires forall i | 0 <= i < |events| :: events[i].typ != ""
    ensures Events(PrintEvents(events), EMPTY) == events
    decreases |events|
  {
    if events == [] {
    } else {
      EventOfPrinted(events[0], PrintEvents(events[1..]));
      EventsOfPrinted(events[1..]);
    }
  }

  lemma PrintedLinesPlain(e: Event)
    requires Printable(e)
    ensures forall i | 0 <= i < |PrintEvent(e)| :: PlainLine(PrintEvent(e)[i])
  {
  }

  lemma {:induction false} AllLinesPlain(events: seq<Event>)
    requires forall i | 0 <= i < |events| :: Printable(events[i])
    ensures forall i | 0 <= i < |PrintEvents(events)| :: PlainLine(PrintEvents(events)[i])
    decreases |events|
  {
    if events == [] {
    } else {
      PrintedLinesPlain(events[0]);
      AllLinesPlain(events[1..]);
    }
  }

  /** Printing any list of events as text and parsing it to exhaustion yields the same list. */
  lemma RoundTrip(events: seq<Event>)
    requires forall i | 0 <= i < |events| :: Printable(events[i])
    ensures Events(ScanLines(Unlines(PrintEvents(events))), EMPTY) == events
  {
    AllLinesPlain(events);
    ScanUnlines(PrintEvents(events));
    EventsOfPrinted(events);
  }

  /** The same on the parser itself; its last event ID ends as the last non-empty one. */
  method ParsePrinted(events: seq<Event>) returns (parsed: seq<Event>, lastEventID: string)
    requires forall i | 0 <= i < |events| :: Printable(events[i])
    ensures parsed == events && lastEventID == LastId(events, "")
  {
    RoundTrip(events);
    var parser := new SSEParser(Unlines(PrintEvents(events)), _ => None);
    parsed := parser.Drain();
    lastEventID := parser.lastEventID;
  }

  // ----- Every way of writing an event -----

  /** A field without colon, with a colon only, or with a colon and a space. */
  datatype Style = Bare | Tight | Spaced

  datatype FieldText = FieldText(name: string, value: string, style: Style)

  /** The bare name stands for an empty value, and a value that starts with a space needs one in front. */
  predicate Writable(f: FieldText)
  {
    && f.name != "" && ':' !in f.name && PlainLine(f.name) && PlainLine(f.value)
    && (f.style == Bare ==> f.value == "")
    && (f.style == Tight ==> f.value == "" || f.value[0] != ' ')
  }

  function FieldLine(f: FieldText): string
  {
    match f.style
    case Bare => f.name
    case Tight => f.name + ":" + f.value
    case Spaced => f.name + ": " + f.value
  }

  function FieldLines(fields: seq<FieldText>): seq<string>
  {
    seq(|fields|, i requires 0 <= i < |fields| => FieldLine(fields[i]))
  }

  /** The value of the last field with this name, empty when there is none. */
  function LastValue(fields: seq<FieldText>, name: string): string
  {
    if fields == [] then ""
    else if fields[|fields| - 1].name == name then fields[|fields| - 1].value
    else LastValue(fields[..|fields| - 1], name)
  }

  function DataValues(fields: seq<FieldText>): seq<string>
  {
    if fields == [] then []
    else
      var front, last := DataValues(fields[..|fields| - 1]), fields[|fields| - 1];
      if last.name == "data" then front + [last.value] else front
  }

  /** The event a block of fields stands for: none without data, and type "message" when none is given. */
  function BlockEvent(fields: seq<FieldText>): seq<Event>
  {
    var typ := LastValue(fields, "event");
    if DataValues(fields) == [] then []
    else [Event(if typ == "" then "message" else typ, JoinLF(DataValues(fields)), LastValue(fields, "id"))]
  }

  function BlockLines(blocks: seq<seq<FieldText>>): seq<string>
  {
    if blocks == [] then [] else FieldLines(blocks[0]) + [""] + BlockLines(blocks[1..])
  }

  function BlockEvents(blocks: seq<seq<FieldText>>): seq<Event>
  {
    if blocks == [] then [] else BlockEvent(blocks[0]) + BlockEvents(blocks[1..])
  }

  predicate AllWritable(fields: seq<FieldText>)
  {
    forall i | 0 <= i < |fields| :: Writable(fields[i])
  }

  lemma {:induction false} CutNothing(text: string, c: char)
    requires c !in text
    ensures CutAt(text, c) == (text, None)
  {
    if text == "" {
    } else {
      CutNothing(text[1..], c);
      assert [text[0]] + text[1..] == text;
    }
  }

  lemma FieldRead(f: FieldText)
    requires Writable(f)
    ensures FieldLine(f) != "" && FieldLine(f)[0] != ':' && Field(FieldLine(f)) == (f.name, f.value)
  {
    assert f.name[0] in f.name;
    match f.style
    case Bare =>
      CutNothing(f.name, ':');
    case Tight =>
      assert f.name + ":" + f.value == f.name + [':'] + f.value;
      CutConcat(f.name, f.value, ':');
    case Spaced =>
      FieldOf(f.name, f.value);
      assert (f.name + ": " + f.value)[0] == f.name[0];
  }

  lemma FieldLinesOk(fields: seq<FieldText>)
    requires AllWritable(fields)
    ensures forall i | 0 <= i < |FieldLines(fields)| :: FieldLines(fields)[i] != ""
  {
    forall i | 0 <= i < |fields|
      ensures FieldLines(fields)[i] != ""
    {
      FieldRead(fields[i]);
    }
  }

  lemma {:induction false} FeedFields(fields: seq<FieldText>)
    requires AllWritable(fields)
    ensures forall i | 0 <= i < |FieldLines(fields)| :: FieldLines(fields)[i] != ""
    ensures FeedAll(EMPTY, FieldLines(fields))
         == Pending(LastValue(fields, "event"), DataValues(fields), LastValue(fields, "id"))
    decreases |fields|
  {
    FieldLinesOk(fields);
    if fields == [] {
    } else {
      var front, last := fields[..|fields| - 1], fields[|fields| - 1];
      FeedFields(front);
      FieldRead(last);
      assert FieldLines(fields) == FieldLines(front) + [FieldLine(last)];
      FeedConcat(EMPTY, FieldLines(front), [FieldLine(last)]);
      var p := FeedAll(EMPTY, FieldLines(front));
      assert FeedAll(p, [FieldLine(last)]) == Feed(p, FieldLine(last)) by {
        assert [FieldLine(last)][1..] == [];
      }
    }
  }

  /** However the fields of each block are written and ordered, the parser reads what they stand for. */
  lemma {:induction false} BlocksRead(blocks: seq<seq<FieldText>>)
    requires forall i | 0 <= i < |blocks| :: AllWritable(blocks[i])
    ensures Events(BlockLines(blocks), EMPTY) == BlockEvents(blocks)
    decreases |blocks|
  {
    if blocks == [] {
    } else {
      FeedFields(blocks[0]);
      EventsOfBlock(FieldLines(blocks[0]), BlockLines(blocks[1..]), EMPTY);
      BlocksRead(blocks[1..]);
    }
  }

  /** Two data lines make one event of type "message" whose data has a line feed between them. */
  lemma TwoDataLines(a: string, b: string)
    ensures Events(["data: " + a, "data: " + b, ""], EMPTY) == [Event("message", a + "\n" + b, "")]
  {
    var first, second := "data: " + a, "data: " + b;
    EventsOfBlock([first, second], [], EMPTY);
    assert [first, second] + [""] + [] == [first, second, ""];
    FeedData(EMPTY, [a, b]);
    assert DataLines([a, b]) == [first, second];
    assert [] + [a, b] == [a, b];
    assert JoinLF([a, b]) == a + "\n" + b by {
      assert [a, b][1..] == [b] && JoinLF([b]) == b;
    }
    assert Dispatch(FeedAll(EMPTY, [first, second])) == Some(Event("message", a + "\n" + b, ""));
    assert Events([], EMPTY) == [];
  }

  /** A retry field calls back exactly when its value is a number. */
  lemma RetryRead(atoi: string -> Option<int>, f: FieldText)
    requires Writable(f)
    ensures RetryOf(atoi, FieldLine(f))
         == if f.name == "retry" && atoi(f.value).Some? then [atoi(f.value).value] else []
  {
    FieldRead(f);
  }

  // ----- Line ends -----

  /** Each line followed by a line feed, with a carriage return in front where `cr` says so. */
  function Terminated(lines: seq<string>, cr: seq<bool>): string
    requires |lines| == |cr|
  {
    if lines == [] then "" else lines[0] + (if cr[0] then "\r\n" else "\n") + Terminated(lines[1..], cr[1..])
  }

  /** Either line end is understood, and the last line needs none. */
  lemma {:induction false} ScanTerminated(lines: seq<string>, cr: seq<bool>, last: string)
    requires |lines| == |cr| && (forall i | 0 <= i < |lines| :: PlainLine(lines[i])) && PlainLine(last)
    ensures ScanLines(Terminated(lines, cr) + last) == lines + if last == "" then [] else [last]
    decreases |lines|
  {
    if lines == [] {
      assert Terminated(lines, cr) + last == last;
      if last != "" {
        CutNothing(last, '\n');
      }
    } else {
      var rest := Terminated(lines[1..], cr[1..]) + last;
      var first := lines[0] + if cr[0] then "\r" else "";
      assert Terminated(lines, cr) + last == first + ['\n'] + rest;
      CutConcat(first, rest, '\n');
      assert DropCR(first) == lines[0];
      ScanTerminated(lines[1..], cr[1..], last);
    }
  }
}
