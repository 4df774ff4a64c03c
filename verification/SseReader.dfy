/** The browser's incremental event-stream reader and the server's printer. */
module SseReader {
  import opened Common

  /** An event as dispatched; `data` is the joined text of the data lines, before any JSON decoding. */
  datatype Event = Event(name: string, data: Option<string>)

  // ---------- String primitives ----------

  /** Characters that String.prototype.trim removes. */
  predicate IsSpace(c: char) {
    || c == ' ' || c == '\t' || c == '\n' || c == '\r' || c == '\U{000B}' || c == '\U{000C}' || c == '\U{00A0}'
    || c == '\U{1680}' || '\U{2000}' <= c <= '\U{200A}' || c == '\U{2028}' || c == '\U{2029}' || c == '\U{202F}'
    || c == '\U{205F}' || c == '\U{3000}' || c == '\U{FEFF}'
  }

  function TrimStart(s: string): string {
    if s != "" && IsSpace(s[0]) then TrimStart(s[1..]) else s
  }

  function TrimEnd(s: string): string {
    if s != "" && IsSpace(s[|s| - 1]) then TrimEnd(s[..|s| - 1]) else s
  }

  function Trim(s: string): string { TrimEnd(TrimStart(s)) }

  predicate StartsWith(s: string, prefix: string) { prefix <= s }

  /** `split("\n")`. */
  function Split(s: string): (r: seq<string>)
    ensures r != []
  {
    if s == "" then [""]
    else if s[0] == '\n' then [""] + Split(s[1..])
    else
      var r := Split(s[1..]);
      [[s[0]] + r[0]] + r[1..]
  }

  /** `indexOf("\n\n")`. */
  function BreakAt(s: string): (i: int)
    ensures -1 <= i && (i == -1 || i + 1 < |s|)
  {
    if |s| < 2 then -1
    else if s[0] == s[1] == '\n' then 0
    else
      var i := BreakAt(s[1..]);
      if i == -1 then -1 else i + 1
  }

  ghost predicate BreaksAt(s: string, i: int) {
    0 <= i && i + 1 < |s| && s[i] == '\n' && s[i + 1] == '\n'
  }

  /** It finds the first one, if there is one. */
  lemma {:induction false} BreakAtIsFirst(s: string)
    ensures BreakAt(s) != -1 ==> BreaksAt(s, BreakAt(s))
    ensures forall j | BreaksAt(s, j) :: 0 <= BreakAt(s) <= j
  {
    if |s| >= 2 && !(s[0] == s[1] == '\n') {
      BreakAtIsFirst(s[1..]);
      forall j | BreaksAt(s, j) ensures 0 <= BreakAt(s) <= j {
        assert BreaksAt(s[1..], j - 1);
      }
    }
  }

  function Join(lines: seq<string>): string {
    if lines == [] then ""
    else if |lines| == 1 then lines[0]
    else Join(lines[..|lines| - 1]) + "\n" + lines[|lines| - 1]
  }

  // ---------- One block ----------

  const EVENT := "event:"
  const DATA := "data:"

  /** The last event line decides the name. */
  function NameOf(lines: seq<string>): string {
    if lines == [] then ""
    else
      var last := lines[|lines| - 1];
      if StartsWith(last, EVENT) then Trim(last[|EVENT|..]) else NameOf(lines[..|lines| - 1])
  }

  function DataOf(lines: seq<string>): seq<string> {
    if lines == [] then []
    else
      var last := lines[|lines| - 1];
      DataOf(lines[..|lines| - 1])
      + (if !StartsWith(last, EVENT) && StartsWith(last, DATA) then [Trim(last[|DATA|..])] else [])
  }

  function Parsed(block: string): Event {
    var lines := Split(block);
    Event(NameOf(lines), if DataOf(lines) == [] then None else Some(Join(DataOf(lines))))
  }

  method ParseSseBlock(block: string) returns (e: Event)
    ensures e == Parsed(block)
  {
    var event, dataLines := "", [];
    var lines := Split(block);
    var i := 0;
    while i < |lines|
      invariant 0 <= i <= |lines| && event == NameOf(lines[..i]) && dataLines == DataOf(lines[..i])
    {
      var line := lines[i];
      assert lines[..i + 1][..i] == lines[..i];
      if StartsWith(line, EVENT) {
        event := Trim(line[|EVENT|..]);
      } else if StartsWith(line, DATA) {
        dataLines := dataLines + [Trim(line[|DATA|..])];
      }
      i := i + 1;
    }
    assert lines[..i] == lines;
    var data := None;
    if |dataLines| > 0 {
      data := Some(Join(dataLines));
    }
    e := Event(event, data);
  }

  // ---------- A whole text, and the reader that gets it in chunks ----------

  /** What a complete block dispatches: nothing if it names no event. */
  function Dispatched(block: string): seq<Event> {
    var e := Parsed(block);
    if e.name == "" then [] else [e]
  }

  /** A block parser; everything about chunking holds for any. */
  type Parser = string -> seq<Event>

  /** The events of the complete blocks of a text. */
  function Batch(p: Parser, text: string): seq<Event>
    decreases |text|
  {
    var sep := BreakAt(text);
    if sep == -1 then [] else p(text[..sep]) + Batch(p, text[sep + 2..])
  }

  /** What is left after the last complete block. */
  function Rest(text: string): string
    decreases |text|
  {
    var sep := BreakAt(text);
    if sep == -1 then text else Rest(text[sep + 2..])
  }

  predicate IsDone(e: Event) { e.name == "done" }

  predicate Finishes(events: seq<Event>) { exists e :: e in events && IsDone(e) }

  /** Everything dispatched when the text arrives in these chunks, `buffer` being left over from before. */
  ghost function Delivered(p: Parser, buffer: string, chunks: seq<string>): seq<Event>
    decreases |chunks|
  {
    if chunks == [] then []
    else
      var text := buffer + chunks[0];
      Batch(p, text) + (if Finishes(Batch(p, text)) then [] else Delivered(p, Rest(text), chunks[1..]))
  }

  /** How the connection ends once all chunks are read. */
  datatype Ending = Closed | Aborted | Broken(message: string)

  datatype Callback = Dispatch(event: Event) | OnError(message: string) | OnDone

  function Dispatches(events: seq<Event>): seq<Callback> {
    seq(|events|, i requires 0 <= i < |events| => Dispatch(events[i]))
  }

  lemma DispatchesAppend(a: seq<Event>, b: seq<Event>)
    ensures Dispatches(a + b) == Dispatches(a) + Dispatches(b)
  {
  }

  /** The inner loop: dispatch every complete block of the buffer, whether or not a done is among them. */
  method Drain(text: string) returns (events: seq<Event>, buffer: string, finished: bool)
    ensures events == Batch(Dispatched, text) && buffer == Rest(text) && finished == Finishes(events)
  {
    events, buffer, finished := [], text, false;
    var sep := BreakAt(buffer);
    while sep != -1
      invariant sep == BreakAt(buffer)
      invariant Batch(Dispatched, text) == events + Batch(Dispatched, buffer) && Rest(text) == Rest(buffer)
      invariant finished == Finishes(events)
      decreases |buffer|
    {
      BatchStep(Dispatched, events, buffer);
      var block := buffer[..sep];
      buffer := buffer[sep + 2..];
      sep := BreakAt(buffer);
      var e := ParseSseBlock(block);
      ghost var mine := Dispatched(block);
      assert Batch(Dispatched, text) == (events + mine) + Batch(Dispatched, buffer);
      if e.name == "" {
        assert mine == [] && events + mine == events;
        continue;
      }
      assert mine == [e];
      FinishesAppend(events, [e]);
      events := events + [e];
      assert Finishes([e]) <==> IsDone(e);
      if IsDone(e) {
        finished := true;
      }
    }
  }

  /** The read loop: the callbacks it makes, in order. */
  method StreamEvents(chunks: seq<string>, ending: Ending) returns (trace: seq<Callback>)
    ensures var events := Delivered(Dispatched, "", chunks);
            trace == Dispatches(events)
                   + (if !Finishes(events) && ending.Broken? then [OnError(ending.message)] else [])
                   + [OnDone]
  {
    var buffer, finished := "", false;
    var i := 0;
    trace := [];
    ghost var events: seq<Event> := [];
    while !finished && i < |chunks|
      invariant 0 <= i <= |chunks|
      invariant trace == Dispatches(events) && finished == Finishes(events)
      invariant Delivered(Dispatched, "", chunks)
             == events + (if finished then [] else Delivered(Dispatched, buffer, chunks[i..]))
      decreases |chunks| - i
    {
      DeliveredStep(Dispatched, events, buffer, chunks, i);
      var more: seq<Event>;
      more, buffer, finished := Drain(buffer + chunks[i]);
      DispatchesAppend(events, more);
      FinishesAppend(events, more);
      trace := trace + Dispatches(more);
      events := events + more;
      i := i + 1;
    }
    assert events + [] == events;
    if !finished && ending.Broken? {
      trace := trace + [OnError(ending.message)];
    }
    trace := trace + [OnDone];
  }

  lemma DeliveredStep(p: Parser, events: seq<Event>, buffer: string, chunks: seq<string>, i: nat)
    requires i < |chunks|
    ensures events + Delivered(p, buffer, chunks[i..])
         == (events + Batch(p, buffer + chunks[i]))
          + (if Finishes(Batch(p, buffer + chunks[i])) then []
             else Delivered(p, Rest(buffer + chunks[i]), chunks[i + 1..]))
  {
    var text, rest := buffer + chunks[i], chunks[i..];
    assert rest[0] == chunks[i] && rest[1..] == chunks[i + 1..];
    ConcatAssociates(events, Batch(p, text),
                     if Finishes(Batch(p, text)) then [] else Delivered(p, Rest(text), chunks[i + 1..]));
  }

  lemma BatchStep(p: Parser, mine: seq<Event>, text: string)
    requires BreakAt(text) != -1
    ensures mine + Batch(p, text) == (mine + p(text[..BreakAt(text)])) + Batch(p, text[BreakAt(text) + 2..])
    ensures Rest(text) == Rest(text[BreakAt(text) + 2..])
  {
    var x, y := p(text[..BreakAt(text)]), Batch(p, text[BreakAt(text) + 2..]);
    assert Batch(p, text) == x + y;
    ConcatAssociates(mine, x, y);
  }

  lemma FinishesAppend(a: seq<Event>, b: seq<Event>)
    ensures Finishes(a + b) <==> Finishes(a) || Finishes(b)
  {
    assert forall e :: e in a + b <==> e in a || e in b;
  }

  // ---------- Chunking does not matter up to the first done ----------

  lemma {:induction false} BreakAtExtended(a: string, b: string)
    requires BreakAt(a) != -1
    ensures BreakAt(a + b) == BreakAt(a)
  {
    if !(a[0] == a[1] == '\n') {
      assert (a + b)[1..] == a[1..] + b;
      BreakAtExtended(a[1..], b);
    }
  }

  lemma FirstBlockExtended(p: Parser, a: string, b: string, sep: nat)
    requires BreakAt(a) == sep
    ensures Batch(p, a + b) == p(a[..sep]) + Batch(p, a[sep + 2..] + b) && Rest(a + b) == Rest(a[sep + 2..] + b)
  {
    BreakAtExtended(a, b);
    assert (a + b)[..sep] == a[..sep] && (a + b)[sep + 2..] == a[sep + 2..] + b;
  }

  /** A text read in two pieces: the second piece continues from what the first left over. */
  lemma {:induction false} BatchExtended(p: Parser, a: string, b: string)
    ensures Batch(p, a + b) == Batch(p, a) + Batch(p, Rest(a) + b)
    ensures Rest(a + b) == Rest(Rest(a) + b)
    decreases |a|
  {
    var sep := BreakAt(a);
    if sep != -1 {
      FirstBlockExtended(p, a, b, sep);
      BatchExtended(p, a[sep + 2..], b);
      BatchUnfolds(p, a, sep);
      RestUnfolds(a, sep);
      ConcatAssociates(p(a[..sep]), Batch(p, a[sep + 2..]), Batch(p, Rest(a) + b));
    }
  }

  lemma RestUnfolds(text: string, sep: nat)
    requires BreakAt(text) == sep
    ensures Rest(text) == Rest(text[sep + 2..])
  {
  }

  function Concat(chunks: seq<string>): string {
    if chunks == [] then "" else chunks[0] + Concat(chunks[1..])
  }

  /** The number of chunks read: up to and including the one that completes the first done. */
  ghost function ChunksRead(p: Parser, buffer: string, chunks: seq<string>): nat
    decreases |chunks|
  {
    if chunks == [] then 0
    else
      var text := buffer + chunks[0];
      1 + (if Finishes(Batch(p, text)) then 0 else ChunksRead(p, Rest(text), chunks[1..]))
  }

  /** Exactly what is dispatched: the batch parse of the chunks read. */
  lemma {:induction false} DeliveredIsBatchOfChunksRead(p: Parser, buffer: string, chunks: seq<string>)
    requires BreakAt(buffer) == -1
    ensures ChunksRead(p, buffer, chunks) <= |chunks|
    ensures Delivered(p, buffer, chunks) == Batch(p, buffer + Concat(chunks[..ChunksRead(p, buffer, chunks)]))
    decreases |chunks|
  {
    if chunks == [] {
      assert chunks[..0] == [] && buffer + "" == buffer;
    } else {
      var text := buffer + chunks[0];
      if Finishes(Batch(p, text)) {
        assert ChunksRead(p, buffer, chunks) == 1;
        ConcatTake(chunks, 1);
        assert Concat(chunks[1..][..0]) == "" && chunks[0] + "" == chunks[0];
        assert Batch(p, text) + [] == Batch(p, text);
      } else {
        RestHasNoBreak(text);
        DeliveredIsBatchOfChunksRead(p, Rest(text), chunks[1..]);
        var m := ChunksRead(p, Rest(text), chunks[1..]);
        var tail := Concat(chunks[1..][..m]);
        assert ChunksRead(p, buffer, chunks) == 1 + m;
        ConcatTake(chunks, 1 + m);
        ConcatAssociates(buffer, chunks[0], tail);
        BatchExtended(p, text, tail);
      }
    }
  }

  lemma ConcatTake(chunks: seq<string>, n: nat)
    requires 0 < n <= |chunks|
    ensures Concat(chunks[..n]) == chunks[0] + Concat(chunks[1..][..n - 1])
  {
    assert chunks[..n][1..] == chunks[1..][..n - 1];
  }

  lemma {:induction false} RestHasNoBreak(text: string)
    ensures BreakAt(Rest(text)) == -1
    decreases |text|
  {
    var sep := BreakAt(text);
    if sep != -1 {
      RestHasNoBreak(text[sep + 2..]);
    }
  }

  /** Events up to and including the first done. */
  function UpToDone(events: seq<Event>): seq<Event> {
    if events == [] then []
    else if IsDone(events[0]) then [events[0]]
    else [events[0]] + UpToDone(events[1..])
  }

  lemma FinishesFirst(events: seq<Event>)
    requires events != []
    ensures Finishes(events) <==> IsDone(events[0]) || Finishes(events[1..])
  {
    assert forall e :: e in events <==> e == events[0] || e in events[1..];
  }

  lemma {:induction false} UpToDoneAppend(a: seq<Event>, b: seq<Event>)
    ensures UpToDone(a + b) == if Finishes(a) then UpToDone(a) else a + UpToDone(b)
  {
    if a == [] {
      assert a + b == b;
    } else {
      FinishesFirst(a);
      assert (a + b)[1..] == a[1..] + b && (a + b)[0] == a[0];
      if !IsDone(a[0]) {
        UpToDoneAppend(a[1..], b);
        assert a == [a[0]] + a[1..];
        ConcatAssociates([a[0]], a[1..], UpToDone(b));
      }
    }
  }

  /** However the text is cut, the events up to the first done are those of the batch parse. */
  lemma {:induction false} ChunkingIsInvisible(p: Parser, buffer: string, chunks: seq<string>)
    requires BreakAt(buffer) == -1
    ensures UpToDone(Delivered(p, buffer, chunks)) == UpToDone(Batch(p, buffer + Concat(chunks)))
    ensures Finishes(Delivered(p, buffer, chunks)) <==> Finishes(Batch(p, buffer + Concat(chunks)))
    decreases |chunks|
  {
    if chunks == [] {
      assert buffer + Concat(chunks) == buffer;
    } else {
      var text, tail := buffer + chunks[0], chunks[1..];
      assert buffer + Concat(chunks) == text + Concat(tail);
      BatchExtended(p, text, Concat(tail));
      RestHasNoBreak(text);
      ChunkingIsInvisible(p, Rest(text), tail);
      UpToDoneAppend(Batch(p, text), Delivered(p, Rest(text), tail));
      UpToDoneAppend(Batch(p, text), Batch(p, Rest(text) + Concat(tail)));
      FinishesAppend(Batch(p, text), Delivered(p, Rest(text), tail));
      FinishesAppend(Batch(p, text), Batch(p, Rest(text) + Concat(tail)));
      assert Finishes(Batch(p, text)) ==> Batch(p, text) + [] == Batch(p, text);
    }
  }

  /** Two cuts of the same text agree up to the first done. */
  lemma {:induction false} AnyTwoChunkingsAgree(p: Parser, xs: seq<string>, ys: seq<string>)
    requires Concat(xs) == Concat(ys)
    ensures UpToDone(Delivered(p, "", xs)) == UpToDone(Delivered(p, "", ys))
  {
    ChunkingIsInvisible(p, "", xs);
    ChunkingIsInvisible(p, "", ys);
  }

  // ---------- The printer ----------

  function SseEvent(name: string, json: string): string {
    "event: " + name + "\ndata: " + json + "\n\n"
  }

  /** One line, not empty, nothing to trim: true of the event names used and of a JSON object's text. */
  ghost predicate OneTrimmedLine(s: string) {
    s != "" && '\n' !in s && !IsSpace(s[0]) && !IsSpace(s[|s| - 1])
  }

  ghost predicate Printable(e: Event) {
    OneTrimmedLine(e.name) && e.data.Some? && OneTrimmedLine(e.data.value)
  }

  ghost predicate AllPrintable(events: seq<Event>) {
    forall i | 0 <= i < |events| :: Printable(events[i])
  }

  ghost function Print(events: seq<Event>): string
    requires AllPrintable(events)
  {
    if events == [] then "" else SseEvent(events[0].name, events[0].data.value) + Print(events[1..])
  }

  lemma {:induction false} SplitOneLine(a: string)
    requires '\n' !in a
    ensures Split(a) == [a]
  {
    if a != "" {
      SplitOneLine(a[1..]);
      assert [a[0]] + a[1..] == a;
    }
  }

  lemma {:induction false} SplitFirstLine(a: string, b: string)
    requires '\n' !in a
    ensures Split(a + "\n" + b) == [a] + Split(b)
  {
    var s := a + "\n" + b;
    if a == "" {
      assert s[1..] == b;
    } else {
      assert s[1..] == a[1..] + "\n" + b;
      SplitFirstLine(a[1..], b);
      assert [a[0]] + a[1..] == a;
    }
  }

  lemma TrimAfterColon(s: string)
    requires OneTrimmedLine(s)
    ensures Trim(" " + s) == s
  {
    assert (" " + s)[1..] == s;
    assert TrimStart(" " + s) == TrimStart(s) == s;
  }

  lemma ParsePrinted(e: Event)
    requires Printable(e)
    ensures Parsed("event: " + e.name + "\ndata: " + e.data.value) == e
  {
    var first, second := "event: " + e.name, "data: " + e.data.value;
    assert "event: " + e.name + "\ndata: " + e.data.value == first + "\n" + second;
    SplitFirstLine(first, second);
    SplitOneLine(second);
    assert first[|EVENT|..] == " " + e.name && second[|DATA|..] == " " + e.data.value;
    TrimAfterColon(e.name);
    TrimAfterColon(e.data.value);
    assert StartsWith(first, EVENT) && StartsWith(second, DATA);
    assert !StartsWith(second, EVENT) by { assert second[0] == 'd'; }
    var lines := [first, second];
    assert lines[..1] == [first] && [first][..0] == [];
    assert DataOf([first]) == [] by { assert DataOf([]) == []; }
    assert DataOf(lines) == [e.data.value];
    assert NameOf([first]) == e.name;
  }

  lemma BreakAtEndOfPrinted(e: Event, rest: string)
    requires Printable(e)
    ensures var block := "event: " + e.name + "\ndata: " + e.data.value;
            BreakAt(SseEvent(e.name, e.data.value) + rest) == |block|
  {
    var first, second := "event: " + e.name, "data: " + e.data.value;
    var block := first + "\n" + second;
    assert "event: " + e.name + "\ndata: " + e.data.value == block;
    var s := SseEvent(e.name, e.data.value) + rest;
    assert s == block + "\n\n" + rest;
    assert '\n' !in first && '\n' !in second;
    BreakAtIsFirst(s);
    assert BreaksAt(s, |block|);
    assert forall j | 0 <= j < |first| :: s[j] == first[j];
    assert forall j | |first| < j < |block| :: s[j] == second[j - |first| - 1];
    assert s[|first| + 1] == second[0] == 'd';
  }

  lemma {:induction false} BatchOfPrinted(e: Event, rest: string)
    requires Printable(e)
    ensures var s := SseEvent(e.name, e.data.value) + rest;
            Batch(Dispatched, s) == [e] + Batch(Dispatched, rest) && Rest(s) == Rest(rest)
  {
    var block := "event: " + e.name + "\ndata: " + e.data.value;
    var s := SseEvent(e.name, e.data.value) + rest;
    BreakAtEndOfPrinted(e, rest);
    assert s == block + "\n\n" + rest;
    assert s[..|block|] == block && s[|block| + 2..] == rest;
    ParsePrinted(e);
    assert Dispatched(block) == [e];
  }

  /** A text parses to these events and nothing is left over. */
  ghost predicate ParsesTo(text: string, events: seq<Event>) {
    Batch(Dispatched, text) == events && Rest(text) == ""
  }

  /** The batch parse recovers a printed sequence exactly. */
  lemma {:induction false} BatchInvertsPrint(events: seq<Event>)
    requires AllPrintable(events)
    ensures ParsesTo(Print(events), events)
  {
    if events != [] {
      assert Printable(events[0]);
      BatchOfPrinted(events[0], Print(events[1..]));
      BatchInvertsPrint(events[1..]);
    }
  }

  lemma {:induction false} UpToDoneOfUnfinished(events: seq<Event>)
    requires !Finishes(events)
    ensures UpToDone(events) == events
  {
    if events != [] {
      assert events[0] in events;
      UpToDoneOfUnfinished(events[1..]);
    }
  }

  /** Only the last event, if any, is a done. */
  ghost predicate NothingAfterDone(events: seq<Event>) {
    events == [] || !Finishes(events[..|events| - 1])
  }

  /** The round trip: a printed sequence that ends with its only done, or has none, is dispatched exactly,
      however the stream is cut. */
  lemma {:induction false} PrintedEventsAreDelivered(events: seq<Event>, chunks: seq<string>)
    requires AllPrintable(events)
    requires Concat(chunks) == Print(events)
    requires NothingAfterDone(events)
    ensures Delivered(Dispatched, "", chunks) == events
  {
    BatchInvertsPrint(events);
    ChunkingIsInvisible(Dispatched, "", chunks);
    DeliveredIsBatchOfChunksRead(Dispatched, "", chunks);
    var n := ChunksRead(Dispatched, "", chunks);
    var head, tail := Concat(chunks[..n]), Concat(chunks[n..]);
    ConcatSplit(chunks, n);
    BatchExtended(Dispatched, head, tail);
    assert "" + head == head && "" + Concat(chunks) == Concat(chunks);
    PrefixIsAll(events, Delivered(Dispatched, "", chunks), Batch(Dispatched, Rest(head) + tail));
  }

  /** A prefix that finishes whenever the whole does is the whole, if only the last event can be a done. */
  lemma {:induction false} PrefixIsAll(events: seq<Event>, d: seq<Event>, more: seq<Event>)
    requires events == d + more && UpToDone(d) == UpToDone(events)
    requires events == [] || !Finishes(events[..|events| - 1])
    requires Finishes(d) <==> Finishes(events)
    ensures d == events
  {
    if Finishes(d) {
      if more != [] {
        assert events[..|events| - 1] == d + more[..|more| - 1];
        FinishesAppend(d, more[..|more| - 1]);
      }
    } else {
      UpToDoneOfUnfinished(d);
      UpToDoneOfUnfinished(events);
    }
  }

  lemma {:induction false} ConcatSplit(chunks: seq<string>, n: nat)
    requires n <= |chunks|
    ensures Concat(chunks) == Concat(chunks[..n]) + Concat(chunks[n..])
  {
    if n > 0 {
      assert chunks[1..][..n - 1] == chunks[..n][1..] && chunks[1..][n - 1..] == chunks[n..];
      ConcatSplit(chunks[1..], n - 1);
    }
  }

  /** Past the first done the cut does show: what shares its chunk is still dispatched, what follows is not. */
  lemma ChunkingShowsAfterDone(done: Event, extra: Event) returns (xs: seq<string>, ys: seq<string>)
    requires Printable(done) && IsDone(done) && Printable(extra)
    ensures Concat(xs) == Concat(ys)
    ensures Delivered(Dispatched, "", xs) == [done, extra] && Delivered(Dispatched, "", ys) == [done]
  {
    var a, b := Print([done]), Print([extra]);
    PrintTwo(done, extra);
    xs, ys := [a + b], [a, b];
    ConcatSmall(a, b);
    BatchInvertsPrint([done, extra]);
    BatchInvertsPrint([done]);
    assert done in [done, extra] && done in [done];
    ReadingStopsAtDone(Dispatched, xs);
    ReadingStopsAtDone(Dispatched, ys);
  }

  lemma PrintTwo(e: Event, f: Event)
    requires Printable(e) && Printable(f)
    ensures Print([e, f]) == Print([e]) + Print([f])
  {
    assert [e, f][1..] == [f] && [e][1..] == [];
    assert Print([e]) == SseEvent(e.name, e.data.value) + Print([]) == SseEvent(e.name, e.data.value);
  }

  lemma ConcatSmall(a: string, b: string)
    ensures Concat([a + b]) == a + b && Concat([a, b]) == a + b
  {
    assert [a + b][1..] == [] && [a, b][1..] == [b] && [b][1..] == [];
    assert Concat([b]) == b + Concat([]) == b;
  }

  lemma ReadingStopsAtDone(p: Parser, chunks: seq<string>)
    requires chunks != [] && Finishes(Batch(p, chunks[0]))
    ensures Delivered(p, "", chunks) == Batch(p, chunks[0])
  {
    assert "" + chunks[0] == chunks[0];
    assert Batch(p, chunks[0]) + [] == Batch(p, chunks[0]);
  }

  // ---------- Exactly when no cut shows ----------

  lemma {:induction false} UpToDoneIsPrefix(events: seq<Event>)
    ensures UpToDone(events) <= events && Finishes(UpToDone(events)) == Finishes(events)
  {
    if events != [] {
      FinishesFirst(events);
      FinishesFirst(UpToDone(events));
      if !IsDone(events[0]) {
        UpToDoneIsPrefix(events[1..]);
        assert UpToDone(events)[1..] == UpToDone(events[1..]);
      }
    }
  }

  lemma BreakAtOfTake(text: string, n: nat)
    requires BreakAt(text) != -1 && BreakAt(text) + 2 <= n <= |text|
    ensures BreakAt(text[..n]) == BreakAt(text)
  {
    BreakAtIsFirst(text);
    BreakAtIsFirst(text[..n]);
    assert BreaksAt(text[..n], BreakAt(text));
    assert BreaksAt(text, BreakAt(text[..n]));
  }

  /** A block holds one event at most. */
  ghost predicate OneAtATime(p: Parser) { forall block :: |p(block)| <= 1 }

  lemma OnlyEvent(events: seq<Event>)
    requires |events| <= 1 && Finishes(events)
    ensures UpToDone(events) == events
  {
  }

  lemma BatchUnfolds(p: Parser, text: string, sep: nat)
    requires BreakAt(text) == sep
    ensures Batch(p, text) == p(text[..sep]) + Batch(p, text[sep + 2..])
  {
  }

  lemma TakeParts(text: string, sep: nat, n: nat)
    requires sep + 2 <= n <= |text|
    ensures text[..n][..sep] == text[..sep] && text[..n][sep + 2..] == text[sep + 2..][..n - sep - 2]
  {
  }

  /** Cutting a text past its first block cuts what follows that block. */
  lemma BatchOfTake(p: Parser, text: string, sep: nat, m: nat)
    requires BreakAt(text) == sep && sep + 2 + m <= |text|
    ensures Batch(p, text[..sep + 2 + m]) == p(text[..sep]) + Batch(p, text[sep + 2..][..m])
  {
    BreakAtOfTake(text, sep + 2 + m);
    BatchUnfolds(p, text[..sep + 2 + m], sep);
    TakeParts(text, sep, sep + 2 + m);
  }

  /** The first `n` characters hold everything up to the first done and nothing more. */
  ghost predicate EndsWithDone(p: Parser, text: string, n: nat) {
    n <= |text| && Batch(p, text[..n]) == UpToDone(Batch(p, text))
  }

  /** The first block, which ends at `sep`, has a done; or only what follows it has. */
  ghost predicate DoneHere(p: Parser, text: string, sep: nat) {
    BreakAt(text) == sep && Finishes(p(text[..sep]))
  }

  ghost predicate DoneLater(p: Parser, text: string, sep: nat) {
    BreakAt(text) == sep && !Finishes(p(text[..sep])) && Finishes(Batch(p, text[sep + 2..]))
  }

  lemma CutInFirstBlock(p: Parser, text: string, sep: nat)
    requires OneAtATime(p) && DoneHere(p, text, sep)
    ensures EndsWithDone(p, text, sep + 2)
  {
    var first, rest := p(text[..sep]), text[sep + 2..];
    BatchUnfolds(p, text, sep);
    UpToDoneAppend(first, Batch(p, rest));
    BatchOfTake(p, text, sep, 0);
    assert rest[..0] == "" && first + [] == first;
    OnlyEvent(first);
  }

  lemma CutInRest(p: Parser, text: string, sep: nat, m: nat)
    requires sep + 2 <= |text| && DoneLater(p, text, sep) && EndsWithDone(p, text[sep + 2..], m)
    ensures EndsWithDone(p, text, sep + 2 + m)
  {
    BatchUnfolds(p, text, sep);
    UpToDoneAppend(p(text[..sep]), Batch(p, text[sep + 2..]));
    BatchOfTake(p, text, sep, m);
  }

  lemma FinishingTextHasBreak(p: Parser, text: string) returns (sep: nat)
    requires Finishes(Batch(p, text))
    ensures sep + 2 <= |text| && (DoneHere(p, text, sep) || DoneLater(p, text, sep))
  {
    sep := BreakAt(text);
    BatchUnfolds(p, text, sep);
    FinishesAppend(p(text[..sep]), Batch(p, text[sep + 2..]));
  }

  lemma CutLater(p: Parser, text: string, sep: nat) returns (n: nat)
    requires OneAtATime(p) && sep + 2 <= |text| && DoneLater(p, text, sep)
    ensures EndsWithDone(p, text, n)
    decreases |text|, 0
  {
    var m := CutAfterDone(p, text[sep + 2..]);
    n := sep + 2 + m;
    CutInRest(p, text, sep, m);
  }

  /** The end of the block with the first done. */
  lemma {:induction false} CutAfterDone(p: Parser, text: string) returns (n: nat)
    requires OneAtATime(p) && Finishes(Batch(p, text))
    ensures EndsWithDone(p, text, n)
    decreases |text|, 1
  {
    var sep := FinishingTextHasBreak(p, text);
    if DoneHere(p, text, sep) {
      n := sep + 2;
      CutInFirstBlock(p, text, sep);
    } else {
      n := CutLater(p, text, sep);
    }
  }

  lemma DeliveredWhole(p: Parser, text: string)
    ensures Concat([text]) == text && Delivered(p, "", [text]) == Batch(p, text)
  {
    assert "" + text == text && [text][1..] == [] && text + "" == text;
    assert Batch(p, text) + [] == Batch(p, text);
  }

  /** Some cut delivers nothing past the first done. */
  lemma SomeCutStopsAtDone(p: Parser, text: string) returns (chunks: seq<string>)
    requires OneAtATime(p) && Finishes(Batch(p, text))
    ensures Concat(chunks) == text && Delivered(p, "", chunks) == UpToDone(Batch(p, text))
  {
    var n := CutAfterDone(p, text);
    chunks := [text[..n], text[n..]];
    assert text == text[..n] + text[n..];
    ConcatSmall(text[..n], text[n..]);
    UpToDoneIsPrefix(Batch(p, text));
    ReadingStopsAtDone(p, chunks);
  }

  /** A text is dispatched alike however it is cut. */
  ghost predicate CutNeverShows(p: Parser, text: string) {
    forall xs, ys | Concat(xs) == text && Concat(ys) == text :: Delivered(p, "", xs) == Delivered(p, "", ys)
  }

  /** What is delivered is a prefix of the batch parse that reaches the first done. */
  lemma DeliveredIsPrefix(p: Parser, chunks: seq<string>)
    ensures UpToDone(Batch(p, Concat(chunks))) <= Delivered(p, "", chunks) <= Batch(p, Concat(chunks))
  {
    var n := ChunksRead(p, "", chunks);
    ChunkingIsInvisible(p, "", chunks);
    DeliveredIsBatchOfChunksRead(p, "", chunks);
    ConcatSplit(chunks, n);
    BatchExtended(p, Concat(chunks[..n]), Concat(chunks[n..]));
    assert "" + Concat(chunks) == Concat(chunks) && "" + Concat(chunks[..n]) == Concat(chunks[..n]);
    UpToDoneIsPrefix(Delivered(p, "", chunks));
  }

  /** For any text whatever: no two cuts differ if and only if the batch parse has nothing after its first done. */
  lemma CutNeverShowsIff(p: Parser, text: string)
    requires OneAtATime(p)
    ensures CutNeverShows(p, text) <==> UpToDone(Batch(p, text)) == Batch(p, text)
  {
    if UpToDone(Batch(p, text)) == Batch(p, text) {
      forall xs, ys | Concat(xs) == text && Concat(ys) == text ensures Delivered(p, "", xs) == Delivered(p, "", ys) {
        DeliveredIsPrefix(p, xs);
        DeliveredIsPrefix(p, ys);
      }
    } else {
      if !Finishes(Batch(p, text)) {
        UpToDoneOfUnfinished(Batch(p, text));
      }
      var chunks := SomeCutStopsAtDone(p, text);
      DeliveredWhole(p, text);
      assert Delivered(p, "", chunks) != Delivered(p, "", [text]);
    }
  }

  /** The reader's own parser is one of these. */
  lemma DispatchedOneAtATime()
    ensures OneAtATime(Dispatched)
  {
  }

  lemma LastIsFree(init: seq<Event>, last: Event)
    ensures UpToDone(init + [last]) == init + [last] <==> !Finishes(init)
  {
    UpToDoneAppend(init, [last]);
    UpToDoneIsPrefix(init);
    assert UpToDone([last]) == [last];
  }

  /** However the printed events are cut, they are dispatched as they are. */
  ghost predicate DeliveredUnderEveryCut(events: seq<Event>)
    requires AllPrintable(events)
  {
    forall chunks | Concat(chunks) == Print(events) :: Delivered(Dispatched, "", chunks) == events
  }

  /** For what the server prints: it is dispatched exactly under every cut if and only if nothing follows a done. */
  lemma PrintedEventsAreDeliveredIff(events: seq<Event>)
    requires AllPrintable(events)
    ensures DeliveredUnderEveryCut(events) <==> NothingAfterDone(events)
  {
    if NothingAfterDone(events) {
      forall chunks | Concat(chunks) == Print(events) ensures Delivered(Dispatched, "", chunks) == events {
        PrintedEventsAreDelivered(events, chunks);
      }
    } else {
      assert events == events[..|events| - 1] + [events[|events| - 1]];
      BatchInvertsPrint(events);
      var chunks := EarlyDoneCuts(Print(events), events[..|events| - 1], events[|events| - 1]);
    }
  }

  lemma EarlyDoneCuts(text: string, init: seq<Event>, last: Event) returns (chunks: seq<string>)
    requires ParsesTo(text, init + [last]) && Finishes(init)
    ensures Concat(chunks) == text && Delivered(Dispatched, "", chunks) != init + [last]
  {
    LastIsFree(init, last);
    FinishesAppend(init, [last]);
    DispatchedOneAtATime();
    chunks := SomeCutStopsAtDone(Dispatched, text);
  }
}
