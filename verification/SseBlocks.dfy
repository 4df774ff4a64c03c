/** What the event-stream reader makes of one block and of a whole text, said line by line and block by block. */
module SseBlocks {
  import opened Common
  import opened SseReader

  // ---------- Lines ----------

  ghost predicate OneLine(s: string) { '\n' !in s }

  ghost predicate AllOneLine(lines: seq<string>) { forall i | 0 <= i < |lines| :: OneLine(lines[i]) }

  lemma {:induction false} JoinFirst(a: string, rest: seq<string>)
    requires rest != []
    ensures Join([a] + rest) == a + "\n" + Join(rest)
  {
    var n := |rest| - 1;
    var lines := [a] + rest;
    assert lines[..n + 1] == [a] + rest[..n] && lines[n + 1] == rest[n];
    if n > 0 {
      JoinFirst(a, rest[..n]);
    } else {
      assert [a] + rest[..0] == [a];
    }
  }

  /** Lines joined and split again are the same lines. */
  lemma {:induction false} SplitInvertsJoin(lines: seq<string>)
    requires lines != [] && AllOneLine(lines)
    ensures Split(Join(lines)) == lines
  {
    var a, rest := lines[0], lines[1..];
    assert OneLine(a) && lines == [a] + rest;
    if rest == [] {
      SplitOneLine(a);
    } else {
      SplitInvertsJoin(rest);
      JoinFirst(a, rest);
      SplitFirstLine(a, Join(rest));
    }
  }

  lemma ExtendFirstLine(c: char, first: string, rest: seq<string>)
    ensures Join([[c] + first] + rest) == [c] + Join([first] + rest)
  {
    if rest != [] {
      JoinFirst(first, rest);
      JoinFirst([c] + first, rest);
    } else {
      assert [[c] + first] + rest == [[c] + first] && [first] + rest == [first];
    }
  }

  lemma FirstLineExtended(c: char, r: seq<string>)
    requires r != [] && AllOneLine(r) && c != '\n'
    ensures AllOneLine([[c] + r[0]] + r[1..]) && Join([[c] + r[0]] + r[1..]) == [c] + Join(r)
  {
    ExtendFirstLine(c, r[0], r[1..]);
    assert OneLine(r[0]) && r == [r[0]] + r[1..];
  }

  /** And a text split and joined again is the same text. */
  lemma {:induction false} JoinInvertsSplit(s: string)
    ensures AllOneLine(Split(s)) && Join(Split(s)) == s
  {
    if s != "" {
      JoinInvertsSplit(s[1..]);
      if s[0] == '\n' {
        JoinFirst("", Split(s[1..]));
      } else {
        FirstLineExtended(s[0], Split(s[1..]));
      }
    }
  }

  // ---------- Trimming ----------

  ghost predicate AllSpace(s: string) { forall c | c in s :: IsSpace(c) }

  ghost predicate Trimmed(s: string) { s != "" ==> !IsSpace(s[0]) && !IsSpace(s[|s| - 1]) }

  lemma {:induction false} TrimStartCuts(s: string) returns (before: string)
    ensures s == before + TrimStart(s) && AllSpace(before)
    ensures TrimStart(s) != "" ==> !IsSpace(TrimStart(s)[0])
  {
    if s != "" && IsSpace(s[0]) {
      before := TrimStartCuts(s[1..]);
      before := [s[0]] + before;
    } else {
      before := "";
    }
  }

  lemma {:induction false} TrimEndCuts(s: string) returns (after: string)
    ensures s == TrimEnd(s) + after && AllSpace(after)
    ensures TrimEnd(s) != "" ==> !IsSpace(TrimEnd(s)[|TrimEnd(s)| - 1])
  {
    if s != "" && IsSpace(s[|s| - 1]) {
      after := TrimEndCuts(s[..|s| - 1]);
      assert s == s[..|s| - 1] + [s[|s| - 1]];
      after := after + [s[|s| - 1]];
    } else {
      after := "";
    }
  }

  /** Trimming takes spaces off both ends, and all of them. */
  lemma TrimIsMiddle(s: string) returns (before: string, after: string)
    ensures s == before + Trim(s) + after && AllSpace(before) && AllSpace(after) && Trimmed(Trim(s))
  {
    before := TrimStartCuts(s);
    after := TrimEndCuts(TrimStart(s));
    assert Trim(s) != "" ==> Trim(s)[0] == TrimStart(s)[0];
  }

  lemma TrimKeepsOneLine(s: string)
    requires OneLine(s)
    ensures OneLine(Trim(s))
  {
    var before, after := TrimIsMiddle(s);
    assert forall c | c in Trim(s) :: c in s;
  }

  // ---------- One block ----------

  ghost predicate IsData(line: string) { "data:" <= line }

  /** The event line after which there is no other. */
  ghost predicate LastEventLine(lines: seq<string>, i: nat) {
    i < |lines| && "event:" <= lines[i] && forall j | i < j < |lines| :: !("event:" <= lines[j])
  }

  lemma {:induction false} NameIsLast(lines: seq<string>)
    ensures forall i: nat | LastEventLine(lines, i) :: NameOf(lines) == Trim(lines[i][6..])
    ensures (forall i | 0 <= i < |lines| :: !("event:" <= lines[i])) ==> NameOf(lines) == ""
  {
    if lines != [] {
      var init := lines[..|lines| - 1];
      NameIsLast(init);
      assert forall i: nat | LastEventLine(lines, i) && i < |init| :: LastEventLine(init, i);
    }
  }

  /** One line gives data exactly if it begins with the field's name; then it is the rest, trimmed. */
  lemma DataOfOne(line: string)
    ensures DataOf([line]) == if "data:" <= line then [Trim(line[5..])] else []
  {
    assert [line][..0] == [] && DataOf([]) == [];
    if IsData(line) {
      assert line[0] == 'd' && EVENT[0] == 'e';
    }
  }

  lemma DataOfStep(lines: seq<string>, line: string)
    ensures DataOf(lines + [line]) == DataOf(lines) + DataOf([line])
  {
    assert (lines + [line])[..|lines|] == lines;
    assert [line][..0] == [] && DataOf([]) == [];
  }

  /** The lines give it one after another. */
  lemma {:induction false} DataOfAppend(a: seq<string>, b: seq<string>)
    ensures DataOf(a + b) == DataOf(a) + DataOf(b)
  {
    if b == [] {
      assert a + b == a;
    } else {
      var init, last := b[..|b| - 1], b[|b| - 1];
      DataOfAppend(a, init);
      assert b == init + [last] && a + b == (a + init) + [last];
      DataOfStep(init, last);
      DataOfStep(a + init, last);
      ConcatAssociates(DataOf(a), DataOf(init), DataOf([last]));
    }
  }

  lemma {:induction false} DataOfLines(lines: seq<string>)
    requires AllOneLine(lines)
    ensures AllOneLine(DataOf(lines))
    ensures DataOf(lines) == [] <==> forall i | 0 <= i < |lines| :: !IsData(lines[i])
  {
    if lines != [] {
      var init, last := lines[..|lines| - 1], lines[|lines| - 1];
      DataOfLines(init);
      assert lines == init + [last] && OneLine(last);
      DataOfStep(init, last);
      DataOfOne(last);
      if IsData(last) {
        TrimKeepsOneLine(last[5..]);
      }
    }
  }

  /** What a block says: its last event line names the event, its data lines, trimmed, are the lines of the data, and
      there is data if there is a data line; a block without a name dispatches nothing. */
  lemma ParsedMeans(block: string)
    ensures var lines, e := Split(block), Parsed(block);
            && (forall i: nat | LastEventLine(lines, i) :: e.name == Trim(lines[i][6..]))
            && ((forall i | 0 <= i < |lines| :: !("event:" <= lines[i])) ==> e.name == "")
            && (e.data == None <==> forall i | 0 <= i < |lines| :: !IsData(lines[i]))
            && (e.data.Some? ==> Split(e.data.value) == DataOf(lines))
            && Dispatched(block) == if e.name == "" then [] else [e]
  {
    var lines := Split(block);
    NameIsLast(lines);
    JoinInvertsSplit(block);
    DataOfLines(lines);
    if DataOf(lines) != [] {
      SplitInvertsJoin(DataOf(lines));
    }
  }

  // ---------- A whole text ----------

  /** Followed by an empty line, the block is cut off right there. */
  ghost predicate IsBlock(block: string) { forall j :: !BreaksAt(block + "\n", j) }

  ghost predicate AllBlocks(blocks: seq<string>) { forall i | 0 <= i < |blocks| :: IsBlock(blocks[i]) }

  ghost function Written(blocks: seq<string>): string {
    if blocks == [] then "" else blocks[0] + "\n\n" + Written(blocks[1..])
  }

  ghost function EventsOf(p: Parser, blocks: seq<string>): seq<Event> {
    if blocks == [] then [] else p(blocks[0]) + EventsOf(p, blocks[1..])
  }

  lemma BreakAfterBlock(block: string, rest: string)
    requires IsBlock(block)
    ensures BreakAt(block + "\n\n" + rest) == |block|
  {
    var s := block + "\n\n" + rest;
    BreakAtIsFirst(s);
    assert BreaksAt(s, |block|);
    var i := BreakAt(s);
    assert i < |block| ==> BreaksAt(block + "\n", i);
  }

  /** Any blocks and a rest without a break: the reader takes exactly these blocks and leaves exactly that rest. */
  lemma {:induction false} BatchOfBlocks(p: Parser, blocks: seq<string>, rest: string)
    requires AllBlocks(blocks) && forall j :: !BreaksAt(rest, j)
    ensures Batch(p, Written(blocks) + rest) == EventsOf(p, blocks) && Rest(Written(blocks) + rest) == rest
  {
    var text := Written(blocks) + rest;
    if blocks == [] {
      assert text == rest;
      BreakAtIsFirst(rest);
    } else {
      var more := Written(blocks[1..]) + rest;
      assert IsBlock(blocks[0]) && text == blocks[0] + "\n\n" + more;
      BreakAfterBlock(blocks[0], more);
      BatchOfBlocks(p, blocks[1..], rest);
      assert text[..|blocks[0]|] == blocks[0] && text[|blocks[0]| + 2..] == more;
      BatchUnfolds(p, text, |blocks[0]|);
      RestUnfolds(text, |blocks[0]|);
    }
  }

  lemma FirstPieceIsBlock(text: string, sep: nat)
    requires BreakAt(text) == sep
    ensures IsBlock(text[..sep]) && text == text[..sep] + "\n\n" + text[sep + 2..]
  {
    BreakAtIsFirst(text);
    var s := text[..sep] + "\n";
    assert s == text[..sep + 1];
    forall j ensures !BreaksAt(s, j) {
      assert BreaksAt(s, j) ==> BreaksAt(text, j);
    }
  }

  /** And every text is some blocks and such a rest. */
  lemma {:induction false} AnyTextIsBlocks(text: string) returns (blocks: seq<string>, rest: string)
    ensures AllBlocks(blocks) && (forall j :: !BreaksAt(rest, j)) && text == Written(blocks) + rest
    decreases |text|
  {
    var sep := BreakAt(text);
    BreakAtIsFirst(text);
    if sep == -1 {
      blocks, rest := [], text;
    } else {
      FirstPieceIsBlock(text, sep);
      blocks, rest := AnyTextIsBlocks(text[sep + 2..]);
      var first := [text[..sep]] + blocks;
      assert first[1..] == blocks;
      blocks := first;
    }
  }

  // ---------- How far the reader reads ----------

  lemma FirstRead(p: Parser, buffer: string, chunks: seq<string>, m: nat)
    requires 0 < m <= |chunks|
    ensures buffer + Concat(chunks[..m]) == (buffer + chunks[0]) + Concat(chunks[1..][..m - 1])
  {
    ConcatTake(chunks, m);
    ConcatAssociates(buffer, chunks[0], Concat(chunks[1..][..m - 1]));
  }

  /** A done is complete by the first `m` chunks. */
  ghost predicate DoneBy(p: Parser, buffer: string, chunks: seq<string>, m: nat)
    requires m <= |chunks|
  {
    Finishes(Batch(p, buffer + Concat(chunks[..m])))
  }

  lemma DoneByNext(p: Parser, buffer: string, chunks: seq<string>, m: nat)
    requires 0 < m <= |chunks|
    ensures DoneBy(p, buffer, chunks, m) <==>
            Finishes(Batch(p, buffer + chunks[0])) || DoneBy(p, Rest(buffer + chunks[0]), chunks[1..], m - 1)
  {
    var text, tail := buffer + chunks[0], Concat(chunks[1..][..m - 1]);
    FirstRead(p, buffer, chunks, m);
    BatchExtended(p, text, tail);
    FinishesAppend(Batch(p, text), Batch(p, Rest(text) + tail));
  }

  lemma NotDoneByZero(p: Parser, buffer: string, chunks: seq<string>)
    requires BreakAt(buffer) == -1
    ensures !DoneBy(p, buffer, chunks, 0)
  {
    NothingYet(p, buffer);
    assert buffer + Concat(chunks[..0]) == buffer;
  }

  lemma {:induction false} ReadsToFirstDoneFrom(p: Parser, buffer: string, chunks: seq<string>, m: nat)
    requires BreakAt(buffer) == -1 && m <= |chunks|
    ensures var n := ChunksRead(p, buffer, chunks);
            && n <= |chunks|
            && (DoneBy(p, buffer, chunks, m) ==> n <= m)
            && (n < |chunks| ==> DoneBy(p, buffer, chunks, n))
    decreases |chunks|
  {
    NotDoneByZero(p, buffer, chunks);
    DeliveredIsBatchOfChunksRead(p, buffer, chunks);
    if chunks != [] {
      var n, text := ChunksRead(p, buffer, chunks), buffer + chunks[0];
      DoneByNext(p, buffer, chunks, n);
      if m > 0 {
        DoneByNext(p, buffer, chunks, m);
      }
      if !Finishes(Batch(p, text)) {
        RestHasNoBreak(text);
        ReadsToFirstDoneFrom(p, Rest(text), chunks[1..], if m == 0 then 0 else m - 1);
      }
    }
  }

  lemma NothingYet(p: Parser, buffer: string)
    requires BreakAt(buffer) == -1
    ensures !Finishes(Batch(p, buffer))
  {
  }

  lemma ReadIsLeast(p: Parser, buffer: string, chunks: seq<string>, n: nat)
    requires BreakAt(buffer) == -1 && n <= |chunks| && (n < |chunks| ==> DoneBy(p, buffer, chunks, n))
    requires forall m | 0 <= m < n :: !DoneBy(p, buffer, chunks, m)
    ensures ChunksRead(p, buffer, chunks) == n
  {
    ReadsToFirstDoneFrom(p, buffer, chunks, n);
  }

  /** The reader reads exactly up to the chunk that completes the first done, or all of them if none does, and
      dispatches what they hold. */
  lemma {:induction false} ReadsToFirstDone(p: Parser, chunks: seq<string>, n: nat)
    requires n <= |chunks| && (n < |chunks| ==> DoneBy(p, "", chunks, n))
    requires forall m | 0 <= m < n :: !DoneBy(p, "", chunks, m)
    ensures Delivered(p, "", chunks) == Batch(p, "" + Concat(chunks[..n]))
  {
    DeliveredIsBatchOfChunksRead(p, "", chunks);
    ReadIsLeast(p, "", chunks, n);
  }
}
