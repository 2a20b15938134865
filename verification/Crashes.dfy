/** Numbers that convert but are negative: the `length_error` of `vector::reserve`, which nothing catches. */
module Crashes {
  import opened Text
  import opened Messages
  import opened Inflation
  import opened SendFormat
  import opened MessageParsing
  import opened Framing
  import opened Wire
  import opened Delivery
  import opened Agreement
  import opened Arrival
  import opened Failures

  // ---------------------------------------------------------------- quiet chunks, as the server sees them

  lemma ServeLine(p: ParserState, line: string, t: string, limit: nat)
    requires limit >= 2 && p.awaiting == 0 && WireLine(line, limit) && Digest(p, line).1 == Nothing
    ensures Serve(p, line + "\n" + t, limit) == Serve(Digest(p, line).0, t, limit)
  {
    hide Digest, NextChunk, WireLine;
    FrameLine(line, t, limit);
  }

  lemma {:induction false} ServeText(p: ParserState, lines: seq<string>, t: string, limit: nat)
    requires limit >= 2 && p.phase == Parsing && p.kind == TSend && p.awaiting == 0 && WireLines(lines, limit)
    requires p.total <= INT_MAX && INT_MIN <= p.total - |lines| && NoDotFrom(lines, p.total)
    ensures Serve(p, JoinLines(lines) + t, limit) == Serve(Fed(p, lines), t, limit)
    decreases |lines|
  {
    hide Serve, Digest, WireLine, WireLines, JoinLines, NoDotFrom, Fed;
    if lines == [] {
      FedNothing(p);
      NoLines(t);
    } else {
      WireTailLines(lines, limit);
      NoDotTail(lines, p.total);
      FedCons(p, lines);
      FedIsDigest(p, lines[0]);
      JoinLinesCons(lines, t);
      ServeLine(p, lines[0], JoinLines(lines[1..]) + t, limit);
      ServeText(Fed(p, [lines[0]]), lines[1..], t, limit);
    }
  }

  lemma FedIsDigest(p: ParserState, line: string)
    requires p.phase == Parsing && p.kind == TSend && INT_MIN < p.total <= INT_MAX && (p.total <= 0 ==> line != ".")
    ensures Digest(p, line) == (Fed(p, [line]), Nothing)
  {
    hide Digest;
    TextDigest(p, line);
  }

  /** A text and the dot that ends it bring the parser to the attachment section. */
  lemma ServeHead(
      p: ParserState, sender: string, receivers: seq<string>, title: string, lines: seq<string>, t: string, limit: nat)
    requires limit >= 16 && Ready(p)
    requires WireLine(sender, limit) && WireLine(title, limit) && WireLines(receivers, limit) && WireLines(lines, limit)
    requires "." !in lines && NoEarlyDot(receivers, title) && |receivers| + |lines| + 4 <= INT_MAX
    ensures var head := HeadLines(sender, receivers, title, lines);
      Serve(p, JoinLines(head) + t, limit)
      == Serve(ParserState(AwaitingAttachments, TSend, -1 - |receivers| - |lines|, 0, head), t, limit)
  {
    hide Serve, Digest, WireLine, WireLines, JoinLines, TextLines, HeadLines, NoEarlyDot, NoDotFrom;
    var text := TextLines(sender, receivers, title, lines);
    var head := HeadLines(sender, receivers, title, lines);
    var p1 := KEYWORD_READ;
    TextLength(sender, receivers, title, lines);
    TextLinesWire(sender, receivers, title, lines, limit);
    NoDotInText(sender, receivers, title, lines);
    HeadIsText(sender, receivers, title, lines);
    KeywordDigest(p);
    SendIsQuiet(p);
    DotLine(limit);
    HeadRegroup(text, t);
    assert head == ["SEND"] + text + ["."];
    assert p.chunks + ["SEND"] == ["SEND"];
    ServeLine(p, "SEND", JoinLines(text) + ("." + "\n" + t), limit);
    ServeText(p1, text, "." + "\n" + t, limit);
    DotDigest(Fed(p1, text));
    DotIsQuiet(Fed(p1, text));
    ServeLine(Fed(p1, text), ".", t, limit);
    assert p1.chunks + text + ["."] == head;
  }

  lemma SendIsQuiet(p: ParserState)
    requires p.phase == NewRequest
    ensures Digest(p, "SEND").1 == Nothing
  {
  }

  lemma DotIsQuiet(p: ParserState)
    requires p.phase == Parsing && p.kind == TSend
    ensures Digest(p, ".").1 == Nothing
  {
  }

  lemma HeadRegroup(text: seq<string>, t: string)
    ensures JoinLines(["SEND"] + text + ["."]) + t == "SEND" + "\n" + (JoinLines(text) + ("." + "\n" + t))
  {
    hide JoinLines;
    assert ["SEND"] + text + ["."] == ["SEND"] + (text + ["."]);
    Prefixed("SEND", text + ["."], t);
    JoinLinesSnoc(text, ".");
    assert JoinLines(text) + "." + "\n" + t == JoinLines(text) + ("." + "\n" + t);
  }

  lemma ServeAttachment(p: ParserState, a: Attachment, t: string, limit: nat)
    requires limit >= 16 && p.phase == AwaitingAttachments && p.awaiting == 0
    requires 3 < p.total <= INT_MAX && p.total % 3 == 0 && WireAttachment(a, limit)
    ensures var raw := Chopped(a);
      Serve(p, RawText(Raw(a)) + t, limit)
      == Serve(p.(total := p.total - 3, chunks := p.chunks + [raw.name, raw.size, raw.data]), t, limit)
  {
    hide Serve, Digest, NextChunk, WireLine, PrintInt, ParseInt, StripCR;
    var raw := Chopped(a);
    var n := |a.data|;
    NumberLine(n, limit);
    AttachmentDigests(p, raw.name, raw.size, raw.data, n);
    var p1 := p.(total := p.total - 1, chunks := p.chunks + [raw.name]);
    var p2 := p1.(total := p.total - 2, awaiting := n, chunks := p1.chunks + [raw.size]);
    var p3 := p2.(total := p.total - 3, awaiting := 0, chunks := p2.chunks + [raw.data]);
    assert p3.chunks == p.chunks + [raw.name, raw.size, raw.data];
    assert RawText(Raw(a)) + t == raw.name + "\n" + (raw.size + "\n" + (a.data + t));
    ServeLine(p, raw.name, raw.size + "\n" + (a.data + t), limit);
    ServeLine(p1, raw.size, a.data + t, limit);
    ServeData(p2, a.data, t, limit);
  }

  lemma ServeData(p: ParserState, data: string, t: string, limit: nat)
    requires limit >= 2 && data != "" && p.awaiting == |data|
    requires Digest(p, StripCR(data[..|data| - 1])).1 == Nothing
    ensures Serve(p, data + t, limit) == Serve(Digest(p, StripCR(data[..|data| - 1])).0, t, limit)
  {
    hide Digest, NextChunk, StripCR;
    FrameData(data, t, limit);
  }

  lemma {:induction false} ServeFront(p: ParserState, front: seq<Attachment>, t: string, limit: nat)
    requires limit >= 16 && p.phase == AwaitingAttachments && p.awaiting == 0
    requires 3 * |front| < p.total <= INT_MAX && p.total % 3 == 0 && WireAttachments(front, limit)
    ensures Serve(p, RawTexts(Raws(front)) + t, limit)
         == Serve(p.(total := p.total - 3 * |front|,
                     chunks := p.chunks + AttachmentChunks(AllChopped(front, limit))), t, limit)
    decreases |front|
  {
    hide Serve, WireLine, Chopped, AllChopped, AttachmentChunks, Raw, RawText, RawTexts, Raws;
    ChunksCons(front, limit);
    if front == [] {
      assert p.chunks + AttachmentChunks(AllChopped(front, limit)) == p.chunks;
      NothingRaw(t);
    } else {
      var a, others := front[0], front[1..];
      assert WireAttachment(a, limit);
      var raw := Chopped(a);
      var q := p.(total := p.total - 3, chunks := p.chunks + [raw.name, raw.size, raw.data]);
      RawsCons(front);
      RawTextsCons(Raw(a), Raws(others));
      JoinedText(RawText(Raw(a)), RawTexts(Raws(others)), t);
      ServeAttachment(p, a, RawTexts(Raws(others)) + t, limit);
      ServeFront(q, others, t, limit);
      assert q.chunks + AttachmentChunks(AllChopped(others, limit))
          == p.chunks + AttachmentChunks(AllChopped(front, limit));
    }
  }

  // ---------------------------------------------------------------- a negative size

  lemma NegativeSizeDigest(p: ParserState, size: string)
    requires p.phase == AwaitingAttachments && p.awaiting == 0
    requires 0 < p.total <= INT_MAX && p.total % 3 == 2 && ParseInt32(size).Some? && ParseInt32(size).value < 0
    ensures Digest(p, size).1 == Nothing && Digest(p, size).0.awaiting < 0
  {
    hide ParseInt, Finish;
  }

  lemma NegativeRead(p: ParserState, s: string, limit: nat)
    requires limit >= 2 && p.awaiting < 0
    ensures Serve(p, s, limit) == Served([], p, Crashed)
  {
  }

  /** SEND with a negative number in place of the size of an attachment, wherever it stands: the next read crashes, so
      neither this request nor any byte after it is ever answered. `m` is the message up to that attachment. */
  lemma NegativeSizeCrashes(
      p: ParserState, m: SendMessage, count: string, n: nat, name: string, size: string, rest: string, limit: nat)
    requires limit >= 16 && Ready(p) && WireSend(m, limit)
    requires WireLine(count, limit) && ParseInt32(count) == Some(n) && |m.attachments| < n && 3 * n <= INT_MAX
    requires WireLine(name, limit) && WireLine(size, limit) && ParseInt32(size).Some? && ParseInt32(size).value < 0
    ensures var head := JoinLines(HeadLines(m.sender, m.receivers, m.title, SplitLines(m.body)));
      var section := count + "\n" + (RawTexts(Raws(m.attachments)) + (name + "\n" + (size + "\n" + rest)));
      var served := Serve(p, head + section, limit);
      served.steps == [] && served.stop == Crashed
  {
    hide Serve, Digest, ParseInt, NoEarlyDot, WireLine, WireLines, HeadLines, WireAttachments, AllChopped,
      AttachmentChunks, RawTexts, Raws, SplitLines, JoinLines;
    var lines := SplitLines(m.body);
    var before: int := |m.receivers| + |lines|;
    var q := ParserState(AwaitingAttachments, TSend, -1 - before, 0, HeadLines(m.sender, m.receivers, m.title, lines));
    var t := name + "\n" + (size + "\n" + rest);
    ServeHead(p, m.sender, m.receivers, m.title, lines, count + "\n" + (RawTexts(Raws(m.attachments)) + t), limit);
    CountDigests(q, count, n);
    ServeLine(q, count, RawTexts(Raws(m.attachments)) + t, limit);
    var q1 := q.(total := 3 * n, chunks := q.chunks + [count]);
    ServeFront(q1, m.attachments, t, limit);
    var q2 := AfterFront(q, count, n, m.attachments, limit);
    NameDigests(q2, name);
    ServeLine(q2, name, size + "\n" + rest, limit);
    var q3 := Digest(q2, name).0;
    NegativeSizeDigest(q3, size);
    ServeLine(q3, size, rest, limit);
    NegativeRead(Digest(q3, size).0, rest, limit);
  }

  /** In a stored message, too, a negative size, after any attachments in order, ends in an exception. */
  lemma NegativeSizeTail(
      count: string, n: nat, raws: seq<RawAttachment>, name: string, size: string, more: string)
    requires OneLine(count) && ParseInt32(count) == Some(n) && |raws| < n && AllAligned(raws)
    requires OneLine(name) && OneLine(size) && ParseInt32(size).Some? && ParseInt32(size).value < 0
    ensures ReadTail(LineSource(count + "\n" + (RawTexts(raws) + (name + "\n" + (size + "\n" + more))), false, "."))
         == BadLength
  {
    hide ParseInt, GetLine, AllAligned, RawTexts;
    var rest := name + "\n" + (size + "\n" + more);
    var left: nat := n - |raws|;
    var previous := if raws == [] then count else raws[|raws| - 1].size;
    GetLineStep(count, RawTexts(raws) + rest, ".");
    ReadAttachmentsThen(raws, rest, count, left, []);
    GetLineStep(name, size + "\n" + more, previous);
    GetLineStep(size, more, name);
    assert ReadAttachment(LineSource(rest, false, previous)) == BadLength;
  }

  /** And the message that holds it. */
  lemma NegativeSizeInflates(
      sender: string, receivers: seq<string>, title: string, lines: seq<string>,
      count: string, n: nat, raws: seq<RawAttachment>, name: string, size: string, more: string)
    requires OneLine(sender) && OneLine(title) && AllOneLine(lines) && "." !in lines && ReceiverLines(receivers)
    requires OneLine(count) && ParseInt32(count) == Some(n) && |raws| < n && AllAligned(raws)
    requires OneLine(name) && OneLine(size) && ParseInt32(size).Some? && ParseInt32(size).value < 0
    ensures InflateSend(JoinLines(HeadLines(sender, receivers, title, lines))
                        + (count + "\n" + (RawTexts(raws) + (name + "\n" + (size + "\n" + more))))) == BadLength
  {
    hide ParseInt, InflateSend, HeadLines, RawTexts, AllAligned, JoinLines, ReadTail, OneLine, AllOneLine,
      ReceiverLines;
    NegativeSizeTail(count, n, raws, name, size, more);
    InflateHead(sender, receivers, title, lines,
                count + "\n" + (RawTexts(raws) + (name + "\n" + (size + "\n" + more))));
  }

  // ---------------------------------------------------------------- a negative count

  /** Chunks on which the factory always dies, whatever is appended to them. */
  ghost predicate Doomed(chunks: seq<string>) {
    forall more: seq<string> :: NewInstance(chunks + more) == BadLength
  }

  lemma DoomedFinish(p: ParserState, stale: seq<string>)
    requires Doomed(stale) && stale <= p.chunks
    ensures Finish(p) == (p, Aborted)
  {
    hide NewInstance;
    assert p.chunks == stale + p.chunks[|stale|..];
  }

  lemma DoomedDigest(p: ParserState, stale: seq<string>, data: string)
    requires Doomed(stale) && stale <= p.chunks
    ensures stale <= Digest(p, data).0.chunks
    ensures Digest(p, data).1 == Nothing || Digest(p, data).1 == Aborted
  {
    hide Finish, ParseInt, Wrap32;
    forall q: ParserState | stale <= q.chunks ensures Finish(q) == (q, Aborted) {
      DoomedFinish(q, stale);
    }
  }

  /** Once the chunks are doomed nothing is ever answered again: the connection crashes or its bytes end first. */
  lemma {:induction false} DoomedForever(p: ParserState, stale: seq<string>, s: string, limit: nat)
    requires limit >= 2 && Doomed(stale) && stale <= p.chunks
    ensures Serve(p, s, limit).steps == [] && Serve(p, s, limit).stop != Hung
    decreases |s|
  {
    hide Doomed, Digest, NextChunk;
    match NextChunk(p.awaiting, limit, s) {
      case Chunk(data, rest) =>
        DoomedDigest(p, stale, data);
        DoomedForever(Digest(p, data).0, stale, rest, limit);
      case _ =>
    }
  }

  lemma NegativeCountDoomed(sender: string, receivers: seq<string>, title: string, lines: seq<string>, count: string)
    requires OneLine(sender) && OneLine(title) && AllOneLine(lines) && "." !in lines && ReceiverLines(receivers)
    requires OneLine(count) && ParseInt32(count).Some? && ParseInt32(count).value < 0
    ensures Doomed(HeadLines(sender, receivers, title, lines) + [count])
  {
    hide ParseInt, NewInstance, HeadLines, ReceiverLines, OneLine, AllOneLine;
    var head := HeadLines(sender, receivers, title, lines);
    forall more: seq<string> ensures NewInstance(head + [count] + more) == BadLength {
      NegativeCountFactory(sender, receivers, title, lines, count, more);
    }
  }

  lemma NegativeCountFactory(
      sender: string, receivers: seq<string>, title: string, lines: seq<string>, count: string, more: seq<string>)
    requires OneLine(sender) && OneLine(title) && AllOneLine(lines) && "." !in lines && ReceiverLines(receivers)
    requires OneLine(count) && ParseInt32(count).Some? && ParseInt32(count).value < 0
    ensures NewInstance(HeadLines(sender, receivers, title, lines) + [count] + more) == BadLength
  {
    hide ParseInt, InflateSend, HeadLines, JoinLines, ReceiverLines, OneLine, AllOneLine, GetLine;
    var head := HeadLines(sender, receivers, title, lines);
    HeadKeyword(sender, receivers, title, lines);
    JoinLinesConcat(head + [count], more);
    JoinLinesSnoc(head, count);
    var tail := count + "\n" + JoinLines(more);
    assert JoinLines(head) + count + "\n" + JoinLines(more) == JoinLines(head) + tail;
    InflateHead(sender, receivers, title, lines, tail);
    GetLineStep(count, JoinLines(more), ".");
    assert (head + [count] + more)[0] == "SEND";
  }

  /** SEND with a negative number in place of the attachment count: nothing that follows on this connection is ever
      answered. */
  lemma NegativeCountSilent(
      p: ParserState, sender: string, receivers: seq<string>, title: string, lines: seq<string>,
      count: string, rest: string, limit: nat) returns (q: ParserState)
    requires limit >= 16 && Ready(p) && WireLine(count, limit)
    requires ParseInt32(count).Some? && ParseInt32(count).value < 0
    requires WireLine(sender, limit) && WireLine(title, limit) && WireLines(receivers, limit) && WireLines(lines, limit)
    requires EOT !in receivers && "." !in lines && NoEarlyDot(receivers, title) && |receivers| + |lines| + 4 <= INT_MAX
    ensures var head := HeadLines(sender, receivers, title, lines);
      var served := Serve(p, JoinLines(head + [count]) + rest, limit);
      && served == Serve(q, rest, limit) && served.steps == [] && served.stop != Hung
      && q.phase == AwaitingAttachments && q.awaiting == 0 && Doomed(q.chunks)
      && (INT_MIN < 3 * ParseInt32(count).value ==> q.total == 3 * ParseInt32(count).value)
  {
    hide Serve, Digest, ParseInt, NoEarlyDot, WireLine, WireLines, HeadLines, JoinLines, Doomed, ReceiverLines,
      AllOneLine, OneLine;
    TextOneLine(sender, receivers, title, lines, limit);
    WireOneLine(count, limit);
    var head := HeadLines(sender, receivers, title, lines);
    var before: int := |receivers| + |lines|;
    var start := ParserState(AwaitingAttachments, TSend, -1 - before, 0, head);
    ServeHead(p, sender, receivers, title, lines, count + "\n" + rest, limit);
    NegativeCountDoomed(sender, receivers, title, lines, count);
    CountRegroup(head, count, rest);
    q := NegativeCountStep(start, count, rest, limit);
  }

  /** The parser after the count line, and what is left to serve. */
  lemma NegativeCountStep(start: ParserState, count: string, rest: string, limit: nat) returns (q: ParserState)
    requires limit >= 2 && WireLine(count, limit) && ParseInt32(count).Some? && ParseInt32(count).value < 0
    requires start.phase == AwaitingAttachments && start.awaiting == 0 && INT_MIN < start.total <= 0
    requires Doomed(start.chunks + [count])
    ensures var served := Serve(start, count + "\n" + rest, limit);
      && served == Serve(q, rest, limit) && served.steps == [] && served.stop != Hung
      && q.phase == AwaitingAttachments && q.awaiting == 0 && Doomed(q.chunks)
      && (INT_MIN < 3 * ParseInt32(count).value ==> q.total == 3 * ParseInt32(count).value)
  {
    hide Serve, Digest, ParseInt, WireLine, Doomed;
    q := Digest(start, count).0;
    NegativeCountDigest(start, count);
    ServeLine(start, count, rest, limit);
    DoomedForever(q, q.chunks, rest, limit);
  }

  lemma CountRegroup(head: seq<string>, count: string, rest: string)
    ensures JoinLines(head + [count]) + rest == JoinLines(head) + (count + "\n" + rest)
  {
    hide JoinLines;
    JoinLinesSnoc(head, count);
  }

  /** When the next line is no number, or is 0, the crash comes with that line. */
  lemma NegativeCountCrashes(
      p: ParserState, sender: string, receivers: seq<string>, title: string, lines: seq<string>,
      count: string, line: string, more: string, limit: nat)
    requires limit >= 16 && Ready(p) && WireLine(count, limit) && WireLine(line, limit)
    requires ParseInt32(count).Some? && INT_MIN < 3 * ParseInt32(count).value < 0
    requires ParseInt32(line).None? || ParseInt32(line) == Some(0)
    requires WireLine(sender, limit) && WireLine(title, limit) && WireLines(receivers, limit) && WireLines(lines, limit)
    requires EOT !in receivers && "." !in lines && NoEarlyDot(receivers, title) && |receivers| + |lines| + 4 <= INT_MAX
    ensures var head := HeadLines(sender, receivers, title, lines);
      var served := Serve(p, JoinLines(head + [count]) + (line + "\n" + more), limit);
      served.steps == [] && served.stop == Crashed
  {
    hide Serve, ParseInt, NoEarlyDot, WireLine, WireLines, HeadLines, JoinLines, Doomed;
    var q := NegativeCountSilent(p, sender, receivers, title, lines, count, line + "\n" + more, limit);
    CrashWithLine(q, q.chunks, line, more, limit);
  }

  lemma NegativeCountDigest(q: ParserState, count: string)
    requires q.phase == AwaitingAttachments && q.awaiting == 0 && INT_MIN < q.total <= 0
    requires ParseInt32(count).Some? && ParseInt32(count).value < 0
    ensures var (r, step) := Digest(q, count);
      && step == Nothing && r.phase == AwaitingAttachments && r.awaiting == 0 && r.chunks == q.chunks + [count]
      && (INT_MIN < 3 * ParseInt32(count).value ==> r.total == 3 * ParseInt32(count).value)
  {
    hide ParseInt, Finish;
  }

  lemma CrashWithLine(q: ParserState, stale: seq<string>, line: string, more: string, limit: nat)
    requires limit >= 16 && q.phase == AwaitingAttachments && q.awaiting == 0 && INT_MIN < q.total < 0
    requires Doomed(stale) && stale <= q.chunks && WireLine(line, limit)
    requires ParseInt32(line).None? || ParseInt32(line) == Some(0)
    ensures Serve(q, line + "\n" + more, limit).stop == Crashed
  {
    hide Doomed, ParseInt, WireLine, NextChunk;
    FrameLine(line, more, limit);
    EndsDoomed(q, stale, line);
    hide Digest;
  }

  lemma EndsDoomed(q: ParserState, stale: seq<string>, line: string)
    requires q.phase == AwaitingAttachments && INT_MIN < q.total < 0
    requires Doomed(stale) && stale <= q.chunks
    requires ParseInt32(line).None? || ParseInt32(line) == Some(0)
    ensures Digest(q, line).1 == Aborted
  {
    hide Doomed, ParseInt, Finish;
    var r := CountAttachment(q.(chunks := q.chunks + [line], total := Wrap32(q.total - 1)), line);
    DoomedFinish(r, stale);
  }
}
