/** Attachments without any bytes. The last one costs the line that follows the request; an earlier one makes the next
    lines of the message part of the framing. */
module EmptyAttachment {
  import opened Text
  import opened Messages
  import opened Inflation
  import opened SendFormat
  import opened MessageParsing
  import opened Framing
  import opened Wire
  import opened Delivery
  import opened Arrival
  import opened Failures

  /** A SEND request that would be fine on the wire, but for its last attachment, which is empty. */
  predicate EmptyLast(m: SendMessage, limit: nat) {
    && m.attachments != [] && 3 * |m.attachments| <= INT_MAX
    && m.attachments[|m.attachments| - 1].data == ""
    && WireLine(m.attachments[|m.attachments| - 1].filename, limit)
    && WireMessage(Send(Front(m)), limit)
  }

  function Front(m: SendMessage): SendMessage
    requires m.attachments != []
  {
    m.(attachments := m.attachments[..|m.attachments| - 1])
  }

  /** A size of 0 announces no counted read, so the data chunk of the attachment is the next line. */
  lemma EmptyDigests(p: ParserState, name: string, line: string)
    requires p.phase == AwaitingAttachments && p.awaiting == 0 && p.total == 3
    ensures ParseInt32(PrintInt(0)) == Some(0)
    ensures var p1 := p.(total := 2, chunks := p.chunks + [name]);
      var p2 := p1.(total := 1, chunks := p1.chunks + [PrintInt(0)]);
      var p3 := p2.(total := 0, chunks := p2.chunks + [line], phase := NewRequest);
      && Digest(p, name) == (p1, Nothing)
      && Digest(p1, PrintInt(0)) == (p2, Nothing)
      && Digest(p2, line) == Finish(p3)
  {
    hide ParseInt, Finish, PrintInt;
    ParsePrintInt(0, INT_MIN, INT_MAX);
  }

  lemma EmptyCompletes(p: ParserState, name: string, line: string, rest: string, limit: nat)
    requires limit >= 16 && p.phase == AwaitingAttachments && p.awaiting == 0 && p.total == 3
    requires WireLine(name, limit) && WireLine(line, limit)
    ensures Completes(p, RawText(Raw(Attachment(name, ""))) + (line + "\n" + rest),
                      ParserState(NewRequest, p.kind, 0, 0, p.chunks + [name, PrintInt(0), line]), rest, limit)
  {
    hide Completes, Digest, WireLine, Finish, PrintInt, ParseInt;
    NumberLine(0, limit);
    EmptyDigests(p, name, line);
    var p1 := p.(total := 2, chunks := p.chunks + [name]);
    var p2 := p1.(total := 1, chunks := p1.chunks + [PrintInt(0)]);
    var p3 := p2.(total := 0, chunks := p2.chunks + [line], phase := NewRequest);
    var r := ParserState(NewRequest, p.kind, 0, 0, p.chunks + [name, PrintInt(0), line]);
    assert p3.chunks == r.chunks;
    CompletesLast(p2, line, r, rest, limit);
    CompletesLine(p1, PrintInt(0), line + "\n" + rest, r, rest, limit);
    CompletesLine(p, name, PrintInt(0) + "\n" + (line + "\n" + rest), r, rest, limit);
    assert RawText(Raw(Attachment(name, ""))) + (line + "\n" + rest)
        == name + "\n" + (PrintInt(0) + "\n" + (line + "\n" + rest));
  }

  /** The chunks of the request, the swallowed line being the last of them. */
  function EmptyChunks(m: SendMessage, line: string, limit: nat): seq<string>
    requires EmptyLast(m, limit)
  {
    var front := Front(m).attachments;
    var name := m.attachments[|front|].filename;
    HeadLines(m.sender, m.receivers, m.title, SplitLines(m.body)) + [PrintInt(|m.attachments|)] +
    AttachmentChunks(AllChopped(front, limit)) + [name, PrintInt(0), line]
  }

  /** The count line, the attachments before the empty one, the empty one, and the swallowed line. */
  lemma EmptySectionCompletes(
      p: ParserState, front: seq<Attachment>, name: string, line: string, rest: string, limit: nat)
    requires limit >= 16 && p.phase == AwaitingAttachments && p.awaiting == 0 && INT_MIN < p.total < 0
    requires 3 * |front| + 3 <= INT_MAX && WireAttachments(front, limit)
    requires WireLine(name, limit) && WireLine(line, limit)
    ensures var count := PrintInt(|front| + 1);
      Completes(p, count + "\n" + (RawTexts(Raws(front)) + (RawText(Raw(Attachment(name, ""))) + (line + "\n" + rest))),
                ParserState(NewRequest, p.kind, 0, 0,
                            p.chunks + [count] + AttachmentChunks(AllChopped(front, limit))
                            + [name, PrintInt(0), line]),
                rest, limit)
  {
    hide Completes, WireLine, PrintInt, ParseInt, AllChopped, AttachmentChunks, RawTexts, RawText, Raws;
    var n: nat := |front| + 1;
    var count := PrintInt(n);
    NumberLine(n, limit);
    var q := AfterFront(p, count, n, front, limit);
    var r := ParserState(NewRequest, p.kind, 0, 0, q.chunks + [name, PrintInt(0), line]);
    EmptyCompletes(q, name, line, rest, limit);
    CountAndFrontComplete(p, count, n, front, RawText(Raw(Attachment(name, ""))) + (line + "\n" + rest), r, rest,
                          limit);
  }

  lemma EmptyText(count: string, front: seq<Attachment>, last: Attachment, more: string)
    ensures TailText(count, Raws(front + [last])) + more
         == count + "\n" + (RawTexts(Raws(front)) + (RawText(Raw(last)) + more))
  {
    hide RawTexts, RawText;
    assert Raws(front + [last]) == Raws(front) + [Raw(last)];
    RawTextsConcat(Raws(front), [Raw(last)]);
    RawTextsOne(Raw(last));
    TailRegroup(count, RawTexts(Raws(front)), RawText(Raw(last)), more);
  }

  lemma TailRegroup(a: string, b: string, c: string, d: string)
    ensures a + "\n" + (b + c) + d == a + "\n" + (b + (c + d))
  {
  }

  /** The attachments `inflate` finds: those before the empty one, and the empty one. */
  lemma EmptyTail(m: SendMessage, line: string, limit: nat)
    requires limit >= 16 && EmptyLast(m, limit)
    ensures var last := m.attachments[|m.attachments| - 1];
      var raws := Newlined(AllChopped(Front(m).attachments, limit)) + [RawAttachment(last.filename, PrintInt(0), "")];
      ReadTail(LineSource(TailText(PrintInt(|m.attachments|), raws) + (line + "\n"), false, "."))
      == Ok(NormaliseAttachments(m.attachments))
  {
    hide ReadTail, TailText, WireLine, PrintInt, ParseInt, BodyText, NoEarlyDot, AllChopped, Aligned, Newlined;
    var front := Front(m).attachments;
    var last := m.attachments[|front|];
    var count := PrintInt(|m.attachments|);
    var empty := RawAttachment(last.filename, PrintInt(0), "");
    var chopped := Newlined(AllChopped(front, limit));
    ChoppedAligned(front, limit);
    EmptyAligned(last.filename, limit);
    NumberLine(|m.attachments|, limit);
    WireOneLine(count, limit);
    ReadTailBack(count, chopped + [empty], line + "\n", ".");
    ParsedFront(m, chopped, empty);
  }

  lemma ParsedFront(m: SendMessage, chopped: seq<RawAttachment>, empty: RawAttachment)
    requires m.attachments != [] && empty.data == ""
    requires m.attachments[|m.attachments| - 1] == Attachment(empty.name, "")
    requires Parsed(chopped) == NormaliseAttachments(Front(m).attachments)
    ensures Parsed(chopped + [empty]) == NormaliseAttachments(m.attachments)
  {
    assert Parsed(chopped + [empty]) == Parsed(chopped) + [Attachment(empty.name, "")];
    assert NormaliseAttachments(m.attachments)
        == NormaliseAttachments(Front(m).attachments) + [NormaliseAttachment(m.attachments[|m.attachments| - 1])];
  }

  lemma EmptyFactory(m: SendMessage, line: string, limit: nat)
    requires limit >= 16 && EmptyLast(m, limit) && WireLine(line, limit)
    ensures NewInstance(EmptyChunks(m, line, limit)) == Ok(Send(NormaliseSend(m)))
  {
    EmptyHeadLines(m, limit);
    hide InflateSend, ReadTail, HeadLines, EmptyLast, WireLine, NewInstance, JoinLines, NormaliseAttachments, OneLine,
      ReceiverLines, AllOneLine, EmptyChunks, EmptyRest, WithTail, SplitLines, Terminated;
    var lines := SplitLines(m.body);
    var tail := EmptyRest(m, line, limit);
    EmptyChunksText(m, line, limit);
    SplitThenJoin(m.body);
    InflateHead(m.sender, m.receivers, m.title, lines, tail);
    EmptyTailRead(m, line, limit);
    GoodTail(m.sender, m.receivers, m.title, lines, tail, NormaliseAttachments(m.attachments));
    GoodSend(EmptyChunks(m, line, limit), NormaliseSend(m));
  }

  lemma EmptyHeadLines(m: SendMessage, limit: nat)
    requires EmptyLast(m, limit)
    ensures Terminated(m.body) && OneLine(m.sender) && OneLine(m.title) && ReceiverLines(m.receivers)
    ensures AllOneLine(SplitLines(m.body)) && "." !in SplitLines(m.body)
  {
    WireSendLines(Front(m), limit);
  }

  /** What the factory reads after the head: the section with the empty attachment, and then the swallowed line. */
  function EmptyRest(m: SendMessage, line: string, limit: nat): string
    requires EmptyLast(m, limit)
  {
    var last := m.attachments[|m.attachments| - 1];
    TailText(PrintInt(|m.attachments|),
             Newlined(AllChopped(Front(m).attachments, limit)) + [RawAttachment(last.filename, PrintInt(0), "")])
    + (line + "\n")
  }

  lemma EmptyTailRead(m: SendMessage, line: string, limit: nat)
    requires limit >= 16 && EmptyLast(m, limit)
    ensures ReadTail(LineSource(EmptyRest(m, line, limit), false, ".")) == Ok(NormaliseAttachments(m.attachments))
  {
    hide ReadTail, TailText, EmptyLast, NormaliseAttachments, AllChopped, Newlined, PrintInt;
    EmptyTail(m, line, limit);
  }

  lemma EmptyChunksText(m: SendMessage, line: string, limit: nat)
    requires EmptyLast(m, limit) && Terminated(m.body)
    ensures var chunks := EmptyChunks(m, line, limit);
      && chunks != [] && chunks[0] == "SEND"
      && JoinLines(chunks)
         == JoinLines(HeadLines(m.sender, m.receivers, m.title, SplitLines(m.body))) + EmptyRest(m, line, limit)
  {
    hide HeadLines, PrintInt, AllChopped, AttachmentChunks, JoinLines, TailText, SplitLines, Newlined, WireLine,
      WireMessage, Terminated;
    EmptyParts(m, limit);
    var front := Front(m).attachments;
    var name := m.attachments[|front|].filename;
    var head := HeadLines(m.sender, m.receivers, m.title, SplitLines(m.body));
    var count := PrintInt(|m.attachments|);
    var chopped := AllChopped(front, limit);
    EmptyJoin(head, count, chopped, RawAttachment(name, PrintInt(0), line), RawAttachment(name, PrintInt(0), ""));
    HeadKeyword(m.sender, m.receivers, m.title, SplitLines(m.body));
    FirstChunk(head, [count], AttachmentChunks(chopped), [name, PrintInt(0), line], []);
  }

  lemma GoodTail(
      sender: string, receivers: seq<string>, title: string, lines: seq<string>, tail: string, files: seq<Attachment>)
    requires ReadTail(LineSource(tail, false, ".")) == Ok(files)
    ensures WithTail(sender, receivers, title, lines, tail)
         == Ok(SendMessage(sender, receivers, title, JoinLines(lines), files))
  {
    hide ReadTail, JoinLines;
  }

  lemma GoodSend(chunks: seq<string>, m: SendMessage)
    requires chunks != [] && chunks[0] == "SEND" && InflateSend(JoinLines(chunks)) == Ok(m)
    ensures NewInstance(chunks) == Ok(Send(m))
  {
    hide InflateSend, JoinLines;
  }

  lemma EmptyAligned(name: string, limit: nat)
    requires limit >= 16 && WireLine(name, limit)
    ensures Aligned(RawAttachment(name, PrintInt(0), ""))
  {
    NumberLine(0, limit);
  }

  lemma EmptyJoin(
      head: seq<string>, count: string, chopped: seq<RawAttachment>, swallowed: RawAttachment, empty: RawAttachment)
    requires empty == swallowed.(data := "")
    ensures JoinLines(head + [count] + AttachmentChunks(chopped) + [swallowed.name, swallowed.size, swallowed.data])
         == JoinLines(head) + (TailText(count, Newlined(chopped) + [empty]) + (swallowed.data + "\n"))
  {
    hide AttachmentChunks;
    JoinSection(head, count, chopped);
    JoinLinesConcat(head + [count] + AttachmentChunks(chopped), [swallowed.name, swallowed.size, swallowed.data]);
    JoinThree(swallowed.name, swallowed.size, swallowed.data);
    RawTextsConcat(Newlined(chopped), [empty]);
    RawTextsOne(empty);
    EmptyRegroup(JoinLines(head), count + "\n", RawTexts(Newlined(chopped)),
                 swallowed.name + "\n" + swallowed.size + "\n", swallowed.data);
  }

  lemma EmptyRegroup(a: string, b: string, c: string, d: string, e: string)
    ensures a + (b + c) + (d + e + "\n") == a + (b + (c + (d + "")) + (e + "\n"))
  {
  }

  lemma EmptyParts(m: SendMessage, limit: nat)
    requires EmptyLast(m, limit)
    ensures var front := Front(m).attachments;
      var last := m.attachments[|front|];
      && m.attachments == front + [last] && last == Attachment(last.filename, "")
      && WireLine(last.filename, limit) && WireAttachments(front, limit) && 3 * |front| + 3 <= INT_MAX
  {
  }

  lemma EmptyHead(m: SendMessage, limit: nat)
    requires EmptyLast(m, limit)
    ensures WireLine(m.sender, limit) && WireLine(m.title, limit) && WireLines(m.receivers, limit)
    ensures Terminated(m.body) && WireLines(SplitLines(m.body), limit) && "." !in SplitLines(m.body)
    ensures NoEarlyDot(m.receivers, m.title) && |m.receivers| + |SplitLines(m.body)| + 4 <= INT_MAX
  {
  }

  /** The attachment section of such a message as text. */
  lemma EmptyTailText(m: SendMessage, more: string, limit: nat)
    requires EmptyLast(m, limit)
    ensures var front := Front(m).attachments;
      TailText(PrintInt(|m.attachments|), Raws(m.attachments)) + more
      == PrintInt(|front| + 1) + "\n"
         + (RawTexts(Raws(front)) + (RawText(Raw(Attachment(m.attachments[|front|].filename, ""))) + more))
  {
    hide TailText, PrintInt, RawTexts, RawText, Raws;
    EmptyParts(m, limit);
    EmptyText(PrintInt(|m.attachments|), Front(m).attachments, m.attachments[|m.attachments| - 1], more);
  }

  lemma EmptyTailCompletes(q: ParserState, m: SendMessage, line: string, rest: string, limit: nat)
    requires limit >= 16 && EmptyLast(m, limit) && WireLine(line, limit)
    requires q.phase == AwaitingAttachments && q.kind == TSend && q.awaiting == 0 && INT_MIN < q.total < 0
    ensures var front := Front(m).attachments;
      EmptyLast(m, limit) && WireAttachments(front, limit) &&
      Completes(q, TailText(PrintInt(|m.attachments|), Raws(m.attachments)) + (line + "\n" + rest),
                ParserState(NewRequest, TSend, 0, 0,
                            q.chunks + [PrintInt(|front| + 1)] + AttachmentChunks(AllChopped(front, limit))
                            + [m.attachments[|front|].filename, PrintInt(0), line]), rest, limit)
  {
    hide Completes, TailText, PrintInt, WireLine, AllChopped, AttachmentChunks, RawTexts, RawText, Raws,
      WireAttachments;
    EmptyParts(m, limit);
    hide EmptyLast;
    EmptyTailText(m, line + "\n" + rest, limit);
    EmptySectionCompletes(q, Front(m).attachments, m.attachments[|m.attachments| - 1].filename, line, rest, limit);
  }

  lemma ChunkRegroup(a: seq<string>, b: seq<string>, c: seq<string>, d: seq<string>, e: seq<string>)
    ensures a + b + c + d + e == a + (b + c + d + e)
  {
  }

  /** The parser when the text of the message has been read, and when its last chunk has. */
  function AfterText(p: ParserState, m: SendMessage): ParserState
    requires Terminated(m.body)
  {
    ParserState(AwaitingAttachments, TSend, -1 - |m.receivers| - |SplitLines(m.body)|, 0,
                p.chunks + HeadLines(m.sender, m.receivers, m.title, SplitLines(m.body)))
  }

  function AfterAll(p: ParserState, m: SendMessage, line: string, limit: nat): ParserState
    requires EmptyLast(m, limit)
  {
    ParserState(NewRequest, TSend, 0, 0, p.chunks + EmptyChunks(m, line, limit))
  }

  lemma EmptyStates(p: ParserState, m: SendMessage, line: string, limit: nat)
    requires EmptyLast(m, limit)
    ensures Terminated(m.body) && INT_MIN < AfterText(p, m).total < 0
    ensures var front := Front(m).attachments;
      WireAttachments(front, limit) &&
      AfterAll(p, m, line, limit)
      == ParserState(NewRequest, TSend, 0, 0,
                     AfterText(p, m).chunks + [PrintInt(|front| + 1)] + AttachmentChunks(AllChopped(front, limit))
                     + [m.attachments[|front|].filename, PrintInt(0), line])
  {
    EmptyHead(m, limit);
    EmptyParts(m, limit);
    hide HeadLines, PrintInt, SplitLines, AllChopped, AttachmentChunks, EmptyLast, WireAttachments, WireLine, WireLines,
      NoEarlyDot, Terminated;
    var front := Front(m).attachments;
    ChunkRegroup(p.chunks, HeadLines(m.sender, m.receivers, m.title, SplitLines(m.body)), [PrintInt(|front| + 1)],
                 AttachmentChunks(AllChopped(front, limit)), [m.attachments[|front|].filename, PrintInt(0), line]);
  }

  lemma EmptyRequestCompletes(p: ParserState, m: SendMessage, line: string, rest: string, limit: nat)
    requires limit >= 16 && p.phase == NewRequest && p.awaiting == 0 && EmptyLast(m, limit) && WireLine(line, limit)
    ensures Completes(p, DeflateSend(m) + (line + "\n" + rest), AfterAll(p, m, line, limit), rest, limit)
  {
    hide Completes, DeflateSend, TailText, PrintInt, NoEarlyDot, WireLine, WireLines, Raws, AfterAll, EmptyLast,
      HeadLines, SplitLines, Terminated;
    EmptyHead(m, limit);
    EmptyStates(p, m, line, limit);
    EmptyTailCompletes(AfterText(p, m), m, line, rest, limit);
    PrintedHeadCompletes(p, m, line + "\n" + rest, AfterAll(p, m, line, limit), rest, limit);
  }

  /** The message is delivered unchanged up to the last-byte rule, but one line too many is consumed: the line
      after the request, whatever it is, is lost. */
  lemma EmptyLastSwallowsLine(p: ParserState, m: SendMessage, line: string, rest: string, limit: nat)
    requires limit >= 16 && Ready(p) && EmptyLast(m, limit) && WireLine(line, limit)
    ensures Serve(p, DeflateSend(m) + (line + "\n" + rest), limit)
         == Serve(ParserState(NewRequest, TSend, 0, 0, []), rest, limit).Prepend(Dispatched(Send(NormaliseSend(m))))
  {
    hide Serve, Completes, DeflateSend, EmptyChunks, NormaliseSend, EmptyLast, WireLine, NewInstance;
    var r := AfterAll(p, m, line, limit);
    EmptyRequestCompletes(p, m, line, rest, limit);
    assert p.chunks + EmptyChunks(m, line, limit) == EmptyChunks(m, line, limit);
    ServeCompletes(p, DeflateSend(m) + (line + "\n" + rest), r, rest, limit);
    EmptyFactory(m, line, limit);
  }

  // ---------------------------------------------------------------- an empty attachment before the last place

  /** An empty attachment before the last place may do no harm: here the data of the other one, being a single line, is
      taken for its size, which ends the request just there. */
  const GAP := SendMessage("a", ["b"], "t", "", [Attachment("e", ""), Attachment("f", "hello\n")])
  const GAP_SECTION := ["2", "e", "0", "f", "6", "hello"]

  lemma GapExample(limit: nat)
    requires limit >= 16
    ensures !Gapless(GAP.attachments) && !WireSend(GAP, limit) && Whole(GAP, limit)
  {
    assert GAP.attachments[0].data == "" && !WireAttachment(GAP.attachments[0], limit);
    GapText();
    GapStorable();
    hide Completes, DeflateSend, NormaliseSend, NewInstance, Whole, HeadLines, JoinLines, InflateSend;
    var head := HeadLines("a", ["b"], "t", []);
    var r := ParserState(NewRequest, TSend, 1, 0, head + GAP_SECTION);
    GapCompletes(limit);
    GapFactory(r.chunks);
    CompletesWhole(GAP, r, limit);
  }

  lemma GapText()
    ensures DeflateSend(GAP) == JoinLines(HeadLines("a", ["b"], "t", []) + GAP_SECTION)
  {
    hide JoinLines, HeadLines;
    assert SplitLines("") == [];
    DeflateSendHead(GAP);
    GapSection();
    JoinLinesConcat(HeadLines("a", ["b"], "t", []), GAP_SECTION);
  }

  lemma GapSection()
    ensures TailText(PrintInt(|GAP.attachments|), Raws(GAP.attachments)) == JoinLines(GAP_SECTION)
  {
    hide PrintInt, JoinLines, RawTexts, RawText, Raws;
    GapRaws();
    GapLines();
    var e, f := RawAttachment("e", "0", ""), RawAttachment("f", "6", "hello\n");
    assert [e, f] == [e] + [f];
    RawTextsConcat([e], [f]);
    RawTextsOne(e);
    RawTextsOne(f);
    GapRawText();
  }

  lemma GapRaws()
    ensures PrintInt(2) == "2"
    ensures Raws(GAP.attachments) == [RawAttachment("e", "0", ""), RawAttachment("f", "6", "hello\n")]
  {
    assert PrintInt(2) == "2" && PrintInt(0) == "0" && PrintInt(6) == "6";
    hide PrintInt;
  }

  lemma GapRawText()
    ensures "2" + "\n" + (RawText(RawAttachment("e", "0", "")) + RawText(RawAttachment("f", "6", "hello\n")))
         == "2\ne\n0\nf\n6\nhello\n"
  {
    assert RawText(RawAttachment("e", "0", "")) == "e\n0\n";
    assert RawText(RawAttachment("f", "6", "hello\n")) == "f\n6\nhello\n";
    hide RawText;
  }

  lemma GapLines()
    ensures JoinLines(GAP_SECTION) == "2\ne\n0\nf\n6\nhello\n"
  {
    hide JoinLines;
    JoinThree("2", "e", "0");
    JoinThree("f", "6", "hello");
    JoinLinesConcat(["2", "e", "0"], ["f", "6", "hello"]);
    assert GAP_SECTION == ["2", "e", "0"] + ["f", "6", "hello"];
    assert "2" + "\n" + "e" + "\n" + "0" + "\n" == "2\ne\n0\n";
    assert "f" + "\n" + "6" + "\n" + "hello" + "\n" == "f\n6\nhello\n";
  }

  lemma GapStorable()
    ensures Storable(GAP) && NormaliseSend(GAP) == GAP
  {
    assert "hello\n"[..5] == "hello" && "hello" + "\n" == "hello\n";
    var files := GAP.attachments;
    assert NormaliseAttachment(files[0]) == files[0] && NormaliseAttachment(files[1]) == files[1];
    assert NormaliseAttachments(files) == files;
    assert SplitLines("") == [];
  }

  lemma GapFactory(chunks: seq<string>)
    requires chunks == HeadLines("a", ["b"], "t", []) + GAP_SECTION
    ensures NewInstance(chunks) == Ok(Send(NormaliseSend(GAP)))
  {
    GapText();
    GapStorable();
    HeadKeyword("a", ["b"], "t", []);
    hide InflateSend, DeflateSend, NormaliseSend, JoinLines, HeadLines;
    InflateDeflateSend(GAP, "");
    assert DeflateSend(GAP) + "" == DeflateSend(GAP);
  }

  lemma GapCompletes(limit: nat)
    requires limit >= 16
    ensures var head := HeadLines("a", ["b"], "t", []);
      Completes(START, JoinLines(head + GAP_SECTION), ParserState(NewRequest, TSend, 1, 0, head + GAP_SECTION), "",
                limit)
  {
    hide Completes, JoinLines, HeadLines;
    var head := HeadLines("a", ["b"], "t", []);
    var q := ParserState(AwaitingAttachments, TSend, -2, 0, head);
    var r := ParserState(NewRequest, TSend, 1, 0, head + GAP_SECTION);
    GapSectionCompletes(q, r, limit);
    assert START.chunks + head == head;
    HeadCompletes(START, "a", ["b"], "t", [], JoinLines(GAP_SECTION), r, "", limit);
    JoinLinesConcat(head, GAP_SECTION);
  }

  /** From the count line on: the name of the second attachment is taken for the data of the first, its size for a
      name, and its data for a size. */
  lemma GapSectionCompletes(q: ParserState, r: ParserState, limit: nat)
    requires limit >= 16 && q.phase == AwaitingAttachments && q.kind == TSend && q.total == -2 && q.awaiting == 0
    requires r == ParserState(NewRequest, TSend, 1, 0, q.chunks + GAP_SECTION)
    ensures Completes(q, JoinLines(GAP_SECTION), r, "", limit)
  {
    GapNumbers();
    GapWire(limit);
    hide Completes, Digest, JoinLines, ParseInt, WireLine;
    CountDigests(q, "2", 2);
    var q1 := q.(total := 6, chunks := q.chunks + ["2"]);
    NameDigests(q1, "e");
    var q2 := q1.(total := 5, chunks := q1.chunks + ["e"]);
    SizeDigest(q2, "0", 0);
    var q3 := q2.(total := 4, chunks := q2.chunks + ["0"]);
    DataDigest(q3, "f");
    var q4 := q3.(total := 3, chunks := q3.chunks + ["f"]);
    assert q4.chunks + ["6", "hello"] == r.chunks;
    BadSizeCompletes(q4, "6", "hello", "", limit);
    CompletesLine(q3, "f", "6" + "\n" + ("hello" + "\n" + ""), r, "", limit);
    CompletesLine(q2, "0", "f" + "\n" + ("6" + "\n" + ("hello" + "\n" + "")), r, "", limit);
    CompletesLine(q1, "e", "0" + "\n" + ("f" + "\n" + ("6" + "\n" + ("hello" + "\n" + ""))), r, "", limit);
    CompletesLine(q, "2", "e" + "\n" + ("0" + "\n" + ("f" + "\n" + ("6" + "\n" + ("hello" + "\n" + "")))), r, "",
                  limit);
    GapJoined();
  }

  lemma GapNumbers()
    ensures ParseInt32("2") == Some(2) && ParseInt32("0") == Some(0) && ParseInt32("hello") == None
  {
    assert PrintInt(2) == "2" && PrintInt(0) == "0";
    ParsePrintInt(2, INT_MIN, INT_MAX);
    ParsePrintInt(0, INT_MIN, INT_MAX);
    assert !IsDigit("hello"[0]);
  }

  lemma GapWire(limit: nat)
    requires limit >= 16
    ensures forall i :: 0 <= i < |GAP_SECTION| ==> WireLine(GAP_SECTION[i], limit)
    ensures WireLine("2", limit) && WireLine("e", limit) && WireLine("0", limit) && WireLine("f", limit)
    ensures WireLine("6", limit) && WireLine("hello", limit)
  {
  }

  lemma GapJoined()
    ensures JoinLines(GAP_SECTION)
         == "2" + "\n" + ("e" + "\n" + ("0" + "\n" + ("f" + "\n" + ("6" + "\n" + ("hello" + "\n" + "")))))
  {
    GapLines();
  }
}
