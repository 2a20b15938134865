/** A lone dot that the incremental parser takes for the end of the text although it is a receiver or the title:
    the request is lost whenever the line after the dot is no number, and can be lucky otherwise. */
module EarlyDot {
  import opened Text
  import opened Messages
  import opened Inflation
  import opened SendFormat
  import opened MessageParsing
  import opened Framing
  import opened Wire
  import opened Delivery
  import opened Arrival

  // ---------------------------------------------------------------- what the parser makes of it

  /** The parser when the line after the dot is no number: the factory gets everything up to there. */
  function GivenUp(text: seq<string>, line: string): ParserState {
    ParserState(NewRequest, TSend, 1 - |text|, 0, ["SEND"] + text + [".", line])
  }

  lemma EarlyDotDigests(text: seq<string>, line: string)
    requires 3 <= |text| < INT_MAX - 5 && ParseInt32(line).None?
    ensures var before := ParserState(Parsing, TSend, 3 - |text|, 0, ["SEND"] + text);
      var after := ParserState(AwaitingAttachments, TSend, 2 - |text|, 0, ["SEND"] + text + ["."]);
      Digest(before, ".") == (after, Nothing) && Digest(after, line) == Finish(GivenUp(text, line))
  {
    hide ParseInt, Finish;
    assert ["SEND"] + text + ["."] + [line] == ["SEND"] + text + [".", line];
  }

  /** The four pieces of the request in turn: the lines before the dot, the dot, the line that does not convert,
      the rest. */
  lemma EarlyDotCompletes(p: ParserState, text: seq<string>, line: string, t: string, limit: nat)
    requires limit >= 16 && Ready(p) && WireLines(text, limit) && WireLine(line, limit)
    requires 3 <= |text| < INT_MAX - 5 && NoDotFrom(text, 3) && ParseInt32(line).None?
    ensures Completes(p, JoinLines(["SEND"] + text) + ("." + "\n" + (line + "\n" + t)), GivenUp(text, line), t, limit)
  {
    DotLine(limit);
    EarlyDotDigests(text, line);
    hide Completes, Digest, ParseInt, Finish, WireLines, WireLine, JoinLines, NoDotFrom;
    var before := ParserState(Parsing, TSend, 3 - |text|, 0, ["SEND"] + text);
    var after := ParserState(AwaitingAttachments, TSend, 2 - |text|, 0, ["SEND"] + text + ["."]);
    assert p.chunks + (["SEND"] + text) == before.chunks;
    CompletesLast(after, line, GivenUp(text, line), t, limit);
    CompletesLine(before, ".", line + "\n" + t, GivenUp(text, line), t, limit);
    KeywordAndTextComplete(p, text, "." + "\n" + (line + "\n" + t), GivenUp(text, line), t, limit);
  }

  lemma FailedRequest(r: ParserState, rest: string, limit: nat)
    requires limit >= 2
    ensures var served := AfterRequest(r, rest, limit);
      && (NewInstance(r.chunks) == BadConversion ==> served.steps != [] && served.steps[0] == Refused)
      && (NewInstance(r.chunks) == NeverReturns ==> served.steps == [] && served.stop == Hung)
  {
    hide Serve, NewInstance;
  }

  /** A request whose lines begin in this way is answered by what the factory makes of those lines. */
  lemma EarlyDotOutcome(
      p: ParserState, text: seq<string>, line: string, others: seq<string>, tail: string, limit: nat)
    requires limit >= 16 && Ready(p) && WireLines(text, limit) && WireLine(line, limit)
    requires 3 <= |text| < INT_MAX - 5 && NoDotFrom(text, 3) && ParseInt32(line).None?
    ensures var served := Serve(p, JoinLines(["SEND"] + text + ["."] + [line] + others) + tail, limit);
      var built := NewInstance(["SEND"] + text + [".", line]);
      && (built == BadConversion ==> served.steps != [] && served.steps[0] == Refused)
      && (built == NeverReturns ==> served.steps == [] && served.stop == Hung)
  {
    hide Serve, AfterRequest, NewInstance, Completes, JoinLines, WireLines, WireLine, ParseInt, NoDotFrom;
    var t := JoinLines(others) + tail;
    var s := JoinLines(["SEND"] + text + ["."] + [line] + others) + tail;
    SplitAtDot(["SEND"] + text, line, others, tail);
    EarlyDotCompletes(p, text, line, t, limit);
    ServeCompletes(p, s, GivenUp(text, line), t, limit);
    FailedRequest(GivenUp(text, line), t, limit);
  }

  lemma SplitAtDot(before: seq<string>, line: string, others: seq<string>, tail: string)
    ensures JoinLines(before + ["."] + [line] + others) + tail
         == JoinLines(before) + ("." + "\n" + (line + "\n" + (JoinLines(others) + tail)))
  {
    hide JoinLines;
    JoinLinesConcat(before + ["."] + [line], others);
    JoinLinesSnoc(before + ["."], line);
    JoinLinesSnoc(before, ".");
    Reassociate(JoinLines(before), "." + "\n", line + "\n", JoinLines(others), tail);
  }

  lemma Reassociate(a: string, b: string, c: string, d: string, e: string)
    ensures a + b + c + d + e == a + (b + (c + (d + e)))
  {
  }

  // ---------------------------------------------------------------- a title that is a dot

  /** The factory on a text whose title is the dot: with an empty body the second dot is taken for the count,
      with any other body line the search for the dot never returns. */
  lemma DotTitleFactory(sender: string, receivers: seq<string>, line: string)
    requires OneLine(sender) && ReceiverLines(receivers) && OneLine(line)
    ensures NewInstance(["SEND"] + TextLines(sender, receivers, ".", [line]))
         == if line == "." then BadConversion else NeverReturns
  {
    hide InflateSend, ReceiverLines, ReadBody, ReadTail, JoinLines;
    var chunks := ["SEND"] + TextLines(sender, receivers, ".", [line]);
    assert chunks == ["SEND", sender] + (receivers + [EOT] + (["."] + [line]));
    assert JoinLines(chunks) + "" == JoinLines(chunks);
    InflateToTitle(sender, receivers, ".", [line], "");
    OneLineLeft(line, ".");
  }

  /** What is left of a text whose last line follows the title. */
  lemma OneLineLeft(line: string, previous: string)
    requires OneLine(line)
    ensures ReadBody(LineSource(JoinLines([line]) + "", false, previous), "")
         == if line == "." then Some((LineSource("", false, "."), "")) else None
    ensures ReadTail(LineSource("", false, ".")) == BadConversion
  {
    GetLineCons([line], "", previous);
    assert JoinLines([line][1..]) + "" == "";
  }

  /** A SEND request with the title "." and at least one receiver, fine on the wire otherwise, whose next line
      is no number. */
  predicate DotTitled(m: SendMessage, limit: nat) {
    && m.title == "." && m.receivers != []
    && WireLine(m.sender, limit) && WireLines(m.receivers, limit) && EOT !in m.receivers
    && NoEarlyDot(m.receivers, "") && |m.receivers| < INT_MAX - 8
    && BodyText(m.body) && WireLines(SplitLines(m.body), limit)
    && (m.body != "" ==> ParseInt32(SplitLines(m.body)[0]).None?)
  }

  /** The lines before the title, and the line after it. */
  function Opening(m: SendMessage): seq<string> {
    [m.sender] + m.receivers + [EOT]
  }

  function LineAfterTitle(m: SendMessage): string
    requires BodyText(m.body)
  {
    (SplitLines(m.body) + ["."])[0]
  }

  lemma DotTitleLines(m: SendMessage, limit: nat)
    requires limit >= 16 && DotTitled(m, limit)
    ensures WireLine(m.sender, limit) && ReceiverLines(m.receivers) && 3 <= |Opening(m)| < INT_MAX - 5
    ensures WireLines(Opening(m), limit) && NoDotFrom(Opening(m), 3)
    ensures var line := LineAfterTitle(m);
      WireLine(line, limit) && ParseInt32(line).None? && (line == "." <==> m.body == "")
  {
  }

  lemma DotTitleText(m: SendMessage, rest: string)
    requires m.title == "." && BodyText(m.body)
    ensures DeflateSend(m) + rest
         == JoinLines(["SEND"] + Opening(m) + ["."] + [LineAfterTitle(m)] + (SplitLines(m.body) + ["."])[1..])
            + (TailText(PrintInt(|m.attachments|), Raws(m.attachments)) + rest)
  {
    hide DeflateSend, TailText, PrintInt, Raws, JoinLines, HeadLines;
    DeflateSendHead(m);
    DotHead(m);
    var head := JoinLines(HeadLines(m.sender, m.receivers, m.title, SplitLines(m.body)));
    JoinedText(head, TailText(PrintInt(|m.attachments|), Raws(m.attachments)), rest);
  }

  lemma DotHead(m: SendMessage)
    requires m.title == "." && BodyText(m.body)
    ensures HeadLines(m.sender, m.receivers, m.title, SplitLines(m.body))
         == ["SEND"] + Opening(m) + ["."] + [LineAfterTitle(m)] + (SplitLines(m.body) + ["."])[1..]
  {
    hide SplitLines;
    var body := SplitLines(m.body) + ["."];
    assert body == [body[0]] + body[1..];
  }

  /** SEND with the title "." and at least one receiver. When the line after the title is no number (an empty
      body, or a body that starts with other text), the message is never delivered: the request is refused or
      the connection hangs in `inflate`. */
  lemma DotTitleLost(p: ParserState, m: SendMessage, rest: string, limit: nat)
    requires limit >= 16 && Ready(p) && DotTitled(m, limit)
    ensures var served := Serve(p, DeflateSend(m) + rest, limit);
      if m.body == "" then served.steps != [] && served.steps[0] == Refused
      else served.steps == [] && served.stop == Hung
  {
    var line := LineAfterTitle(m);
    DotTitleLines(m, limit);
    DotTitleText(m, rest);
    GivenUpTitle(m, limit);
    hide Serve, NewInstance, DotTitled, JoinLines, DeflateSend, LineAfterTitle, WireLine, WireLines, ParseInt,
      NoDotFrom, TailText, Opening, ReceiverLines, BodyText, SplitLines, PrintInt, Raws;
    EarlyDotOutcome(p, Opening(m), line, (SplitLines(m.body) + ["."])[1..],
                    TailText(PrintInt(|m.attachments|), Raws(m.attachments)) + rest, limit);
  }

  lemma GivenUpTitle(m: SendMessage, limit: nat)
    requires limit >= 16 && DotTitled(m, limit)
    ensures NewInstance(["SEND"] + Opening(m) + [".", LineAfterTitle(m)])
         == if m.body == "" then BadConversion else NeverReturns
  {
    var line := LineAfterTitle(m);
    DotTitleLines(m, limit);
    WireOneLine(m.sender, limit);
    WireOneLine(line, limit);
    assert ["SEND"] + TextLines(m.sender, m.receivers, ".", [line]) == ["SEND"] + Opening(m) + [".", line];
    hide NewInstance, ParseInt, DotTitled, WireLines, WireLine, LineAfterTitle, TextLines, Opening;
    DotTitleFactory(m.sender, m.receivers, line);
  }

  // ---------------------------------------------------------------- a receiver that is a dot

  /** The receivers before the dot, the dot, and the line after it: the text never comes to its title, because the
      receivers end at the line after the dot or not at all. */
  lemma DotReceiverFactory(sender: string, before: seq<string>, line: string)
    requires OneLine(sender) && ReceiverLines(before) && OneLine(line)
    ensures NewInstance(["SEND", sender] + before + [".", line]) == NeverReturns
  {
    hide JoinLines, ReadReceivers, ReadBody, ReadTail, GetLine, Find;
    var receivers := before + ["."];
    var chunks := ["SEND", sender] + before + [".", line];
    assert JoinLines(chunks) + "" == JoinLines(chunks);
    assert chunks[1..][1..] == receivers + [line];
    GetLineCons(chunks, "", "");
    GetLineCons(chunks[1..], "", "SEND");
    assert ReceiverLines(receivers);
    if line == EOT {
      assert receivers + [line] == receivers + [EOT] + [];
      ReadReceiversBack(receivers, [], "", sender, []);
      assert JoinLines([]) + "" == "" by { NoLines(""); }
      NothingLeft();
    } else {
      assert JoinLines(receivers + [line]) + "" == JoinLines(receivers + [line]);
      ReadReceiversNever(receivers + [line], sender, []);
    }
  }

  lemma NothingLeft()
    ensures ReadBody(GetLine(LineSource("", false, EOT)), "") == None
  {
    assert GetLine(LineSource("", false, EOT)) == LineSource("", true, "");
  }

  /** The place of the first receiver that ends the text. */
  predicate FirstDotAt(receivers: seq<string>, i: nat) {
    2 <= i < |receivers| && receivers[i] == "." && forall j :: 2 <= j < i ==> receivers[j] != "."
  }

  /** The printed form begins with the lines up to EOT. */
  lemma PrintedStart(m: SendMessage, rest: string) returns (tail: string)
    ensures DeflateSend(m) + rest == JoinLines(["SEND", m.sender] + (m.receivers + [EOT])) + tail
  {
    hide JoinLines, RawTexts, PrintInt, Raws;
    var start := "SEND\n" + m.sender + "\n" + JoinLines(m.receivers) + EOT + "\n";
    var number, texts := PrintInt(|m.attachments|), RawTexts(Raws(m.attachments));
    tail := m.title + "\n" + m.body + ".\n" + number + "\n" + texts + rest;
    PrintedRegroup(start, m.title, m.body, number, texts, rest);
    JoinTwo("SEND", m.sender);
    JoinLinesConcat(["SEND", m.sender], m.receivers + [EOT]);
    JoinLinesSnoc(m.receivers, EOT);
    assert "SEND" + "\n" + m.sender + "\n" + (JoinLines(m.receivers) + EOT + "\n") == start;
  }

  lemma PrintedRegroup(a: string, b: string, c: string, d: string, e: string, f: string)
    ensures a + b + "\n" + c + ".\n" + d + "\n" + e + f == a + (b + "\n" + c + ".\n" + d + "\n" + e + f)
  {
  }

  lemma CutAtDot(sender: string, receivers: seq<string>, i: nat)
    requires i < |receivers| && receivers[i] == "."
    ensures var all := receivers + [EOT];
      ["SEND", sender] + all == ["SEND"] + ([sender] + receivers[..i]) + ["."] + [all[i + 1]] + all[i + 2..]
  {
    var all := receivers + [EOT];
    assert all == receivers[..i] + (["."] + ([all[i + 1]] + all[i + 2..]));
  }

  /** SEND with a dot as third or later receiver. When the line after that dot, the next receiver or EOT, is no
      number, the connection hangs in `inflate`, whatever the rest of the message is and whatever follows. */
  lemma DotReceiverLost(p: ParserState, m: SendMessage, i: nat, rest: string, limit: nat)
    requires limit >= 16 && Ready(p)
    requires WireLine(m.sender, limit) && WireLines(m.receivers, limit) && EOT !in m.receivers
    requires FirstDotAt(m.receivers, i) && i < INT_MAX - 8 && ParseInt32((m.receivers + [EOT])[i + 1]).None?
    ensures var served := Serve(p, DeflateSend(m) + rest, limit);
      served.steps == [] && served.stop == Hung
  {
    hide Serve, JoinLines, DeflateSend, WireLine, ParseInt, NewInstance;
    var all := m.receivers + [EOT];
    var line := all[i + 1];
    var text := [m.sender] + m.receivers[..i];
    DotReceiverLines(m.sender, m.receivers, i, limit);
    var tail := PrintedStart(m, rest);
    CutAtDot(m.sender, m.receivers, i);
    EarlyDotOutcome(p, text, line, all[i + 2..], tail, limit);
    DotReceiverFactory(m.sender, m.receivers[..i], line);
    assert ["SEND"] + text + [".", line] == ["SEND", m.sender] + m.receivers[..i] + [".", line];
  }

  lemma DotReceiverLines(sender: string, receivers: seq<string>, i: nat, limit: nat)
    requires limit >= 16 && WireLine(sender, limit) && WireLines(receivers, limit) && EOT !in receivers
    requires FirstDotAt(receivers, i)
    ensures var text := [sender] + receivers[..i];
      WireLines(text, limit) && NoDotFrom(text, 3)
    ensures WireLine((receivers + [EOT])[i + 1], limit)
    ensures OneLine(sender) && OneLine((receivers + [EOT])[i + 1]) && ReceiverLines(receivers[..i])
  {
  }

  // ---------------------------------------------------------------- an early dot that does no harm

  /** The dot condition is not necessary for delivery: the body of this message happens to look like an
      attachment section that covers the rest of the request. */
  const LUCKY := SendMessage("a", ["b"], ".", "1\nf\n4\n", [])
  const MISREAD := Attachment("f", ".\n0\n")

  lemma Numerals()
    ensures PrintInt(0) == "0" && PrintInt(1) == "1" && PrintInt(4) == "4"
  {
  }

  lemma LuckyText()
    ensures DeflateSend(LUCKY) == "SEND\na\nb\n" + EOT + "\n.\n1\nf\n4\n.\n0\n"
  {
    Numerals();
    JoinLinesOne("b");
    assert Raws([]) == [];
  }

  lemma LuckyOpening()
    ensures JoinLines(["SEND"] + ["a", "b", EOT]) == "SEND\na\nb\n" + EOT + "\n"
  {
    hide JoinLines;
    JoinTwo("SEND", "a");
    JoinTwo("b", EOT);
    JoinLinesConcat(["SEND", "a"], ["b", EOT]);
    assert ["SEND"] + ["a", "b", EOT] == ["SEND", "a"] + ["b", EOT];
  }

  lemma LuckyTail()
    ensures TailText(PrintInt(1), Raws([MISREAD])) == "1\nf\n4\n.\n0\n"
  {
    Numerals();
    hide PrintInt;
    assert Raws([MISREAD]) == [RawAttachment("f", "4", ".\n0\n")];
    RawTextsOne(Raw(MISREAD));
  }

  lemma LuckyPieces()
    ensures JoinLines(["SEND"] + ["a", "b", EOT]) + ("." + "\n" + TailText(PrintInt(1), Raws([MISREAD])))
         == DeflateSend(LUCKY)
  {
    hide JoinLines, TailText, PrintInt, Raws, DeflateSend;
    LuckyText();
    LuckyOpening();
    LuckyTail();
    assert "." + "\n" + "1\nf\n4\n.\n0\n" == ".\n1\nf\n4\n.\n0\n";
  }

  lemma LuckySection(limit: nat)
    requires limit >= 16
    ensures WireAttachments([MISREAD], limit)
    ensures Newlined(AllChopped([MISREAD], limit)) == Raws([MISREAD])
  {
    hide PrintInt;
    assert WireAttachment(MISREAD, limit);
    assert MISREAD.data[..3] + "\n" == MISREAD.data;
  }

  lemma LuckyChunks(limit: nat)
    requires limit >= 16
    ensures WireAttachments([MISREAD], limit)
    ensures JoinLines(["SEND"] + ["a", "b", EOT] + ["."] + [PrintInt(1)]
                      + AttachmentChunks(AllChopped([MISREAD], limit)))
         == DeflateSend(LUCKY)
  {
    hide PrintInt, JoinLines, TailText, Raws, DeflateSend, AllChopped, AttachmentChunks, Newlined, WireAttachments;
    LuckySection(limit);
    LuckyPieces();
    var head := ["SEND"] + ["a", "b", EOT];
    var tail := TailText(PrintInt(1), Raws([MISREAD]));
    JoinSection(head + ["."], PrintInt(1), AllChopped([MISREAD], limit));
    JoinLinesSnoc(head, ".");
    DotRegroup(JoinLines(head), tail);
  }

  lemma DotRegroup(a: string, b: string)
    ensures a + "." + "\n" + b == a + ("." + "\n" + b)
  {
  }

  lemma LuckyBody()
    ensures BodyText(LUCKY.body)
  {
    hide JoinLines, SplitLines;
    JoinThree("1", "f", "4");
    JoinThenSplit(["1", "f", "4"]);
    assert JoinLines(["1", "f", "4"]) == LUCKY.body;
  }

  lemma LuckyStorable()
    ensures Storable(LUCKY) && NormaliseSend(LUCKY) == LUCKY
  {
    LuckyBody();
    hide BodyText;
    assert NormaliseAttachments([]) == [];
  }

  lemma LuckyCompletes(p: ParserState, rest: string, limit: nat) returns (r: ParserState)
    requires limit >= 16 && Ready(p)
    ensures Completes(p, DeflateSend(LUCKY) + rest, r, rest, limit)
    ensures r.phase == NewRequest && r == ParserState(NewRequest, TSend, 0, 0, r.chunks)
    ensures r.chunks != [] && r.chunks[0] == "SEND" && JoinLines(r.chunks) == DeflateSend(LUCKY)
  {
    var text := ["a", "b", EOT];
    var tail := TailText(PrintInt(1), Raws([MISREAD]));
    var q := ParserState(AwaitingAttachments, TSend, -1, 0, ["SEND"] + text + ["."]);
    assert p.chunks + (["SEND"] + text) == ["SEND"] + text;
    DotDigests(["SEND"] + text);
    DotLine(limit);
    LuckyChunks(limit);
    LuckyPieces();
    LuckyWire(limit);
    hide Completes, Digest, DeflateSend, TailText, Raws, PrintInt, JoinLines, AllChopped, AttachmentChunks, WireLine,
      WireLines, WireAttachments, NoDotFrom;
    r := ParserState(NewRequest, TSend, 0, 0,
                     q.chunks + [PrintInt(1)] + AttachmentChunks(AllChopped([MISREAD], limit)));
    SectionCompletes(q, [MISREAD], rest, limit);
    CompletesLine(ParserState(Parsing, TSend, 0, 0, ["SEND"] + text), ".", tail + rest, r, rest, limit);
    KeywordAndTextComplete(p, text, "." + "\n" + (tail + rest), r, rest, limit);
    LuckyRegroup(JoinLines(["SEND"] + text), "." + "\n", tail, rest);
  }

  lemma LuckyWire(limit: nat)
    requires limit >= 16
    ensures WireLines(["a", "b", EOT], limit) && NoDotFrom(["a", "b", EOT], 3)
  {
  }

  lemma DotDigests(chunks: seq<string>)
    ensures Digest(ParserState(Parsing, TSend, 0, 0, chunks), ".")
         == (ParserState(AwaitingAttachments, TSend, -1, 0, chunks + ["."]), Nothing)
  {
  }

  /** It is delivered unchanged and consumed exactly, although its title is the dot. */
  lemma LuckyDelivered(p: ParserState, rest: string, limit: nat)
    requires limit >= 16 && Ready(p)
    ensures !NoEarlyDot(LUCKY.receivers, LUCKY.title)
    ensures Serve(p, DeflateSend(LUCKY) + rest, limit)
         == Serve(ParserState(NewRequest, TSend, 0, 0, []), rest, limit).Prepend(Dispatched(Send(LUCKY)))
  {
    LuckyStorable();
    var r := LuckyCompletes(p, rest, limit);
    hide Serve, Completes, DeflateSend, JoinLines, NormaliseSend, NewInstance;
    ServeCompletes(p, DeflateSend(LUCKY) + rest, r, rest, limit);
    LuckyFactory(r);
  }

  lemma LuckyRegroup(a: string, b: string, c: string, d: string)
    ensures a + (b + c) + d == a + (b + (c + d))
  {
  }

  lemma LuckyFactory(r: ParserState)
    requires r.chunks != [] && r.chunks[0] == "SEND" && JoinLines(r.chunks) == DeflateSend(LUCKY)
    ensures NewInstance(r.chunks) == Ok(Send(NormaliseSend(LUCKY)))
  {
    hide InflateSend, DeflateSend, JoinLines, Storable, NormaliseSend;
    LuckyStorable();
    InflateDeflateSend(LUCKY, "");
    assert DeflateSend(LUCKY) + "" == DeflateSend(LUCKY);
  }

  /** READ brings it back as well. */
  lemma LuckyWhole(limit: nat)
    requires limit >= 16
    ensures !Plain(LUCKY) && Whole(LUCKY, limit)
  {
    var r := LuckyCompletes(START, "", limit);
    hide Completes, DeflateSend, JoinLines, NormaliseSend, NewInstance, Whole;
    assert DeflateSend(LUCKY) + "" == DeflateSend(LUCKY);
    LuckyFactory(r);
    CompletesWhole(LUCKY, r, limit);
  }
}
