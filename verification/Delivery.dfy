/** What arrives: the message a completed SEND delivers, and whole sequences of requests. */
module Delivery {
  import opened Text
  import opened Messages
  import opened Inflation
  import opened SendFormat
  import opened MessageParsing
  import opened Framing
  import opened Wire

  // ---------------------------------------------------------------- attachments after the wire

  /** The counted read drops the last byte of an attachment and the factory puts a newline in its place. */
  function NormaliseAttachment(a: Attachment): Attachment {
    if a.data == "" then a else a.(data := a.data[..|a.data| - 1] + "\n")
  }

  function NormaliseAttachments(attachments: seq<Attachment>): (r: seq<Attachment>)
    ensures |r| == |attachments|
    ensures forall i :: 0 <= i < |r| ==> r[i] == NormaliseAttachment(attachments[i])
  {
    seq(|attachments|, i requires 0 <= i < |attachments| => NormaliseAttachment(attachments[i]))
  }

  function NormaliseSend(m: SendMessage): SendMessage {
    m.(attachments := NormaliseAttachments(m.attachments))
  }

  function Normalise(m: Message): Message {
    if m.Send? then Send(NormaliseSend(m.mail)) else m
  }

  /** No carriage return just before the last byte. */
  predicate KeepsLength(a: Attachment) {
    |a.data| >= 2 ==> a.data[|a.data| - 2] != '\r'
  }

  predicate AllKeepLength(attachments: seq<Attachment>) {
    forall i :: 0 <= i < |attachments| ==> KeepsLength(attachments[i])
  }

  function Newlined(raws: seq<RawAttachment>): (r: seq<RawAttachment>)
    ensures |r| == |raws|
    ensures forall i :: 0 <= i < |r| ==> r[i] == raws[i].(data := raws[i].data + "\n")
  {
    seq(|raws|, i requires 0 <= i < |raws| => raws[i].(data := raws[i].data + "\n"))
  }

  lemma {:induction false} JoinAttachmentChunks(raws: seq<RawAttachment>)
    ensures JoinLines(AttachmentChunks(raws)) == RawTexts(Newlined(raws))
  {
    if raws != [] {
      var raw, others := raws[0], raws[1..];
      var three := [raw.name, raw.size, raw.data];
      JoinAttachmentChunks(others);
      JoinLinesConcat(three, AttachmentChunks(others));
      JoinThree(raw.name, raw.size, raw.data);
      assert Newlined(raws)[1..] == Newlined(others);
      Split(raw.name + "\n" + raw.size + "\n", raw.data, RawTexts(Newlined(others)));
    }
  }

  lemma Split(a: string, b: string, c: string)
    ensures a + b + "\n" + c == a + (b + "\n") + c
  {
  }

  /** Gluing the chunks of an attachment section together. */
  lemma JoinSection(head: seq<string>, count: string, raws: seq<RawAttachment>)
    ensures JoinLines(head + [count] + AttachmentChunks(raws)) == JoinLines(head) + TailText(count, Newlined(raws))
  {
    JoinLinesConcat(head + [count], AttachmentChunks(raws));
    JoinLinesSnoc(head, count);
    JoinAttachmentChunks(raws);
  }

  /** Any dispatched SEND whose data chunks have the announced lengths inflates to just what its chunks say:
      both parsers read the same count, names and sizes. */
  lemma SectionInflates(
      sender: string, receivers: seq<string>, title: string, lines: seq<string>,
      count: string, raws: seq<RawAttachment>)
    requires OneLine(sender) && OneLine(title) && AllOneLine(lines) && "." !in lines && ReceiverLines(receivers)
    requires OneLine(count) && ParseInt32(count) == Some(|raws|) && AllAligned(Newlined(raws))
    ensures NewInstance(HeadLines(sender, receivers, title, lines) + [count] + AttachmentChunks(raws))
         == Ok(Send(SendMessage(sender, receivers, title, JoinLines(lines), Parsed(Newlined(raws)))))
  {
    hide InflateSend, ReadTail, ParseInt, TailText;
    var head := HeadLines(sender, receivers, title, lines);
    JoinSection(head, count, raws);
    InflateHead(sender, receivers, title, lines, TailText(count, Newlined(raws)));
    ReadTailBack(count, Newlined(raws), "", ".");
    assert TailText(count, Newlined(raws)) + "" == TailText(count, Newlined(raws));
    assert (head + [count] + AttachmentChunks(raws))[0] == "SEND";
  }

  /** And to nothing else but those chunks say when the lengths are wrong. */
  lemma SectionInflatesIff(
      sender: string, receivers: seq<string>, title: string, lines: seq<string>,
      count: string, raws: seq<RawAttachment>)
    requires OneLine(sender) && OneLine(title) && AllOneLine(lines) && "." !in lines && ReceiverLines(receivers)
    requires OneLine(count) && ParseInt32(count) == Some(|raws|) && Described(raws)
    ensures NewInstance(HeadLines(sender, receivers, title, lines) + [count] + AttachmentChunks(raws))
         == Ok(Send(SendMessage(sender, receivers, title, JoinLines(lines), Parsed(Newlined(raws)))))
       <==> AllAligned(Newlined(raws))
  {
    hide InflateSend, ReadTail, ParseInt, TailText, HeadLines, AllAligned;
    var head := HeadLines(sender, receivers, title, lines);
    var tail := TailText(count, Newlined(raws));
    var all := head + [count] + AttachmentChunks(raws);
    JoinSection(head, count, raws);
    InflateHead(sender, receivers, title, lines, tail);
    HeadKeyword(sender, receivers, title, lines);
    assert all[0] == "SEND";
    assert NewInstance(all) == Inflate(TSend, JoinLines(head) + tail);
    TailAlignedIff(count, raws);
  }

  lemma TailAlignedIff(count: string, raws: seq<RawAttachment>)
    requires OneLine(count) && ParseInt32(count) == Some(|raws|) && Described(raws)
    ensures ReadTail(LineSource(TailText(count, Newlined(raws)), false, ".")) == Ok(Parsed(Newlined(raws)))
       <==> AllAligned(Newlined(raws))
  {
    hide ParseInt, ReadAttachments, RawTexts;
    var texts := RawTexts(Newlined(raws));
    GetLineStep(count, texts, ".");
    assert texts + "" == texts;
    assert [] + Parsed(Newlined(raws)) == Parsed(Newlined(raws));
    if AllAligned(Newlined(raws)) {
      ReadAttachmentsBack(Newlined(raws), "", count, []);
    } else if ReadTail(LineSource(TailText(count, Newlined(raws)), false, ".")) == Ok(Parsed(Newlined(raws))) {
      ReadBackAligned(Newlined(raws), "", count, []);
    }
  }

  // ---------------------------------------------------------------- delivery of SEND, exactly when

  lemma ChoppedAligned(attachments: seq<Attachment>, limit: nat)
    requires limit >= 16 && WireAttachments(attachments, limit) && AllKeepLength(attachments)
    ensures var raws := Newlined(AllChopped(attachments, limit));
      AllAligned(raws) && Parsed(raws) == NormaliseAttachments(attachments)
  {
    var raws := Newlined(AllChopped(attachments, limit));
    forall i | 0 <= i < |attachments|
      ensures Aligned(raws[i]) && raws[i].name == attachments[i].filename
      ensures raws[i].data == NormaliseAttachment(attachments[i]).data
    {
      var a := attachments[i];
      assert WireAttachment(a, limit) && KeepsLength(a);
      NumberLine(|a.data|, limit);
      assert StripCR(a.data[..|a.data| - 1]) == a.data[..|a.data| - 1];
    }
  }

  /** An attachment cut one byte short is read with a newline where its carriage return was. */
  lemma ShortAttachment(a: Attachment, tail: string, previous: string, limit: nat)
    requires limit >= 16 && WireAttachment(a, limit) && !KeepsLength(a)
    ensures var raw := Chopped(a).(data := Chopped(a).data + "\n");
      var r := ReadAttachment(LineSource(RawText(raw) + tail, false, previous));
      r.Ok? ==> r.value.1 != NormaliseAttachment(a)
  {
    var n := |a.data|;
    var raw := Chopped(a).(data := Chopped(a).data + "\n");
    NumberLine(n, limit);
    WireOneLine(a.filename, limit);
    WireOneLine(PrintInt(n), limit);
    hide WireLine, PrintInt, ParseInt, ReadAttachment, RawText;
    assert Chopped(a).data == a.data[..n - 2];
    var t1 := raw.data + tail;
    ReadAttachmentLines(raw, tail, previous);
    if n <= |t1| {
      assert t1[..n][n - 2] == '\n';
      assert NormaliseAttachment(a).data[n - 2] == '\r';
    }
  }

  lemma ChoppedCons(attachments: seq<Attachment>, limit: nat)
    requires attachments != [] && WireAttachments(attachments, limit)
    ensures WireAttachment(attachments[0], limit) && attachments[0].data != ""
    ensures Newlined(AllChopped(attachments, limit))
         == [Chopped(attachments[0]).(data := Chopped(attachments[0]).data + "\n")]
            + Newlined(AllChopped(attachments[1..], limit))
  {
    hide WireLine, Chopped;
    assert WireAttachment(attachments[0], limit);
    var first := Chopped(attachments[0]);
    var others := AllChopped(attachments[1..], limit);
    assert AllChopped(attachments, limit) == [first] + others;
    hide AllChopped;
    assert Newlined([first] + others) == [first.(data := first.data + "\n")] + Newlined(others);
  }

  lemma NormaliseCons(attachments: seq<Attachment>)
    requires attachments != []
    ensures NormaliseAttachments(attachments)
         == [NormaliseAttachment(attachments[0])] + NormaliseAttachments(attachments[1..])
  {
    hide NormaliseAttachment;
  }

  /** If the first attachment is misread, the list cannot come out right. */
  lemma MisreadFirst(s: LineSource, count: nat, acc: seq<Attachment>, good: Attachment, others: seq<Attachment>)
    requires count > 0
    requires ReadAttachment(s).Ok? ==> ReadAttachment(s).value.1 != good
    ensures ReadAttachments(s, count, acc) != Ok(acc + ([good] + others))
  {
    hide ReadAttachment;
    match ReadAttachment(s) {
      case Ok((next, b)) =>
        ReadAttachmentsKeeps(next, count - 1, acc + [b]);
        assert (acc + [b])[|acc|] != (acc + ([good] + others))[|acc|];
      case _ =>
    }
  }

  lemma ShortLater(attachments: seq<Attachment>, limit: nat)
    requires WireAttachments(attachments, limit) && !AllKeepLength(attachments)
    ensures attachments != [] && WireAttachments(attachments[1..], limit)
    ensures KeepsLength(attachments[0]) ==> !AllKeepLength(attachments[1..])
  {
    hide WireAttachment, KeepsLength;
    var i :| 0 <= i < |attachments| && !KeepsLength(attachments[i]);
    assert i > 0 ==> attachments[1..][i - 1] == attachments[i];
  }

  lemma {:induction false} MisreadAttachments(
      attachments: seq<Attachment>, previous: string, acc: seq<Attachment>, limit: nat)
    requires limit >= 16 && WireAttachments(attachments, limit) && !AllKeepLength(attachments)
    ensures ReadAttachments(LineSource(RawTexts(Newlined(AllChopped(attachments, limit))), false, previous),
                            |attachments|, acc)
         != Ok(acc + NormaliseAttachments(attachments))
    decreases |attachments|
  {
    hide ReadAttachment, ReadAttachments, RawTexts, RawText, WireLine, Chopped, NormaliseAttachment, KeepsLength,
      NormaliseAttachments, Newlined, AllChopped, WireAttachment, WireAttachments, AllKeepLength, Aligned;
    ShortLater(attachments, limit);
    var a, others := attachments[0], attachments[1..];
    ChoppedCons(attachments, limit);
    NormaliseCons(attachments);
    var raw := Chopped(a).(data := Chopped(a).data + "\n");
    var rest := RawTexts(Newlined(AllChopped(others, limit)));
    RawTextsCons(raw, Newlined(AllChopped(others, limit)));
    var good := NormaliseAttachment(a);
    if KeepsLength(a) {
      KeptAttachment(a, limit);
      ReadAttachmentBack(raw, rest, previous);
      ReadStep(LineSource(RawText(raw) + rest, false, previous), |attachments|, LineSource(rest, false, raw.size), good,
               acc);
      MisreadAttachments(others, raw.size, acc + [good], limit);
      Prepended(acc, good, NormaliseAttachments(others));
    } else {
      ShortAttachment(a, rest, previous, limit);
      MisreadFirst(LineSource(RawText(raw) + rest, false, previous), |attachments|, acc, good,
                   NormaliseAttachments(others));
    }
  }

  lemma KeptAttachment(a: Attachment, limit: nat)
    requires limit >= 16 && WireAttachment(a, limit) && KeepsLength(a)
    ensures var raw := Chopped(a).(data := Chopped(a).data + "\n");
      Aligned(raw) && Attachment(raw.name, raw.data) == NormaliseAttachment(a)
  {
    ChoppedAligned([a], limit);
    assert Newlined(AllChopped([a], limit))[0] == Chopped(a).(data := Chopped(a).data + "\n");
    assert AllChopped([a], limit)[0] == Chopped(a);
  }

  /** The outcome of the factory on the chunks of a SEND request: the message with the last byte of every
      attachment turned into a newline, for exactly the messages without '\r' just before that byte. */
  lemma SendFactoryIff(m: SendMessage, limit: nat)
    requires limit >= 16 && WireSend(m, limit)
    ensures NewInstance(SendChunks(m, limit)) == Ok(Send(NormaliseSend(m))) <==> AllKeepLength(m.attachments)
  {
    hide InflateSend, ReadAttachments, TailText, HeadLines, WireAttachments, PrintInt, ParseInt;
    var lines := SplitLines(m.body);
    var count := PrintInt(|m.attachments|);
    var chopped := AllChopped(m.attachments, limit);
    var head := HeadLines(m.sender, m.receivers, m.title, lines);
    SplitThenJoin(m.body);
    WireSendLines(m, limit);
    NumberLine(|m.attachments|, limit);
    if AllKeepLength(m.attachments) {
      ChoppedAligned(m.attachments, limit);
      SectionInflates(m.sender, m.receivers, m.title, lines, count, chopped);
    } else {
      JoinSection(head, count, chopped);
      InflateHead(m.sender, m.receivers, m.title, lines, TailText(count, Newlined(chopped)));
      SectionMisread(m, limit);
      HeadKeyword(m.sender, m.receivers, m.title, lines);
    }
  }

  lemma HeadKeyword(sender: string, receivers: seq<string>, title: string, lines: seq<string>)
    ensures HeadLines(sender, receivers, title, lines) != []
    ensures HeadLines(sender, receivers, title, lines)[0] == "SEND"
  {
  }

  lemma WireSendLines(m: SendMessage, limit: nat)
    requires WireSend(m, limit)
    ensures OneLine(m.sender) && OneLine(m.title) && ReceiverLines(m.receivers)
    ensures AllOneLine(SplitLines(m.body)) && "." !in SplitLines(m.body)
  {
    forall i | 0 <= i < |m.receivers| ensures ReceiverLine(m.receivers[i]) {
      assert WireLine(m.receivers[i], limit);
    }
  }

  lemma SectionMisread(m: SendMessage, limit: nat)
    requires limit >= 16 && WireSend(m, limit) && !AllKeepLength(m.attachments)
    ensures var raws := Newlined(AllChopped(m.attachments, limit));
      ReadTail(LineSource(TailText(PrintInt(|m.attachments|), raws), false, "."))
         != Ok(NormaliseAttachments(m.attachments))
  {
    hide PrintInt, ParseInt, WireLine, ReadAttachments;
    var n := |m.attachments|;
    var count := PrintInt(n);
    var rest := RawTexts(Newlined(AllChopped(m.attachments, limit)));
    NumberLine(n, limit);
    WireOneLine(count, limit);
    GetLineStep(count, rest, ".");
    MisreadAttachments(m.attachments, count, [], limit);
    assert [] + NormaliseAttachments(m.attachments) == NormaliseAttachments(m.attachments);
  }

  lemma WireOneLine(line: string, limit: nat)
    requires WireLine(line, limit)
    ensures OneLine(line)
  {
  }

  // ---------------------------------------------------------------- every kind of request

  /** A parser between two requests. */
  predicate Ready(p: ParserState) {
    p.phase == NewRequest && p.awaiting == 0 && p.chunks == []
  }

  /** A request every line of which survives the framing. */
  predicate WireRequest(m: Message, limit: nat) {
    match m
    case Send(mail) => WireSend(mail, limit)
    case List(username) => WireLine(username, limit)
    case Read(username, number) => WireLine(username, limit) && INT_MIN <= number <= INT_MAX
    case Del(username, number) => WireLine(username, limit) && INT_MIN <= number <= INT_MAX
    case Quit => true
    case Login(username, password) => WireLine(username, limit) && WireLine(password, limit)
  }

  predicate WireMessage(m: Message, limit: nat) {
    WireRequest(m, limit) && (m.Send? ==> AllKeepLength(m.mail.attachments))
  }

  function RequestChunks(m: Message, limit: nat): seq<string>
    requires WireRequest(m, limit)
  {
    if m.Send? then SendChunks(m.mail, limit) else FixedLines(m)
  }

  /** The parser on the last chunk of a request, when the factory is called. */
  function Requested(p: ParserState, m: Message, limit: nat): ParserState
    requires WireRequest(m, limit)
  {
    ParserState(NewRequest, m.Type(), if m.Quit? then p.total else 0, 0, p.chunks + RequestChunks(m, limit))
  }

  lemma KeywordLines(limit: nat)
    requires limit >= 16
    ensures WireLine("LIST", limit) && WireLine("READ", limit) && WireLine("DEL", limit)
    ensures WireLine("QUIT", limit) && WireLine("LOGIN", limit)
  {
  }

  lemma TenDigits(n: nat)
    requires n <= -INT_MIN
    ensures |PrintNat(n)| <= 10
  {
    hide PrintNat;
    assert Pow10(10) == 10000000000 by { assert Pow10(5) == 100000; }
    DigitCount(n, 10);
  }

  lemma IntLine(n: int, limit: nat)
    requires INT_MIN <= n <= INT_MAX && limit >= 16
    ensures WireLine(PrintInt(n), limit)
  {
    if n < 0 {
      hide PrintNat;
      PrintIntChars(n);
      TenDigits(-n);
    } else {
      NumberLine(n, limit);
    }
  }

  lemma FixedLinesWire(m: Message, limit: nat)
    requires limit >= 16 && !m.Send? && WireRequest(m, limit)
    ensures WireLines(FixedLines(m), limit)
  {
    hide WireLine, PrintInt;
    KeywordLines(limit);
    if m.Read? || m.Del? {
      IntLine(m.number, limit);
    }
  }

  /** The lines after the keyword of a fixed-size request. */
  lemma {:induction false} FixedTailCompletes(p: ParserState, lines: seq<string>, rest: string, limit: nat)
    requires limit >= 2 && p.phase == Parsing && FixedKind(p.kind) && p.awaiting == 0
    requires lines != [] && p.total == |lines| <= INT_MAX && WireLines(lines, limit)
    ensures Completes(p, JoinLines(lines) + rest,
                      ParserState(NewRequest, p.kind, 0, 0, p.chunks + lines), rest, limit)
    decreases |lines|
  {
    hide Completes, NextChunk, WireLine, Finish;
    var line, others := lines[0], lines[1..];
    var q := p.(total := p.total - 1, chunks := p.chunks + [line]);
    var r := ParserState(NewRequest, p.kind, 0, 0, p.chunks + lines);
    assert q.chunks + others == r.chunks;
    assert JoinLines(lines) + rest == line + "\n" + (JoinLines(others) + rest);
    if others == [] {
      assert r == q.(phase := NewRequest);
      assert Digest(p, line) == Finish(r);
      assert JoinLines(others) + rest == rest;
      CompletesLast(p, line, r, rest, limit);
    } else {
      assert Digest(p, line) == (q, Nothing);
      FixedTailCompletes(q, others, rest, limit);
      CompletesLine(p, line, JoinLines(others) + rest, r, rest, limit);
    }
  }

  lemma FixedCompletes(p: ParserState, m: Message, rest: string, limit: nat)
    requires limit >= 16 && p.phase == NewRequest && p.awaiting == 0
    requires !m.Send? && WireRequest(m, limit)
    ensures Completes(p, Deflate(m) + rest, Requested(p, m, limit), rest, limit)
  {
    hide Completes, NextChunk, WireLines, Finish, PrintInt, Deflate;
    var lines := FixedLines(m);
    DeflateFixed(m);
    FixedLinesWire(m, limit);
    KeywordLines(limit);
    var keyword, others := lines[0], lines[1..];
    assert JoinLines(lines) + rest == keyword + "\n" + (JoinLines(others) + rest);
    if m.Quit? {
      var r := Requested(p, m, limit);
      assert Digest(p, keyword) == Finish(r);
      assert JoinLines(others) + rest == rest;
      CompletesLast(p, keyword, r, rest, limit);
    } else {
      var q := ParserState(Parsing, m.Type(), |others|, 0, p.chunks + [keyword]);
      assert Digest(p, keyword) == (q, Nothing);
      WireTailLines(lines, limit);
      FixedTailCompletes(q, others, rest, limit);
      assert q.chunks + others == p.chunks + lines;
      CompletesLine(p, keyword, JoinLines(others) + rest, Requested(p, m, limit), rest, limit);
    }
  }

  lemma RequestCompletes(p: ParserState, m: Message, rest: string, limit: nat)
    requires limit >= 16 && p.phase == NewRequest && p.awaiting == 0 && WireRequest(m, limit)
    ensures Completes(p, Deflate(m) + rest, Requested(p, m, limit), rest, limit)
  {
    hide Completes, SendChunks, DeflateSend, FixedLines;
    if m.Send? {
      SendCompletes(p, m.mail, rest, limit);
    } else {
      FixedCompletes(p, m, rest, limit);
    }
  }

  lemma RequestFactory(m: Message, limit: nat)
    requires limit >= 16 && WireMessage(m, limit)
    ensures NewInstance(RequestChunks(m, limit)) == Ok(Normalise(m))
  {
    hide SendChunks, InflateFixed, PrintInt, WireLine;
    if m.Send? {
      SendFactoryIff(m.mail, limit);
    } else {
      assert Printable(m) by {
        RequestLines(m, limit);
      }
      InflateFixedBack(m, "");
      assert JoinLines(FixedLines(m)) + "" == JoinLines(FixedLines(m));
    }
  }

  lemma RequestLines(m: Message, limit: nat)
    requires !m.Send? && WireRequest(m, limit)
    ensures Printable(m)
  {
  }

  /** One request: whatever follows, its bytes are consumed exactly, its message is dispatched exactly once,
      and the parser is left between requests. */
  lemma RequestDelivered(p: ParserState, m: Message, rest: string, limit: nat)
    requires limit >= 16 && Ready(p) && WireMessage(m, limit)
    ensures var q := Requested(p, m, limit).(chunks := []);
      Ready(q) && Serve(p, Deflate(m) + rest, limit) == Serve(q, rest, limit).Prepend(Dispatched(Normalise(m)))
  {
    hide Serve, Deflate, RequestChunks, AfterRequest, NewInstance, Completes, Normalise, WireRequest;
    RequestCompletes(p, m, rest, limit);
    ServeCompletes(p, Deflate(m) + rest, Requested(p, m, limit), rest, limit);
    RequestFactory(m, limit);
    assert p.chunks + RequestChunks(m, limit) == RequestChunks(m, limit);
    FactoryDecides(Requested(p, m, limit), Normalise(m), rest, limit);
  }

  /** SEND is delivered with only the last byte of each attachment replaced, exactly when no attachment has a
      carriage return just before that byte. The request's bytes are consumed exactly in either case. */
  lemma SendDeliveredIff(p: ParserState, m: SendMessage, rest: string, limit: nat)
    requires limit >= 16 && Ready(p) && WireSend(m, limit)
    ensures Serve(p, DeflateSend(m) + rest, limit) == AfterRequest(Requested(p, Send(m), limit), rest, limit)
    ensures var q := Requested(p, Send(m), limit).(chunks := []);
      Serve(p, DeflateSend(m) + rest, limit) == Serve(q, rest, limit).Prepend(Dispatched(Send(NormaliseSend(m))))
      <==> AllKeepLength(m.attachments)
  {
    var r := Requested(p, Send(m), limit);
    assert r.chunks == SendChunks(m, limit) by { assert p.chunks + SendChunks(m, limit) == SendChunks(m, limit); }
    hide Serve, DeflateSend, SendChunks, AllKeepLength, AfterRequest, NewInstance, WireSend, NormaliseSend, Completes;
    SendCompletes(p, m, rest, limit);
    ServeCompletes(p, DeflateSend(m) + rest, r, rest, limit);
    SendFactoryIff(m, limit);
    FactoryDecides(r, Send(NormaliseSend(m)), rest, limit);
  }

  /** The step after a completed request is the message exactly when the factory builds it. */
  lemma FactoryDecides(r: ParserState, m: Message, rest: string, limit: nat)
    requires limit >= 2
    ensures AfterRequest(r, rest, limit) == Serve(r.(chunks := []), rest, limit).Prepend(Dispatched(m))
       <==> NewInstance(r.chunks) == Ok(m)
    ensures NewInstance(r.chunks) == BadConversion ==>
              AfterRequest(r, rest, limit) == Serve(r, rest, limit).Prepend(Refused)
  {
    hide Serve, NewInstance;
    var expected := Serve(r.(chunks := []), rest, limit).Prepend(Dispatched(m));
    assert expected.steps[0] == Dispatched(m);
    var served := AfterRequest(r, rest, limit);
    assert served.steps != [] ==> served.steps[0] == Finish(r).1;
  }

  /** Nothing at all changes on the way exactly when every attachment already ends in a newline. */
  lemma NormaliseIdentityIff(m: SendMessage)
    requires forall i :: 0 <= i < |m.attachments| ==> m.attachments[i].data != ""
    ensures NormaliseSend(m) == m <==>
            forall i :: 0 <= i < |m.attachments| ==> m.attachments[i].data[|m.attachments[i].data| - 1] == '\n'
  {
    var r := NormaliseAttachments(m.attachments);
    if forall i :: 0 <= i < |m.attachments| ==> m.attachments[i].data[|m.attachments[i].data| - 1] == '\n' {
      forall i | 0 <= i < |r| ensures r[i] == m.attachments[i] {
        var d := m.attachments[i].data;
        assert d == d[..|d| - 1] + [d[|d| - 1]];
      }
      assert r == m.attachments;
    } else {
      var i :| 0 <= i < |r| && m.attachments[i].data[|m.attachments[i].data| - 1] != '\n';
      assert r[i].data[|r[i].data| - 1] == '\n';
    }
  }

  // ---------------------------------------------------------------- sequences of requests

  function Encode(ms: seq<Message>): string {
    if ms == [] then "" else Deflate(ms[0]) + Encode(ms[1..])
  }

  function Deliveries(ms: seq<Message>): seq<Step> {
    if ms == [] then [] else [Dispatched(Normalise(ms[0]))] + Deliveries(ms[1..])
  }

  predicate WireMessages(ms: seq<Message>, limit: nat) {
    forall i :: 0 <= i < |ms| ==> WireMessage(ms[i], limit)
  }

  lemma WireFirst(ms: seq<Message>, limit: nat)
    requires ms != [] && WireMessages(ms, limit)
    ensures WireMessage(ms[0], limit) && WireRequest(ms[0], limit)
  {
  }

  /** Any list of requests: exactly those messages are dispatched, in order, and the parser is between
      requests after each of them. */
  lemma {:induction false} RequestsDelivered(p: ParserState, ms: seq<Message>, rest: string, limit: nat)
    returns (q: ParserState)
    requires limit >= 16 && Ready(p) && WireMessages(ms, limit)
    ensures Ready(q)
    ensures Serve(p, Encode(ms) + rest, limit)
         == Serve(q, rest, limit).(steps := Deliveries(ms) + Serve(q, rest, limit).steps)
    decreases |ms|
  {
    hide Serve, Deflate, Requested, WireMessage, WireRequest, Normalise, Ready;
    if ms == [] {
      q := p;
      assert Encode(ms) + rest == rest;
      assert Deliveries(ms) + Serve(q, rest, limit).steps == Serve(q, rest, limit).steps;
    } else {
      WireFirst(ms, limit);
      var t := Encode(ms[1..]) + rest;
      RequestDelivered(p, ms[0], t, limit);
      JoinedText(Deflate(ms[0]), Encode(ms[1..]), rest);
      q := RequestsDelivered(Requested(p, ms[0], limit).(chunks := []), ms[1..], rest, limit);
      var later := Serve(q, rest, limit).steps;
      StepsRegroup([Dispatched(Normalise(ms[0]))], Deliveries(ms[1..]), later);
    }
  }

  lemma StepsRegroup(a: seq<Step>, b: seq<Step>, c: seq<Step>)
    ensures a + b + c == a + (b + c)
  {
  }

  /** The same for a connection that is closed after the last request. */
  lemma SessionDelivered(ms: seq<Message>, limit: nat)
    requires limit >= 16 && WireMessages(ms, limit)
    ensures Serve(START, Encode(ms), limit).steps == Deliveries(ms)
    ensures Serve(START, Encode(ms), limit).stop == Closed && Ready(Serve(START, Encode(ms), limit).parser)
  {
    hide Digest, Encode;
    var q := RequestsDelivered(START, ms, "", limit);
    assert Encode(ms) + "" == Encode(ms);
    assert Serve(q, "", limit) == Served([], q, Closed);
    assert Deliveries(ms) + [] == Deliveries(ms);
  }

  // ---------------------------------------------------------------- a missing last newline

  lemma CompletesAtEnd(p: ParserState, line: string, r: ParserState, limit: nat)
    requires limit >= 2 && p.awaiting == 0 && WireLine(line, limit) && line != ""
    requires r.phase == NewRequest && Digest(p, line) == Finish(r)
    ensures Completes(p, line, r, "", limit)
  {
    FrameAtEnd(line, limit);
    hide Digest, NextChunk, Finish;
    FinishPhase(r);
  }

  lemma {:induction false} FixedTailAtEnd(p: ParserState, lines: seq<string>, limit: nat)
    requires limit >= 2 && p.phase == Parsing && FixedKind(p.kind) && p.awaiting == 0
    requires lines != [] && p.total == |lines| <= INT_MAX && WireLines(lines, limit) && lines[|lines| - 1] != ""
    ensures Completes(p, JoinLines(lines[..|lines| - 1]) + lines[|lines| - 1],
                      ParserState(NewRequest, p.kind, 0, 0, p.chunks + lines), "", limit)
    decreases |lines|
  {
    hide Completes, NextChunk, WireLine, Finish, JoinLines;
    var line, others := lines[0], lines[1..];
    var last := lines[|lines| - 1];
    var q := p.(total := p.total - 1, chunks := p.chunks + [line]);
    var r := ParserState(NewRequest, p.kind, 0, 0, p.chunks + lines);
    assert q.chunks + others == r.chunks;
    if others == [] {
      assert lines[..0] == [] && r == q.(phase := NewRequest);
      NoLines(last);
      CompletesAtEnd(p, line, r, limit);
    } else {
      FixedTailAtEnd(q, others, limit);
      assert lines[..|lines| - 1] == [line] + others[..|others| - 1];
      Prefixed(line, others[..|others| - 1], last);
      CompletesLine(p, line, JoinLines(others[..|others| - 1]) + last, r, "", limit);
    }
  }

  /** The last line of a request other than SEND needs no newline when the connection ends there, unless it is empty. */
  lemma UnterminatedDelivered(p: ParserState, m: Message, limit: nat)
    requires limit >= 16 && Ready(p) && !m.Send? && WireMessage(m, limit)
    requires FixedLines(m)[|FixedLines(m)| - 1] != ""
    ensures Serve(p, Deflate(m)[..|Deflate(m)| - 1], limit).steps == [Dispatched(m)]
  {
    hide Completes, NextChunk, Finish, PrintInt, Deflate, JoinLines, Serve, WireLine, WireLines, NewInstance;
    var lines := FixedLines(m);
    var last := lines[|lines| - 1];
    var r := Requested(p, m, limit);
    DeflateFixed(m);
    FixedLinesWire(m, limit);
    WithoutNewline(lines);
    var text := Deflate(m)[..|Deflate(m)| - 1];
    assert text == JoinLines(lines[..|lines| - 1]) + last;
    FixedAtEnd(p, m, limit);
    ServeCompletes(p, text, r, "", limit);
    RequestFactory(m, limit);
    assert p.chunks + RequestChunks(m, limit) == RequestChunks(m, limit);
    FactoryDecides(r, m, "", limit);
    NothingServed(r.(chunks := []), limit);
  }

  lemma WithoutNewline(lines: seq<string>)
    requires lines != []
    ensures var text := JoinLines(lines);
      text != "" && text[..|text| - 1] == JoinLines(lines[..|lines| - 1]) + lines[|lines| - 1]
  {
    hide JoinLines;
    var front, last := lines[..|lines| - 1], lines[|lines| - 1];
    assert lines == front + [last];
    JoinLinesSnoc(front, last);
  }

  lemma FixedAtEnd(p: ParserState, m: Message, limit: nat)
    requires limit >= 16 && Ready(p) && !m.Send? && WireMessage(m, limit)
    requires FixedLines(m)[|FixedLines(m)| - 1] != ""
    ensures var lines := FixedLines(m);
      Completes(p, JoinLines(lines[..|lines| - 1]) + lines[|lines| - 1], Requested(p, m, limit), "", limit)
  {
    hide Completes, NextChunk, WireLines, Finish, PrintInt, JoinLines;
    var lines := FixedLines(m);
    FixedLinesWire(m, limit);
    KeywordLines(limit);
    var keyword, others := lines[0], lines[1..];
    if m.Quit? {
      assert lines[..0] == [];
      NoLines(keyword);
      CompletesAtEnd(p, keyword, Requested(p, m, limit), limit);
    } else {
      var q := ParserState(Parsing, m.Type(), |others|, 0, p.chunks + [keyword]);
      assert Digest(p, keyword) == (q, Nothing);
      WireTailLines(lines, limit);
      FixedTailAtEnd(q, others, limit);
      assert q.chunks + others == p.chunks + lines;
      var front := others[..|others| - 1];
      assert lines[..|lines| - 1] == [keyword] + front;
      Prefixed(keyword, front, others[|others| - 1]);
      CompletesLine(p, keyword, JoinLines(front) + others[|others| - 1], Requested(p, m, limit), "", limit);
    }
  }

  // ---------------------------------------------------------------- stray lines

  /** Between requests, a chunk that is no keyword is ignored: nothing is kept of it. */
  lemma StrayChunkIgnored(p: ParserState, s: string, limit: nat)
    requires limit >= 2 && Ready(p) && NextChunk(0, limit, s).Chunk?
    requires GetMessageType(NextChunk(0, limit, s).data) == TInvalid
    ensures Ready(p.(kind := TInvalid))
    ensures Serve(p, s, limit) == Serve(p.(kind := TInvalid), NextChunk(0, limit, s).rest, limit)
  {
    hide NextChunk;
  }

  lemma StrayLineIgnored(p: ParserState, line: string, rest: string, limit: nat)
    requires limit >= 16 && Ready(p) && WireLine(line, limit) && GetMessageType(line) == TInvalid
    ensures Ready(p.(kind := TInvalid))
    ensures Serve(p, line + "\n" + rest, limit) == Serve(p.(kind := TInvalid), rest, limit)
  {
    FrameLine(line, rest, limit);
    hide NextChunk, Serve, GetMessageType;
    StrayChunkIgnored(p, line + "\n" + rest, limit);
  }

  /** What a client may send between the others: a request, or a line that is none. */
  datatype Item = Request(message: Message) | Stray(line: string)

  function EncodeItems(items: seq<Item>): string {
    if items == [] then ""
    else (if items[0].Request? then Deflate(items[0].message) else items[0].line + "\n") + EncodeItems(items[1..])
  }

  function ItemDeliveries(items: seq<Item>): seq<Step> {
    if items == [] then []
    else (if items[0].Request? then [Dispatched(Normalise(items[0].message))] else []) + ItemDeliveries(items[1..])
  }

  predicate WireItem(item: Item, limit: nat) {
    match item
    case Request(m) => WireMessage(m, limit)
    case Stray(line) => WireLine(line, limit) && GetMessageType(line) == TInvalid
  }

  lemma NoItems(rest: string, later: seq<Step>)
    ensures EncodeItems([]) + rest == rest && ItemDeliveries([]) + later == later
  {
  }

  /** Any requests with any stray lines before, between and after them: exactly the requests are dispatched, in
      order. */
  lemma {:induction false} StrayLinesIgnored(p: ParserState, items: seq<Item>, rest: string, limit: nat)
    returns (q: ParserState)
    requires limit >= 16 && Ready(p) && forall i :: 0 <= i < |items| ==> WireItem(items[i], limit)
    ensures Ready(q)
    ensures Serve(p, EncodeItems(items) + rest, limit)
         == Serve(q, rest, limit).(steps := ItemDeliveries(items) + Serve(q, rest, limit).steps)
    decreases |items|
  {
    hide Serve, Deflate, Requested, WireMessage, WireRequest, Normalise, Ready, GetMessageType, WireLine;
    if items == [] {
      q := p;
      NoItems(rest, Serve(q, rest, limit).steps);
    } else {
      assert WireItem(items[0], limit);
      var t := EncodeItems(items[1..]) + rest;
      match items[0] {
        case Request(m) =>
          JoinedText(Deflate(m), EncodeItems(items[1..]), rest);
          WireFirst([m], limit);
          RequestDelivered(p, m, t, limit);
          q := StrayLinesIgnored(Requested(p, m, limit).(chunks := []), items[1..], rest, limit);
          StepsRegroup([Dispatched(Normalise(m))], ItemDeliveries(items[1..]), Serve(q, rest, limit).steps);
        case Stray(line) =>
          JoinedText(line + "\n", EncodeItems(items[1..]), rest);
          StrayLineIgnored(p, line, t, limit);
          q := StrayLinesIgnored(p.(kind := TInvalid), items[1..], rest, limit);
          assert [] + ItemDeliveries(items[1..]) == ItemDeliveries(items[1..]);
      }
    }
  }

  /** "HELLO", and then a request. */
  lemma HelloExample(limit: nat)
    requires limit >= 16
    ensures Serve(START, "HELLO" + "\n" + Deflate(List("bob")), limit).steps == [Dispatched(List("bob"))]
  {
    HelloLine(limit);
    hide Serve, Deflate;
    StrayLineIgnored(START, "HELLO", Deflate(List("bob")), limit);
    var p := START.(kind := TInvalid);
    RequestDelivered(p, List("bob"), "", limit);
    assert Deflate(List("bob")) + "" == Deflate(List("bob"));
    NothingServed(Requested(p, List("bob"), limit).(chunks := []), limit);
  }

  lemma HelloLine(limit: nat)
    requires limit >= 16
    ensures WireLine("HELLO", limit) && GetMessageType("HELLO") == TInvalid && WireMessage(List("bob"), limit)
  {
  }

  lemma NothingServed(q: ParserState, limit: nat)
    requires limit >= 2 && q.awaiting == 0
    ensures Serve(q, "", limit) == Served([], q, Closed)
  {
  }
}
