/** What can be printed and read back: the storage round trip, in both directions. */
module SendFormat {
  import opened Text
  import opened Messages
  import opened Inflation

  // ---------------------------------------------------------------- which messages can be stored

  predicate ReceiverLine(s: string) {
    OneLine(s) && s != EOT
  }

  /** A body made of whole lines, none of them the terminating dot. */
  predicate BodyText(body: string) {
    Terminated(body) && "." !in SplitLines(body)
  }

  predicate StorableAttachment(a: Attachment) {
    OneLine(a.filename) && |a.data| <= INT_MAX
  }

  predicate ReceiverLines(receivers: seq<string>) {
    forall i :: 0 <= i < |receivers| ==> ReceiverLine(receivers[i])
  }

  predicate StorableAttachments(attachments: seq<Attachment>) {
    forall i :: 0 <= i < |attachments| ==> StorableAttachment(attachments[i])
  }

  predicate Storable(m: SendMessage) {
    && OneLine(m.sender)
    && ReceiverLines(m.receivers)
    && OneLine(m.title)
    && BodyText(m.body)
    && |m.attachments| <= INT_MAX
    && StorableAttachments(m.attachments)
  }

  /** The same for every kind of request. */
  predicate Printable(m: Message) {
    match m
    case Send(mail) => Storable(mail)
    case List(username) => OneLine(username)
    case Read(username, number) => OneLine(username) && INT_MIN <= number <= INT_MAX
    case Del(username, number) => OneLine(username) && INT_MIN <= number <= INT_MAX
    case Quit => true
    case Login(username, password) => OneLine(username) && OneLine(password)
  }

  // ---------------------------------------------------------------- inflate undoes deflate

  lemma GetLineStep(line: string, tail: string, previous: string)
    requires OneLine(line)
    ensures GetLine(LineSource(line + "\n" + tail, false, previous)) == LineSource(tail, false, line)
  {
    var s := line + "\n" + tail;
    assert s == line + ['\n'] + tail;
    FindFirst(line, '\n', tail);
    assert s[..|line|] == line;
    assert s[|line| + 1..] == tail;
  }

  /** A stream that starts with a list of lines hands out the first of them. */
  lemma GetLineCons(lines: seq<string>, tail: string, previous: string)
    requires lines != [] && OneLine(lines[0])
    ensures GetLine(LineSource(JoinLines(lines) + tail, false, previous))
         == LineSource(JoinLines(lines[1..]) + tail, false, lines[0])
  {
    GetLineStep(lines[0], JoinLines(lines[1..]) + tail, previous);
    assert JoinLines(lines) + tail == lines[0] + "\n" + (JoinLines(lines[1..]) + tail);
  }

  lemma {:induction false} ReadReceiversBack(
      receivers: seq<string>, more: seq<string>, tail: string, previous: string, acc: seq<string>)
    requires ReceiverLines(receivers)
    ensures ReadReceivers(LineSource(JoinLines(receivers + [EOT] + more) + tail, false, previous), acc)
         == Some((LineSource(JoinLines(more) + tail, false, EOT), acc + receivers))
    decreases |receivers|
  {
    hide GetLine, JoinLines;
    var all := receivers + [EOT] + more;
    if receivers == [] {
      assert all[0] == EOT && all[1..] == more;
      GetLineCons(all, tail, previous);
      assert acc + receivers == acc;
    } else {
      assert all[0] == receivers[0] && all[1..] == receivers[1..] + [EOT] + more;
      GetLineCons(all, tail, previous);
      ReadReceiversBack(receivers[1..], more, tail, receivers[0], acc + [receivers[0]]);
      assert acc + [receivers[0]] + receivers[1..] == acc + receivers;
    }
  }

  /** Without an EOT line the receivers never end. */
  lemma {:induction false} ReadReceiversNever(lines: seq<string>, previous: string, acc: seq<string>)
    requires AllOneLine(lines) && EOT !in lines
    ensures ReadReceivers(LineSource(JoinLines(lines), false, previous), acc) == None
    decreases |lines|
  {
    if lines != [] {
      assert JoinLines(lines) + "" == JoinLines(lines);
      assert JoinLines(lines[1..]) + "" == JoinLines(lines[1..]);
      GetLineCons(lines, "", previous);
      ReadReceiversNever(lines[1..], lines[0], acc + [lines[0]]);
    }
  }

  lemma {:induction false} ReadBodyBack(
      lines: seq<string>, more: seq<string>, tail: string, previous: string, acc: string)
    requires AllOneLine(lines) && "." !in lines
    ensures ReadBody(LineSource(JoinLines(lines + ["."] + more) + tail, false, previous), acc)
         == Some((LineSource(JoinLines(more) + tail, false, "."), acc + JoinLines(lines)))
    decreases |lines|
  {
    hide GetLine;
    var all := lines + ["."] + more;
    if lines == [] {
      assert all[0] == "." && all[1..] == more;
      GetLineCons(all, tail, previous);
      assert acc + JoinLines(lines) == acc;
    } else {
      assert all[0] == lines[0] && all[1..] == lines[1..] + ["."] + more;
      GetLineCons(all, tail, previous);
      ReadBodyBack(lines[1..], more, tail, lines[0], acc + lines[0] + "\n");
      assert acc + lines[0] + "\n" + JoinLines(lines[1..]) == acc + JoinLines(lines);
    }
  }

  /** An attachment whose written size is the number of bytes that follow. */
  predicate Aligned(raw: RawAttachment) {
    OneLine(raw.name) && OneLine(raw.size) && ParseInt32(raw.size) == Some(|raw.data|)
  }

  /** Names and sizes are lines and every size is a number, which need not be the length of the data. */
  predicate Described(raws: seq<RawAttachment>) {
    forall i :: 0 <= i < |raws| ==> OneLine(raws[i].name) && OneLine(raws[i].size) && ParseInt32(raws[i].size).Some?
  }

  predicate AllAligned(raws: seq<RawAttachment>) {
    forall i :: 0 <= i < |raws| ==> Aligned(raws[i])
  }

  function Parsed(raws: seq<RawAttachment>): (r: seq<Attachment>)
    ensures |r| == |raws|
  {
    seq(|raws|, i requires 0 <= i < |raws| => Attachment(raws[i].name, raws[i].data))
  }

  lemma ParsedCons(raws: seq<RawAttachment>)
    requires raws != []
    ensures Parsed(raws) == [Attachment(raws[0].name, raws[0].data)] + Parsed(raws[1..])
  {
  }

  /** What is read when name and size are lines. */
  function FromData(name: string, size: string, data: string): Outcome<(LineSource, Attachment)> {
    var n := ParseInt32(size);
    if n.None? then BadConversion
    else if n.value < 0 then BadLength
    else if |data| < n.value then BadConversion
    else Ok((LineSource(data[n.value..], false, size), Attachment(name, data[..n.value])))
  }

  lemma ReadAttachmentLines(raw: RawAttachment, tail: string, previous: string)
    requires OneLine(raw.name) && OneLine(raw.size)
    ensures ReadAttachment(LineSource(RawText(raw) + tail, false, previous))
         == FromData(raw.name, raw.size, raw.data + tail)
  {
    hide ParseInt, GetLine, OneLine;
    var t1 := raw.data + tail;
    var t2 := raw.size + "\n" + t1;
    Regrouped(raw.name + "\n", raw.size + "\n", raw.data, tail);
    assert RawText(raw) == raw.name + "\n" + (raw.size + "\n") + raw.data;
    GetLineStep(raw.name, t2, previous);
    GetLineStep(raw.size, t1, raw.name);
  }

  lemma Regrouped(a: string, b: string, c: string, d: string)
    ensures a + b + c + d == a + (b + (c + d))
  {
  }

  lemma ReadAttachmentBack(raw: RawAttachment, tail: string, previous: string)
    requires Aligned(raw)
    ensures ReadAttachment(LineSource(RawText(raw) + tail, false, previous))
         == Ok((LineSource(tail, false, raw.size), Attachment(raw.name, raw.data)))
  {
    hide ParseInt, ReadAttachment, RawText;
    ReadAttachmentLines(raw, tail, previous);
    var t1 := raw.data + tail;
    assert t1[..|raw.data|] == raw.data;
    assert t1[|raw.data|..] == tail;
  }

  lemma ReadStep(s: LineSource, count: nat, next: LineSource, x: Attachment, acc: seq<Attachment>)
    requires count > 0 && ReadAttachment(s) == Ok((next, x))
    ensures ReadAttachments(s, count, acc) == ReadAttachments(next, count - 1, acc + [x])
  {
  }

  lemma ReadNone(s: LineSource, acc: seq<Attachment>)
    ensures ReadAttachments(s, 0, acc) == Ok(acc)
  {
  }

  lemma Prepended(acc: seq<Attachment>, first: Attachment, others: seq<Attachment>)
    ensures acc + [first] + others == acc + ([first] + others)
  {
  }

  lemma ReadFails(s: LineSource, count: nat, acc: seq<Attachment>)
    requires count > 0 && ReadAttachment(s) == BadConversion
    ensures ReadAttachments(s, count, acc) == BadConversion
  {
  }

  /** Aligned attachments are read one by one, whatever is still to be read after them. */
  lemma {:induction false} ReadAttachmentsThen(
      raws: seq<RawAttachment>, tail: string, previous: string, more: nat, acc: seq<Attachment>)
    requires AllAligned(raws)
    ensures ReadAttachments(LineSource(RawTexts(raws) + tail, false, previous), |raws| + more, acc)
         == ReadAttachments(LineSource(tail, false, if raws == [] then previous else raws[|raws| - 1].size),
                            more, acc + Parsed(raws))
    decreases |raws|
  {
    hide ReadAttachment, ReadAttachments, RawText, Aligned;
    if raws == [] {
      assert acc + Parsed(raws) == acc;
      assert RawTexts(raws) + tail == tail;
    } else {
      var raw, others := raws[0], raws[1..];
      var first := Attachment(raw.name, raw.data);
      var rest := RawTexts(others) + tail;
      JoinedText(RawText(raw), RawTexts(others), tail);
      ReadAttachmentBack(raw, rest, previous);
      ReadStep(LineSource(RawText(raw) + rest, false, previous), |raws| + more,
               LineSource(rest, false, raw.size), first, acc);
      ReadAttachmentsThen(others, tail, raw.size, more, acc + [first]);
      ParsedCons(raws);
      Prepended(acc, first, Parsed(others));
    }
  }

  lemma ReadAttachmentsBack(raws: seq<RawAttachment>, tail: string, previous: string, acc: seq<Attachment>)
    requires AllAligned(raws)
    ensures ReadAttachments(LineSource(RawTexts(raws) + tail, false, previous), |raws|, acc) == Ok(acc + Parsed(raws))
  {
    hide ReadAttachment, RawTexts;
    ReadAttachmentsThen(raws, tail, previous, 0, acc);
  }

  /** Conversely, attachments that come out as they are written had the lengths their size lines say. */
  lemma {:induction false} ReadBackAligned(
      raws: seq<RawAttachment>, tail: string, previous: string, acc: seq<Attachment>)
    requires Described(raws)
    requires ReadAttachments(LineSource(RawTexts(raws) + tail, false, previous), |raws|, acc) == Ok(acc + Parsed(raws))
    ensures AllAligned(raws)
    decreases |raws|
  {
    hide ReadAttachment, RawText;
    if raws != [] {
      var raw, others := raws[0], raws[1..];
      var first := Attachment(raw.name, raw.data);
      var rest := RawTexts(others) + tail;
      JoinedText(RawText(raw), RawTexts(others), tail);
      ParsedCons(raws);
      var r := ReadAttachment(LineSource(RawText(raw) + rest, false, previous));
      ReadAttachmentsKeeps(r.value.0, |others|, acc + [r.value.1]);
      FirstOfMany(acc, r.value.1, first, Parsed(others));
      ReadAlignedFirst(raw, rest, previous);
      ReadAttachmentBack(raw, rest, previous);
      Prepended(acc, first, Parsed(others));
      ReadBackAligned(others, tail, raw.size, acc + [first]);
    }
  }

  lemma FirstOfMany(acc: seq<Attachment>, x: Attachment, first: Attachment, others: seq<Attachment>)
    requires acc + [x] <= acc + ([first] + others)
    ensures x == first
  {
    assert (acc + [x])[|acc|] == (acc + ([first] + others))[|acc|];
  }

  lemma ReadAlignedFirst(raw: RawAttachment, rest: string, previous: string)
    requires OneLine(raw.name) && OneLine(raw.size) && ParseInt32(raw.size).Some?
    requires var r := ReadAttachment(LineSource(RawText(raw) + rest, false, previous));
      r.Ok? && r.value.1 == Attachment(raw.name, raw.data)
    ensures Aligned(raw)
  {
    hide ParseInt, ReadAttachment, RawText;
    ReadAttachmentLines(raw, rest, previous);
  }

  lemma {:induction false} ReadAttachmentsKeeps(s: LineSource, count: nat, acc: seq<Attachment>)
    ensures var r := ReadAttachments(s, count, acc); r.Ok? ==> acc <= r.value
    decreases count
  {
    hide ReadAttachment;
    if count > 0 {
      match ReadAttachment(s) {
        case Ok((next, a)) => ReadAttachmentsKeeps(next, count - 1, acc + [a]);
        case _ =>
      }
    }
  }

  /** The lines of a SEND request, up to and including the dot after which the attachments follow. */
  function HeadLines(sender: string, receivers: seq<string>, title: string, lines: seq<string>): seq<string> {
    ["SEND", sender] + (receivers + [EOT] + ([title] + (lines + ["."])))
  }

  /** What `inflate` still has to do when it has read everything up to the title. */
  function InflateFromBody(sender: string, receivers: seq<string>, title: string, s: LineSource): Outcome<SendMessage> {
    var body := ReadBody(s, "");
    if body.None? then NeverReturns
    else
      match ReadTail(body.value.0)
      case Ok(attachments) => Ok(SendMessage(sender, receivers, title, body.value.1, attachments))
      case BadConversion => BadConversion
      case BadLength => BadLength
      case NeverReturns => NeverReturns
  }

  lemma InflateToTitle(sender: string, receivers: seq<string>, title: string, more: seq<string>, tail: string)
    requires OneLine(sender) && OneLine(title) && ReceiverLines(receivers)
    ensures InflateSend(JoinLines(["SEND", sender] + (receivers + [EOT] + ([title] + more))) + tail)
         == InflateFromBody(sender, receivers, title, LineSource(JoinLines(more) + tail, false, title))
  {
    hide ReadBody, ReadTail, ReadReceivers, ReceiverLine, GetLine, JoinLines, Find;
    var rest := [title] + more;
    var head := ["SEND", sender] + (receivers + [EOT] + rest);
    assert head[1..][1..] == receivers + [EOT] + rest;
    assert rest[1..] == more;
    GetLineCons(head, tail, "");
    GetLineCons(head[1..], tail, "SEND");
    ReadReceiversBack(receivers, rest, tail, sender, []);
    GetLineCons(rest, tail, EOT);
    assert [] + receivers == receivers;
  }

  /** The message the head spells out, with the attachments the rest yields. */
  function WithTail(sender: string, receivers: seq<string>, title: string, lines: seq<string>, tail: string)
    : Outcome<SendMessage>
  {
    match ReadTail(LineSource(tail, false, "."))
    case Ok(attachments) => Ok(SendMessage(sender, receivers, title, JoinLines(lines), attachments))
    case BadConversion => BadConversion
    case BadLength => BadLength
    case NeverReturns => NeverReturns
  }

  /** `inflate` ends the body of any such text at the dot of the head, and reads the attachments from there. */
  lemma InflateHead(sender: string, receivers: seq<string>, title: string, lines: seq<string>, tail: string)
    requires OneLine(sender) && OneLine(title) && AllOneLine(lines) && "." !in lines && ReceiverLines(receivers)
    ensures InflateSend(JoinLines(HeadLines(sender, receivers, title, lines)) + tail)
         == WithTail(sender, receivers, title, lines, tail)
  {
    hide InflateSend, ReadTail;
    InflateToTitle(sender, receivers, title, lines + ["."], tail);
    assert lines + ["."] + [] == lines + ["."];
    ReadBodyBack(lines, [], tail, title, "");
    assert "" + JoinLines(lines) == JoinLines(lines);
    assert JoinLines([]) + tail == tail;
  }

  /** The text of the attachment section. */
  function TailText(count: string, raws: seq<RawAttachment>): string {
    count + "\n" + RawTexts(raws)
  }

  lemma ReadTailBack(count: string, raws: seq<RawAttachment>, tail: string, previous: string)
    requires OneLine(count) && ParseInt32(count) == Some(|raws|) && AllAligned(raws)
    ensures ReadTail(LineSource(TailText(count, raws) + tail, false, previous)) == Ok(Parsed(raws))
  {
    hide RawTexts, ReadAttachments, ParseInt, AllAligned, OneLine, GetLine;
    JoinedText(count + "\n", RawTexts(raws), tail);
    GetLineStep(count, RawTexts(raws) + tail, previous);
    ReadAttachmentsBack(raws, tail, count, []);
    assert [] + Parsed(raws) == Parsed(raws);
  }

  lemma JoinHeadLines(sender: string, receivers: seq<string>, title: string, lines: seq<string>)
    ensures JoinLines(HeadLines(sender, receivers, title, lines))
         == "SEND\n" + sender + "\n" + JoinLines(receivers) + EOT + "\n" + title + "\n" + JoinLines(lines) + ".\n"
  {
    hide JoinLines;
    var body := lines + ["."];
    var rest := [title] + body;
    var all := receivers + [EOT] + rest;
    var start := ["SEND", sender];
    JoinLinesConcat(start, all);
    JoinTwo("SEND", sender);
    JoinLinesConcat(receivers + [EOT], rest);
    JoinLinesSnoc(receivers, EOT);
    JoinLinesConcat([title], body);
    JoinLinesOne(title);
    JoinLinesSnoc(lines, ".");
    Regrouped(JoinLines(start), JoinLines(receivers) + EOT + "\n", title + "\n", JoinLines(lines) + "." + "\n");
  }

  lemma DeflateSendHead(m: SendMessage)
    requires Terminated(m.body)
    ensures DeflateSend(m) == JoinLines(HeadLines(m.sender, m.receivers, m.title, SplitLines(m.body)))
                              + TailText(PrintInt(|m.attachments|), Raws(m.attachments))
  {
    hide JoinLines, HeadLines, PrintInt, Raws, RawTexts;
    SplitThenJoin(m.body);
    JoinHeadLines(m.sender, m.receivers, m.title, SplitLines(m.body));
    var tail := RawTexts(Raws(m.attachments));
    var head := JoinLines(HeadLines(m.sender, m.receivers, m.title, SplitLines(m.body)));
    assert head + PrintInt(|m.attachments|) + "\n" + tail == head + (PrintInt(|m.attachments|) + "\n" + tail);
  }

  /** Storage round trip: whatever follows the printed message (the NUL byte of a stored file, say), it is
      read back unchanged, attachments with newlines and dots included. */
  lemma InflateDeflateSend(m: SendMessage, tail: string)
    requires Storable(m)
    ensures InflateSend(DeflateSend(m) + tail) == Ok(m)
  {
    hide InflateSend, ReadTail, HeadLines, TailText, DeflateSend, PrintInt;
    var raws := Raws(m.attachments);
    var count := PrintInt(|m.attachments|);
    var lines := SplitLines(m.body);
    DeflateSendHead(m);
    SplitThenJoin(m.body);
    var head := JoinLines(HeadLines(m.sender, m.receivers, m.title, lines));
    assert DeflateSend(m) + tail == head + (TailText(count, raws) + tail);
    InflateHead(m.sender, m.receivers, m.title, lines, TailText(count, raws) + tail);
    PrintIntOneLine(|m.attachments|);
    ParsePrintInt(|m.attachments|, INT_MIN, INT_MAX);
    RawsAligned(m.attachments);
    ReadTailBack(count, raws, tail, ".");
    assert Parsed(raws) == m.attachments;
  }

  lemma RawsAligned(attachments: seq<Attachment>)
    requires StorableAttachments(attachments)
    ensures AllAligned(Raws(attachments))
  {
    forall i | 0 <= i < |attachments| ensures Aligned(Raws(attachments)[i]) {
      var a := attachments[i];
      assert StorableAttachment(a);
      PrintIntOneLine(|a.data|);
      ParsePrintInt(|a.data|, INT_MIN, INT_MAX);
    }
  }

  // ---------------------------------------------------------------- whatever inflates begins with its own lines

  /** A line read before the end of the stream stood there with its newline. */
  lemma GetLineExact(s: LineSource)
    requires !GetLine(s).eof
    ensures s.rest == GetLine(s).line + "\n" + GetLine(s).rest && OneLine(GetLine(s).line) && !s.eof
  {
  }

  lemma {:induction false} ReadReceiversExact(s: LineSource, acc: seq<string>) returns (read: seq<string>)
    requires ReadReceivers(s, acc).Some? && !ReadReceivers(s, acc).value.0.eof
    ensures var (n, receivers) := ReadReceivers(s, acc).value;
      && receivers == acc + read && n.line == EOT && s.rest == JoinLines(read + [EOT]) + n.rest
    decreases |s.rest|
  {
    hide GetLine, JoinLines;
    var n := GetLine(s);
    if n.line == EOT {
      read := [];
      GetLineExact(s);
      JoinLinesOne(EOT);
      assert acc + [] == acc && [] + [EOT] == [EOT];
    } else {
      var others := ReadReceiversExact(n, acc + [n.line]);
      read := [n.line] + others;
      GetLineExact(s);
      Prefixed(n.line, others + [EOT], ReadReceivers(s, acc).value.0.rest);
      assert read + [EOT] == [n.line] + (others + [EOT]);
      assert acc + [n.line] + others == acc + read;
    }
  }

  lemma Prefixed(line: string, lines: seq<string>, rest: string)
    ensures JoinLines([line] + lines) + rest == line + "\n" + (JoinLines(lines) + rest)
  {
    assert ([line] + lines)[1..] == lines;
  }

  lemma {:induction false} ReadBodyExact(s: LineSource, acc: string) returns (lines: seq<string>)
    requires ReadBody(s, acc).Some? && !ReadBody(s, acc).value.0.eof
    ensures AllOneLine(lines) && "." !in lines
    ensures var (n, body) := ReadBody(s, acc).value;
      && body == acc + JoinLines(lines) && n.line == "." && s.rest == JoinLines(lines + ["."]) + n.rest
    decreases |s.rest|
  {
    hide GetLine, JoinLines;
    var n := GetLine(s);
    if n.line == "." {
      lines := [];
      GetLineExact(s);
      JoinLinesOne(".");
      NothingJoined(acc);
      assert [] + ["."] == ["."];
    } else {
      var others := ReadBodyExact(n, acc + n.line + "\n");
      lines := [n.line] + others;
      GetLineExact(s);
      Prefixed(n.line, others + ["."], ReadBody(s, acc).value.0.rest);
      assert lines + ["."] == [n.line] + (others + ["."]);
      BodyLine(acc, n.line, others);
    }
  }

  lemma NothingJoined(acc: string)
    ensures acc + JoinLines([]) == acc
  {
  }

  lemma BodyLine(acc: string, line: string, others: seq<string>)
    ensures acc + JoinLines([line] + others) == acc + line + "\n" + JoinLines(others)
  {
    assert ([line] + others)[1..] == others;
  }

  /** Once the end of the stream has been seen, it stays seen, and no attachment section can be read. */
  lemma {:induction false} BodyEof(s: LineSource, acc: string)
    requires ReadBody(s, acc).Some?
    ensures ReadBody(s, acc).value.0.line == "." && (s.eof ==> ReadBody(s, acc).value.0.eof)
    decreases |s.rest|
  {
    var n := GetLine(s);
    if n.line != "." {
      BodyEof(n, acc + n.line + "\n");
    }
  }

  lemma ReceiversEof(s: LineSource, acc: seq<string>)
    requires s.eof && ReadReceivers(s, acc).Some?
    ensures ReadReceivers(s, acc).value.0.eof
  {
  }

  lemma TailEof(s: LineSource)
    requires ReadTail(s).Ok? && s.line == "."
    ensures !s.eof
  {
  }

  lemma HeadText(sender: string, receivers: seq<string>, title: string, lines: seq<string>, rest: string)
    ensures JoinLines(HeadLines(sender, receivers, title, lines)) + rest
         == "SEND" + "\n" + (sender + "\n" + (JoinLines(receivers + [EOT])
            + (title + "\n" + (JoinLines(lines + ["."]) + rest))))
  {
    hide JoinLines;
    var body := lines + ["."];
    var end := [title] + body;
    var all := receivers + [EOT] + end;
    assert HeadLines(sender, receivers, title, lines) == ["SEND"] + ([sender] + all);
    Prefixed("SEND", [sender] + all, rest);
    Prefixed(sender, all, rest);
    JoinLinesConcat(receivers + [EOT], end);
    JoinedText(JoinLines(receivers + [EOT]), JoinLines(end), rest);
    Prefixed(title, body, rest);
  }

  /** Data that inflate to a message begin with the lines of that message's head, and its attachments are read
      from there. */
  lemma InflateBegins(data: string)
    requires InflateSend(data).Ok?
    ensures var m := InflateSend(data).value;
      Terminated(m.body) &&
      var head := JoinLines(HeadLines(m.sender, m.receivers, m.title, SplitLines(m.body)));
      && head <= data && ReadTail(LineSource(data[|head|..], false, ".")) == Ok(m.attachments)
  {
    hide GetLine, ReadReceivers, ReadBody, ReadTail, JoinLines, HeadLines, SplitLines;
    var m := InflateSend(data).value;
    var l0 := GetLine(Open(data));
    var l1 := GetLine(l0);
    var rs := ReadReceivers(l1, []).value;
    var l3 := GetLine(rs.0);
    var b := ReadBody(l3, "").value;
    BodyEof(l3, "");
    TailEof(b.0);
    GetLineExact(rs.0);
    if l1.eof {
      ReceiversEof(l1, []);
    }
    GetLineExact(l0);
    GetLineExact(Open(data));
    var receivers := ReadReceiversExact(l1, []);
    var lines := ReadBodyExact(l3, "");
    assert [] + receivers == receivers && "" + JoinLines(lines) == JoinLines(lines);
    JoinThenSplit(lines);
    HeadText(m.sender, m.receivers, m.title, lines, b.0.rest);
    var head := JoinLines(HeadLines(m.sender, m.receivers, m.title, lines));
    assert data == head + b.0.rest;
    assert data[|head|..] == b.0.rest;
  }

  // ---------------------------------------------------------------- whatever inflates is storable

  lemma {:induction false} ReadReceiversYields(s: LineSource, acc: seq<string>)
    requires OneLine(s.line)
    requires ReceiverLines(acc)
    ensures var r := ReadReceivers(s, acc);
      r.Some? ==> OneLine(r.value.0.line) && ReceiverLines(r.value.1)
    decreases |s.rest|
  {
    var n := GetLine(s);
    if n.line != EOT && !n.eof {
      ReadReceiversYields(n, acc + [n.line]);
    }
  }

  lemma BodyTextGrows(body: string, line: string)
    requires BodyText(body) && OneLine(line) && line != "."
    ensures BodyText(body + line + "\n")
  {
    var lines := SplitLines(body);
    SplitThenJoin(body);
    JoinLinesSnoc(lines, line);
    JoinThenSplit(lines + [line]);
  }

  lemma {:induction false} ReadBodyYields(s: LineSource, acc: string)
    requires OneLine(s.line) && BodyText(acc)
    ensures var r := ReadBody(s, acc);
      r.Some? ==> OneLine(r.value.0.line) && BodyText(r.value.1)
    decreases |s.rest|
  {
    var n := GetLine(s);
    if n.line != "." && !n.eof {
      BodyTextGrows(acc, n.line);
      ReadBodyYields(n, acc + n.line + "\n");
    }
  }

  lemma ReadAttachmentYields(s: LineSource)
    requires OneLine(s.line)
    ensures var r := ReadAttachment(s);
      r.Ok? ==> OneLine(r.value.0.line) && StorableAttachment(r.value.1)
  {
  }

  lemma {:induction false} ReadAttachmentsYields(s: LineSource, count: nat, acc: seq<Attachment>)
    requires OneLine(s.line)
    requires StorableAttachments(acc)
    ensures var r := ReadAttachments(s, count, acc);
      r.Ok? ==> |r.value| == |acc| + count && StorableAttachments(r.value)
    decreases count
  {
    hide ReadAttachment, StorableAttachment;
    if count > 0 {
      ReadAttachmentYields(s);
      match ReadAttachment(s) {
        case Ok((next, a)) =>
          ReadAttachmentsYields(next, count - 1, acc + [a]);
        case _ =>
      }
    }
  }

  lemma ReadTailYields(s: LineSource)
    requires OneLine(s.line)
    ensures var r := ReadTail(s);
      r.Ok? ==> |r.value| <= INT_MAX && StorableAttachments(r.value)
  {
    var c := GetLine(s);
    var n := ParseInt32(c.line);
    if n.Some? && 0 <= n.value {
      ReadAttachmentsYields(c, n.value, []);
    }
  }

  /** Every message `inflate` ever delivers, from any bytes at all, can be stored. */
  lemma InflateYieldsStorable(data: string)
    ensures InflateSend(data).Ok? ==> Storable(InflateSend(data).value)
  {
    var l0 := GetLine(Open(data));
    var l1 := GetLine(l0);
    ReadReceiversYields(l1, []);
    var rs := ReadReceivers(l1, []);
    if rs.Some? {
      var l3 := GetLine(rs.value.0);
      assert BodyText("");
      ReadBodyYields(l3, "");
      var body := ReadBody(l3, "");
      if body.Some? {
        ReadTailYields(body.value.0);
      }
    }
  }

  lemma InflateYieldsPrintable(t: MessageType, data: string)
    ensures Inflate(t, data).Ok? ==> Printable(Inflate(t, data).value) && Inflate(t, data).value.Type() == t
  {
    hide InflateSend, InflateFixed;
    if t == TSend {
      InflateYieldsStorable(data);
    } else if t != TInvalid {
      InflateFixedYields(t, data);
    }
  }

  lemma InflateFixedYields(t: MessageType, data: string)
    requires t != TSend && t != TInvalid
    ensures InflateFixed(t, data).Ok? ==>
              !InflateFixed(t, data).value.Send? && Printable(InflateFixed(t, data).value)
              && InflateFixed(t, data).value.Type() == t
  {
    hide GetLine, ParseInt;
    assert OneLine(Open(data).line);
    var l0 := GetLine(Open(data));
    assert OneLine(GetLine(l0).line) && OneLine(GetLine(GetLine(l0)).line);
  }

  // ---------------------------------------------------------------- both directions at once

  /** The lines of a request other than SEND. */
  function FixedLines(m: Message): seq<string>
    requires !m.Send?
  {
    match m
    case List(username) => ["LIST", username]
    case Read(username, number) => ["READ", username, PrintInt(number)]
    case Del(username, number) => ["DEL", username, PrintInt(number)]
    case Quit => ["QUIT"]
    case Login(username, password) => ["LOGIN", username, password]
  }

  lemma JoinTwo(a: string, b: string)
    ensures JoinLines([a, b]) == a + "\n" + b + "\n"
  {
    assert [a, b] == [a] + [b];
    JoinLinesOne(a);
    JoinLinesSnoc([a], b);
  }

  lemma JoinThree(a: string, b: string, c: string)
    ensures JoinLines([a, b, c]) == a + "\n" + b + "\n" + c + "\n"
  {
    assert [a, b, c] == [a, b] + [c];
    JoinTwo(a, b);
    JoinLinesSnoc([a, b], c);
  }

  lemma DeflateFixed(m: Message)
    requires !m.Send?
    ensures Deflate(m) == JoinLines(FixedLines(m))
  {
    match m {
      case List(username) => JoinTwo("LIST", username);
      case Read(username, number) => JoinThree("READ", username, PrintInt(number));
      case Del(username, number) => JoinThree("DEL", username, PrintInt(number));
      case Quit => JoinLinesOne("QUIT");
      case Login(username, password) => JoinThree("LOGIN", username, password);
    }
  }

  /** What the first, second and third `getline` return on a text that starts with these lines. */
  lemma FirstLines(lines: seq<string>, tail: string)
    requires lines != [] && AllOneLine(lines)
    ensures var l0 := GetLine(Open(JoinLines(lines) + tail));
      && l0.line == lines[0]
      && (|lines| > 1 ==> GetLine(l0).line == lines[1])
      && (|lines| > 2 ==> GetLine(GetLine(l0)).line == lines[2])
  {
    GetLineCons(lines, tail, "");
    if |lines| > 1 {
      GetLineCons(lines[1..], tail, lines[0]);
      if |lines| > 2 {
        GetLineCons(lines[2..], tail, lines[1]);
        assert lines[1..][1..] == lines[2..];
      }
    }
  }

  lemma FixedLinesOneLine(m: Message)
    requires !m.Send? && Printable(m)
    ensures AllOneLine(FixedLines(m))
  {
    if m.Read? || m.Del? {
      PrintIntOneLine(m.number);
    }
  }

  lemma InflateFixedBack(m: Message, tail: string)
    requires !m.Send? && Printable(m)
    ensures InflateFixed(m.Type(), JoinLines(FixedLines(m)) + tail) == Ok(m)
  {
    hide PrintInt, ParseInt, GetLine, JoinLines;
    FixedLinesOneLine(m);
    FirstLines(FixedLines(m), tail);
    if m.Read? || m.Del? {
      ParsePrintInt(m.number, INT_MIN, INT_MAX);
    }
  }

  lemma InflateDeflate(m: Message, tail: string)
    requires Printable(m)
    ensures Inflate(m.Type(), Deflate(m) + tail) == Ok(m)
  {
    hide InflateFixed, InflateSend, DeflateSend, FixedLines;
    if m.Send? {
      InflateDeflateSend(m.mail, tail);
    } else {
      DeflateFixed(m);
      InflateFixedBack(m, tail);
    }
  }

  /** Whatever inflates as one kind of request begins with the line of its keyword. */
  lemma KeywordDecides(t: MessageType, data: string)
    ensures Inflate(t, data).Ok? ==> GetLine(Open(data)).line == Keyword(t) && Inflate(t, data).value.Type() == t
  {
    hide GetLine, ReadReceivers, ReadBody, ReadTail, ParseInt;
  }

  /** The storage round trip holds for exactly the printable messages. */
  lemma RoundTripIff(m: Message, tail: string)
    ensures Inflate(m.Type(), Deflate(m) + tail) == Ok(m) <==> Printable(m)
  {
    InflateYieldsPrintable(m.Type(), Deflate(m) + tail);
    if Printable(m) {
      InflateDeflate(m, tail);
    }
  }
}
