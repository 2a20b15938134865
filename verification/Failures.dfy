/** Where the parser and the message format part ways, and what a failed conversion leaves behind. */
module Failures {
  import opened Text
  import opened Messages
  import opened Inflation
  import opened SendFormat
  import opened MessageParsing
  import opened Framing
  import opened Wire
  import opened Delivery

  // ---------------------------------------------------------------- stale chunks

  /** Chunks from which the factory can never again build a message, whatever is appended to them. */
  ghost predicate Hopeless(chunks: seq<string>) {
    forall more: seq<string> :: NewInstance(chunks + more) == BadConversion
  }

  predicate AllRefused(steps: seq<Step>) {
    forall i :: 0 <= i < |steps| ==> steps[i] == Refused
  }

  lemma HopelessFinish(p: ParserState, stale: seq<string>)
    requires Hopeless(stale) && stale <= p.chunks
    ensures Finish(p) == (p, Refused)
  {
    hide NewInstance;
    assert p.chunks == stale + p.chunks[|stale|..];
  }

  lemma HopelessDigest(p: ParserState, stale: seq<string>, data: string)
    requires Hopeless(stale) && stale <= p.chunks
    ensures stale <= Digest(p, data).0.chunks
    ensures Digest(p, data).1 == Nothing || Digest(p, data).1 == Refused
  {
    hide Finish, ParseInt, Wrap32;
    forall q: ParserState | stale <= q.chunks ensures Finish(q) == (q, Refused) {
      HopelessFinish(q, stale);
    }
  }

  /** Once stale chunks are hopeless, no bytes that follow ever dispatch a message again. */
  lemma {:induction false} HopelessForever(p: ParserState, stale: seq<string>, s: string, limit: nat)
    requires limit >= 2 && Hopeless(stale) && stale <= p.chunks
    ensures AllRefused(Serve(p, s, limit).steps)
    decreases |s|
  {
    hide Hopeless, Digest, NextChunk;
    match NextChunk(p.awaiting, limit, s) {
      case Chunk(data, rest) =>
        HopelessDigest(p, stale, data);
        HopelessForever(Digest(p, data).0, stale, rest, limit);
      case _ =>
    }
  }

  lemma HopelessIndex(t: MessageType, username: string, number: string)
    requires t == TRead || t == TDel
    requires OneLine(username) && OneLine(number) && ParseInt32(number).None?
    ensures Hopeless([Keyword(t), username, number])
  {
    hide ParseInt, NewInstance, OneLine, Keyword;
    var chunks := [Keyword(t), username, number];
    forall more: seq<string> ensures NewInstance(chunks + more) == BadConversion {
      BadIndex(t, username, number, more);
    }
  }

  lemma BadIndex(t: MessageType, username: string, number: string, more: seq<string>)
    requires t == TRead || t == TDel
    requires OneLine(username) && OneLine(number) && ParseInt32(number).None?
    ensures NewInstance([Keyword(t), username, number] + more) == BadConversion
  {
    hide ParseInt, GetLine, JoinLines;
    var chunks := [Keyword(t), username, number];
    JoinLinesConcat(chunks, more);
    FirstLines(chunks, JoinLines(more));
    assert (chunks + more)[0] == Keyword(t);
  }

  lemma HopelessCount(sender: string, receivers: seq<string>, title: string, lines: seq<string>, count: string)
    requires OneLine(sender) && OneLine(title) && AllOneLine(lines) && "." !in lines && ReceiverLines(receivers)
    requires OneLine(count) && ParseInt32(count).None?
    ensures Hopeless(HeadLines(sender, receivers, title, lines) + [count])
  {
    hide ParseInt, InflateSend, HeadLines;
    var head := HeadLines(sender, receivers, title, lines);
    HeadKeyword(sender, receivers, title, lines);
    forall more: seq<string> ensures NewInstance(head + [count] + more) == BadConversion {
      JoinLinesConcat(head + [count], more);
      JoinLinesSnoc(head, count);
      var tail := count + "\n" + JoinLines(more);
      assert JoinLines(head + [count] + more) == JoinLines(head) + tail;
      InflateHead(sender, receivers, title, lines, tail);
      GetLineStep(count, JoinLines(more), ".");
      assert (head + [count] + more)[0] == "SEND";
    }
  }

  lemma IndexCompletes(p: ParserState, t: MessageType, username: string, number: string, rest: string, limit: nat)
    requires limit >= 16 && Ready(p) && (t == TRead || t == TDel)
    requires WireLine(username, limit) && WireLine(number, limit)
    ensures Completes(p, JoinLines([Keyword(t), username, number]) + rest,
                      ParserState(NewRequest, t, 0, 0, [Keyword(t), username, number]), rest, limit)
  {
    hide Completes, NextChunk, Digest, WireLine, Finish;
    var lines := [username, number];
    var chunks := [Keyword(t), username, number];
    var q := ParserState(Parsing, t, 2, 0, [Keyword(t)]);
    IndexKeyword(p, t);
    WirePair(username, number, limit);
    FixedTailCompletes(q, lines, rest, limit);
    assert q.chunks + lines == chunks;
    KeywordLines(limit);
    CompletesLine(p, Keyword(t), JoinLines(lines) + rest, ParserState(NewRequest, t, 0, 0, chunks), rest, limit);
    assert chunks[1..] == lines;
    assert JoinLines(chunks) + rest == Keyword(t) + "\n" + (JoinLines(lines) + rest);
  }

  lemma IndexFactory(t: MessageType, username: string, number: string)
    requires t == TRead || t == TDel
    requires OneLine(username) && OneLine(number) && ParseInt32(number).Some?
    ensures NewInstance([Keyword(t), username, number])
         == Ok(if t == TRead then Read(username, ParseInt32(number).value) else Del(username, ParseInt32(number).value))
  {
    hide ParseInt, JoinLines, GetLine;
    var chunks := [Keyword(t), username, number];
    assert JoinLines(chunks) + "" == JoinLines(chunks);
    FirstLines(chunks, "");
  }

  /** READ or DEL with any text in place of the index. The connection goes on exactly when the text converts
      to an int; when it does not, this request and everything after it is refused, for every stream. */
  lemma IndexRequestIff(p: ParserState, t: MessageType, username: string, number: string, rest: string, limit: nat)
    requires limit >= 16 && Ready(p) && (t == TRead || t == TDel)
    requires WireLine(username, limit) && WireLine(number, limit)
    ensures var served := Serve(p, JoinLines([Keyword(t), username, number]) + rest, limit);
      var n := ParseInt32(number);
      && served.steps != []
      && (n.None? <==> AllRefused(served.steps))
      && (n.Some? ==>
            var m := if t == TRead then Read(username, n.value) else Del(username, n.value);
            served == Serve(ParserState(NewRequest, t, 0, 0, []), rest, limit).Prepend(Dispatched(m)))
  {
    hide Serve, NewInstance, ParseInt, Hopeless, JoinLines;
    var chunks := [Keyword(t), username, number];
    var r := ParserState(NewRequest, t, 0, 0, chunks);
    IndexCompletes(p, t, username, number, rest, limit);
    ServeCompletes(p, JoinLines(chunks) + rest, r, rest, limit);
    if ParseInt32(number).None? {
      HopelessIndex(t, username, number);
      HopelessFinish(r, chunks);
      HopelessForever(r, chunks, rest, limit);
    } else {
      IndexFactory(t, username, number);
      var served := Serve(p, JoinLines(chunks) + rest, limit);
      assert served.steps[0].Dispatched?;
    }
  }

  lemma WirePair(a: string, b: string, limit: nat)
    requires WireLine(a, limit) && WireLine(b, limit)
    ensures WireLines([a, b], limit) && AllOneLine([a, b])
  {
  }

  lemma IndexKeyword(p: ParserState, t: MessageType)
    requires Ready(p) && (t == TRead || t == TDel)
    ensures Digest(p, Keyword(t)) == (ParserState(Parsing, t, 2, 0, [Keyword(t)]), Nothing)
  {
    assert p.chunks + [Keyword(t)] == [Keyword(t)];
  }

  /** SEND with any text that is no number in place of the attachment count: this request and everything after
      it is refused, for every stream. */
  lemma CountRequestRefused(
      p: ParserState, sender: string, receivers: seq<string>, title: string, lines: seq<string>,
      count: string, rest: string, limit: nat)
    requires limit >= 16 && Ready(p) && WireLine(count, limit) && ParseInt32(count).None?
    requires WireLine(sender, limit) && WireLine(title, limit) && WireLines(receivers, limit) && WireLines(lines, limit)
    requires EOT !in receivers && "." !in lines && NoEarlyDot(receivers, title) && |receivers| + |lines| + 4 <= INT_MAX
    ensures var served := Serve(p, JoinLines(HeadLines(sender, receivers, title, lines) + [count]) + rest, limit);
      served.steps != [] && AllRefused(served.steps)
  {
    hide Serve, NewInstance, ParseInt, Hopeless, NoEarlyDot, Completes, HeadLines;
    var head := HeadLines(sender, receivers, title, lines);
    var text := JoinLines(head + [count]) + rest;
    var before: int := |receivers| + |lines|;
    var q := ParserState(AwaitingAttachments, TSend, -1 - before, 0, p.chunks + head);
    var r := ParserState(NewRequest, TSend, -2 - before, 0, head + [count]);
    assert q.chunks + [count] == r.chunks;
    assert Digest(q, count) == Finish(r);
    CompletesLast(q, count, r, rest, limit);
    HeadCompletes(p, sender, receivers, title, lines, count + "\n" + rest, r, rest, limit);
    JoinLinesSnoc(head, count);
    assert text == JoinLines(head) + (count + "\n" + rest);
    ServeCompletes(p, text, r, rest, limit);
    TextOneLine(sender, receivers, title, lines, limit);
    WireOneLine(count, limit);
    HopelessCount(sender, receivers, title, lines, count);
    HopelessFinish(r, r.chunks);
    HopelessForever(r, r.chunks, rest, limit);
  }

  /** What follows the aligned attachments of a section, up to a size that is no number. */
  lemma HopelessTail(
      count: string, n: nat, raws: seq<RawAttachment>, name: string, size: string, more: string)
    requires OneLine(count) && ParseInt32(count) == Some(n) && |raws| < n && AllAligned(raws)
    requires OneLine(name) && OneLine(size) && ParseInt32(size).None?
    ensures ReadTail(LineSource(count + "\n" + (RawTexts(raws) + (name + "\n" + (size + "\n" + more))), false, "."))
         == BadConversion
  {
    hide ParseInt, GetLine, AllAligned, RawTexts;
    var rest := name + "\n" + (size + "\n" + more);
    var left: nat := n - |raws|;
    var previous := if raws == [] then count else raws[|raws| - 1].size;
    GetLineStep(count, RawTexts(raws) + rest, ".");
    ReadAttachmentsThen(raws, rest, count, left, []);
    GetLineStep(name, size + "\n" + more, previous);
    GetLineStep(size, more, name);
    assert ReadAttachment(LineSource(rest, false, previous)) == BadConversion;
  }

  lemma JoinUpToSize(
      head: seq<string>, count: string, raws: seq<RawAttachment>, name: string, size: string, more: seq<string>)
    ensures JoinLines(head + [count] + AttachmentChunks(raws) + [name, size] + more)
         == JoinLines(head)
            + (count + "\n" + (RawTexts(Newlined(raws)) + (name + "\n" + (size + "\n" + JoinLines(more)))))
  {
    hide AttachmentChunks, JoinLines, RawTexts;
    var section := head + [count] + AttachmentChunks(raws);
    JoinLinesConcat(section + [name, size], more);
    JoinLinesConcat(section, [name, size]);
    JoinTwo(name, size);
    JoinSection(head, count, raws);
    SizeRegroup(JoinLines(head), count + "\n", RawTexts(Newlined(raws)), name + "\n", size, JoinLines(more));
  }

  lemma SizeRegroup(a: string, b: string, c: string, d: string, e: string, f: string)
    ensures a + (b + c) + (d + e + "\n") + f == a + (b + (c + (d + (e + "\n" + f))))
  {
  }

  lemma HopelessSize(
      sender: string, receivers: seq<string>, title: string, lines: seq<string>,
      count: string, n: nat, raws: seq<RawAttachment>, name: string, size: string)
    requires OneLine(sender) && OneLine(title) && AllOneLine(lines) && "." !in lines && ReceiverLines(receivers)
    requires OneLine(count) && ParseInt32(count) == Some(n) && |raws| < n && AllAligned(Newlined(raws))
    requires OneLine(name) && OneLine(size) && ParseInt32(size).None?
    ensures Hopeless(HeadLines(sender, receivers, title, lines) + [count] + AttachmentChunks(raws) + [name, size])
  {
    hide ParseInt, NewInstance, HeadLines, AttachmentChunks, AllAligned, ReceiverLines, OneLine, AllOneLine;
    var chunks := HeadLines(sender, receivers, title, lines) + [count] + AttachmentChunks(raws) + [name, size];
    forall more: seq<string> ensures NewInstance(chunks + more) == BadConversion {
      BadSize(sender, receivers, title, lines, count, n, raws, name, size, more);
    }
  }

  lemma BadSize(
      sender: string, receivers: seq<string>, title: string, lines: seq<string>,
      count: string, n: nat, raws: seq<RawAttachment>, name: string, size: string, more: seq<string>)
    requires OneLine(sender) && OneLine(title) && AllOneLine(lines) && "." !in lines && ReceiverLines(receivers)
    requires OneLine(count) && ParseInt32(count) == Some(n) && |raws| < n && AllAligned(Newlined(raws))
    requires OneLine(name) && OneLine(size) && ParseInt32(size).None?
    ensures NewInstance(HeadLines(sender, receivers, title, lines) + [count] + AttachmentChunks(raws) + [name, size]
                        + more)
         == BadConversion
  {
    hide ParseInt, InflateSend, HeadLines, ReadTail, RawTexts, AttachmentChunks, JoinLines, AllAligned, ReceiverLines,
      Newlined, NewInstance, WithTail, OneLine, AllOneLine;
    var head := HeadLines(sender, receivers, title, lines);
    var left := name + "\n" + (size + "\n" + JoinLines(more));
    var chunks := head + [count] + AttachmentChunks(raws) + [name, size] + more;
    var tail := count + "\n" + (RawTexts(Newlined(raws)) + left);
    HeadKeyword(sender, receivers, title, lines);
    JoinUpToSize(head, count, raws, name, size, more);
    InflateHead(sender, receivers, title, lines, tail);
    HopelessTail(count, n, Newlined(raws), name, size, JoinLines(more));
    BadTail(sender, receivers, title, lines, tail);
    FirstChunk(head, [count], AttachmentChunks(raws), [name, size], more);
    BadSend(chunks);
  }

  lemma FirstChunk(a: seq<string>, b: seq<string>, c: seq<string>, d: seq<string>, e: seq<string>)
    requires a != []
    ensures a + b + c + d + e != [] && (a + b + c + d + e)[0] == a[0]
  {
  }

  lemma BadTail(sender: string, receivers: seq<string>, title: string, lines: seq<string>, tail: string)
    requires ReadTail(LineSource(tail, false, ".")) == BadConversion
    ensures WithTail(sender, receivers, title, lines, tail) == BadConversion
  {
    hide ReadTail;
  }

  lemma BadSend(chunks: seq<string>)
    requires chunks != [] && chunks[0] == "SEND" && InflateSend(JoinLines(chunks)) == BadConversion
    ensures NewInstance(chunks) == BadConversion
  {
    hide InflateSend, JoinLines;
  }

  /** The parser over a name and a size that is no number. */
  lemma BadSizeDigests(p: ParserState, name: string, size: string)
    requires p.phase == AwaitingAttachments && p.awaiting == 0
    requires 0 < p.total <= INT_MAX && p.total % 3 == 0 && ParseInt32(size).None?
    ensures var p1 := p.(total := p.total - 1, chunks := p.chunks + [name]);
      && Digest(p, name) == (p1, Nothing)
      && Digest(p1, size)
         == Finish(p1.(phase := NewRequest, total := p.total - 2, chunks := p1.chunks + [size]))
  {
    hide ParseInt, Finish;
  }

  lemma BadSizeCompletes(p: ParserState, name: string, size: string, rest: string, limit: nat)
    requires limit >= 2 && p.phase == AwaitingAttachments && p.awaiting == 0
    requires 0 < p.total <= INT_MAX && p.total % 3 == 0 && ParseInt32(size).None?
    requires WireLine(name, limit) && WireLine(size, limit)
    ensures Completes(p, name + "\n" + (size + "\n" + rest),
                      p.(phase := NewRequest, total := p.total - 2, chunks := p.chunks + [name, size]), rest, limit)
  {
    hide Completes, Digest, ParseInt, Finish, WireLine;
    BadSizeDigests(p, name, size);
    var p1 := p.(total := p.total - 1, chunks := p.chunks + [name]);
    var r := p.(phase := NewRequest, total := p.total - 2, chunks := p.chunks + [name, size]);
    assert p1.chunks + [size] == r.chunks;
    CompletesLast(p1, size, r, rest, limit);
    CompletesLine(p, name, size + "\n" + rest, r, rest, limit);
  }

  /** The count line, the attachments before the bad size, and the bad size. */
  lemma SizeSectionCompletes(
      q: ParserState, front: seq<Attachment>, count: string, n: nat, name: string, size: string, rest: string,
      limit: nat)
    requires limit >= 16 && q.phase == AwaitingAttachments && q.awaiting == 0 && INT_MIN < q.total <= 0
    requires WireAttachments(front, limit) && |front| < n && 3 * n <= INT_MAX
    requires WireLine(count, limit) && ParseInt32(count) == Some(n)
    requires WireLine(name, limit) && WireLine(size, limit) && ParseInt32(size).None?
    ensures Completes(q, count + "\n" + (RawTexts(Raws(front)) + (name + "\n" + (size + "\n" + rest))),
                      ParserState(NewRequest, q.kind, 3 * (n - |front|) - 2, 0,
                                  q.chunks + ([count] + AttachmentChunks(AllChopped(front, limit)) + [name, size])),
                      rest, limit)
  {
    hide Completes, ParseInt, WireLine, AllChopped, AttachmentChunks, RawTexts, Raws, WireAttachments;
    var chunks := AttachmentChunks(AllChopped(front, limit));
    var q2 := AfterFront(q, count, n, front, limit);
    var r := q2.(phase := NewRequest, total := q2.total - 2, chunks := q2.chunks + [name, size]);
    ChunksRegroup(q.chunks, [count], chunks, [name, size]);
    BadSizeCompletes(q2, name, size, rest, limit);
    CountAndFrontComplete(q, count, n, front, name + "\n" + (size + "\n" + rest), r, rest, limit);
  }

  /** The chunks after the text when a size is no number, and the bytes they stand for. */
  function BadSizeChunks(m: SendMessage, count: string, name: string, size: string, limit: nat): seq<string>
    requires WireAttachments(m.attachments, limit)
  {
    [count] + AttachmentChunks(AllChopped(m.attachments, limit)) + [name, size]
  }

  function BadSizeText(m: SendMessage, count: string, name: string, size: string, rest: string): string {
    count + "\n" + (RawTexts(Raws(m.attachments)) + (name + "\n" + (size + "\n" + rest)))
  }

  /** Such a request is consumed up to the bad size, where the factory is called. */
  lemma SizeRequestCompletes(
      p: ParserState, m: SendMessage, count: string, n: nat, name: string, size: string, rest: string, limit: nat)
    requires limit >= 16 && Ready(p) && WireSend(m, limit)
    requires WireLine(count, limit) && ParseInt32(count) == Some(n) && |m.attachments| < n && 3 * n <= INT_MAX
    requires WireLine(name, limit) && WireLine(size, limit) && ParseInt32(size).None?
    ensures var head := HeadLines(m.sender, m.receivers, m.title, SplitLines(m.body));
      Completes(p, JoinLines(head) + BadSizeText(m, count, name, size, rest),
                ParserState(NewRequest, TSend, 3 * (n - |m.attachments|) - 2, 0,
                            head + BadSizeChunks(m, count, name, size, limit)), rest, limit)
  {
    hide ParseInt, NoEarlyDot, WireLine, WireLines, HeadLines, WireAttachments, AllChopped, AttachmentChunks, RawTexts,
      Raws, SplitLines, Completes, JoinLines;
    var lines := SplitLines(m.body);
    var head := HeadLines(m.sender, m.receivers, m.title, lines);
    var before: int := |m.receivers| + |lines|;
    var q := ParserState(AwaitingAttachments, TSend, -1 - before, 0, p.chunks + head);
    assert q.chunks == head;
    SizeSectionCompletes(q, m.attachments, count, n, name, size, rest, limit);
    HeadCompletes(p, m.sender, m.receivers, m.title, lines, BadSizeText(m, count, name, size, rest),
                  ParserState(NewRequest, TSend, 3 * (n - |m.attachments|) - 2, 0,
                              head + BadSizeChunks(m, count, name, size, limit)), rest, limit);
  }

  lemma BadSizeHopeless(m: SendMessage, count: string, n: nat, name: string, size: string, limit: nat)
    requires limit >= 16 && WireMessage(Send(m), limit)
    requires WireLine(count, limit) && ParseInt32(count) == Some(n) && |m.attachments| < n
    requires WireLine(name, limit) && WireLine(size, limit) && ParseInt32(size).None?
    ensures Hopeless(HeadLines(m.sender, m.receivers, m.title, SplitLines(m.body))
                     + BadSizeChunks(m, count, name, size, limit))
  {
    hide ParseInt, HeadLines, AllAligned, AllChopped, ReceiverLines, AttachmentChunks, SplitLines, Hopeless, Parsed,
      Newlined, NoEarlyDot;
    WireOneLine(count, limit);
    WireOneLine(name, limit);
    WireOneLine(size, limit);
    WireSendLines(m, limit);
    ChoppedAligned(m.attachments, limit);
    hide WireLine, WireLines, WireAttachments;
    var chopped := AllChopped(m.attachments, limit);
    var lines := SplitLines(m.body);
    HopelessSize(m.sender, m.receivers, m.title, lines, count, n, chopped, name, size);
    ChunksRegroup(HeadLines(m.sender, m.receivers, m.title, lines), [count], AttachmentChunks(chopped), [name, size]);
  }

  /** SEND with any text that is no number in place of the size of an attachment, wherever it stands: this request
      and everything after it is refused, for every stream. `m` is the message up to that attachment. */
  lemma SizeRequestRefused(
      p: ParserState, m: SendMessage, count: string, n: nat, name: string, size: string, rest: string, limit: nat)
    requires limit >= 16 && Ready(p) && WireMessage(Send(m), limit)
    requires WireLine(count, limit) && ParseInt32(count) == Some(n) && |m.attachments| < n && 3 * n <= INT_MAX
    requires WireLine(name, limit) && WireLine(size, limit) && ParseInt32(size).None?
    ensures var head := JoinLines(HeadLines(m.sender, m.receivers, m.title, SplitLines(m.body)));
      var served := Serve(p, head + BadSizeText(m, count, name, size, rest), limit);
      served.steps != [] && AllRefused(served.steps)
  {
    hide ParseInt, WireLine, HeadLines, BadSizeChunks, BadSizeText, SplitLines, Completes, Hopeless, Serve, JoinLines,
      NewInstance, NoEarlyDot, WireLines;
    var head := HeadLines(m.sender, m.receivers, m.title, SplitLines(m.body));
    var text := JoinLines(head) + BadSizeText(m, count, name, size, rest);
    var chunks := head + BadSizeChunks(m, count, name, size, limit);
    var r := ParserState(NewRequest, TSend, 3 * (n - |m.attachments|) - 2, 0, chunks);
    SizeRequestCompletes(p, m, count, n, name, size, rest, limit);
    ServeCompletes(p, text, r, rest, limit);
    BadSizeHopeless(m, count, n, name, size, limit);
    HopelessFinish(r, chunks);
    HopelessForever(r, chunks, rest, limit);
  }

  lemma ChunksRegroup(a: seq<string>, b: seq<string>, c: seq<string>, d: seq<string>)
    ensures a + b + c + d == a + (b + c + d)
  {
  }

  lemma TextOneLine(sender: string, receivers: seq<string>, title: string, lines: seq<string>, limit: nat)
    requires WireLine(sender, limit) && WireLine(title, limit) && WireLines(receivers, limit) && WireLines(lines, limit)
    requires EOT !in receivers
    ensures OneLine(sender) && OneLine(title) && AllOneLine(lines) && ReceiverLines(receivers)
  {
    forall i | 0 <= i < |receivers| ensures ReceiverLine(receivers[i]) {
      assert WireLine(receivers[i], limit);
    }
  }
}
