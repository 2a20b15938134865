/** The coupled reader and parser on whole requests: what one request's bytes do to a connection. */
module Wire {
  import opened Text
  import opened Messages
  import opened SendFormat
  import opened MessageParsing
  import opened Framing

  // ---------------------------------------------------------------- lines on the wire

  /** A line that fits the receive buffer with its newline and ends in no carriage return. */
  predicate WireLine(line: string, limit: nat) {
    OneLine(line) && |line| + 2 <= limit && (line != "" ==> line[|line| - 1] != '\r')
  }

  predicate WireLines(lines: seq<string>, limit: nat) {
    forall i :: 0 <= i < |lines| ==> WireLine(lines[i], limit)
  }

  /** A line that fits the buffer with its newline comes out without the carriage return it may end in. */
  lemma FrameFitting(line: string, rest: string, limit: nat)
    requires OneLine(line) && |line| + 2 <= limit
    ensures NextChunk(0, limit, line + "\n" + rest) == Chunk(StripCR(line), rest)
  {
    var s := line + "\n" + rest;
    assert s[|line|] == '\n' && s[..|line|] == line && s[|line| + 1..] == rest;
    LineEndAtNewline(s, |line|, limit);
  }

  /** A last line without a newline comes out when the stream ends. */
  lemma FrameAtEnd(line: string, limit: nat)
    requires OneLine(line) && 0 < |line| < limit
    ensures NextChunk(0, limit, line) == Chunk(StripCR(line), "")
  {
    FindNone(line, '\n');
    assert line[..|line|] == line;
  }

  /** A line too long for the buffer is cut; the rest of it is the next line. */
  lemma FrameLong(s: string, limit: nat)
    requires limit >= 2 && |s| >= limit - 1 && OneLine(s[..limit - 1])
    ensures NextChunk(0, limit, s) == Chunk(StripCR(s[..limit - 1]), s[limit - 1..])
  {
    LineEndElsewhere(s, limit - 1, limit);
  }

  /** Exactly one carriage return goes, and only from the end. */
  lemma OneReturnChopped(line: string)
    ensures StripCR(line + "\r") == line && StripCR("") == ""
    ensures line != "" && line[|line| - 1] != '\r' ==> StripCR(line) == line
  {
  }

  /** A counted read waits for all its bytes. */
  lemma CountedShort(n: int, s: string, limit: nat)
    requires limit >= 2 && n > |s|
    ensures NextChunk(n, limit, s) == Short
  {
  }

  lemma FrameLine(line: string, rest: string, limit: nat)
    requires limit >= 2 && WireLine(line, limit)
    ensures NextChunk(0, limit, line + "\n" + rest) == Chunk(line, rest)
  {
    FrameFitting(line, rest, limit);
  }

  /** The reader hands a line out unchanged for exactly the wire lines. */
  lemma FrameLineIff(line: string, rest: string, limit: nat)
    requires limit >= 2
    ensures NextChunk(0, limit, line + "\n" + rest) == Chunk(line, rest) <==> WireLine(line, limit)
  {
    var s := line + "\n" + rest;
    if WireLine(line, limit) {
      FrameLine(line, rest, limit);
    } else {
      var i := Find(s, '\n');
      assert s[|line|] == '\n';
      assert i <= |line| by {
        forall j | 0 <= j < i ensures s[j] != '\n' { assert s[..i][j] != '\n'; }
      }
      assert i < |line| ==> line[i] == s[i];
      assert s[..|line|] == line;
    }
  }

  /** Repeated framing of a text. */
  function Frames(s: string, limit: nat): seq<string>
    requires limit >= 2
    decreases |s|
  {
    match NextChunk(0, limit, s)
    case Chunk(data, rest) => [data] + Frames(rest, limit)
    case _ => []
  }

  function StripAll(lines: seq<string>): seq<string> {
    if lines == [] then [] else [StripCR(lines[0])] + StripAll(lines[1..])
  }

  predicate Fitting(lines: seq<string>, limit: nat) {
    forall i :: 0 <= i < |lines| ==> OneLine(lines[i]) && |lines[i]| + 2 <= limit
  }

  lemma EndOfFrames(limit: nat)
    requires limit >= 2
    ensures NextChunk(0, limit, "") == End
  {
  }

  lemma FittingTail(lines: seq<string>, limit: nat)
    requires lines != [] && Fitting(lines, limit)
    ensures OneLine(lines[0]) && |lines[0]| + 2 <= limit && AllOneLine(lines[1..]) && Fitting(lines[1..], limit)
  {
  }

  lemma WireTailLines(lines: seq<string>, limit: nat)
    requires lines != [] && WireLines(lines, limit)
    ensures WireLine(lines[0], limit) && AllOneLine(lines[1..]) && WireLines(lines[1..], limit)
  {
  }

  /** Repeated framing of lines that fit the buffer is the newline split of the text, carriage returns chopped. */
  lemma {:induction false} FramesAreLines(s: string, limit: nat)
    requires limit >= 2 && Terminated(s) && Fitting(SplitLines(s), limit)
    ensures Frames(s, limit) == StripAll(SplitLines(s))
    decreases |s|
  {
    hide NextChunk, StripCR, SplitLines;
    var lines := SplitLines(s);
    SplitThenJoin(s);
    if lines == [] {
      EndOfFrames(limit);
    } else {
      FittingTail(lines, limit);
      var rest := JoinLines(lines[1..]);
      assert s == lines[0] + "\n" + rest;
      FrameFitting(lines[0], rest, limit);
      JoinThenSplit(lines[1..]);
      FramesAreLines(rest, limit);
    }
  }

  // ---------------------------------------------------------------- reading a given number of lines

  /** The next `count` lines and what is left; None when the stream ends before. */
  function TakeFrames(s: string, count: nat, limit: nat): Option<(seq<string>, string)>
    requires limit >= 2
    decreases count
  {
    if count == 0 then Some(([], s))
    else
      match NextChunk(0, limit, s)
      case Chunk(data, rest) => (
        match TakeFrames(rest, count - 1, limit)
        case Some((frames, left)) => Some(([data] + frames, left))
        case None => None
      )
      case _ => None
  }

  function Newlines(s: string): nat {
    if s == "" then 0 else (if s[0] == '\n' then 1 else 0) + Newlines(s[1..])
  }

  lemma {:induction false} NewlinesConcat(a: string, b: string)
    ensures Newlines(a + b) == Newlines(a) + Newlines(b)
  {
    if a == "" {
      assert a + b == b;
    } else {
      assert (a + b)[1..] == a[1..] + b;
      NewlinesConcat(a[1..], b);
    }
  }

  lemma {:induction false} NewlinesNone(s: string)
    requires OneLine(s)
    ensures Newlines(s) == 0
  {
    if s != "" {
      NewlinesNone(s[1..]);
    }
  }

  lemma {:induction false} NewlinesOfLines(lines: seq<string>)
    requires AllOneLine(lines)
    ensures Newlines(JoinLines(lines)) == |lines|
  {
    if lines != [] {
      NewlinesNone(lines[0]);
      assert Newlines("\n") == 1 by { assert "\n"[1..] == ""; }
      NewlinesConcat(lines[0], "\n");
      NewlinesConcat(lines[0] + "\n", JoinLines(lines[1..]));
      NewlinesOfLines(lines[1..]);
    }
  }

  /** One round of `readline` takes at most one newline; without one it takes no newline at all. */
  lemma FrameNewlines(s: string, limit: nat)
    requires limit >= 2 && s != ""
    ensures var (payload, consumed) := LineEnd(s, limit);
      && NextChunk(0, limit, s) == Chunk(StripCR(s[..payload]), s[consumed..])
      && OneLine(s[..payload]) && payload <= consumed <= payload + 1 && (consumed > payload ==> s[payload] == '\n')
      && Newlines(s) == Newlines(s[consumed..]) + (consumed - payload)
  {
    var (payload, consumed) := LineEnd(s, limit);
    var line := s[..payload];
    assert OneLine(line) by {
      assert payload <= Find(s, '\n');
      assert line == s[..Find(s, '\n')][..payload];
    }
    NewlinesNone(line);
    if consumed == payload {
      assert s == line + s[consumed..];
      NewlinesConcat(line, s[consumed..]);
    } else {
      assert s == line + "\n" + s[consumed..];
      assert Newlines("\n") == 1 by { assert "\n"[1..] == ""; }
      NewlinesConcat(line, "\n");
      NewlinesConcat(line + "\n", s[consumed..]);
    }
  }

  lemma StripCROneLine(s: string)
    requires OneLine(s)
    ensures OneLine(StripCR(s))
  {
  }

  lemma FrameIsOneLine(s: string, limit: nat)
    requires limit >= 2
    ensures var r := NextChunk(0, limit, s); r.Chunk? ==> OneLine(r.data)
  {
    if s != "" {
      FrameNewlines(s, limit);
      StripCROneLine(s[..LineEnd(s, limit).0]);
    }
  }

  /** Every line read contains no newline, and reading `count` lines leaves all but `count` of the newlines. */
  lemma {:induction false} TakeFramesLeaves(s: string, count: nat, limit: nat)
    requires limit >= 2
    ensures var r := TakeFrames(s, count, limit);
      r.Some? ==> |r.value.0| == count && AllOneLine(r.value.0) && Newlines(s) <= Newlines(r.value.1) + count
    decreases count
  {
    hide LineEnd, StripCR;
    if count > 0 && s != "" {
      FrameNewlines(s, limit);
      var (payload, consumed) := LineEnd(s, limit);
      StripCROneLine(s[..payload]);
      TakeFramesLeaves(s[consumed..], count - 1, limit);
    }
  }

  lemma {:induction false} TakeWireLines(lines: seq<string>, rest: string, limit: nat)
    requires limit >= 2 && WireLines(lines, limit)
    ensures TakeFrames(JoinLines(lines) + rest, |lines|, limit) == Some((lines, rest))
    decreases |lines|
  {
    hide NextChunk, WireLine, JoinLines;
    if lines == [] {
      NoLines(rest);
    } else {
      WireTailLines(lines, limit);
      JoinLinesCons(lines, rest);
      FrameLine(lines[0], JoinLines(lines[1..]) + rest, limit);
      TakeWireLines(lines[1..], rest, limit);
      assert [lines[0]] + lines[1..] == lines;
    }
  }

  /** If as many lines come out as went in, all of them unchanged and with nothing left over, they were wire lines. */
  lemma {:induction false} TakenWereWireLines(lines: seq<string>, limit: nat)
    requires limit >= 2 && AllOneLine(lines)
    requires TakeFrames(JoinLines(lines), |lines|, limit) == Some((lines, ""))
    ensures WireLines(lines, limit)
    decreases |lines|
  {
    hide TakeFrames, JoinLines, WireLine;
    if lines != [] {
      FirstTaken(lines, limit);
      TakenWereWireLines(lines[1..], limit);
    }
  }

  /** When taking the lines leaves nothing, the first one was a line of its own. */
  lemma FirstTaken(lines: seq<string>, limit: nat)
    requires limit >= 2 && lines != [] && AllOneLine(lines)
    requires TakeFrames(JoinLines(lines), |lines|, limit) == Some((lines, ""))
    ensures AllOneLine(lines[1..]) && WireLine(lines[0], limit)
    ensures TakeFrames(JoinLines(lines[1..]), |lines[1..]|, limit) == Some((lines[1..], ""))
  {
    hide LineEnd, StripCR, WireLine, Newlines, JoinLines;
    var s := JoinLines(lines);
    JoinedNotEmpty(lines);
    FrameNewlines(s, limit);
    var (payload, consumed) := LineEnd(s, limit);
    TakenNewline(lines, payload, consumed, limit);
    FirstNewline(lines, payload);
    assert [StripCR(s[..payload])] + TakeFrames(s[consumed..], |lines| - 1, limit).value.0 == lines;
    FrameLineIff(lines[0], s[consumed..], limit);
  }

  lemma JoinedNotEmpty(lines: seq<string>)
    requires lines != []
    ensures JoinLines(lines) != ""
  {
  }

  /** The first frame took a newline, or one would be left over. */
  lemma TakenNewline(lines: seq<string>, payload: nat, consumed: nat, limit: nat)
    requires limit >= 2 && lines != [] && AllOneLine(lines) && payload <= consumed <= |JoinLines(lines)|
    requires Newlines(JoinLines(lines)) == Newlines(JoinLines(lines)[consumed..]) + (consumed - payload)
    requires consumed <= payload + 1
    requires var r := TakeFrames(JoinLines(lines)[consumed..], |lines| - 1, limit); r.Some? && r.value.1 == ""
    ensures consumed == payload + 1
  {
    hide JoinLines, TakeFrames;
    NewlinesOfLines(lines);
    TakeFramesLeaves(JoinLines(lines)[consumed..], |lines| - 1, limit);
    assert Newlines("") == 0;
  }

  /** A first line that ends in a newline is the first line of the list. */
  lemma FirstNewline(lines: seq<string>, payload: nat)
    requires lines != [] && OneLine(lines[0])
    requires var s := JoinLines(lines); payload < |s| && OneLine(s[..payload]) && s[payload] == '\n'
    ensures var s := JoinLines(lines);
      && s[..payload] == lines[0] && s[payload + 1..] == JoinLines(lines[1..])
      && s == lines[0] + "\n" + JoinLines(lines[1..])
  {
    var s := JoinLines(lines);
    var rest := JoinLines(lines[1..]);
    assert s == lines[0] + ['\n'] + rest;
    hide JoinLines;
    FindFirst(lines[0], '\n', rest);
    FindFirst(s[..payload], '\n', s[payload + 1..]);
    assert s == s[..payload] + ['\n'] + s[payload + 1..];
  }

  // ---------------------------------------------------------------- one request, chunk by chunk

  /** From parser `p`, the stream `s` is one request that ends exactly where `rest` begins: quiet chunks
      that keep the parser inside the request, then the chunk on which the factory is called with `r`. */
  ghost predicate Completes(p: ParserState, s: string, r: ParserState, rest: string, limit: nat)
    requires limit >= 2
    decreases |s|
  {
    match NextChunk(p.awaiting, limit, s)
    case Chunk(data, t) =>
      var (q, step) := Digest(p, data);
      if q.phase == NewRequest then (q, step) == Finish(r) && t == rest
      else step == Nothing && Completes(q, t, r, rest, limit)
    case _ => false
  }

  lemma FinishPhase(r: ParserState)
    ensures Finish(r).0 == r || Finish(r).0 == r.(chunks := [])
    ensures Finish(r).1 != Nothing
  {
  }

  /** What serving makes of a completed request. */
  function AfterRequest(r: ParserState, rest: string, limit: nat): Served
    requires limit >= 2
  {
    var (q, step) := Finish(r);
    match step
    case Aborted => Served([], q, Crashed)
    case Stuck => Served([], q, Hung)
    case _ => Serve(q, rest, limit).Prepend(step)
  }

  lemma {:induction false} ServeCompletes(p: ParserState, s: string, r: ParserState, rest: string, limit: nat)
    requires limit >= 2 && Completes(p, s, r, rest, limit)
    ensures Serve(p, s, limit) == AfterRequest(r, rest, limit)
    decreases |s|
  {
    hide Digest, NextChunk, Finish;
    var framed := NextChunk(p.awaiting, limit, s);
    var (q, step) := Digest(p, framed.data);
    if q.phase == NewRequest {
      FinishPhase(r);
    } else {
      ServeCompletes(q, framed.rest, r, rest, limit);
    }
  }

  /** One quiet line in front. */
  lemma CompletesLine(p: ParserState, line: string, t: string, r: ParserState, rest: string, limit: nat)
    requires limit >= 2 && p.awaiting == 0 && WireLine(line, limit)
    requires Digest(p, line).0.phase != NewRequest && Digest(p, line).1 == Nothing
    requires Completes(Digest(p, line).0, t, r, rest, limit)
    ensures Completes(p, line + "\n" + t, r, rest, limit)
  {
    hide Digest, NextChunk, Finish;
    FrameLine(line, t, limit);
  }

  /** The last line of a request. */
  lemma CompletesLast(p: ParserState, line: string, r: ParserState, rest: string, limit: nat)
    requires limit >= 2 && p.awaiting == 0 && WireLine(line, limit)
    requires r.phase == NewRequest && Digest(p, line) == Finish(r)
    ensures Completes(p, line + "\n" + rest, r, rest, limit)
  {
    hide Digest, NextChunk, Finish;
    FrameLine(line, rest, limit);
    FinishPhase(r);
  }

  // ---------------------------------------------------------------- SEND

  /** The parser ends the text at a "." from the fourth line after SEND on. */
  predicate NoEarlyDot(receivers: seq<string>, title: string) {
    (forall i :: 2 <= i < |receivers| ==> receivers[i] != ".") && (receivers != [] ==> title != ".")
  }

  predicate WireAttachment(a: Attachment, limit: nat) {
    WireLine(a.filename, limit) && 1 <= |a.data| <= INT_MAX
  }

  predicate WireAttachments(attachments: seq<Attachment>, limit: nat) {
    forall i :: 0 <= i < |attachments| ==> WireAttachment(attachments[i], limit)
  }

  predicate WireSend(m: SendMessage, limit: nat) {
    && WireLine(m.sender, limit)
    && WireLines(m.receivers, limit) && EOT !in m.receivers
    && WireLine(m.title, limit)
    && BodyText(m.body) && WireLines(SplitLines(m.body), limit)
    && |m.receivers| + |SplitLines(m.body)| + 4 <= INT_MAX
    && NoEarlyDot(m.receivers, m.title)
    && 3 * |m.attachments| <= INT_MAX
    && WireAttachments(m.attachments, limit)
  }

  /** The chunks of an attachment as they are framed: name, size, and the data without its last byte. */
  function AttachmentChunks(raws: seq<RawAttachment>): seq<string> {
    if raws == [] then []
    else [raws[0].name, raws[0].size, raws[0].data] + AttachmentChunks(raws[1..])
  }

  function Chopped(a: Attachment): RawAttachment
    requires a.data != ""
  {
    RawAttachment(a.filename, PrintInt(|a.data|), StripCR(a.data[..|a.data| - 1]))
  }

  function AllChopped(attachments: seq<Attachment>, limit: nat): (raws: seq<RawAttachment>)
    requires WireAttachments(attachments, limit)
    ensures |raws| == |attachments|
    ensures forall i :: 0 <= i < |raws| ==> raws[i] == Chopped(attachments[i])
  {
    seq(|attachments|, i requires 0 <= i < |attachments| =>
      assert WireAttachment(attachments[i], limit);
      Chopped(attachments[i]))
  }

  function SendChunks(m: SendMessage, limit: nat): seq<string>
    requires WireSend(m, limit)
  {
    HeadLines(m.sender, m.receivers, m.title, SplitLines(m.body)) + [PrintInt(|m.attachments|)] +
    AttachmentChunks(AllChopped(m.attachments, limit))
  }

  lemma NumberLine(n: nat, limit: nat)
    requires n <= INT_MAX && limit >= 16
    ensures WireLine(PrintInt(n), limit) && ParseInt32(PrintInt(n)) == Some(n)
  {
    PrintIntOneLine(n);
    ParsePrintInt(n, INT_MIN, INT_MAX);
    PrintNatShort(n);
  }

  lemma TextDigest(p: ParserState, line: string)
    requires p.phase == Parsing && p.kind == TSend && INT_MIN < p.total <= INT_MAX
    requires p.total <= 0 ==> line != "."
    ensures Digest(p, line) == (p.(total := p.total - 1, chunks := p.chunks + [line]), Nothing)
  {
  }

  /** With the counter at `total` before the first of these lines, none of them ends the text. */
  predicate NoDotFrom(lines: seq<string>, total: int) {
    forall i :: 0 <= i < |lines| && total - i <= 0 ==> lines[i] != "."
  }

  lemma NoDotTail(lines: seq<string>, total: int)
    requires lines != [] && NoDotFrom(lines, total)
    ensures total <= 0 ==> lines[0] != "."
    ensures NoDotFrom(lines[1..], total - 1)
  {
    assert total - 0 <= 0 ==> lines[0] != ".";
    forall i | 0 <= i < |lines[1..]| && total - 1 - i <= 0 ensures lines[1..][i] != "." {
      assert total - (i + 1) <= 0 && lines[i + 1] != ".";
    }
  }

  /** The parser after text lines none of which ends the text: it only counts and collects. */
  function Fed(p: ParserState, lines: seq<string>): ParserState {
    p.(total := p.total - |lines|, chunks := p.chunks + lines)
  }

  lemma FedCons(p: ParserState, lines: seq<string>)
    requires lines != []
    ensures Fed(p, lines) == Fed(Fed(p, [lines[0]]), lines[1..])
    ensures var q := Fed(p, [lines[0]]);
      q.phase == p.phase && q.kind == p.kind && q.awaiting == p.awaiting && q.total == p.total - 1
  {
    assert p.chunks + [lines[0]] + lines[1..] == p.chunks + lines;
  }

  lemma FedNothing(p: ParserState)
    ensures Fed(p, []) == p
  {
    assert p.chunks + [] == p.chunks;
  }

  lemma TextLineCompletes(p: ParserState, line: string, t: string, r: ParserState, rest: string, limit: nat)
    requires limit >= 2 && p.phase == Parsing && p.kind == TSend && p.awaiting == 0
    requires WireLine(line, limit) && INT_MIN < p.total <= INT_MAX && (p.total <= 0 ==> line != ".")
    requires Completes(Fed(p, [line]), t, r, rest, limit)
    ensures Completes(p, line + "\n" + t, r, rest, limit)
  {
    hide Completes, Digest, WireLine;
    TextDigest(p, line);
    CompletesLine(p, line, t, r, rest, limit);
  }

  /** Text lines none of which ends the text: the parser stays in Parsing and counts down. */
  lemma {:induction false} TextCompletes(
      p: ParserState, lines: seq<string>, t: string, r: ParserState, rest: string, limit: nat)
    requires limit >= 2 && p.phase == Parsing && p.kind == TSend && p.awaiting == 0
    requires WireLines(lines, limit)
    requires p.total <= INT_MAX && INT_MIN <= p.total - |lines|
    requires NoDotFrom(lines, p.total)
    requires Completes(Fed(p, lines), t, r, rest, limit)
    ensures Completes(p, JoinLines(lines) + t, r, rest, limit)
    decreases |lines|
  {
    hide Completes, WireLine, WireLines, JoinLines, NoDotFrom, Fed;
    if lines == [] {
      FedNothing(p);
      NoLines(t);
    } else {
      WireTailLines(lines, limit);
      NoDotTail(lines, p.total);
      FedCons(p, lines);
      TextCompletes(Fed(p, [lines[0]]), lines[1..], t, r, rest, limit);
      TextLineCompletes(p, lines[0], JoinLines(lines[1..]) + t, r, rest, limit);
      JoinLinesCons(lines, t);
    }
  }

  lemma FrameData(data: string, t: string, limit: nat)
    requires limit >= 2 && data != ""
    ensures NextChunk(|data|, limit, data + t) == Chunk(StripCR(data[..|data| - 1]), t)
  {
    var s := data + t;
    assert s[..|data| - 1] == data[..|data| - 1];
    assert s[|data|..] == t;
  }

  /** The parser over the three chunks of one attachment. */
  lemma AttachmentDigests(p: ParserState, name: string, size: string, data: string, n: nat)
    requires p.phase == AwaitingAttachments && p.awaiting == 0
    requires 0 < p.total <= INT_MAX && p.total % 3 == 0 && ParseInt32(size) == Some(n)
    ensures var p1 := p.(total := p.total - 1, chunks := p.chunks + [name]);
      var p2 := p1.(total := p.total - 2, awaiting := n, chunks := p1.chunks + [size]);
      var p3 := p2.(total := p.total - 3, awaiting := 0, chunks := p2.chunks + [data]);
      && Digest(p, name) == (p1, Nothing)
      && Digest(p1, size) == (p2, Nothing)
      && Digest(p2, data) == if p.total == 3 then Finish(p3.(phase := NewRequest)) else (p3, Nothing)
  {
    hide ParseInt, Finish;
  }

  /** The counted chunk of an attachment. */
  lemma CompletesData(p: ParserState, data: string, t: string, r: ParserState, rest: string, limit: nat)
    requires limit >= 2 && data != "" && p.awaiting == |data|
    requires var (q, step) := Digest(p, StripCR(data[..|data| - 1]));
      if q.phase == NewRequest then (q, step) == Finish(r) && t == rest
      else step == Nothing && Completes(q, t, r, rest, limit)
    ensures Completes(p, data + t, r, rest, limit)
  {
    hide Digest, NextChunk, Finish, StripCR;
    FrameData(data, t, limit);
  }

  /** With the counter at 0 the section is over; otherwise it is still to be completed. */
  ghost predicate Afterwards(q: ParserState, t: string, r: ParserState, rest: string, limit: nat)
    requires limit >= 2
  {
    if q.total == 0 then r == q.(phase := NewRequest) && t == rest else Completes(q, t, r, rest, limit)
  }

  /** The three chunks of one attachment. */
  lemma AttachmentCompletes(p: ParserState, a: Attachment, t: string, r: ParserState, rest: string, limit: nat)
    requires limit >= 16 && p.phase == AwaitingAttachments && p.awaiting == 0
    requires 0 < p.total <= INT_MAX && p.total % 3 == 0
    requires WireAttachment(a, limit)
    requires var raw := Chopped(a);
      Afterwards(p.(total := p.total - 3, chunks := p.chunks + [raw.name, raw.size, raw.data]), t, r, rest, limit)
    ensures Completes(p, RawText(Raw(a)) + t, r, rest, limit)
  {
    hide Completes, Digest, NextChunk, WireLine, Finish, PrintInt, ParseInt, StripCR;
    var raw := Chopped(a);
    var n := |a.data|;
    NumberLine(n, limit);
    AttachmentDigests(p, raw.name, raw.size, raw.data, n);
    var p1 := p.(total := p.total - 1, chunks := p.chunks + [raw.name]);
    var p2 := p1.(total := p.total - 2, awaiting := n, chunks := p1.chunks + [raw.size]);
    var p3 := p2.(total := p.total - 3, awaiting := 0, chunks := p2.chunks + [raw.data]);
    assert p3.chunks == p.chunks + [raw.name, raw.size, raw.data];
    FinishPhase(p3.(phase := NewRequest));
    CompletesData(p2, a.data, t, r, rest, limit);
    CompletesLine(p1, raw.size, a.data + t, r, rest, limit);
    CompletesLine(p, raw.name, raw.size + "\n" + (a.data + t), r, rest, limit);
    assert RawText(Raw(a)) + t == raw.name + "\n" + (raw.size + "\n" + (a.data + t));
  }

  lemma ChunksCons(attachments: seq<Attachment>, limit: nat)
    requires WireAttachments(attachments, limit)
    ensures AttachmentChunks(AllChopped(attachments, limit))
         == if attachments == [] then []
            else
              assert WireAttachment(attachments[0], limit);
              var raw := Chopped(attachments[0]);
              [raw.name, raw.size, raw.data] + AttachmentChunks(AllChopped(attachments[1..], limit))
  {
    hide Chopped, WireLine;
    if attachments != [] {
      assert WireAttachment(attachments[0], limit);
      assert AllChopped(attachments, limit)[1..] == AllChopped(attachments[1..], limit);
    }
  }

  /** Some attachments of a section, and then whatever follows them. */
  lemma {:induction false} AttachmentsThen(
      p: ParserState, attachments: seq<Attachment>, t: string, r: ParserState, rest: string, limit: nat)
    requires limit >= 16 && p.phase == AwaitingAttachments && p.awaiting == 0
    requires 3 * |attachments| <= p.total <= INT_MAX && p.total % 3 == 0
    requires WireAttachments(attachments, limit)
    requires Afterwards(p.(total := p.total - 3 * |attachments|,
                           chunks := p.chunks + AttachmentChunks(AllChopped(attachments, limit))), t, r, rest, limit)
    ensures Afterwards(p, RawTexts(Raws(attachments)) + t, r, rest, limit)
    decreases |attachments|
  {
    hide Completes, Afterwards, WireLine, Chopped, AllChopped, AttachmentChunks, Raw, RawText;
    ChunksCons(attachments, limit);
    if attachments == [] {
      assert p.chunks + AttachmentChunks(AllChopped(attachments, limit)) == p.chunks;
      assert RawTexts(Raws(attachments)) + t == t;
    } else {
      var a, others := attachments[0], attachments[1..];
      assert WireAttachment(a, limit);
      var raw := Chopped(a);
      var here := [raw.name, raw.size, raw.data];
      var q := p.(total := p.total - 3, chunks := p.chunks + here);
      var s := RawTexts(Raws(others)) + t;
      assert q.chunks + AttachmentChunks(AllChopped(others, limit))
          == p.chunks + AttachmentChunks(AllChopped(attachments, limit));
      AttachmentsThen(q, others, t, r, rest, limit);
      AttachmentCompletes(p, a, s, r, rest, limit);
      StillToComplete(p, RawText(Raw(a)) + s, r, rest, limit);
      RawsCons(attachments);
      assert RawTexts(Raws(attachments)) + t == RawText(Raw(a)) + s;
    }
  }

  lemma StillToComplete(p: ParserState, s: string, r: ParserState, rest: string, limit: nat)
    requires limit >= 2 && p.total != 0
    ensures Afterwards(p, s, r, rest, limit) <==> Completes(p, s, r, rest, limit)
  {
  }

  lemma RawsCons(attachments: seq<Attachment>)
    requires attachments != []
    ensures Raws(attachments) == [Raw(attachments[0])] + Raws(attachments[1..])
  {
  }

  /** A count line that announces at least one attachment. */
  lemma CountDigests(p: ParserState, count: string, n: nat)
    requires p.phase == AwaitingAttachments && INT_MIN < p.total <= 0
    requires ParseInt32(count) == Some(n) && 0 < 3 * n <= INT_MAX
    ensures Digest(p, count) == (p.(total := 3 * n, chunks := p.chunks + [count]), Nothing)
  {
    hide ParseInt, Finish;
  }

  /** The parser after the count line and the first attachments of a section. */
  function AfterFront(p: ParserState, count: string, n: nat, front: seq<Attachment>, limit: nat): ParserState
    requires WireAttachments(front, limit)
  {
    p.(total := 3 * n - 3 * |front|, chunks := p.chunks + [count] + AttachmentChunks(AllChopped(front, limit)))
  }

  /** The count line and the first attachments, and then whatever follows them. */
  lemma CountAndFrontComplete(
      p: ParserState, count: string, n: nat, front: seq<Attachment>, t: string, r: ParserState, rest: string,
      limit: nat)
    requires limit >= 16 && p.phase == AwaitingAttachments && p.awaiting == 0 && INT_MIN < p.total <= 0
    requires WireLine(count, limit) && ParseInt32(count) == Some(n) && |front| < n && 3 * n <= INT_MAX
    requires WireAttachments(front, limit)
    requires Completes(AfterFront(p, count, n, front, limit), t, r, rest, limit)
    ensures Completes(p, count + "\n" + (RawTexts(Raws(front)) + t), r, rest, limit)
  {
    hide Completes, Afterwards, Digest, ParseInt, Finish, WireLine, AllChopped, AttachmentChunks, RawTexts, Raws,
      WireAttachments;
    CountDigests(p, count, n);
    var q := p.(total := 3 * n, chunks := p.chunks + [count]);
    StillToComplete(AfterFront(p, count, n, front, limit), t, r, rest, limit);
    AttachmentsThen(q, front, t, r, rest, limit);
    StillToComplete(q, RawTexts(Raws(front)) + t, r, rest, limit);
    CompletesLine(p, count, RawTexts(Raws(front)) + t, r, rest, limit);
  }

  lemma NothingRaw(t: string)
    ensures RawTexts(Raws([])) + t == t
  {
  }

  lemma NameDigests(p: ParserState, name: string)
    requires p.phase == AwaitingAttachments && p.awaiting == 0 && 0 < p.total <= INT_MAX && p.total % 3 == 0
    ensures Digest(p, name) == (p.(total := p.total - 1, chunks := p.chunks + [name]), Nothing)
  {
    hide ParseInt, Finish;
  }

  /** From the dot on: the count line and the attachments. */
  lemma SectionCompletes(p: ParserState, attachments: seq<Attachment>, rest: string, limit: nat)
    requires limit >= 16 && p.phase == AwaitingAttachments && p.awaiting == 0
    requires INT_MIN < p.total < 0 && 3 * |attachments| <= INT_MAX && WireAttachments(attachments, limit)
    ensures Completes(p, TailText(PrintInt(|attachments|), Raws(attachments)) + rest,
                      ParserState(NewRequest, p.kind, 0, 0,
                                  p.chunks + [PrintInt(|attachments|)]
                                  + AttachmentChunks(AllChopped(attachments, limit))), rest, limit)
  {
    hide Completes, NextChunk, WireLine, Finish, PrintInt, ParseInt, StripCR, PrintNat;
    var n := |attachments|;
    var count := PrintInt(n);
    NumberLine(n, limit);
    var q := p.(total := 3 * n, chunks := p.chunks + [count]);
    var t := RawTexts(Raws(attachments)) + rest;
    assert TailText(count, Raws(attachments)) + rest == count + "\n" + t;
    if n == 0 {
      assert t == rest;
      var r := q.(phase := NewRequest);
      assert r.chunks + AttachmentChunks(AllChopped(attachments, limit)) == r.chunks;
      assert Digest(p, count) == Finish(r);
      CompletesLast(p, count, r, rest, limit);
    } else {
      assert Digest(p, count) == (q, Nothing);
      var r := ParserState(NewRequest, p.kind, 0, 0, q.chunks + AttachmentChunks(AllChopped(attachments, limit)));
      AttachmentsThen(q, attachments, rest, r, rest, limit);
      CompletesLine(p, count, t, r, rest, limit);
    }
  }

  function TextLines(sender: string, receivers: seq<string>, title: string, lines: seq<string>): seq<string> {
    [sender] + receivers + [EOT, title] + lines
  }

  lemma HeadIsText(sender: string, receivers: seq<string>, title: string, lines: seq<string>)
    ensures HeadLines(sender, receivers, title, lines) == ["SEND"] + TextLines(sender, receivers, title, lines) + ["."]
  {
    var n := |receivers|;
    var head := HeadLines(sender, receivers, title, lines);
    var text := TextLines(sender, receivers, title, lines);
    assert |head| == |text| + 2;
    forall i | 0 <= i < |head| ensures head[i] == (["SEND"] + text + ["."])[i] {
      if 2 <= i < n + 2 {
        assert head[i] == receivers[i - 2];
      } else if n + 4 <= i < |head| - 1 {
        assert head[i] == lines[i - n - 4];
      }
    }
  }

  /** No line of the text from the fourth on is the dot, for exactly the receivers and titles below. */
  lemma NoDotInText(sender: string, receivers: seq<string>, title: string, lines: seq<string>)
    requires "." !in lines
    ensures NoEarlyDot(receivers, title)
       <==> NoDotFrom(TextLines(sender, receivers, title, lines), 3)
  {
    var text := TextLines(sender, receivers, title, lines);
    var n := |receivers|;
    assert text[n + 1] == EOT && text[n + 2] == title;
    forall i | 0 <= i < n ensures text[i + 1] == receivers[i] {}
    forall i | 0 <= i < |lines| ensures text[n + 3 + i] == lines[i] {}
    if NoEarlyDot(receivers, title) {
      forall i | 3 <= i < |text| ensures text[i] != "." {
        if i <= n {
          assert text[i] == receivers[i - 1];
        } else if n + 3 <= i {
          assert text[i] == lines[i - n - 3];
        }
      }
    } else if receivers != [] && title == "." {
      assert 3 - (n + 2) <= 0;
    } else {
      var i :| 2 <= i < n && receivers[i] == ".";
      assert text[i + 1] == "." && 3 - (i + 1) <= 0;
    }
  }

  lemma TextLength(sender: string, receivers: seq<string>, title: string, lines: seq<string>)
    ensures |TextLines(sender, receivers, title, lines)| == |receivers| + |lines| + 3
  {
  }

  lemma TextLinesWire(sender: string, receivers: seq<string>, title: string, lines: seq<string>, limit: nat)
    requires limit >= 16 && WireLine(sender, limit) && WireLine(title, limit)
    requires WireLines(receivers, limit) && WireLines(lines, limit)
    ensures WireLines(TextLines(sender, receivers, title, lines), limit)
  {
  }

  /** Text lines from the keyword on, none of them an early dot. */
  lemma KeywordAndTextComplete(
      p: ParserState, text: seq<string>, t: string, r: ParserState, rest: string, limit: nat)
    requires limit >= 16 && p.phase == NewRequest && p.awaiting == 0
    requires WireLines(text, limit) && |text| < INT_MAX
    requires NoDotFrom(text, 3)
    requires Completes(ParserState(Parsing, TSend, 3 - |text|, 0, p.chunks + (["SEND"] + text)), t, r, rest, limit)
    ensures Completes(p, JoinLines(["SEND"] + text) + t, r, rest, limit)
  {
    hide Completes, NextChunk, WireLines, Finish, NoDotFrom;
    var p1 := ParserState(Parsing, TSend, 3, 0, p.chunks + ["SEND"]);
    assert p1.chunks + text == p.chunks + (["SEND"] + text);
    TextCompletes(p1, text, t, r, rest, limit);
    assert Digest(p, "SEND") == (p1, Nothing);
    DotLine(limit);
    CompletesLine(p, "SEND", JoinLines(text) + t, r, rest, limit);
    JoinLinesConcat(["SEND"], text);
    JoinLinesOne("SEND");
    assert "SEND" + "\n" + JoinLines(text) + t == "SEND" + "\n" + (JoinLines(text) + t);
  }

  /** The whole text of a SEND request up to and including its dot. */
  lemma HeadCompletes(
      p: ParserState, sender: string, receivers: seq<string>, title: string, lines: seq<string>,
      t: string, r: ParserState, rest: string, limit: nat)
    requires limit >= 16 && p.phase == NewRequest && p.awaiting == 0
    requires WireLine(sender, limit) && WireLine(title, limit) && WireLines(receivers, limit) && WireLines(lines, limit)
    requires "." !in lines && NoEarlyDot(receivers, title) && |receivers| + |lines| + 4 <= INT_MAX
    requires Completes(ParserState(AwaitingAttachments, TSend, -1 - |receivers| - |lines|, 0,
                                   p.chunks + HeadLines(sender, receivers, title, lines)), t, r, rest, limit)
    ensures Completes(p, JoinLines(HeadLines(sender, receivers, title, lines)) + t, r, rest, limit)
  {
    hide Completes, NextChunk, WireLines, Finish, TextLines, HeadLines, NoEarlyDot;
    var text := TextLines(sender, receivers, title, lines);
    TextLength(sender, receivers, title, lines);
    HeadIsText(sender, receivers, title, lines);
    var p2 := ParserState(Parsing, TSend, 3 - |text|, 0, p.chunks + (["SEND"] + text));
    var p3 := p2.(phase := AwaitingAttachments, total := 2 - |text|, chunks := p2.chunks + ["."]);
    assert p3.chunks == p.chunks + HeadLines(sender, receivers, title, lines);
    assert Digest(p2, ".") == (p3, Nothing);
    DotLine(limit);
    CompletesLine(p2, ".", t, r, rest, limit);
    TextLinesWire(sender, receivers, title, lines, limit);
    NoDotInText(sender, receivers, title, lines);
    KeywordAndTextComplete(p, text, "." + "\n" + t, r, rest, limit);
    JoinLinesSnoc(["SEND"] + text, ".");
    assert JoinLines(["SEND"] + text) + "." + "\n" + t == JoinLines(["SEND"] + text) + ("." + "\n" + t);
  }

  /** The text of a printed message, and then its attachment section with whatever follows it. */
  lemma PrintedHeadCompletes(p: ParserState, m: SendMessage, more: string, r: ParserState, rest: string, limit: nat)
    requires limit >= 16 && p.phase == NewRequest && p.awaiting == 0
    requires WireLine(m.sender, limit) && WireLine(m.title, limit) && WireLines(m.receivers, limit)
    requires Terminated(m.body) && WireLines(SplitLines(m.body), limit) && "." !in SplitLines(m.body)
    requires NoEarlyDot(m.receivers, m.title) && |m.receivers| + |SplitLines(m.body)| + 4 <= INT_MAX
    requires Completes(ParserState(AwaitingAttachments, TSend, -1 - |m.receivers| - |SplitLines(m.body)|, 0,
                                   p.chunks + HeadLines(m.sender, m.receivers, m.title, SplitLines(m.body))),
                       TailText(PrintInt(|m.attachments|), Raws(m.attachments)) + more, r, rest, limit)
    ensures Completes(p, DeflateSend(m) + more, r, rest, limit)
  {
    hide Completes, WireLine, WireLines, PrintInt, HeadLines, NoEarlyDot, TailText, Raws, DeflateSend, JoinLines;
    var lines := SplitLines(m.body);
    var tail := TailText(PrintInt(|m.attachments|), Raws(m.attachments));
    HeadCompletes(p, m.sender, m.receivers, m.title, lines, tail + more, r, rest, limit);
    DeflateSendHead(m);
    var head := JoinLines(HeadLines(m.sender, m.receivers, m.title, lines));
    assert head + tail + more == head + (tail + more);
  }

  /** SEND, framed and parsed: the request ends exactly where its printed form ends, and the factory then
      gets the lines and, of every attachment, the name, the size and the data without its last byte. */
  lemma SendCompletes(p: ParserState, m: SendMessage, rest: string, limit: nat)
    requires limit >= 16 && p.phase == NewRequest && p.awaiting == 0 && WireSend(m, limit)
    ensures Completes(p, DeflateSend(m) + rest,
                      ParserState(NewRequest, TSend, 0, 0, p.chunks + SendChunks(m, limit)), rest, limit)
  {
    hide Completes, WireLine, PrintInt, WireAttachments, HeadLines, NoEarlyDot, DeflateSend, TailText, Raws;
    var lines := SplitLines(m.body);
    var head := HeadLines(m.sender, m.receivers, m.title, lines);
    var before: int := |m.receivers| + |lines|;
    var q := ParserState(AwaitingAttachments, TSend, -1 - before, 0, p.chunks + head);
    var r := ParserState(NewRequest, TSend, 0, 0, p.chunks + SendChunks(m, limit));
    SectionCompletes(q, m.attachments, rest, limit);
    assert q.chunks + [PrintInt(|m.attachments|)] + AttachmentChunks(AllChopped(m.attachments, limit)) == r.chunks;
    PrintedHeadCompletes(p, m, rest, r, rest, limit);
  }

  lemma DotLine(limit: nat)
    requires limit >= 16
    ensures WireLine(".", limit) && WireLine("SEND", limit)
  {
  }
}
