/** Which printed messages come through the framing whole: exactly those whose lines all fit. What a parser gathers
    from the bytes is compared with what the message says, line by line. */
module Arrival {
  import opened Text
  import opened Messages
  import opened Inflation
  import opened SendFormat
  import opened MessageParsing
  import opened Framing
  import opened Wire
  import opened Delivery
  import opened Agreement

  // ---------------------------------------------------------------- what one request gathers

  /** The chunks up to the one that ends the request, and the bytes after it; None when the stream does not get so
      far. */
  function Gathered(p: ParserState, s: string, limit: nat): Option<(seq<string>, string)>
    requires limit >= 2
    decreases |s|
  {
    match NextChunk(p.awaiting, limit, s)
    case Chunk(data, rest) => (
      var q := Digest(p, data).0;
      if q.phase == NewRequest then Some(([data], rest))
      else
        match Gathered(q, rest, limit)
        case Some((chunks, left)) => Some(([data] + chunks, left))
        case None => None
    )
    case _ => None
  }

  lemma GatheredCons(p: ParserState, s: string, limit: nat)
    requires limit >= 2 && Gathered(p, s, limit).Some?
    ensures var framed := NextChunk(p.awaiting, limit, s);
      framed.Chunk? &&
      var (chunks, left) := Gathered(p, s, limit).value;
      var q := Digest(p, framed.data).0;
      if q.phase == NewRequest then chunks == [framed.data] && left == framed.rest
      else
        Gathered(q, framed.rest, limit).Some? &&
        var (more, after) := Gathered(q, framed.rest, limit).value;
        chunks == [framed.data] + more && left == after
  {
    hide NextChunk, Digest;
  }

  /** The first thing a server does inside a request, if it answers at all, is to build the message the gathered
      chunks make. */
  lemma {:induction false} ServeGathered(p: ParserState, s: string, m: Message, limit: nat)
    requires limit >= 2 && p.phase != NewRequest
    requires Serve(p, s, limit).steps != [] && Serve(p, s, limit).steps[0] == Dispatched(m)
    ensures Gathered(p, s, limit).Some?
    ensures NewInstance(p.chunks + Gathered(p, s, limit).value.0) == Ok(m)
    decreases |s|
  {
    hide NextChunk, Digest, NewInstance;
    match NextChunk(p.awaiting, limit, s) {
      case Chunk(data, rest) =>
        var (q, step) := Digest(p, data);
        if q.phase == NewRequest {
          LastFinishes(p, data);
          FinishDispatches(p.(chunks := p.chunks + [data]), m);
          assert step.Dispatched? by { FinishPhase(p.(chunks := p.chunks + [data])); }
        } else {
          QuietAppends(p, data);
          ServeGathered(q, rest, m, limit);
          var more := Gathered(q, rest, limit).value.0;
          assert p.chunks + [data] + more == p.chunks + ([data] + more);
        }
      case _ =>
    }
  }

  // ---------------------------------------------------------------- the text, line by line

  /** A text line that comes out unchanged was a wire line, or it filled the buffer and left its newline behind. */
  lemma FrameEither(line: string, rest: string, limit: nat)
    requires limit >= 2 && OneLine(line)
    ensures var r := NextChunk(0, limit, line + "\n" + rest);
      && r.Chunk? && OneLine(r.data)
      && (r.data == line ==> (WireLine(line, limit) && r.rest == rest) || r.rest == "\n" + rest)
  {
    var s := line + "\n" + rest;
    FrameIsOneLine(s, limit);
    if |line| + 2 <= limit {
      FrameFitting(line, rest, limit);
    } else {
      NewlineAt(line, rest);
      assert s[|line|..] == "\n" + rest;
    }
  }

  lemma NewlineAt(line: string, rest: string)
    requires OneLine(line)
    ensures Find(line + "\n" + rest, '\n') == |line|
  {
    assert line + "\n" + rest == line + ['\n'] + rest;
    FindFirst(line, '\n', rest);
  }

  /** Two texts that begin with lines begin with the same line. */
  lemma SameFirstLine(a: string, s: string, b: string, t: string)
    requires OneLine(a) && OneLine(b) && a + "\n" + s <= b + "\n" + t
    ensures a == b && s <= t
  {
    var x, y := a + "\n" + s, b + "\n" + t;
    NewlineAt(a, s);
    NewlineAt(b, t);
    assert y == x + y[|x|..];
    assert y == a + "\n" + (s + y[|x|..]);
    NewlineAt(a, s + y[|x|..]);
    assert a == y[..|a|] && b == y[..|b|];
    assert y[|a| + 1..] == s + y[|x|..];
    assert y[|b| + 1..] == t;
  }

  /** The state and chunks of a text in which nothing ends it before its last line, a dot. */
  predicate InText(p: ParserState, lines: seq<string>) {
    && p.phase == Parsing && p.kind == TSend && p.awaiting == 0
    && p.total <= INT_MAX && INT_MIN < p.total - |lines| && p.total - |lines| <= 0
    && NoDotFrom(lines, p.total) && AllOneLine(lines)
  }

  lemma InTextNext(p: ParserState, lines: seq<string>)
    requires lines != [] && InText(p, lines)
    ensures InText(Fed(p, [lines[0]]), lines[1..]) && OneLine(lines[0])
    ensures Digest(p, lines[0]) == (Fed(p, [lines[0]]), Nothing)
    ensures lines + ["."] == [lines[0]] + (lines[1..] + ["."])
  {
    hide Digest;
    NoDotTail(lines, p.total);
    TextDigest(p, lines[0]);
  }

  /** One chunk of a text, and what it must be. */
  lemma TextChunk(p: ParserState, s: string, line: string, others: seq<string>, limit: nat) returns (more: seq<string>)
    requires limit >= 16 && p.phase == Parsing && p.kind == TSend && p.awaiting == 0 && OneLine(line)
    requires Gathered(p, s, limit).Some?
    requires JoinLines([line] + others) <= JoinLines(Gathered(p, s, limit).value.0)
    ensures var framed := NextChunk(0, limit, s);
      && framed.Chunk? && framed.data == line
      && Gathered(Digest(p, line).0, framed.rest, limit) == Some((more, Gathered(p, s, limit).value.1))
      && Gathered(p, s, limit).value.0 == [line] + more
      && JoinLines(others) <= JoinLines(more)
  {
    hide NextChunk, Digest, Gathered, JoinLines;
    GatheredCons(p, s, limit);
    var framed := NextChunk(0, limit, s);
    var chunks := Gathered(p, s, limit).value.0;
    more := chunks[1..];
    assert chunks == [framed.data] + more;
    FrameIsOneLine(s, limit);
    JoinedFirst(line, others);
    JoinedFirst(framed.data, more);
    SameFirstLine(line, JoinLines(others), framed.data, JoinLines(more));
    TextGoesOn(p, line);
    assert more == Gathered(Digest(p, line).0, framed.rest, limit).value.0;
  }

  lemma JoinedFirst(line: string, others: seq<string>)
    ensures JoinLines([line] + others) == line + "\n" + JoinLines(others)
  {
    assert ([line] + others)[1..] == others;
  }

  lemma TextGoesOn(p: ParserState, line: string)
    requires p.phase == Parsing && p.kind == TSend
    ensures Digest(p, line).0.phase != NewRequest
  {
  }

  /** After a line that filled the buffer the framing is one line behind: only empty lines can come out right, and
      the dot at the end cannot. */
  lemma {:induction false} BehindByOne(p: ParserState, lines: seq<string>, t: string, limit: nat)
    requires limit >= 16 && InText(p, lines)
    requires var s := "\n" + (JoinLines(lines + ["."]) + t);
      Gathered(p, s, limit).Some? && JoinLines(lines + ["."]) <= JoinLines(Gathered(p, s, limit).value.0)
    ensures false
    decreases |lines|
  {
    hide NextChunk, Digest, Gathered, JoinLines, Fed, NoDotFrom;
    var all := lines + ["."];
    var s := JoinLines(all) + t;
    EmptyFrame(s, limit);
    assert all == [all[0]] + all[1..];
    var more := TextChunk(p, "\n" + s, all[0], all[1..], limit);
    if lines != [] {
      InTextNext(p, lines);
      Prefixed(lines[0], lines[1..] + ["."], t);
      assert "" + "\n" + (JoinLines(lines[1..] + ["."]) + t) == "\n" + (JoinLines(lines[1..] + ["."]) + t);
      BehindByOne(Fed(p, [lines[0]]), lines[1..], t, limit);
    }
  }

  lemma EmptyFrame(s: string, limit: nat)
    requires limit >= 2
    ensures NextChunk(0, limit, "\n" + s) == Chunk("", s)
  {
    assert "" + "\n" + s == "\n" + s;
    FrameLine("", s, limit);
  }

  /** If the gathered chunks begin with the lines of a text, those were wire lines and came out one by one. */
  lemma {:induction false} TextGathered(p: ParserState, lines: seq<string>, t: string, limit: nat)
    returns (more: seq<string>)
    requires limit >= 16 && InText(p, lines)
    requires var s := JoinLines(lines + ["."]) + t;
      Gathered(p, s, limit).Some? && JoinLines(lines + ["."]) <= JoinLines(Gathered(p, s, limit).value.0)
    ensures WireLines(lines, limit)
    ensures var (chunks, left) := Gathered(p, JoinLines(lines + ["."]) + t, limit).value;
      && chunks == lines + ["."] + more
      && Gathered(Digest(Fed(p, lines), ".").0, t, limit) == Some((more, left))
    decreases |lines|
  {
    hide NextChunk, Digest, Gathered, JoinLines, Fed, NoDotFrom, WireLine;
    var all := lines + ["."];
    var s := JoinLines(all) + t;
    assert all == [all[0]] + all[1..];
    Prefixed(all[0], all[1..], t);
    if lines == [] {
      assert all == ["."] + [];
      DotLine(limit);
      NoLines(t);
      FrameLine(".", t, limit);
      FedNothing(p);
      more := TextChunk(p, s, ".", [], limit);
      assert lines + ["."] + more == ["."] + more;
    } else {
      var others := lines[1..];
      InTextNext(p, lines);
      FrameEither(lines[0], JoinLines(others + ["."]) + t, limit);
      var after := TextChunk(p, s, lines[0], others + ["."], limit);
      if NextChunk(0, limit, s).rest == "\n" + (JoinLines(others + ["."]) + t) {
        BehindByOne(Fed(p, [lines[0]]), others, t, limit);
      }
      more := TextGathered(Fed(p, [lines[0]]), others, t, limit);
      FedCons(p, lines);
      assert lines + ["."] + more == [lines[0]] + (others + ["."] + more);
    }
  }

  // ---------------------------------------------------------------- the attachments, one by one

  /** No attachment is empty, but perhaps the last. */
  predicate Gapless(attachments: seq<Attachment>) {
    forall i :: 0 <= i < |attachments| - 1 ==> attachments[i].data != ""
  }

  lemma ReadName(name: string, rest: string, previous: string)
    requires OneLine(name)
    ensures var r := ReadAttachment(LineSource(name + "\n" + rest, false, previous));
      r.Ok? ==> r.value.1.filename == name
    ensures !ReadAttachment(LineSource(name + "\n" + ("\n" + rest), false, previous)).Ok?
  {
    hide GetLine, ParseInt;
    GetLineStep(name, rest, previous);
    GetLineStep(name, "\n" + rest, previous);
    GetLineStep("", rest, name);
    assert "" + "\n" + rest == "\n" + rest;
    assert ParseInt32("").None? by { NoNumber(); }
  }

  lemma NoNumber()
    ensures ParseInt32("").None?
  {
  }

  /** The name line: any chunk is taken for it, but only the name itself can be read back. */
  lemma NameGathered(p: ParserState, name: string, t: string, previous: string, limit: nat) returns (more: seq<string>)
    requires limit >= 16 && p.phase == AwaitingAttachments && p.awaiting == 0
    requires 0 < p.total <= INT_MAX && p.total % 3 == 0 && OneLine(name)
    requires Gathered(p, name + "\n" + t, limit).Some?
    requires var r := ReadAttachment(
                        LineSource(JoinLines(Gathered(p, name + "\n" + t, limit).value.0), false, previous));
      r.Ok? && r.value.1.filename == name
    ensures WireLine(name, limit)
    ensures Gathered(p, name + "\n" + t, limit).value.0 == [name] + more
    ensures Gathered(p.(total := p.total - 1, chunks := p.chunks + [name]), t, limit)
         == Some((more, Gathered(p, name + "\n" + t, limit).value.1))
  {
    hide NextChunk, Digest, Gathered, JoinLines, WireLine, ReadAttachment, OneLine;
    var s := name + "\n" + t;
    FrameEither(name, t, limit);
    more := FirstOfAttachment(p, s, limit);
    var framed := NextChunk(0, limit, s);
    ReadFirst(framed.data, more, previous);
    if framed.rest == "\n" + t {
      var p1 := p.(total := p.total - 1, chunks := p.chunks + [framed.data]);
      NewlineIsNoSize(p1, t, limit);
      NoSizeRead(name, previous);
    }
  }

  /** Whatever the first chunk of an attachment is, it is taken for its name. */
  lemma FirstOfAttachment(p: ParserState, s: string, limit: nat) returns (more: seq<string>)
    requires limit >= 2 && p.phase == AwaitingAttachments && p.awaiting == 0
    requires 0 < p.total <= INT_MAX && p.total % 3 == 0 && Gathered(p, s, limit).Some?
    ensures var framed := NextChunk(0, limit, s);
      && framed.Chunk?
      && Gathered(p, s, limit).value.0 == [framed.data] + more
      && Gathered(p.(total := p.total - 1, chunks := p.chunks + [framed.data]), framed.rest, limit)
         == Some((more, Gathered(p, s, limit).value.1))
  {
    hide NextChunk, Digest, Gathered;
    GatheredCons(p, s, limit);
    var framed := NextChunk(0, limit, s);
    NameDigests(p, framed.data);
    more := Gathered(p.(total := p.total - 1, chunks := p.chunks + [framed.data]), framed.rest, limit).value.0;
  }

  /** What is read back for a name is the first of the chunks. */
  lemma ReadFirst(name: string, more: seq<string>, previous: string)
    requires OneLine(name)
    ensures var r := ReadAttachment(LineSource(JoinLines([name] + more), false, previous));
      r.Ok? ==> r.value.1.filename == name
  {
    hide ReadAttachment, JoinLines;
    JoinedFirst(name, more);
    ReadName(name, JoinLines(more), previous);
  }

  lemma NoSizeRead(name: string, previous: string)
    requires OneLine(name)
    ensures !ReadAttachment(LineSource(JoinLines([name] + [""]), false, previous)).Ok?
  {
    hide ReadAttachment, JoinLines;
    JoinedFirst(name, [""]);
    EmptyJoined();
    ReadName(name, JoinLines([]), previous);
  }

  lemma EmptyJoined()
    ensures JoinLines([""]) == "\n" + JoinLines([])
  {
    hide JoinLines;
    JoinedFirst("", []);
    assert [""] + [] == [""];
    assert "" + "\n" + JoinLines([]) == "\n" + JoinLines([]);
  }

  /** A newline left over from the name is taken for the size line. */
  lemma NewlineIsNoSize(p: ParserState, t: string, limit: nat)
    requires limit >= 16 && p.phase == AwaitingAttachments && p.awaiting == 0
    requires 0 < p.total <= INT_MAX && p.total % 3 == 2
    ensures Gathered(p, "\n" + t, limit) == Some(([""], t))
  {
    hide NextChunk, Digest;
    EmptyFrame(t, limit);
    BadSizeEnds(p);
  }

  lemma BadSizeEnds(p: ParserState)
    requires p.phase == AwaitingAttachments && 0 < p.total <= INT_MAX && p.total % 3 == 2
    ensures Digest(p, "").0.phase == NewRequest
  {
    hide ParseInt, NewInstance;
    NoNumber();
  }

  /** The size and the data of an attachment, once its name has come out. Without any data, and with nothing more on
      the stream, the request cannot end. */
  lemma DataGathered(p: ParserState, data: string, t: string, limit: nat) returns (more: seq<string>)
    requires limit >= 16 && p.phase == AwaitingAttachments && p.awaiting == 0
    requires 0 < p.total <= INT_MAX && p.total % 3 == 2 && |data| <= INT_MAX && (data == "" ==> t == "")
    requires Gathered(p, PrintInt(|data|) + "\n" + (data + t), limit).Some?
    ensures data != ""
    ensures var (chunks, left) := Gathered(p, PrintInt(|data|) + "\n" + (data + t), limit).value;
      var chopped := StripCR(data[..|data| - 1]);
      && chunks == [PrintInt(|data|), chopped] + more
      && (if p.total == 2 then more == []
          else
            Gathered(p.(total := p.total - 2, chunks := p.chunks + [PrintInt(|data|), chopped]), t, limit)
            == Some((more, left)))
  {
    hide NextChunk, Digest, Gathered, WireLine, PrintInt, ParseInt, StripCR;
    var n := |data|;
    var size := PrintInt(n);
    var s := size + "\n" + (data + t);
    NumberLine(n, limit);
    FrameLine(size, data + t, limit);
    GatheredCons(p, s, limit);
    SizeDigest(p, size, n);
    var p1 := p.(total := p.total - 1, awaiting := n, chunks := p.chunks + [size]);
    if data == "" {
      NothingGathered(p1, data, t, limit);
    } else {
      GatheredCons(p1, data + t, limit);
      FrameData(data, t, limit);
      var chopped := StripCR(data[..n - 1]);
      DataDigest(p1, chopped);
      var rest := Gathered(p1, data + t, limit).value.0;
      more := rest[1..];
      assert rest == [chopped] + more;
      assert Gathered(p, s, limit).value.0 == [size, chopped] + more;
      assert p.chunks + [size] + [chopped] == p.chunks + [size, chopped];
      if p.total > 2 {
        var p2 := p.(total := p.total - 2, chunks := p.chunks + [size, chopped]);
        assert Digest(p1, chopped).0 == p2;
        assert more == Gathered(p2, t, limit).value.0;
      }
    }
  }

  lemma NothingGathered(p: ParserState, data: string, t: string, limit: nat)
    requires limit >= 2 && p.awaiting == 0 && data == "" && t == ""
    ensures Gathered(p, data + t, limit) == None
  {
    hide Digest;
    EndOfFrames(limit);
  }

  lemma SizeDigest(p: ParserState, size: string, n: nat)
    requires p.phase == AwaitingAttachments && p.awaiting == 0 && 0 < p.total <= INT_MAX && p.total % 3 == 2
    requires ParseInt32(size) == Some(n)
    ensures Digest(p, size) == (p.(total := p.total - 1, awaiting := n, chunks := p.chunks + [size]), Nothing)
  {
    hide ParseInt, Finish;
  }

  lemma DataDigest(p: ParserState, data: string)
    requires p.phase == AwaitingAttachments && 0 < p.total <= INT_MAX && p.total % 3 == 1
    ensures if p.total == 1 then Digest(p, data).0.phase == NewRequest
            else Digest(p, data) == (p.(total := p.total - 1, awaiting := 0, chunks := p.chunks + [data]), Nothing)
  {
    hide ParseInt, NewInstance;
  }

  /** One attachment: if what was gathered for it reads back as it should, it was a wire attachment. */
  lemma AttachmentGathered(p: ParserState, a: Attachment, t: string, previous: string, limit: nat)
    returns (more: seq<string>)
    requires limit >= 16 && p.phase == AwaitingAttachments && p.awaiting == 0
    requires 0 < p.total <= INT_MAX && p.total % 3 == 0 && StorableAttachment(a) && (a.data == "" ==> t == "")
    requires Gathered(p, RawText(Raw(a)) + t, limit).Some?
    requires var r := ReadAttachment(
                        LineSource(JoinLines(Gathered(p, RawText(Raw(a)) + t, limit).value.0), false, previous));
      r.Ok? && r.value.1 == NormaliseAttachment(a)
    ensures WireAttachment(a, limit) && KeepsLength(a)
    ensures var (chunks, left) := Gathered(p, RawText(Raw(a)) + t, limit).value;
      var raw := Chopped(a);
      && JoinLines(chunks) == RawText(raw.(data := raw.data + "\n")) + JoinLines(more)
      && (if p.total == 3 then more == []
          else Gathered(p.(total := p.total - 3, chunks := p.chunks + [raw.name, raw.size, raw.data]), t, limit)
               == Some((more, left)))
  {
    hide NextChunk, Digest, Gathered, JoinLines, WireLine, ReadAttachment, PrintInt, StripCR, RawText;
    var s := PrintInt(|a.data|) + "\n" + (a.data + t);
    RawSplit(a, t);
    var after := NameGathered(p, a.filename, s, previous, limit);
    var p1 := p.(total := p.total - 1, chunks := p.chunks + [a.filename]);
    more := DataGathered(p1, a.data, t, limit);
    var raw := Chopped(a);
    var chunks := Gathered(p, RawText(Raw(a)) + t, limit).value.0;
    assert chunks == [raw.name, raw.size, raw.data] + more;
    assert p1.chunks + [raw.size, raw.data] == p.chunks + [raw.name, raw.size, raw.data];
    ThreeJoined(raw, more);
    if !KeepsLength(a) {
      ShortAttachment(a, JoinLines(more), previous, limit);
    }
  }

  lemma RawSplit(a: Attachment, t: string)
    ensures RawText(Raw(a)) + t == a.filename + "\n" + (PrintInt(|a.data|) + "\n" + (a.data + t))
  {
    hide PrintInt;
  }

  lemma ThreeJoined(raw: RawAttachment, more: seq<string>)
    ensures JoinLines([raw.name, raw.size, raw.data] + more) == RawText(raw.(data := raw.data + "\n")) + JoinLines(more)
  {
    hide JoinLines;
    JoinLinesConcat([raw.name, raw.size, raw.data], more);
    JoinThree(raw.name, raw.size, raw.data);
    assert raw.name + "\n" + raw.size + "\n" + raw.data + "\n" == raw.name + "\n" + raw.size + "\n" + (raw.data + "\n");
  }

  lemma GaplessTail(attachments: seq<Attachment>)
    requires attachments != [] && Gapless(attachments) && StorableAttachments(attachments)
    ensures StorableAttachment(attachments[0]) && StorableAttachments(attachments[1..]) && Gapless(attachments[1..])
    ensures |attachments| > 1 ==> attachments[0].data != ""
  {
  }

  lemma WireCons(attachments: seq<Attachment>, limit: nat)
    requires attachments != [] && WireAttachment(attachments[0], limit) && KeepsLength(attachments[0])
    requires WireAttachments(attachments[1..], limit) && AllKeepLength(attachments[1..])
    ensures WireAttachments(attachments, limit) && AllKeepLength(attachments)
  {
    hide WireAttachment, KeepsLength;
    assert attachments == [attachments[0]] + attachments[1..];
  }

  /** If the gathered chunks of a section read back as its attachments should, those were wire attachments that keep
      their length. */
  lemma {:induction false} AttachmentsGathered(
      p: ParserState, attachments: seq<Attachment>, rest: string, previous: string, acc: seq<Attachment>, limit: nat)
    requires limit >= 16 && p.phase == AwaitingAttachments && p.awaiting == 0
    requires attachments != [] && p.total == 3 * |attachments| <= INT_MAX
    requires StorableAttachments(attachments) && Gapless(attachments)
    requires attachments[|attachments| - 1].data == "" ==> rest == ""
    requires var s := RawTexts(Raws(attachments)) + rest;
      && Gathered(p, s, limit).Some?
      && ReadAttachments(LineSource(JoinLines(Gathered(p, s, limit).value.0), false, previous), |attachments|, acc)
         == Ok(acc + NormaliseAttachments(attachments))
    ensures WireAttachments(attachments, limit) && AllKeepLength(attachments)
    decreases |attachments|
  {
    hide Gathered, JoinLines, ReadAttachment, ReadAttachments, RawTexts, RawText, Raw, Raws, NormaliseAttachment,
      NormaliseAttachments, Chopped, KeepsLength, AllKeepLength, WireAttachment, WireAttachments, StorableAttachment,
      StorableAttachments, Gapless;
    var a, others := attachments[0], attachments[1..];
    var t := RawTexts(Raws(others)) + rest;
    GaplessTail(attachments);
    NormaliseCons(attachments);
    RawsCons(attachments);
    RawTextsCons(Raw(a), Raws(others));
    JoinedText(RawText(Raw(a)), RawTexts(Raws(others)), rest);
    var s := RawText(Raw(a)) + t;
    var chunks := Gathered(p, s, limit).value.0;
    FirstRead(LineSource(JoinLines(chunks), false, previous), |attachments|, acc, NormaliseAttachment(a),
              NormaliseAttachments(others));
    if others == [] {
      NothingRaw(rest);
    }
    var more := AttachmentGathered(p, a, t, previous, limit);
    if others == [] {
      NoneWire(others, limit);
    } else {
      KeptRead(a, JoinLines(more), previous, |attachments|, acc, limit);
      Prepended(acc, NormaliseAttachment(a), NormaliseAttachments(others));
      var raw := Chopped(a);
      AttachmentsGathered(p.(total := p.total - 3, chunks := p.chunks + [raw.name, raw.size, raw.data]), others, rest,
                          raw.size, acc + [NormaliseAttachment(a)], limit);
    }
    WireCons(attachments, limit);
  }

  lemma NoneWire(attachments: seq<Attachment>, limit: nat)
    requires attachments == []
    ensures WireAttachments(attachments, limit) && AllKeepLength(attachments)
  {
  }

  /** If a list comes out right, its first attachment does. */
  lemma FirstRead(s: LineSource, count: nat, acc: seq<Attachment>, good: Attachment, others: seq<Attachment>)
    requires count > 0 && ReadAttachments(s, count, acc) == Ok(acc + ([good] + others))
    ensures ReadAttachment(s).Ok? && ReadAttachment(s).value.1 == good
  {
    hide ReadAttachment;
    if !(ReadAttachment(s).Ok? && ReadAttachment(s).value.1 == good) {
      MisreadFirst(s, count, acc, good, others);
    }
  }

  lemma KeptRead(a: Attachment, rest: string, previous: string, count: nat, acc: seq<Attachment>, limit: nat)
    requires limit >= 16 && WireAttachment(a, limit) && KeepsLength(a) && count > 0
    ensures var raw := Chopped(a);
      ReadAttachments(LineSource(RawText(raw.(data := raw.data + "\n")) + rest, false, previous), count, acc)
      == ReadAttachments(LineSource(rest, false, raw.size), count - 1, acc + [NormaliseAttachment(a)])
  {
    KeptAttachment(a, limit);
    hide ReadAttachment, ReadAttachments, RawText, Chopped, NormaliseAttachment;
    var raw := Chopped(a).(data := Chopped(a).data + "\n");
    ReadAttachmentBack(raw, rest, previous);
    ReadStep(LineSource(RawText(raw) + rest, false, previous), count, LineSource(rest, false, raw.size),
             NormaliseAttachment(a), acc);
  }

  /** The same from the count line on. */
  lemma SectionGathered(p: ParserState, attachments: seq<Attachment>, rest: string, limit: nat)
    requires limit >= 16 && p.phase == AwaitingAttachments && p.awaiting == 0 && INT_MIN < p.total < 0
    requires 3 * |attachments| <= INT_MAX && StorableAttachments(attachments) && Gapless(attachments)
    requires EndsEmpty(attachments) ==> rest == ""
    requires var s := TailText(PrintInt(|attachments|), Raws(attachments)) + rest;
      && Gathered(p, s, limit).Some?
      && ReadTail(LineSource(JoinLines(Gathered(p, s, limit).value.0), false, "."))
         == Ok(NormaliseAttachments(attachments))
    ensures WireAttachments(attachments, limit) && AllKeepLength(attachments)
  {
    hide NextChunk, Digest, Gathered, JoinLines, ReadAttachments, RawTexts, Raws, NormaliseAttachments, PrintInt,
      ParseInt, WireAttachments, WireLine, AllKeepLength, StorableAttachments, Gapless, GetLine;
    if attachments == [] {
      NoneWire(attachments, limit);
    } else {
      var n := |attachments|;
      var count := PrintInt(n);
      var t := RawTexts(Raws(attachments)) + rest;
      JoinedText(count + "\n", RawTexts(Raws(attachments)), rest);
      NumberLine(n, limit);
      WireOneLine(count, limit);
      FrameLine(count, t, limit);
      CountDigests(p, count, n);
      GatheredCons(p, count + "\n" + t, limit);
      var q := p.(total := 3 * n, chunks := p.chunks + [count]);
      var chunks := Gathered(q, t, limit).value.0;
      JoinedFirst(count, chunks);
      GetLineStep(count, JoinLines(chunks), ".");
      assert [] + NormaliseAttachments(attachments) == NormaliseAttachments(attachments);
      AttachmentsGathered(q, attachments, rest, count, [], limit);
    }
  }

  predicate EndsEmpty(attachments: seq<Attachment>) {
    attachments != [] && attachments[|attachments| - 1].data == ""
  }

  // ---------------------------------------------------------------- the whole message

  /** A message that can be stored and whose printed form is read in the one way it is meant: no dot is taken for the
      end of the text too early, and no line for the data of an empty attachment, but perhaps after the last. */
  predicate Plain(m: SendMessage) {
    && Storable(m) && NoEarlyDot(m.receivers, m.title) && Gapless(m.attachments)
    && |m.receivers| + |SplitLines(m.body)| + 4 <= INT_MAX && 3 * |m.attachments| <= INT_MAX
  }

  lemma PlainText(m: SendMessage)
    requires Plain(m)
    ensures var text := TextLines(m.sender, m.receivers, m.title, SplitLines(m.body));
      InText(KEYWORD_READ, text)
  {
    hide SplitLines;
    var lines := SplitLines(m.body);
    var text := TextLines(m.sender, m.receivers, m.title, lines);
    TextLength(m.sender, m.receivers, m.title, lines);
    NoDotInText(m.sender, m.receivers, m.title, lines);
    hide NoEarlyDot, NoDotFrom;
    assert OneLine(EOT);
    forall i | 0 <= i < |m.receivers| ensures OneLine(m.receivers[i]) {
      assert ReceiverLine(m.receivers[i]);
    }
  }

  const KEYWORD_READ := ParserState(Parsing, TSend, 3, 0, ["SEND"])

  /** The keyword, with which every message begins. */
  lemma KeywordGathered(p: ParserState, t: string, limit: nat)
    requires limit >= 16 && Ready(p)
    ensures NextChunk(p.awaiting, limit, "SEND" + "\n" + t) == Chunk("SEND", t)
    ensures Digest(p, "SEND") == (KEYWORD_READ, Nothing)
    ensures Gathered(p, "SEND" + "\n" + t, limit)
         == match Gathered(KEYWORD_READ, t, limit)
            case Some((chunks, left)) => Some((["SEND"] + chunks, left))
            case None => None
  {
    hide NextChunk;
    DotLine(limit);
    FrameLine("SEND", t, limit);
    assert p.chunks + ["SEND"] == ["SEND"];
    assert Digest(p, "SEND") == (KEYWORD_READ, Nothing);
    hide Digest;
  }

  /** The printed message in three pieces. */
  lemma PrintedPieces(m: SendMessage, rest: string)
    requires Terminated(m.body)
    ensures var text := TextLines(m.sender, m.receivers, m.title, SplitLines(m.body));
      DeflateSend(m) + rest
      == "SEND" + "\n" + (JoinLines(text + ["."]) + (TailText(PrintInt(|m.attachments|), Raws(m.attachments)) + rest))
  {
    hide DeflateSend, JoinLines, HeadLines, TailText, PrintInt, Raws, SplitLines, TextLines;
    var lines := SplitLines(m.body);
    var text := TextLines(m.sender, m.receivers, m.title, lines);
    var tail := TailText(PrintInt(|m.attachments|), Raws(m.attachments));
    DeflateSendHead(m);
    HeadIsText(m.sender, m.receivers, m.title, lines);
    assert ["SEND"] + text + ["."] == ["SEND"] + (text + ["."]);
    JoinedText(JoinLines(["SEND"] + (text + ["."])), tail, rest);
    Prefixed("SEND", text + ["."], tail + rest);
  }

  /** Chunks the factory builds the message from begin with its text, and its attachments are read from there. */
  lemma FactoryBegins(m: SendMessage, chunks: seq<string>)
    requires NewInstance(["SEND"] + chunks) == Ok(Send(NormaliseSend(m)))
    ensures Terminated(m.body)
    ensures var text := JoinLines(TextLines(m.sender, m.receivers, m.title, SplitLines(m.body)) + ["."]);
      && text <= JoinLines(chunks)
      && ReadTail(LineSource(JoinLines(chunks)[|text|..], false, ".")) == Ok(NormaliseAttachments(m.attachments))
  {
    hide InflateSend, ReadTail, JoinLines, HeadLines, NormaliseAttachments, SplitLines, TextLines;
    var all := ["SEND"] + chunks;
    assert all[0] == "SEND";
    InflateBegins(JoinLines(all));
    var lines := SplitLines(m.body);
    var text := TextLines(m.sender, m.receivers, m.title, lines) + ["."];
    HeadIsText(m.sender, m.receivers, m.title, lines);
    assert ["SEND"] + TextLines(m.sender, m.receivers, m.title, lines) + ["."] == ["SEND"] + text;
    JoinedFirst("SEND", text);
    JoinedFirst("SEND", chunks);
    SameStart("SEND" + "\n", JoinLines(text), JoinLines(chunks));
  }

  lemma SameStart(a: string, b: string, c: string)
    requires a + b <= a + c
    ensures b <= c && c[|b|..] == (a + c)[|a + b|..]
  {
    assert (a + b)[|a|..] == b && (a + c)[|a|..] == c;
  }

  /** A plain message that is gathered and built as it should be fits: its lines are wire lines, its attachments are
      not empty, and none is cut short. */
  lemma OnlyWireGathered(p: ParserState, m: SendMessage, rest: string, limit: nat)
    requires limit >= 16 && Ready(p) && Plain(m) && (EndsEmpty(m.attachments) ==> rest == "")
    requires Gathered(p, DeflateSend(m) + rest, limit).Some?
    requires NewInstance(Gathered(p, DeflateSend(m) + rest, limit).value.0) == Ok(Send(NormaliseSend(m)))
    ensures WireSend(m, limit) && AllKeepLength(m.attachments)
  {
    PlainText(m);
    PlainParts(m);
    hide Gathered, NewInstance, DeflateSend, JoinLines, TailText, PrintInt, Raws, SplitLines, TextLines, InText, Digest,
      Fed, ReadTail, NormaliseSend, NormaliseAttachments, Plain, EndsEmpty, Gapless, StorableAttachments, BodyText;
    var lines := SplitLines(m.body);
    var text := TextLines(m.sender, m.receivers, m.title, lines);
    var tail := TailText(PrintInt(|m.attachments|), Raws(m.attachments)) + rest;
    var q := KEYWORD_READ;
    PrintedPieces(m, rest);
    KeywordGathered(p, JoinLines(text + ["."]) + tail, limit);
    var chunks := Gathered(q, JoinLines(text + ["."]) + tail, limit).value.0;
    FactoryBegins(m, chunks);
    var more := TextGathered(q, text, tail, limit);
    JoinLinesConcat(text + ["."], more);
    AfterText(q, m);
    SectionGathered(Digest(Fed(q, text), ".").0, m.attachments, rest, limit);
    FittingSend(m, limit);
  }

  lemma PlainParts(m: SendMessage)
    requires Plain(m)
    ensures Terminated(m.body) && BodyText(m.body) && StorableAttachments(m.attachments) && Gapless(m.attachments)
    ensures 3 * |m.attachments| <= INT_MAX
  {
  }

  /** The parser where the attachment section begins. */
  lemma AfterText(q: ParserState, m: SendMessage)
    requires Plain(m) && q == KEYWORD_READ
    ensures var p := Digest(Fed(q, TextLines(m.sender, m.receivers, m.title, SplitLines(m.body))), ".").0;
      p.phase == AwaitingAttachments && p.awaiting == 0 && INT_MIN < p.total < 0
  {
    PlainParts(m);
    hide SplitLines, Digest, Storable, NoEarlyDot;
    var lines := SplitLines(m.body);
    TextLength(m.sender, m.receivers, m.title, lines);
    DotDigest(Fed(q, TextLines(m.sender, m.receivers, m.title, lines)));
  }

  lemma FittingSend(m: SendMessage, limit: nat)
    requires Plain(m) && WireAttachments(m.attachments, limit)
    requires WireLines(TextLines(m.sender, m.receivers, m.title, SplitLines(m.body)), limit)
    ensures WireSend(m, limit)
  {
    hide WireLine, SplitLines, NoEarlyDot, WireAttachment;
    var lines := SplitLines(m.body);
    var text := TextLines(m.sender, m.receivers, m.title, lines);
    var n := |m.receivers|;
    assert text[0] == m.sender && text[n + 2] == m.title;
    forall i | 0 <= i < n ensures WireLine(m.receivers[i], limit) && m.receivers[i] != EOT {
      assert text[i + 1] == m.receivers[i] && ReceiverLine(m.receivers[i]);
    }
    forall i | 0 <= i < |lines| ensures WireLine(lines[i], limit) {
      assert text[n + 3 + i] == lines[i];
    }
  }

  // ---------------------------------------------------------------- exactly when

  /** A completed request that the factory accepts is gathered whole. */
  lemma {:induction false} CompletesGathered(
      p: ParserState, s: string, r: ParserState, rest: string, m: Message, limit: nat)
    requires limit >= 2 && p.phase != NewRequest && Completes(p, s, r, rest, limit) && NewInstance(r.chunks) == Ok(m)
    ensures Gathered(p, s, limit).Some? && Gathered(p, s, limit).value.1 == rest
    ensures NewInstance(p.chunks + Gathered(p, s, limit).value.0) == Ok(m)
    decreases |s|
  {
    hide NextChunk, Digest, NewInstance, Finish;
    var framed := NextChunk(p.awaiting, limit, s);
    var (q, step) := Digest(p, framed.data);
    if q.phase == NewRequest {
      LastFinishes(p, framed.data);
      FinishDispatches(r, m);
      FinishDispatches(p.(chunks := p.chunks + [framed.data]), m);
    } else {
      QuietAppends(p, framed.data);
      CompletesGathered(q, framed.rest, r, rest, m, limit);
      var more := Gathered(q, framed.rest, limit).value.0;
      assert p.chunks + [framed.data] + more == p.chunks + ([framed.data] + more);
    }
  }

  /** The bytes of the message, cut and parsed like those of any SEND request, are one whole request, and what is
      built from it is the message with the last byte of each attachment replaced. */
  predicate Whole(m: SendMessage, limit: nat)
    requires limit >= 2
  {
    match Gathered(START, DeflateSend(m), limit)
    case Some((chunks, left)) => left == "" && NewInstance(chunks) == Ok(Send(NormaliseSend(m)))
    case None => false
  }

  /** Every printed message begins with its keyword. */
  lemma KeywordFirst(m: SendMessage, rest: string) returns (t: string)
    ensures DeflateSend(m) + rest == "SEND" + "\n" + t
  {
    hide JoinLines, PrintInt, RawTexts, Raws;
    t := (DeflateSend(m) + rest)[5..];
    assert DeflateSend(m)[..5] == "SEND\n" by { StartsWith(m); }
    assert "SEND" + "\n" == "SEND\n";
  }

  lemma StartsWith(m: SendMessage)
    ensures |DeflateSend(m)| >= 5 && DeflateSend(m)[..5] == "SEND\n"
  {
    hide JoinLines, PrintInt, RawTexts, Raws;
  }

  /** A completed SEND request that gives the message brings it through whole. */
  lemma CompletesWhole(m: SendMessage, r: ParserState, limit: nat)
    requires limit >= 16 && Completes(START, DeflateSend(m), r, "", limit)
    requires NewInstance(r.chunks) == Ok(Send(NormaliseSend(m)))
    ensures Whole(m, limit)
  {
    hide NextChunk, Digest, NewInstance, Gathered, DeflateSend, NormaliseSend;
    var t := KeywordFirst(m, "");
    assert DeflateSend(m) + "" == DeflateSend(m);
    KeywordGathered(START, t, limit);
    CompletesGathered(KEYWORD_READ, t, r, "", Send(NormaliseSend(m)), limit);
  }

  /** The whole of a plain message comes through exactly when every line fits and no attachment is cut short. */
  lemma WholeIff(m: SendMessage, limit: nat)
    requires limit >= 16 && Plain(m)
    ensures Whole(m, limit) <==> WireSend(m, limit) && AllKeepLength(m.attachments)
  {
    hide Gathered, NewInstance, DeflateSend, WireSend, AllKeepLength, NormaliseSend, Plain, SendChunks, Completes;
    assert DeflateSend(m) + "" == DeflateSend(m);
    if WireSend(m, limit) && AllKeepLength(m.attachments) {
      WireWhole(m, limit);
    } else if Whole(m, limit) {
      OnlyWireGathered(START, m, "", limit);
    }
  }

  lemma WireWhole(m: SendMessage, limit: nat)
    requires limit >= 16 && WireSend(m, limit) && AllKeepLength(m.attachments)
    ensures Whole(m, limit)
  {
    hide Whole, NewInstance, DeflateSend, WireSend, AllKeepLength, NormaliseSend, SendChunks, Completes;
    assert DeflateSend(m) + "" == DeflateSend(m);
    SendCompletes(START, m, "", limit);
    SendFactoryIff(m, limit);
    assert START.chunks + SendChunks(m, limit) == SendChunks(m, limit);
    CompletesWhole(m, ParserState(NewRequest, TSend, 0, 0, SendChunks(m, limit)), limit);
  }

  /** Which messages travel: of the plain ones those whose lines all fit and whose attachments are not cut short; of
      the others, where an early dot or an empty attachment makes other lines of the message part of its framing,
      those the framing happens to bring back. */
  predicate MailTravels(m: SendMessage, limit: nat)
    requires limit >= 2
  {
    if Plain(m) then WireSend(m, limit) && AllKeepLength(m.attachments) else Whole(m, limit)
  }

  lemma MailTravelsIff(m: SendMessage, limit: nat)
    requires limit >= 16
    ensures MailTravels(m, limit) <==> Whole(m, limit)
    ensures WireSend(m, limit) && AllKeepLength(m.attachments) ==> MailTravels(m, limit)
  {
    hide Plain, Whole, WireSend, AllKeepLength;
    if Plain(m) {
      WholeIff(m, limit);
    }
    if WireSend(m, limit) && AllKeepLength(m.attachments) {
      WireWhole(m, limit);
    }
  }

  /** Over the whole connection: a plain message without empty attachments is delivered, with its last bytes replaced,
      and its bytes are consumed exactly, if and only if every line fits and no attachment is cut short. */
  lemma SendArrivesIff(p: ParserState, m: SendMessage, rest: string, limit: nat)
    requires limit >= 16 && Ready(p) && Plain(m) && !EndsEmpty(m.attachments)
    ensures Serve(p, DeflateSend(m) + rest, limit)
         == Serve(ParserState(NewRequest, TSend, 0, 0, []), rest, limit).Prepend(Dispatched(Send(NormaliseSend(m))))
       <==> WireSend(m, limit) && AllKeepLength(m.attachments)
  {
    hide Gathered, Serve, NewInstance, DeflateSend, WireSend, AllKeepLength, NormaliseSend, Plain, SendChunks,
      RequestChunks;
    var n := Send(NormaliseSend(m));
    var expected := Serve(ParserState(NewRequest, TSend, 0, 0, []), rest, limit).Prepend(Dispatched(n));
    if WireSend(m, limit) && AllKeepLength(m.attachments) {
      SendDeliveredIff(p, m, rest, limit);
    } else if Serve(p, DeflateSend(m) + rest, limit) == expected {
      assert expected.steps[0] == Dispatched(n);
      AnsweredGathered(p, m, rest, n, limit);
      OnlyWireGathered(p, m, rest, limit);
    }
  }

  lemma AnsweredGathered(p: ParserState, m: SendMessage, rest: string, n: Message, limit: nat)
    requires limit >= 16 && Ready(p)
    requires var served := Serve(p, DeflateSend(m) + rest, limit);
      served.steps != [] && served.steps[0] == Dispatched(n)
    ensures Gathered(p, DeflateSend(m) + rest, limit).Some?
    ensures NewInstance(Gathered(p, DeflateSend(m) + rest, limit).value.0) == Ok(n)
  {
    hide NextChunk, Digest, NewInstance, Gathered, DeflateSend;
    var t := KeywordFirst(m, rest);
    KeywordGathered(p, t, limit);
    ServeGathered(KEYWORD_READ, t, n, limit);
  }

  // ---------------------------------------------------------------- messages that do not, and one that does

  /** The smallest message whose only attachment is empty: nobody it is printed for ever gets it whole. */
  const EMPTY_FILE := SendMessage("a", ["b"], "t", "", [Attachment("f", "")])

  lemma EmptyFileExample(limit: nat)
    requires limit >= 16
    ensures Plain(EMPTY_FILE) && !Whole(EMPTY_FILE, limit)
  {
    assert !WireAttachment(EMPTY_FILE.attachments[0], limit);
    EmptyFilePlain();
    hide Plain, Whole, AllKeepLength, WireAttachment;
    WholeIff(EMPTY_FILE, limit);
  }

  lemma EmptyFilePlain()
    ensures Plain(EMPTY_FILE)
  {
    assert SplitLines("") == [];
  }

  /** A line that fills the buffer. */
  lemma FullBodyExample(limit: nat) returns (m: SendMessage)
    requires limit >= 16
    ensures Plain(m) && m.receivers != [] && m.attachments == [] && !Whole(m, limit)
  {
    var line := seq(limit - 1, i => 'x');
    m := SendMessage("a", ["b"], "t", line + "\n", []);
    FullBodyPlain(line);
    FullBodyTooLong(line, limit);
    hide Plain, Whole, WireSend;
    WholeIff(m, limit);
  }

  lemma FullBodyTooLong(line: string, limit: nat)
    requires OneLine(line) && line != "." && |line| == limit - 1
    ensures !WireSend(SendMessage("a", ["b"], "t", line + "\n", []), limit)
  {
    FullBodyPlain(line);
    hide SplitLines;
    assert !WireLine([line][0], limit);
  }

  lemma FullBodyPlain(line: string)
    requires OneLine(line) && line != "."
    ensures Plain(SendMessage("a", ["b"], "t", line + "\n", []))
    ensures SplitLines(line + "\n") == [line]
  {
    JoinLinesOne(line);
    JoinThenSplit([line]);
    hide SplitLines;
  }
}
