/** What becomes of attachments with a carriage return just before the last byte. The framing drops two bytes of
    them, one newline comes back, and `inflate` makes up the announced size with a byte of what follows. */
module Corruption {
  import opened Text
  import opened Messages
  import opened Inflation
  import opened SendFormat
  import opened MessageParsing
  import opened Framing
  import opened Wire
  import opened Delivery
  import opened Failures

  function FirstOf(s: string): string {
    if s == "" then "" else s[..1]
  }

  /** The attachments as they are read: one that is a byte short takes the first byte of the next file name, or of
      `next` after the last attachment. `stolen`: the first file name here has lost its first byte. */
  function Shifted(attachments: seq<Attachment>, stolen: bool, next: string): seq<Attachment> {
    if attachments == [] then []
    else
      var a := attachments[0];
      var name := if stolen && a.filename != "" then a.filename[1..] else a.filename;
      var follow := FirstOf(if |attachments| > 1 then attachments[1].filename else next);
      var data := if KeepsLength(a) then NormaliseAttachment(a).data else a.data[..|a.data| - 2] + "\n" + follow;
      [Attachment(name, data)] + Shifted(attachments[1..], !KeepsLength(a), next)
  }

  /** There is a file name to take a byte of. */
  predicate NamedAfterShort(attachments: seq<Attachment>) {
    forall i :: 0 < i < |attachments| && !KeepsLength(attachments[i - 1]) ==> attachments[i].filename != ""
  }

  predicate EndsShort(attachments: seq<Attachment>) {
    attachments != [] && !KeepsLength(attachments[|attachments| - 1])
  }

  /** The attachments as the factory gets them, the first name without its first byte if that was taken. */
  function Remaining(attachments: seq<Attachment>, stolen: bool, limit: nat): seq<RawAttachment>
    requires WireAttachments(attachments, limit)
    requires stolen ==> attachments != [] && attachments[0].filename != ""
  {
    var raws := Newlined(AllChopped(attachments, limit));
    if stolen then [raws[0].(name := raws[0].name[1..])] + raws[1..] else raws
  }

  /** The first attachment that remains. */
  function FirstRaw(a: Attachment, stolen: bool): RawAttachment
    requires a.data != "" && (stolen ==> a.filename != "")
  {
    RawAttachment(if stolen then a.filename[1..] else a.filename, PrintInt(|a.data|), Chopped(a).data + "\n")
  }

  lemma RemainingCons(attachments: seq<Attachment>, stolen: bool, limit: nat)
    requires attachments != [] && WireAttachments(attachments, limit)
    requires stolen ==> attachments[0].filename != ""
    ensures WireAttachment(attachments[0], limit)
    ensures Remaining(attachments, stolen, limit)
         == [FirstRaw(attachments[0], stolen)] + Remaining(attachments[1..], false, limit)
  {
    hide WireLine, PrintInt, StripCR, Newlined, AllChopped;
    ChoppedCons(attachments, limit);
  }

  /** An attachment of the announced size is read as it is; one that is a byte short takes a byte more. */
  lemma ReadKept(a: Attachment, stolen: bool, rest: string, previous: string, limit: nat)
    requires limit >= 16 && WireAttachment(a, limit) && KeepsLength(a) && (stolen ==> a.filename != "")
    ensures var raw := FirstRaw(a, stolen);
      ReadAttachment(LineSource(RawText(raw) + rest, false, previous))
      == Ok((LineSource(rest, false, raw.size), Attachment(raw.name, NormaliseAttachment(a).data)))
  {
    KeptAttachment(a, limit);
    hide ReadAttachment, WireLine, PrintInt, ParseInt, RawText;
    ReadAttachmentBack(FirstRaw(a, stolen), rest, previous);
  }

  lemma ReadShort(a: Attachment, stolen: bool, rest: string, previous: string, limit: nat)
    requires limit >= 16 && WireAttachment(a, limit) && !KeepsLength(a) && (stolen ==> a.filename != "")
    ensures var raw := FirstRaw(a, stolen);
      ReadAttachment(LineSource(RawText(raw) + rest, false, previous))
      == if rest == "" then BadConversion
         else Ok((LineSource(rest[1..], false, raw.size),
                  Attachment(raw.name, a.data[..|a.data| - 2] + "\n" + rest[..1])))
  {
    hide ReadAttachment, PrintInt, ParseInt, RawText, FromData, StripCR;
    ShortRaw(a, stolen, limit);
    var raw := FirstRaw(a, stolen);
    hide FirstRaw, WireAttachment, KeepsLength;
    ReadAttachmentLines(raw, rest, previous);
    FromShortData(raw.name, raw.size, raw.data, rest);
  }

  lemma ShortRaw(a: Attachment, stolen: bool, limit: nat)
    requires limit >= 16 && WireAttachment(a, limit) && !KeepsLength(a) && (stolen ==> a.filename != "")
    ensures var raw := FirstRaw(a, stolen);
      && OneLine(raw.name) && OneLine(raw.size)
      && raw.data == a.data[..|a.data| - 2] + "\n" && ParseInt32(raw.size) == Some(|raw.data| + 1)
  {
    NumberLine(|a.data|, limit);
    WireOneLine(a.filename, limit);
    WireOneLine(PrintInt(|a.data|), limit);
    hide WireLine, PrintInt, ParseInt, StripCR;
    ShortChop(a.data);
  }

  lemma ShortChop(data: string)
    requires |data| >= 2 && data[|data| - 2] == '\r'
    ensures StripCR(data[..|data| - 1]) == data[..|data| - 2]
  {
    var s := data[..|data| - 1];
    assert s[..|s| - 1] == data[..|data| - 2];
  }

  lemma FromShortData(name: string, size: string, data: string, rest: string)
    requires ParseInt32(size) == Some(|data| + 1)
    ensures FromData(name, size, data + rest)
         == if rest == "" then BadConversion
            else Ok((LineSource(rest[1..], false, size), Attachment(name, data + rest[..1])))
  {
    hide ParseInt;
    if rest != "" {
      var all := data + rest;
      assert all[..|data| + 1] == data + rest[..1];
      assert all[|data| + 1..] == rest[1..];
    }
  }

  /** Without its first byte, a section begins with the rest of its first name. */
  lemma StolenText(attachments: seq<Attachment>, more: string, limit: nat)
    requires attachments != [] && WireAttachments(attachments, limit) && attachments[0].filename != ""
    ensures var text := RawTexts(Remaining(attachments, false, limit)) + more;
      && text != "" && text[..1] == attachments[0].filename[..1]
      && text[1..] == RawTexts(Remaining(attachments, true, limit)) + more
  {
    hide WireLine, PrintInt, Remaining, StripCR;
    RemainingCons(attachments, false, limit);
    RemainingCons(attachments, true, limit);
    hide WireAttachments;
    var name := attachments[0].filename;
    var first, second := FirstRaw(attachments[0], false), FirstRaw(attachments[0], true);
    var others := RawTexts(Remaining(attachments[1..], false, limit));
    RawTextsCons(first, Remaining(attachments[1..], false, limit));
    RawTextsCons(second, Remaining(attachments[1..], false, limit));
    CutFirst(name, "\n" + first.size + "\n" + first.data, others, more);
    assert RawText(first) == name + ("\n" + first.size + "\n" + first.data);
    assert RawText(second) == name[1..] + ("\n" + first.size + "\n" + first.data);
  }

  lemma CutFirst(name: string, a: string, b: string, c: string)
    requires name != ""
    ensures var text := name + a + b + c;
      text != "" && text[..1] == name[..1] && text[1..] == name[1..] + a + b + c
  {
  }

  lemma ShiftedCons(attachments: seq<Attachment>, stolen: bool, next: string)
    requires attachments != [] && attachments[0].data != "" && (stolen ==> attachments[0].filename != "")
    ensures var a := attachments[0];
      var follow := FirstOf(if |attachments| > 1 then attachments[1].filename else next);
      var data := if KeepsLength(a) then NormaliseAttachment(a).data else a.data[..|a.data| - 2] + "\n" + follow;
      Shifted(attachments, stolen, next)
      == [Attachment(FirstRaw(a, stolen).name, data)] + Shifted(attachments[1..], !KeepsLength(a), next)
  {
    hide PrintInt, Chopped;
  }

  lemma ShortTail(attachments: seq<Attachment>, limit: nat)
    requires attachments != [] && WireAttachments(attachments, limit) && NamedAfterShort(attachments)
    ensures WireAttachment(attachments[0], limit)
    ensures WireAttachments(attachments[1..], limit) && NamedAfterShort(attachments[1..])
    ensures EndsShort(attachments)
         == if |attachments| > 1 then EndsShort(attachments[1..]) else !KeepsLength(attachments[0])
    ensures |attachments| > 1 && !KeepsLength(attachments[0]) ==> attachments[1].filename != ""
  {
    hide WireAttachment, KeepsLength;
    var others := attachments[1..];
    forall i | 0 < i < |others| && !KeepsLength(others[i - 1]) ensures others[i].filename != "" {
      assert others[i - 1] == attachments[i];
    }
  }

  /** What is left to read after a section: a short last attachment takes the first byte. */
  function AfterShift(attachments: seq<Attachment>, more: string): string {
    if EndsShort(attachments) && more != "" then more[1..] else more
  }

  /** Some attachments of a section read back, whatever follows them and however many are still to come. */
  lemma {:induction false} ReadShifted(
      attachments: seq<Attachment>, stolen: bool, more: string, left: nat, previous: string, acc: seq<Attachment>,
      limit: nat) returns (last: string)
    requires limit >= 16 && WireAttachments(attachments, limit) && NamedAfterShort(attachments)
    requires stolen ==> attachments != [] && attachments[0].filename != ""
    ensures ReadAttachments(LineSource(RawTexts(Remaining(attachments, stolen, limit)) + more, false, previous),
                            |attachments| + left, acc)
         == if EndsShort(attachments) && more == "" then BadConversion
            else ReadAttachments(LineSource(AfterShift(attachments, more), false, last), left,
                                 acc + Shifted(attachments, stolen, more))
    decreases |attachments|
  {
    hide ReadAttachment, WireLine, Remaining, KeepsLength, NormaliseAttachment, FirstRaw, RawTexts, RawText, Shifted,
      ReadAttachments, NamedAfterShort, WireAttachment, WireAttachments, EndsShort;
    NoAttachments(more, limit);
    last := previous;
    if attachments == [] {
      assert acc + [] == acc;
    } else {
      ShortTail(attachments, limit);
      RemainingCons(attachments, stolen, limit);
      DataNotEmpty(attachments[0], limit);
      ShiftedCons(attachments, stolen, more);
      var a, others := attachments[0], attachments[1..];
      var raw := FirstRaw(a, stolen);
      var texts := RawTexts(Remaining(others, false, limit));
      var rest := texts + more;
      var s := LineSource(RawText(raw) + rest, false, previous);
      var count := |attachments| + left;
      RawTextsCons(raw, Remaining(others, false, limit));
      JoinedText(RawText(raw), texts, more);
      if KeepsLength(a) {
        var first := Attachment(raw.name, NormaliseAttachment(a).data);
        ReadKept(a, stolen, rest, previous, limit);
        ReadStep(s, count, LineSource(rest, false, raw.size), first, acc);
        last := ReadShifted(others, false, more, left, raw.size, acc + [first], limit);
        Prepended(acc, first, Shifted(others, false, more));
      } else if others == [] && more == "" {
        ReadShort(a, stolen, rest, previous, limit);
        ReadFails(s, count, acc);
      } else {
        if others != [] {
          StolenText(others, more, limit);
        }
        var first := Attachment(raw.name, a.data[..|a.data| - 2] + "\n" + rest[..1]);
        ReadShort(a, stolen, rest, previous, limit);
        ReadStep(s, count, LineSource(rest[1..], false, raw.size), first, acc);
        if others == [] {
          last := raw.size;
          assert [first] + [] == [first];
        } else {
          last := ReadShifted(others, true, more, left, raw.size, acc + [first], limit);
          Prepended(acc, first, Shifted(others, true, more));
        }
      }
    }
  }

  lemma NoAttachments(more: string, limit: nat)
    ensures WireAttachments([], limit) && RawTexts(Remaining([], false, limit)) + more == more
    ensures forall stolen :: Shifted([], stolen, more) == []
    ensures !EndsShort([])
  {
    assert RawTexts(Remaining([], false, limit)) == "";
  }

  lemma DataNotEmpty(a: Attachment, limit: nat)
    requires WireAttachment(a, limit)
    ensures a.data != "" && (!KeepsLength(a) ==> |a.data| >= 2)
  {
  }

  /** The message with its attachments so shifted. */
  function ShiftedSend(m: SendMessage, next: string): SendMessage {
    m.(attachments := Shifted(m.attachments, false, next))
  }

  /** The factory on the chunks of such a request, and on those chunks followed by later ones. */
  lemma ShiftedFactory(m: SendMessage, later: seq<string>, limit: nat)
    requires limit >= 16 && WireSend(m, limit) && NamedAfterShort(m.attachments)
    ensures NewInstance(SendChunks(m, limit) + later)
         == if EndsShort(m.attachments) && later == [] then BadConversion
            else Ok(Send(ShiftedSend(m, JoinLines(later))))
  {
    WireSendLines(m, limit);
    SplitThenJoin(m.body);
    hide InflateSend, ReadTail, HeadLines, PrintInt, ParseInt, TailText, AllChopped, AttachmentChunks, SplitLines,
      WireAttachments, NoEarlyDot, ReceiverLines, BodyText, Shifted, EndsShort, NamedAfterShort;
    var lines := SplitLines(m.body);
    var count := PrintInt(|m.attachments|);
    var chopped := AllChopped(m.attachments, limit);
    var head := HeadLines(m.sender, m.receivers, m.title, lines);
    var chunks := SendChunks(m, limit);
    HeadKeyword(m.sender, m.receivers, m.title, lines);
    JoinSection(head, count, chopped);
    JoinLinesConcat(chunks, later);
    var tail := TailText(count, Newlined(chopped)) + JoinLines(later);
    JoinedText(JoinLines(head), TailText(count, Newlined(chopped)), JoinLines(later));
    InflateHead(m.sender, m.receivers, m.title, lines, tail);
    ShiftedTail(m, JoinLines(later), limit);
    LaterText(later);
    assert (chunks + later)[0] == "SEND";
  }

  lemma LaterText(later: seq<string>)
    ensures JoinLines(later) == "" <==> later == []
  {
  }

  lemma ShiftedTail(m: SendMessage, more: string, limit: nat)
    requires limit >= 16 && WireSend(m, limit) && NamedAfterShort(m.attachments)
    ensures ReadTail(LineSource(TailText(PrintInt(|m.attachments|), Newlined(AllChopped(m.attachments, limit))) + more,
                                false, "."))
         == if EndsShort(m.attachments) && more == "" then BadConversion else Ok(Shifted(m.attachments, false, more))
  {
    hide PrintInt, ParseInt, ReadAttachments, RawTexts, AllChopped, Newlined, WireLine, WireAttachments, Shifted,
      EndsShort, NamedAfterShort, BodyText, WireLines, NoEarlyDot;
    var n := |m.attachments|;
    var count := PrintInt(n);
    var texts := RawTexts(Newlined(AllChopped(m.attachments, limit)));
    NumberLine(n, limit);
    WireOneLine(count, limit);
    JoinedText(count + "\n", texts, more);
    GetLineStep(count, texts + more, ".");
    var last := ReadShifted(m.attachments, false, more, 0, count, [], limit);
    ReadNone(LineSource(AfterShift(m.attachments, more), false, last), [] + Shifted(m.attachments, false, more));
    assert [] + Shifted(m.attachments, false, more) == Shifted(m.attachments, false, more);
  }

  /** A SEND whose last attachment is not short is answered at once, but with the attachments shifted. */
  lemma ShiftedDelivered(p: ParserState, m: SendMessage, rest: string, limit: nat)
    requires limit >= 16 && Ready(p) && WireSend(m, limit)
    requires NamedAfterShort(m.attachments) && !EndsShort(m.attachments)
    ensures Serve(p, DeflateSend(m) + rest, limit)
         == Serve(Requested(p, Send(m), limit).(chunks := []), rest, limit)
            .Prepend(Dispatched(Send(ShiftedSend(m, ""))))
  {
    hide Serve, DeflateSend, SendChunks, WireSend, Shifted, NewInstance, EndsShort;
    SendDeliveredIff(p, m, rest, limit);
    ShiftedFactory(m, [], limit);
    assert SendChunks(m, limit) + [] == SendChunks(m, limit);
    assert p.chunks + SendChunks(m, limit) == SendChunks(m, limit);
  }

  /** A SEND whose last attachment is short is refused, and stored in place of the next request, whatever that is:
      the missing byte is the first letter of the next request's keyword, and that request is lost. */
  lemma ShortSendStoredLate(p: ParserState, m: SendMessage, n: Message, rest: string, limit: nat)
    requires limit >= 16 && Ready(p) && WireSend(m, limit) && WireRequest(n, limit)
    requires NamedAfterShort(m.attachments) && EndsShort(m.attachments)
    ensures var q := Requested(Requested(p, Send(m), limit), n, limit).(chunks := []);
      && Ready(q)
      && Serve(p, DeflateSend(m) + (Deflate(n) + rest), limit)
         == Serve(q, rest, limit).Prepend(Dispatched(Send(ShiftedSend(m, Keyword(n.Type()))))).Prepend(Refused)
  {
    hide Serve, DeflateSend, Deflate, Shifted, NewInstance, EndsShort, WireSend, WireRequest, Requested, Ready, Keyword,
      NamedAfterShort;
    ShortSendRefused(p, m, Deflate(n) + rest, limit);
    NextStoresShort(Requested(p, Send(m), limit), m, n, rest, limit);
  }

  lemma ShortSendRefused(p: ParserState, m: SendMessage, later: string, limit: nat)
    requires limit >= 16 && Ready(p) && WireSend(m, limit)
    requires NamedAfterShort(m.attachments) && EndsShort(m.attachments)
    ensures WireRequest(Send(m), limit)
    ensures var r := Requested(p, Send(m), limit);
      && r == ParserState(NewRequest, TSend, 0, 0, SendChunks(m, limit))
      && Serve(p, DeflateSend(m) + later, limit) == Serve(r, later, limit).Prepend(Refused)
  {
    hide Serve, DeflateSend, SendChunks, Shifted, NewInstance, EndsShort, WireSend, NamedAfterShort, AfterRequest,
      NormaliseSend, AllKeepLength, Requested, WireRequest;
    SendRequested(p, m, limit);
    SendDeliveredIff(p, m, later, limit);
    ShiftedFactory(m, [], limit);
    assert SendChunks(m, limit) + [] == SendChunks(m, limit);
    FactoryDecides(Requested(p, Send(m), limit), Send(m), later, limit);
  }

  lemma SendRequested(p: ParserState, m: SendMessage, limit: nat)
    requires Ready(p) && WireSend(m, limit)
    ensures WireRequest(Send(m), limit)
    ensures Requested(p, Send(m), limit) == ParserState(NewRequest, TSend, 0, 0, SendChunks(m, limit))
  {
    hide SendChunks, WireSend;
    assert p.chunks + SendChunks(m, limit) == SendChunks(m, limit);
  }

  lemma NextStoresShort(r: ParserState, m: SendMessage, n: Message, rest: string, limit: nat)
    requires limit >= 16 && WireSend(m, limit) && WireRequest(n, limit)
    requires NamedAfterShort(m.attachments) && EndsShort(m.attachments)
    requires r == ParserState(NewRequest, TSend, 0, 0, SendChunks(m, limit))
    ensures var q := Requested(r, n, limit).(chunks := []);
      && Ready(q)
      && Serve(r, Deflate(n) + rest, limit)
         == Serve(q, rest, limit).Prepend(Dispatched(Send(ShiftedSend(m, Keyword(n.Type())))))
  {
    hide Serve, Deflate, SendChunks, WireSend, WireRequest, Shifted, NewInstance, EndsShort, RequestChunks, Completes,
      NamedAfterShort, Keyword;
    var chunks := RequestChunks(n, limit);
    RequestCompletes(r, n, rest, limit);
    ServeCompletes(r, Deflate(n) + rest, Requested(r, n, limit), rest, limit);
    ShiftedFactory(m, chunks, limit);
    KeywordFirst(n, limit);
    ShiftedFirst(m.attachments, false, JoinLines(chunks), Keyword(n.Type()));
  }

  lemma KeywordFirst(n: Message, limit: nat)
    requires WireRequest(n, limit)
    ensures RequestChunks(n, limit) != []
    ensures FirstOf(JoinLines(RequestChunks(n, limit))) == FirstOf(Keyword(n.Type()))
  {
    hide HeadLines, PrintInt, AttachmentChunks, SplitLines, WireLine, WireLines, NoEarlyDot, WireAttachment;
    var chunks := RequestChunks(n, limit);
    if n.Send? {
      HeadKeyword(n.mail.sender, n.mail.receivers, n.mail.title, SplitLines(n.mail.body));
    }
    assert chunks[0] == Keyword(n.Type());
    assert JoinLines(chunks) == chunks[0] + ("\n" + JoinLines(chunks[1..]));
  }

  /** Only the first byte of what follows matters. */
  lemma {:induction false} ShiftedFirst(attachments: seq<Attachment>, stolen: bool, a: string, b: string)
    requires FirstOf(a) == FirstOf(b)
    ensures Shifted(attachments, stolen, a) == Shifted(attachments, stolen, b)
    decreases |attachments|
  {
    if attachments != [] {
      ShiftedFirst(attachments[1..], !KeepsLength(attachments[0]), a, b);
    }
  }

  // ---------------------------------------------------------------- no file name to take a byte of

  /** The first line of what is framed of an attachment. */
  function FirstLine(data: string): string {
    data[..Find(data, '\n')]
  }

  lemma FirstLineFollows(data: string, t: string) returns (u: string)
    ensures OneLine(FirstLine(data)) && data + "\n" + t == FirstLine(data) + "\n" + u
  {
    var k := Find(data, '\n');
    if k < |data| {
      u := data[k + 1..] + "\n" + t;
      CutAt(data, k);
      assert data == data[..k] + "\n" + data[k + 1..];
    } else {
      u := t;
      assert data[..k] == data;
    }
  }

  /** The newline of the empty name is gone, so the size is taken for the name, and the data for the size. */
  lemma UnnamedMisread(b: Attachment, t: string, previous: string, limit: nat)
    requires limit >= 16 && WireAttachment(b, limit) && b.filename == "" && ParseInt32(FirstLine(Chopped(b).data)).None?
    ensures var text := RawText(FirstRaw(b, false)) + t;
      text != "" && ReadAttachment(LineSource(text[1..], false, previous)) == BadConversion
  {
    NumberLine(|b.data|, limit);
    WireOneLine(PrintInt(|b.data|), limit);
    UnnamedStart(b, t);
    hide WireLine, ParseInt, PrintInt, FirstLine, Chopped, RawText, FirstRaw, WireAttachment, ReadAttachment;
    NoNumberRead(PrintInt(|b.data|), Chopped(b).data, t, previous);
  }

  lemma UnnamedStart(b: Attachment, t: string)
    requires b.filename == "" && b.data != ""
    ensures var text := RawText(FirstRaw(b, false)) + t;
      text != "" && text[1..] == PrintInt(|b.data|) + "\n" + (Chopped(b).data + "\n" + t)
  {
    hide PrintInt, StripCR;
    var size, data := PrintInt(|b.data|), Chopped(b).data;
    assert RawText(FirstRaw(b, false)) == "" + "\n" + size + "\n" + (data + "\n");
    StartRegroup(size, data, t);
  }

  lemma StartRegroup(size: string, data: string, t: string)
    ensures var text := "" + "\n" + size + "\n" + (data + "\n") + t;
      text != "" && text[1..] == size + "\n" + (data + "\n" + t)
  {
  }

  lemma NoNumberRead(name: string, data: string, t: string, previous: string)
    requires OneLine(name) && ParseInt32(FirstLine(data)).None?
    ensures ReadAttachment(LineSource(name + "\n" + (data + "\n" + t), false, previous)) == BadConversion
  {
    hide ParseInt, GetLine, FirstLine;
    var u := FirstLineFollows(data, t);
    GetLineStep(name, data + "\n" + t, previous);
    GetLineStep(FirstLine(data), u, name);
  }

  /** `front` ends in a short attachment, `b` has no file name: the section can never be read. */
  predicate UnnamedAfterShort(m: SendMessage, front: seq<Attachment>, b: Attachment, others: seq<Attachment>) {
    && m.attachments == front + [b] + others
    && NamedAfterShort(front) && EndsShort(front)
    && b.filename == "" && b.data != "" && ParseInt32(FirstLine(Chopped(b).data)).None?
  }

  lemma UnnamedSection(
      m: SendMessage, front: seq<Attachment>, b: Attachment, others: seq<Attachment>, more: string, previous: string,
      limit: nat)
    requires limit >= 16 && WireAttachments(m.attachments, limit) && UnnamedAfterShort(m, front, b, others)
    ensures ReadAttachments(LineSource(RawTexts(Newlined(AllChopped(m.attachments, limit))) + more, false, previous),
                            |m.attachments|, []) == BadConversion
  {
    hide ReadAttachments, RawTexts, Newlined, AllChopped, WireAttachment, ReadAttachment, RawText, FirstRaw, Shifted,
      NamedAfterShort, ParseInt, Chopped, FirstLine, Remaining;
    UnnamedFits(m, front, b, others, limit);
    var t := RawTexts(Newlined(AllChopped(others, limit))) + more;
    var tail := RawText(FirstRaw(b, false)) + t;
    UnnamedText(front, b, others, more, limit);
    var last := ReadShifted(front, false, tail, 1 + |others|, previous, [], limit);
    UnnamedMisread(b, t, last, limit);
    ReadFails(LineSource(tail[1..], false, last), 1 + |others|, [] + Shifted(front, false, tail));
  }

  lemma UnnamedFits(m: SendMessage, front: seq<Attachment>, b: Attachment, others: seq<Attachment>, limit: nat)
    requires WireAttachments(m.attachments, limit) && m.attachments == front + [b] + others
    ensures WireAttachments(front, limit) && WireAttachment(b, limit) && WireAttachments(others, limit)
    ensures WireAttachments(front + [b] + others, limit) && |m.attachments| == |front| + (1 + |others|)
  {
    hide WireAttachment;
    var all := m.attachments;
    assert all[|front|] == b;
    forall i | 0 <= i < |front| ensures WireAttachment(front[i], limit) { assert all[i] == front[i]; }
    forall i | 0 <= i < |others| ensures WireAttachment(others[i], limit) { assert all[|front| + 1 + i] == others[i]; }
  }

  lemma UnnamedText(front: seq<Attachment>, b: Attachment, others: seq<Attachment>, more: string, limit: nat)
    requires WireAttachments(front, limit) && WireAttachment(b, limit) && WireAttachments(others, limit)
    requires WireAttachments(front + [b] + others, limit)
    ensures RawTexts(Newlined(AllChopped(front + [b] + others, limit))) + more
         == RawTexts(Remaining(front, false, limit))
            + (RawText(FirstRaw(b, false)) + (RawTexts(Newlined(AllChopped(others, limit))) + more))
  {
    hide RawTexts, RawText, PrintInt, StripCR, WireLine;
    UnnamedRaws(front, b, others, limit);
    hide FirstRaw, Newlined, AllChopped;
    var x, y := Newlined(AllChopped(front, limit)), Newlined(AllChopped(others, limit));
    RawTextsConcat(x + [FirstRaw(b, false)], y);
    RawTextsConcat(x, [FirstRaw(b, false)]);
    RawTextsOne(FirstRaw(b, false));
    Regrouped(RawTexts(x), RawText(FirstRaw(b, false)), RawTexts(y), more);
  }

  lemma UnnamedRaws(front: seq<Attachment>, b: Attachment, others: seq<Attachment>, limit: nat)
    requires WireAttachments(front, limit) && WireAttachment(b, limit) && WireAttachments(others, limit)
    requires WireAttachments(front + [b] + others, limit)
    ensures Newlined(AllChopped(front + [b] + others, limit))
         == Newlined(AllChopped(front, limit)) + [FirstRaw(b, false)] + Newlined(AllChopped(others, limit))
  {
    hide PrintInt, StripCR, WireLine;
    var all := AllChopped(front + [b] + others, limit);
    var x, y := AllChopped(front, limit), AllChopped(others, limit);
    assert all == x + [Chopped(b)] + y;
  }

  /** Whatever is appended, the factory cannot build such a message. */
  lemma UnnamedHopeless(m: SendMessage, front: seq<Attachment>, b: Attachment, others: seq<Attachment>, limit: nat)
    requires limit >= 16 && WireSend(m, limit) && UnnamedAfterShort(m, front, b, others)
    ensures Hopeless(SendChunks(m, limit))
  {
    hide NewInstance, SendChunks, WireSend, UnnamedAfterShort;
    forall later: seq<string> ensures NewInstance(SendChunks(m, limit) + later) == BadConversion {
      UnnamedFactory(m, front, b, others, later, limit);
    }
  }

  lemma UnnamedFactory(
      m: SendMessage, front: seq<Attachment>, b: Attachment, others: seq<Attachment>, later: seq<string>, limit: nat)
    requires limit >= 16 && WireSend(m, limit) && UnnamedAfterShort(m, front, b, others)
    ensures NewInstance(SendChunks(m, limit) + later) == BadConversion
  {
    WireSendLines(m, limit);
    hide InflateSend, ReadTail, HeadLines, PrintInt, ParseInt, TailText, AllChopped, AttachmentChunks, SplitLines,
      WireAttachments, NoEarlyDot, ReceiverLines, BodyText, UnnamedAfterShort, WithTail, NewInstance, JoinLines,
      OneLine, AllOneLine, Newlined;
    var lines := SplitLines(m.body);
    var count := PrintInt(|m.attachments|);
    var chopped := AllChopped(m.attachments, limit);
    var head := HeadLines(m.sender, m.receivers, m.title, lines);
    var chunks := SendChunks(m, limit);
    var tail := TailText(count, Newlined(chopped)) + JoinLines(later);
    HeadKeyword(m.sender, m.receivers, m.title, lines);
    JoinSection(head, count, chopped);
    JoinLinesConcat(chunks, later);
    JoinedText(JoinLines(head), TailText(count, Newlined(chopped)), JoinLines(later));
    InflateHead(m.sender, m.receivers, m.title, lines, tail);
    UnnamedTail(m, front, b, others, JoinLines(later), limit);
    BadTail(m.sender, m.receivers, m.title, lines, tail);
    FirstChunk(head, [count], AttachmentChunks(chopped), [], later);
    assert head + [count] + AttachmentChunks(chopped) + [] == chunks;
    BadSend(chunks + later);
  }

  lemma UnnamedTail(
      m: SendMessage, front: seq<Attachment>, b: Attachment, others: seq<Attachment>, more: string, limit: nat)
    requires limit >= 16 && WireSend(m, limit) && UnnamedAfterShort(m, front, b, others)
    ensures ReadTail(LineSource(TailText(PrintInt(|m.attachments|), Newlined(AllChopped(m.attachments, limit))) + more,
                                false, ".")) == BadConversion
  {
    hide PrintInt, ParseInt, ReadAttachments, RawTexts, AllChopped, Newlined, WireLine, WireAttachments, BodyText,
      WireLines, NoEarlyDot, UnnamedAfterShort, GetLine;
    var n := |m.attachments|;
    var count := PrintInt(n);
    var texts := RawTexts(Newlined(AllChopped(m.attachments, limit)));
    NumberLine(n, limit);
    WireOneLine(count, limit);
    JoinedText(count + "\n", texts, more);
    GetLineStep(count, texts + more, ".");
    UnnamedSection(m, front, b, others, more, count, limit);
  }

  /** A short attachment takes the newline of an empty file name that follows it. When the next attachment's data do not
      begin with a number, this request and everything after it is refused, for every stream. */
  lemma UnnamedRefused(
      p: ParserState, m: SendMessage, front: seq<Attachment>, b: Attachment, others: seq<Attachment>, rest: string,
      limit: nat)
    requires limit >= 16 && Ready(p) && WireSend(m, limit) && UnnamedAfterShort(m, front, b, others)
    ensures var served := Serve(p, DeflateSend(m) + rest, limit);
      served.steps != [] && AllRefused(served.steps)
  {
    hide Serve, DeflateSend, SendChunks, NewInstance, WireSend, Completes, Hopeless, UnnamedAfterShort;
    var r := ParserState(NewRequest, TSend, 0, 0, SendChunks(m, limit));
    assert p.chunks + SendChunks(m, limit) == r.chunks;
    SendCompletes(p, m, rest, limit);
    ServeCompletes(p, DeflateSend(m) + rest, r, rest, limit);
    UnnamedHopeless(m, front, b, others, limit);
    HopelessFinish(r, r.chunks);
    HopelessForever(r, r.chunks, rest, limit);
  }

  // ---------------------------------------------------------------- a text file with Windows line ends

  const WINDOWS_FILE := Attachment("f", "a\r\n")
  const WINDOWS_MAIL := SendMessage("a", ["b"], "t", "", [WINDOWS_FILE])

  /** Such a message is refused, and stored with a letter of the next request in it. */
  lemma WindowsFileExample(p: ParserState, limit: nat)
    requires limit >= 16 && Ready(p)
    ensures WireSend(WINDOWS_MAIL, limit) && !AllKeepLength(WINDOWS_MAIL.attachments)
    ensures Serve(p, DeflateSend(WINDOWS_MAIL) + Deflate(List("b")), limit).steps
         == [Refused, Dispatched(Send(WINDOWS_MAIL.(attachments := [Attachment("f", "a\nL")])))]
  {
    WindowsWire(limit);
    hide Serve, Deflate, DeflateSend, WireSend, WireRequest, NamedAfterShort, EndsShort, ShiftedSend, AllKeepLength,
      Requested;
    var n := List("b");
    ShortSendStoredLate(p, WINDOWS_MAIL, n, "", limit);
    var q := Requested(Requested(p, Send(WINDOWS_MAIL), limit), n, limit).(chunks := []);
    assert Serve(q, "", limit) == Served([], q, Closed) by { NothingServed(q, limit); }
    assert Deflate(n) + "" == Deflate(n);
  }

  lemma WindowsWire(limit: nat)
    requires limit >= 16
    ensures WireSend(WINDOWS_MAIL, limit) && WireRequest(List("b"), limit)
    ensures NamedAfterShort(WINDOWS_MAIL.attachments) && EndsShort(WINDOWS_MAIL.attachments)
    ensures !AllKeepLength(WINDOWS_MAIL.attachments)
    ensures ShiftedSend(WINDOWS_MAIL, "LIST") == WINDOWS_MAIL.(attachments := [Attachment("f", "a\nL")])
  {
    assert WireAttachment(WINDOWS_FILE, limit) && !KeepsLength(WINDOWS_MAIL.attachments[0]);
    var files := [WINDOWS_FILE];
    assert files[1..] == [] && Shifted(files[1..], true, "LIST") == [];
    assert FirstOf("LIST") == "L" && WINDOWS_FILE.data[..1] == "a" && !KeepsLength(WINDOWS_FILE);
    assert Shifted(files, false, "LIST") == [Attachment("f", "a" + "\n" + "L")] + Shifted(files[1..], true, "LIST");
    assert "a" + "\n" + "L" == "a\nL";
  }
}
