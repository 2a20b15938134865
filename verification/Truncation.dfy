/** A stored message that breaks off: no proper beginning of a printed message is a message, but for a missing last
    newline behind an attachment count of 0. */
module Truncation {
  import opened Text
  import opened Messages
  import opened Inflation
  import opened SendFormat
  import opened FileManager
  import opened Arrival

  // ---------------------------------------------------------------- the head

  /** Two texts in lines, both the beginning of the same text, agree line by line. */
  lemma {:induction false} LinesAgree(a: seq<string>, b: seq<string>, t: string)
    requires AllOneLine(a) && AllOneLine(b) && |a| <= |b| && JoinLines(a) <= JoinLines(b) + t
    ensures a <= b
    decreases |a|
  {
    hide JoinLines;
    if a != [] {
      assert a == [a[0]] + a[1..] && b == [b[0]] + b[1..];
      JoinedFirst(a[0], a[1..]);
      Prefixed(b[0], b[1..], t);
      SameFirstLine(a[0], JoinLines(a[1..]), b[0], JoinLines(b[1..]) + t);
      LinesAgree(a[1..], b[1..], t);
    }
  }

  predicate HeadParts(m: SendMessage, lines: seq<string>) {
    ReceiverLines(m.receivers) && "." !in lines
  }

  /** The lines of a head say where it ends, so none is the beginning of another. */
  lemma HeadUnique(m: SendMessage, lines: seq<string>, n: SendMessage, others: seq<string>)
    requires HeadParts(m, lines) && HeadParts(n, others)
    requires HeadLines(m.sender, m.receivers, m.title, lines) <= HeadLines(n.sender, n.receivers, n.title, others)
    ensures m.sender == n.sender && m.receivers == n.receivers && m.title == n.title && lines == others
  {
    hide ReceiverLine, HeadLines, HeadParts;
    HeadAt(m, lines);
    HeadAt(n, others);
    SameReceivers(m, lines, n, others);
    var i := |m.receivers|;
    var a, b := HeadLines(m.sender, m.receivers, m.title, lines), HeadLines(n.sender, n.receivers, n.title, others);
    SamePlaces(a, b);
    assert a[1] == b[1] && a[i + 3] == b[i + 3] && a[i + 4 + |lines|] == b[i + 4 + |lines|];
    forall k | 0 <= k < |lines| ensures lines[k] == others[k] {
      assert a[i + 4 + k] == b[i + 4 + k];
    }
    if |lines| < |others| {
      NoDotAmong(n, others, |lines|);
    }
  }

  lemma SamePlaces(a: seq<string>, b: seq<string>)
    requires a <= b
    ensures forall k :: 0 <= k < |a| ==> a[k] == b[k]
  {
  }

  lemma NoDotAmong(m: SendMessage, lines: seq<string>, k: nat)
    requires HeadParts(m, lines) && k < |lines|
    ensures lines[k] != "."
  {
  }

  lemma SameReceivers(m: SendMessage, lines: seq<string>, n: SendMessage, others: seq<string>)
    requires HeadParts(m, lines) && HeadParts(n, others)
    requires HeadLines(m.sender, m.receivers, m.title, lines) <= HeadLines(n.sender, n.receivers, n.title, others)
    ensures m.receivers == n.receivers
  {
    hide ReceiverLine, HeadLines, HeadParts;
    var a, b := HeadLines(m.sender, m.receivers, m.title, lines), HeadLines(n.sender, n.receivers, n.title, others);
    HeadAt(m, lines);
    HeadAt(n, others);
    SamePlaces(a, b);
    var i, j := |m.receivers|, |n.receivers|;
    if i < j {
      EotAmong(n, others, i);
    } else if j < i {
      EotAmong(m, lines, j);
    }
    forall k | 0 <= k < i ensures m.receivers[k] == n.receivers[k] {
      assert a[k + 2] == b[k + 2];
    }
  }

  lemma HeadAt(m: SendMessage, lines: seq<string>)
    ensures var head := HeadLines(m.sender, m.receivers, m.title, lines);
      var n := |m.receivers|;
      && |head| == n + |lines| + 5 && head[1] == m.sender && head[n + 2] == EOT && head[n + 3] == m.title
      && head[n + 4 + |lines|] == "."
      && (forall k :: 0 <= k < n ==> head[k + 2] == m.receivers[k])
      && (forall k :: 0 <= k < |lines| ==> head[n + 4 + k] == lines[k])
  {
  }

  lemma EotAmong(m: SendMessage, lines: seq<string>, k: nat)
    requires HeadParts(m, lines) && k < |m.receivers|
    ensures HeadLines(m.sender, m.receivers, m.title, lines)[k + 2] != EOT
  {
    assert ReceiverLine(m.receivers[k]);
    HeadAt(m, lines);
  }

  // ---------------------------------------------------------------- the attachments

  /** At the end of the stream a name or size without its newline is not enough. */
  lemma NoAttachmentAtEof(line: string, previous: string)
    requires OneLine(line)
    ensures !ReadAttachment(LineSource(line, false, previous)).Ok?
    ensures !ReadAttachment(LineSource("", true, line)).Ok?
  {
    FindNone(line, '\n');
    hide ParseInt;
  }

  lemma NoSizeAtEof(name: string, size: string, previous: string)
    requires OneLine(name) && OneLine(size)
    ensures !ReadAttachment(LineSource(name + "\n" + size, false, previous)).Ok?
  {
    GetLineStep(name, size, previous);
    FindNone(size, '\n');
    hide ParseInt;
  }

  lemma BrokenAttachment(a: Attachment, j: nat, previous: string)
    requires StorableAttachment(a) && j < |RawText(Raw(a))|
    ensures !ReadAttachment(LineSource(RawText(Raw(a))[..j], false, previous)).Ok?
  {
    var name, size, data := a.filename, PrintInt(|a.data|), a.data;
    PrintIntOneLine(|a.data|);
    ParsePrintInt(|a.data|, INT_MIN, INT_MAX);
    hide PrintInt, ParseInt, ReadAttachment;
    var x := RawText(Raw(a));
    assert x == name + "\n" + size + "\n" + data;
    if j <= |name| {
      assert x[..j] == name[..j];
      NoAttachmentAtEof(name[..j], previous);
    } else if j <= |name| + 1 + |size| {
      var k := j - |name| - 1;
      assert x[..j] == name + "\n" + size[..k];
      NoSizeAtEof(name, size[..k], previous);
    } else {
      var k := j - |name| - |size| - 2;
      var raw := RawAttachment(name, size, data[..k]);
      assert x[..j] == RawText(raw) + "";
      ReadAttachmentLines(raw, "", previous);
      assert data[..k] + "" == data[..k];
    }
  }

  lemma {:induction false} BrokenAttachments(
      attachments: seq<Attachment>, j: nat, previous: string, acc: seq<Attachment>)
    requires StorableAttachments(attachments) && j < |RawTexts(Raws(attachments))|
    ensures !ReadAttachments(LineSource(RawTexts(Raws(attachments))[..j], false, previous), |attachments|, acc).Ok?
    decreases |attachments|
  {
    hide ReadAttachment, Raw, RawText, Raws, RawTexts, StorableAttachment, PrintInt, ParseInt;
    FirstText(attachments);
    var a, others := attachments[0], attachments[1..];
    var x, rest := RawText(Raw(a)), RawTexts(Raws(others));
    assert StorableAttachment(a);
    if j < |x| {
      assert (x + rest)[..j] == x[..j];
      BrokenAttachment(a, j, previous);
    } else {
      var k := j - |x|;
      assert (x + rest)[..j] == x + rest[..k];
      RawAligned(a);
      ReadAttachmentBack(Raw(a), rest[..k], previous);
      BrokenAttachments(others, k, Raw(a).size, acc + [Attachment(Raw(a).name, Raw(a).data)]);
    }
  }

  lemma FirstText(attachments: seq<Attachment>)
    requires RawTexts(Raws(attachments)) != ""
    ensures attachments != []
    ensures RawTexts(Raws(attachments)) == RawText(Raw(attachments[0])) + RawTexts(Raws(attachments[1..]))
  {
    hide Raw, RawText;
    NoTexts();
    if attachments != [] {
      assert Raws(attachments)[1..] == Raws(attachments[1..]);
    }
  }

  lemma RawAligned(a: Attachment)
    requires StorableAttachment(a)
    ensures Aligned(Raw(a))
  {
    PrintIntOneLine(|a.data|);
    ParsePrintInt(|a.data|, INT_MIN, INT_MAX);
  }

  /** The section breaks off: only a count of 0 without its newline can still be read. */
  lemma BrokenTail(attachments: seq<Attachment>, j: nat)
    requires StorableAttachments(attachments) && |attachments| <= INT_MAX
    requires j < |TailText(PrintInt(|attachments|), Raws(attachments))|
    ensures var text := TailText(PrintInt(|attachments|), Raws(attachments));
      var r := ReadTail(LineSource(text[..j], false, "."));
      (r.Ok? <==> attachments == [] && j == |text| - 1) && (r.Ok? ==> r.value == [])
  {
    hide PrintInt, ParseInt, RawTexts, Raws, ReadAttachment, PrintNat;
    var n := |attachments|;
    var count, texts := PrintInt(n), RawTexts(Raws(attachments));
    var text := count + "\n" + texts;
    PrintIntOneLine(n);
    ParsePrintInt(n, INT_MIN, INT_MAX);
    if attachments == [] {
      NoTexts();
    }
    if j <= |count| {
      assert text[..j] == count[..j];
      BrokenCount(n, j);
    } else {
      var k := j - |count| - 1;
      assert text[..j] == count + "\n" + texts[..k];
      GetLineStep(count, texts[..k], ".");
      BrokenAttachments(attachments, k, count, []);
    }
  }

  lemma NoTexts()
    ensures RawTexts(Raws([])) == "" && PrintInt(0) == "0"
  {
  }

  lemma BrokenCount(n: nat, j: nat)
    requires n <= INT_MAX && j <= |PrintInt(n)|
    ensures var r := ReadTail(LineSource(PrintInt(n)[..j], false, "."));
      (r.Ok? <==> n == 0 && j == |PrintInt(n)|) && (r.Ok? ==> r.value == [])
  {
    PrintIntOneLine(n);
    hide PrintNat, ParseInt, ReadAttachment;
    var line := PrintInt(n)[..j];
    FindNone(line, '\n');
    if j == 0 {
      assert ParseInt32("").None? by { NoNumber(); }
    } else {
      var m := PrintNatPrefix(n, j);
      ParsePrintInt(m, INT_MIN, INT_MAX);
      ZeroIsOneDigit(n, j);
      NoAttachmentAtEof(line, "");
    }
  }

  lemma ZeroIsOneDigit(n: nat, j: nat)
    requires 1 <= j <= |PrintNat(n)|
    ensures n == 0 ==> j == |PrintNat(n)|
  {
  }

  // ---------------------------------------------------------------- what a broken text does instead

  /** A text that breaks off in its body: a lone dot there still ends it, but then there is no count; after anything
      else the reader never comes back. */
  lemma BrokenBody(sender: string, receivers: seq<string>, title: string, lines: seq<string>, line: string)
    requires OneLine(sender) && OneLine(title) && ReceiverLines(receivers)
    requires AllOneLine(lines) && "." !in lines && OneLine(line)
    ensures InflateSend(JoinLines(["SEND", sender] + (receivers + [EOT] + ([title] + lines))) + line)
         == if line == "." then BadConversion else NeverReturns
  {
    hide InflateSend, JoinLines, ReadBody, ReadTail, ReceiverLines;
    InflateToTitle(sender, receivers, title, lines, line);
    ReadBodyAtEof(lines, line, title, "");
    DotAtEof();
  }

  lemma {:induction false} ReadBodyAtEof(lines: seq<string>, line: string, previous: string, acc: string)
    requires AllOneLine(lines) && "." !in lines && OneLine(line)
    ensures ReadBody(LineSource(JoinLines(lines) + line, false, previous), acc)
         == if line == "." then Some((LineSource("", true, line), acc + JoinLines(lines))) else None
    decreases |lines|
  {
    hide GetLine, JoinLines;
    if lines == [] {
      NoLines(line);
      NothingJoined(acc);
      LastOfStream(line, previous);
    } else {
      GetLineCons(lines, line, previous);
      ReadBodyAtEof(lines[1..], line, lines[0], acc + lines[0] + "\n");
      assert lines == [lines[0]] + lines[1..];
      BodyLine(acc, lines[0], lines[1..]);
    }
  }

  /** A text that breaks off in its title: a dot there is taken for the dot behind the body as well. */
  lemma BrokenTitle(sender: string, receivers: seq<string>, title: string)
    requires OneLine(sender) && ReceiverLines(receivers) && OneLine(title)
    ensures InflateSend(JoinLines(["SEND", sender] + (receivers + [EOT])) + title)
         == if title == "." then BadConversion else NeverReturns
  {
    hide JoinLines, ReadReceivers, ReadTail, GetLine;
    var all := ["SEND", sender] + (receivers + [EOT]);
    assert all[1..][1..] == receivers + [EOT] + [];
    GetLineCons(all, title, "");
    GetLineCons(all[1..], title, "SEND");
    ReadReceiversBack(receivers, [], title, sender, []);
    NoLines(title);
    LastOfStream(title, EOT);
    DotAtEof();
  }

  lemma LastOfStream(line: string, previous: string)
    requires OneLine(line)
    ensures GetLine(LineSource(line, false, previous)) == LineSource("", true, line)
    ensures ReadBody(LineSource("", true, line), "")
         == if line == "." then Some((LineSource("", true, "."), "")) else None
  {
    FindNone(line, '\n');
  }

  lemma DotAtEof()
    ensures ReadTail(LineSource("", true, ".")) == BadConversion
  {
  }

  /** A text that breaks off among its receivers: the reader never comes back. */
  lemma BrokenReceivers(sender: string, receivers: seq<string>, line: string)
    requires OneLine(sender) && ReceiverLines(receivers) && OneLine(line) && line != EOT
    ensures InflateSend(JoinLines(["SEND", sender] + receivers) + line) == NeverReturns
  {
    hide JoinLines, ReadReceivers, ReadBody, ReadTail, GetLine;
    var all := ["SEND", sender] + receivers;
    assert all[1..][1..] == receivers;
    GetLineCons(all, line, "");
    GetLineCons(all[1..], line, "SEND");
    ReadReceiversAtEof(receivers, line, sender, []);
  }

  lemma {:induction false} ReadReceiversAtEof(receivers: seq<string>, line: string, previous: string, acc: seq<string>)
    requires ReceiverLines(receivers) && OneLine(line) && line != EOT
    ensures ReadReceivers(LineSource(JoinLines(receivers) + line, false, previous), acc) == None
    decreases |receivers|
  {
    hide GetLine, JoinLines;
    if receivers == [] {
      NoLines(line);
      LastOfStream(line, previous);
    } else {
      assert ReceiverLine(receivers[0]);
      GetLineCons(receivers, line, previous);
      ReadReceiversAtEof(receivers[1..], line, receivers[0], acc + [receivers[0]]);
    }
  }

  // ---------------------------------------------------------------- the whole message

  /** Of all the proper beginnings of a printed message, exactly the one that lacks just the newline behind a count of
      0 attachments inflates, and to that message. */
  lemma TruncatedIff(m: SendMessage, k: nat)
    requires Storable(m) && k < |DeflateSend(m)|
    ensures var r := InflateSend(DeflateSend(m)[..k]);
      && (r.Ok? <==> m.attachments == [] && k == |DeflateSend(m)| - 1)
      && (r.Ok? ==> r == Ok(m))
  {
    hide InflateSend, DeflateSend, TailText, HeadLines, PrintInt, Raws, ReadTail, JoinLines, BodyText;
    assert Terminated(m.body) by { BodyParts(m.body); }
    var lines := SplitLines(m.body);
    var head := JoinLines(HeadLines(m.sender, m.receivers, m.title, lines));
    var tail := TailText(PrintInt(|m.attachments|), Raws(m.attachments));
    var text := DeflateSend(m)[..k];
    BodyParts(m.body);
    DeflateSendHead(m);
    SplitThenJoin(m.body);
    if InflateSend(text).Ok? {
      TruncatedHead(m, k);
    }
    if k >= |head| {
      var j: nat := k - |head|;
      CutBehind(head, tail, k);
      InflateHead(m.sender, m.receivers, m.title, lines, tail[..j]);
      BrokenTail(m.attachments, j);
    } else {
      NoTail(m);
    }
  }

  lemma NoTail(m: SendMessage)
    ensures TailText(PrintInt(|m.attachments|), Raws(m.attachments)) != ""
  {
  }

  lemma CutBehind(head: string, tail: string, k: nat)
    requires |head| <= k <= |head + tail|
    ensures (head + tail)[..k] == head + tail[..k - |head|]
  {
  }

  lemma BodyParts(body: string)
    requires BodyText(body)
    ensures Terminated(body) && "." !in SplitLines(body)
  {
  }

  /** A beginning that inflates holds at least the whole head. */
  lemma TruncatedHead(m: SendMessage, k: nat)
    requires Storable(m) && k < |DeflateSend(m)| && InflateSend(DeflateSend(m)[..k]).Ok?
    ensures Terminated(m.body)
    ensures |JoinLines(HeadLines(m.sender, m.receivers, m.title, SplitLines(m.body)))| <= k
  {
    BodyParts(m.body);
    hide InflateSend, DeflateSend, TailText, HeadLines, PrintInt, Raws, ReadTail, JoinLines, SplitLines, Storable,
      BodyText;
    var all := DeflateSend(m);
    var text := all[..k];
    var n := InflateSend(text).value;
    InflateBegins(text);
    InflateYieldsStorable(text);
    DeflateSendHead(m);
    var a := HeadLines(n.sender, n.receivers, n.title, SplitLines(n.body));
    var b := HeadLines(m.sender, m.receivers, m.title, SplitLines(m.body));
    assert JoinLines(a) <= text <= all && JoinLines(b) <= all;
    SameHead(n, m, all);
  }

  /** Two storable messages whose heads begin the same text have the same head. */
  lemma SameHead(n: SendMessage, m: SendMessage, all: string)
    requires Storable(n) && Storable(m) && Terminated(n.body) && Terminated(m.body)
    requires JoinLines(HeadLines(n.sender, n.receivers, n.title, SplitLines(n.body))) <= all
    requires JoinLines(HeadLines(m.sender, m.receivers, m.title, SplitLines(m.body))) <= all
    ensures HeadLines(n.sender, n.receivers, n.title, SplitLines(n.body))
         == HeadLines(m.sender, m.receivers, m.title, SplitLines(m.body))
  {
    BodyParts(m.body);
    BodyParts(n.body);
    hide HeadLines, JoinLines, SplitLines, StorableAttachments, BodyText, ReceiverLine;
    var a := HeadLines(n.sender, n.receivers, n.title, SplitLines(n.body));
    var b := HeadLines(m.sender, m.receivers, m.title, SplitLines(m.body));
    HeadOneLine(n);
    HeadOneLine(m);
    if |a| <= |b| {
      LinesAgree(a, b, all[|JoinLines(b)|..]);
      HeadUnique(n, SplitLines(n.body), m, SplitLines(m.body));
    } else {
      LinesAgree(b, a, all[|JoinLines(a)|..]);
      HeadUnique(m, SplitLines(m.body), n, SplitLines(n.body));
    }
  }

  lemma HeadOneLine(m: SendMessage)
    requires Storable(m)
    ensures Terminated(m.body) && AllOneLine(HeadLines(m.sender, m.receivers, m.title, SplitLines(m.body)))
  {
    BodyParts(m.body);
    hide StorableAttachments, BodyText, SplitLines;
    var lines := SplitLines(m.body);
    var head := HeadLines(m.sender, m.receivers, m.title, lines);
    HeadAt(m, lines);
    assert OneLine(EOT) && OneLine(".");
    assert head[0] == "SEND" && OneLine("SEND");
    forall i | 0 <= i < |head| ensures OneLine(head[i]) {
      if 2 <= i < |m.receivers| + 2 {
        assert head[i] == m.receivers[i - 2] && ReceiverLine(m.receivers[i - 2]);
      } else if |m.receivers| + 4 <= i < |head| - 1 {
        assert head[i] == lines[i - |m.receivers| - 4];
      }
    }
  }

  /** A message file that breaks off is never read as a message unless only its NUL, or behind a count of 0 attachments
      its last newline as well, is missing; and then it is read as the message it was. */
  lemma TruncatedFile(m: SendMessage, k: nat)
    requires Storable(m) && k <= |FileBytes(m)|
    ensures var r := MessageFromFile(FileBytes(m)[..k]);
      && (r.Success? <==> k >= |DeflateSend(m)| || (m.attachments == [] && k == |DeflateSend(m)| - 1))
      && (r.Success? ==> r == Success(m))
  {
    hide InflateSend, DeflateSend, Storable;
    var text := DeflateSend(m);
    if k < |text| {
      assert (text + "\0")[..k] == text[..k];
      TruncatedIff(m, k);
    } else {
      var tail := (text + "\0")[|text|..k];
      assert (text + "\0")[..k] == text + tail;
      InflateDeflateSend(m, tail);
    }
  }
}
