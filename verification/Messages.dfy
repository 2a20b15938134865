/** The requests of the protocol and their printed form (`deflate`). */
module Messages {
  import opened Text

  const EOT := "\U{3}"

  datatype MessageType = TSend | TList | TRead | TDel | TQuit | TLogin | TInvalid

  datatype Attachment = Attachment(filename: string, data: string)

  datatype SendMessage = SendMessage(
    sender: string,
    receivers: seq<string>,
    title: string,
    body: string,
    attachments: seq<Attachment>)

  datatype Message =
    | Send(mail: SendMessage)
    | List(username: string)
    | Read(username: string, number: int)
    | Del(username: string, number: int)
    | Quit
    | Login(username: string, password: string)
  {
    function Type(): MessageType {
      match this
      case Send(_) => TSend
      case List(_) => TList
      case Read(_, _) => TRead
      case Del(_, _) => TDel
      case Quit => TQuit
      case Login(_, _) => TLogin
    }
  }

  /** The keyword line of each request; TInvalid has none. */
  function Keyword(t: MessageType): string {
    match t
    case TSend => "SEND"
    case TList => "LIST"
    case TRead => "READ"
    case TDel => "DEL"
    case TQuit => "QUIT"
    case TLogin => "LOGIN"
    case TInvalid => ""
  }

  function GetMessageType(line: string): (t: MessageType)
    ensures t != TInvalid ==> line == Keyword(t)
  {
    if line == "SEND" then TSend
    else if line == "LIST" then TList
    else if line == "READ" then TRead
    else if line == "DEL" then TDel
    else if line == "QUIT" then TQuit
    else if line == "LOGIN" then TLogin
    else TInvalid
  }

  // ---------------------------------------------------------------- printing

  /** A length-prefixed attachment as it appears in the text; `size` is the number as it is written. */
  datatype RawAttachment = RawAttachment(name: string, size: string, data: string)

  function RawText(raw: RawAttachment): string {
    raw.name + "\n" + raw.size + "\n" + raw.data
  }

  function RawTexts(raws: seq<RawAttachment>): string {
    if raws == [] then "" else RawText(raws[0]) + RawTexts(raws[1..])
  }

  function Raw(a: Attachment): RawAttachment {
    RawAttachment(a.filename, PrintInt(|a.data|), a.data)
  }

  function Raws(attachments: seq<Attachment>): (raws: seq<RawAttachment>)
    ensures |raws| == |attachments|
    ensures forall i :: 0 <= i < |raws| ==> raws[i] == Raw(attachments[i])
  {
    seq(|attachments|, i requires 0 <= i < |attachments| => Raw(attachments[i]))
  }

  function DeflateSend(m: SendMessage): string {
    "SEND\n" + m.sender + "\n" + JoinLines(m.receivers) + EOT + "\n" + m.title + "\n" + m.body + ".\n" +
    PrintInt(|m.attachments|) + "\n" + RawTexts(Raws(m.attachments))
  }

  function Deflate(m: Message): string {
    match m
    case Send(mail) => DeflateSend(mail)
    case List(username) => "LIST" + "\n" + username + "\n"
    case Read(username, number) => "READ" + "\n" + username + "\n" + PrintInt(number) + "\n"
    case Del(username, number) => "DEL" + "\n" + username + "\n" + PrintInt(number) + "\n"
    case Quit => "QUIT" + "\n"
    case Login(username, password) => "LOGIN" + "\n" + username + "\n" + password + "\n"
  }

  lemma {:induction false} RawTextsConcat(a: seq<RawAttachment>, b: seq<RawAttachment>)
    ensures RawTexts(a + b) == RawTexts(a) + RawTexts(b)
  {
    if a == [] {
      assert a + b == b;
    } else {
      assert (a + b)[1..] == a[1..] + b;
      RawTextsConcat(a[1..], b);
    }
  }

  lemma RawTextsOne(raw: RawAttachment)
    ensures RawTexts([raw]) == RawText(raw)
  {
    assert [raw][1..] == [];
  }

  lemma RawTextsCons(raw: RawAttachment, others: seq<RawAttachment>)
    ensures RawTexts([raw] + others) == RawText(raw) + RawTexts(others)
  {
    assert ([raw] + others)[1..] == others;
  }

  lemma RawTextsSnoc(raws: seq<RawAttachment>, i: nat)
    requires i < |raws|
    ensures RawTexts(raws[..i + 1]) == RawTexts(raws[..i]) + RawText(raws[i])
  {
    RawTextsConcat(raws[..i], [raws[i]]);
    RawTextsOne(raws[i]);
    assert raws[..i + 1] == raws[..i] + [raws[i]];
  }

  /** The receivers loop of `SendMessage::deflate`. */
  method PrintReceivers(start: string, receivers: seq<string>) returns (text: string)
    ensures text == start + JoinLines(receivers)
  {
    text := start;
    for i := 0 to |receivers|
      invariant text == start + JoinLines(receivers[..i])
    {
      JoinLinesSnoc(receivers[..i], receivers[i]);
      assert receivers[..i + 1] == receivers[..i] + [receivers[i]];
      text := text + receivers[i] + "\n";
    }
    assert receivers[..|receivers|] == receivers;
  }

  /** The attachments loop of `SendMessage::deflate`. */
  method PrintAttachments(start: string, attachments: seq<Attachment>) returns (text: string)
    ensures text == start + RawTexts(Raws(attachments))
  {
    ghost var raws := Raws(attachments);
    text := start;
    hide PrintInt, RawTexts, Raws;
    NoRaws(start);
    for i := 0 to |attachments|
      invariant text == start + RawTexts(raws[..i])
    {
      RawTextsSnoc(raws, i);
      var a := attachments[i];
      JoinedText(start, RawTexts(raws[..i]), RawText(raws[i]));
      text := text + (a.filename + "\n" + PrintInt(|a.data|) + "\n" + a.data);
    }
    assert raws[..|attachments|] == raws;
  }

  lemma NoRaws(start: string)
    ensures start + RawTexts([]) == start
  {
  }

  lemma JoinedText(a: string, b: string, c: string)
    ensures a + b + c == a + (b + c)
  {
  }

  method PrintSend(m: SendMessage) returns (text: string)
    ensures text == DeflateSend(m)
  {
    text := PrintReceivers("SEND\n" + m.sender + "\n", m.receivers);
    text := text + EOT + "\n" + m.title + "\n" + m.body + ".\n" + PrintInt(|m.attachments|) + "\n";
    text := PrintAttachments(text, m.attachments);
  }

  // ---------------------------------------------------------------- the printed form, letter by letter

  lemma PrintedRequests(u: string, v: string)
    ensures Deflate(List(u)) == "LIST\n" + u + "\n" && Deflate(Quit) == "QUIT\n"
    ensures Deflate(Login(u, v)) == "LOGIN\n" + u + "\n" + v + "\n"
    ensures Deflate(Read(u, 12)) == "READ\n" + u + "\n12\n" && Deflate(Del(u, -7)) == "DEL\n" + u + "\n-7\n"
  {
    assert PrintInt(12) == "12" && PrintInt(-7) == "-7";
    hide PrintInt;
  }

  /** Two receivers, two body lines and two attachments, one of them empty. */
  lemma PrintedSend()
    ensures DeflateSend(SendMessage("a", ["b", "c"], "t", "x\ny\n", [Attachment("f", "1\n2"), Attachment("g", "")]))
         == "SEND\na\nb\nc\n\U{3}\nt\nx\ny\n.\n2\nf\n3\n1\n2g\n0\n"
  {
    var files := [Attachment("f", "1\n2"), Attachment("g", "")];
    PrintedFiles();
    PrintedReceivers();
    hide JoinLines, RawTexts, Raws, PrintInt;
  }

  lemma PrintedFiles()
    ensures PrintInt(2) == "2"
    ensures RawTexts(Raws([Attachment("f", "1\n2"), Attachment("g", "")])) == "f\n3\n1\n2g\n0\n"
  {
    assert PrintInt(3) == "3" && PrintInt(0) == "0" && PrintInt(2) == "2";
    hide PrintInt;
    var raws := [RawAttachment("f", "3", "1\n2"), RawAttachment("g", "0", "")];
    assert Raws([Attachment("f", "1\n2"), Attachment("g", "")]) == raws;
    assert raws == [raws[0]] + [raws[1]];
    RawTextsConcat([raws[0]], [raws[1]]);
    RawTextsOne(raws[0]);
    RawTextsOne(raws[1]);
  }

  lemma PrintedReceivers()
    ensures JoinLines(["b", "c"]) == "b\nc\n"
  {
    assert ["b", "c"] == ["b"] + ["c"];
    JoinLinesOne("b");
    JoinLinesSnoc(["b"], "c");
  }
}
