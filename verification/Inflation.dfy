/** Parsing a printed message (`inflate`): a `std::getline` loop over a string stream. */
module Inflation {
  import opened Text
  import opened Messages

  /** How an inflation ends. `BadConversion` is the source's ConversionException, `BadLength` the
      `std::length_error` that `vector::reserve` throws for a negative count, and `NeverReturns` a
      `while(true)` loop whose terminating line no longer can appear. */
  datatype Outcome<+T> = Ok(value: T) | BadConversion | BadLength | NeverReturns

  /** A string stream together with the `line` variable `std::getline` fills. */
  datatype LineSource = LineSource(rest: string, eof: bool, line: string)

  function Open(data: string): LineSource {
    LineSource(data, false, "")
  }

  /** `std::getline`. Once the end has been seen the call fails and leaves `line` as it was. */
  function GetLine(s: LineSource): (r: LineSource)
    ensures OneLine(s.line) ==> OneLine(r.line)
    ensures !r.eof ==> |r.rest| < |s.rest|
  {
    if s.eof then s
    else
      var i := Find(s.rest, '\n');
      if i < |s.rest| then LineSource(s.rest[i + 1..], false, s.rest[..i])
      else
        assert s.rest[..i] == s.rest;
        LineSource("", true, s.rest)
  }

  /** The receivers up to the EOT line; None when the loop never meets it. */
  function ReadReceivers(s: LineSource, acc: seq<string>): (r: Option<(LineSource, seq<string>)>)
    decreases |s.rest|
  {
    var n := GetLine(s);
    if n.line == EOT then Some((n, acc))
    else if n.eof then None
    else ReadReceivers(n, acc + [n.line])
  }

  /** The body up to the "." line, with the newlines put back; None when the loop never meets it. */
  function ReadBody(s: LineSource, acc: string): (r: Option<(LineSource, string)>)
    decreases |s.rest|
  {
    var n := GetLine(s);
    if n.line == "." then Some((n, acc))
    else if n.eof then None
    else ReadBody(n, acc + n.line + "\n")
  }

  /** One attachment: file name line, size line, then exactly that many bytes. */
  function ReadAttachment(s: LineSource): Outcome<(LineSource, Attachment)> {
    var name := GetLine(s);
    var size := GetLine(name);
    var n := ParseInt32(size.line);
    if n.None? then BadConversion
    else if n.value < 0 then BadLength
    else if size.eof || |size.rest| < n.value then BadConversion
    else Ok((LineSource(size.rest[n.value..], false, size.line), Attachment(name.line, size.rest[..n.value])))
  }

  function ReadAttachments(s: LineSource, count: nat, acc: seq<Attachment>): Outcome<seq<Attachment>>
    decreases count
  {
    if count == 0 then Ok(acc)
    else
      match ReadAttachment(s)
      case Ok((next, a)) => ReadAttachments(next, count - 1, acc + [a])
      case BadConversion => BadConversion
      case BadLength => BadLength
      case NeverReturns => NeverReturns
  }

  /** The attachment section, from the count line on. */
  function ReadTail(s: LineSource): Outcome<seq<Attachment>> {
    var c := GetLine(s);
    var n := ParseInt32(c.line);
    if n.None? then BadConversion
    else if n.value < 0 then BadLength
    else ReadAttachments(c, n.value, [])
  }

  function InflateSend(data: string): Outcome<SendMessage> {
    var l0 := GetLine(Open(data));
    if l0.line != "SEND" then BadConversion
    else
      var l1 := GetLine(l0);
      var rs := ReadReceivers(l1, []);
      if rs.None? then NeverReturns
      else
        var l3 := GetLine(rs.value.0);
        var body := ReadBody(l3, "");
        if body.None? then NeverReturns
        else
          match ReadTail(body.value.0)
          case Ok(attachments) => Ok(SendMessage(l1.line, rs.value.1, l3.line, body.value.1, attachments))
          case BadConversion => BadConversion
          case BadLength => BadLength
          case NeverReturns => NeverReturns
  }

  /** The fixed-size requests: keyword, user name and, except for LIST, one more line. */
  function InflateFixed(t: MessageType, data: string): Outcome<Message>
    requires t == TList || t == TRead || t == TDel || t == TLogin || t == TQuit
  {
    var l0 := GetLine(Open(data));
    if l0.line != Keyword(t) then BadConversion
    else
      var l1 := GetLine(l0);
      var l2 := GetLine(l1);
      var n := ParseInt32(l2.line);
      match t
      case TList => Ok(List(l1.line))
      case TQuit => Ok(Quit)
      case TLogin => Ok(Login(l1.line, l2.line))
      case TRead => if n.Some? then Ok(Read(l1.line, n.value)) else BadConversion
      case TDel => if n.Some? then Ok(Del(l1.line, n.value)) else BadConversion
  }

  function Inflate(t: MessageType, data: string): Outcome<Message> {
    match t
    case TSend => (
      match InflateSend(data)
      case Ok(mail) => Ok(Send(mail))
      case BadConversion => BadConversion
      case BadLength => BadLength
      case NeverReturns => NeverReturns
    )
    case TInvalid => BadConversion
    case _ => InflateFixed(t, data)
  }

  // ---------------------------------------------------------------- the loops of SendMessage::inflate

  method InflateReceivers(start: LineSource) returns (r: Option<(LineSource, seq<string>)>)
    ensures r == ReadReceivers(start, [])
  {
    var s, receivers := start, [];
    while true
      invariant ReadReceivers(s, receivers) == ReadReceivers(start, [])
      decreases |s.rest|
    {
      var n := GetLine(s);
      if n.line == EOT {
        return Some((n, receivers));
      }
      if n.eof {
        return None;  // every later getline fails, so the original loops for ever
      }
      receivers := receivers + [n.line];
      s := n;
    }
  }

  method InflateBody(start: LineSource) returns (r: Option<(LineSource, string)>)
    ensures r == ReadBody(start, "")
  {
    var s, body := start, "";
    while true
      invariant ReadBody(s, body) == ReadBody(start, "")
      decreases |s.rest|
    {
      var n := GetLine(s);
      if n.line == "." {
        return Some((n, body));
      }
      if n.eof {
        return None;  // every later getline fails, so the original loops for ever
      }
      body := body + n.line + "\n";
      s := n;
    }
  }

  method InflateAttachments(start: LineSource, count: nat) returns (r: Outcome<seq<Attachment>>)
    ensures r == ReadAttachments(start, count, [])
  {
    hide ReadAttachment;
    var s, attachments := start, [];
    for i := 0 to count
      invariant ReadAttachments(s, count - i, attachments) == ReadAttachments(start, count, [])
    {
      match ReadAttachment(s) {
        case Ok((next, a)) =>
          attachments := attachments + [a];
          s := next;
        case BadConversion => return BadConversion;
        case BadLength => return BadLength;
        case NeverReturns => return NeverReturns;
      }
    }
    return Ok(attachments);
  }

  method ParseSend(data: string) returns (r: Outcome<SendMessage>)
    ensures r == InflateSend(data)
  {
    var line := GetLine(Open(data));
    if line.line != "SEND" {
      return BadConversion;
    }
    line := GetLine(line);
    var sender := line.line;
    var receivers := InflateReceivers(line);
    if receivers.None? {
      return NeverReturns;
    }
    line := GetLine(receivers.value.0);
    var title := line.line;
    var body := InflateBody(line);
    if body.None? {
      return NeverReturns;
    }
    line := GetLine(body.value.0);
    var count := ParseInt32(line.line);
    if count.None? {
      return BadConversion;
    }
    if count.value < 0 {
      return BadLength;
    }
    var attachments := InflateAttachments(line, count.value);
    match attachments {
      case Ok(list) => return Ok(SendMessage(sender, receivers.value.1, title, body.value.1, list));
      case BadConversion => return BadConversion;
      case BadLength => return BadLength;
      case NeverReturns => return NeverReturns;
    }
  }
}
