/** The client: transmitting a request, parsing the response, and its own view of the login. */
module Client {
  import opened Text
  import opened Messages
  import opened Inflation
  import opened SendFormat
  import opened MessageParsing
  import opened Framing
  import opened Wire
  import opened Delivery
  import opened Agreement
  import opened Arrival

  // ---------------------------------------------------------------- transmission

  /** What one `send` does: it takes at most this many bytes, is interrupted, or fails. */
  datatype SendEvent = Takes(amount: nat) | Eintr | Fails

  /** Bytes the socket takes before its first failure. */
  function Capacity(events: seq<SendEvent>): nat {
    if events == [] || events[0].Fails? then 0
    else (if events[0].Takes? then events[0].amount else 0) + Capacity(events[1..])
  }

  /** An interrupted send is tried again: it takes nothing away from what the socket takes. */
  lemma {:induction false} CapacityInterrupted(a: seq<SendEvent>, b: seq<SendEvent>)
    ensures Capacity(a + [Eintr] + b) == Capacity(a + b)
    decreases |a|
  {
    if a == [] {
      assert a + [Eintr] + b == [Eintr] + b && a + b == b;
    } else {
      assert (a + [Eintr] + b)[1..] == a[1..] + [Eintr] + b && (a + b)[1..] == a[1..] + b;
      CapacityInterrupted(a[1..], b);
    }
  }

  /** A failed send is the last: what comes behind it counts for nothing. */
  lemma {:induction false} CapacityFailed(a: seq<SendEvent>, b: seq<SendEvent>)
    ensures Capacity(a + [Fails] + b) == Capacity(a)
    decreases |a|
  {
    if a == [] {
      assert a + [Fails] + b == [Fails] + b;
    } else {
      assert (a + [Fails] + b)[1..] == a[1..] + [Fails] + b;
      CapacityFailed(a[1..], b);
    }
  }

  function Sum(amounts: seq<nat>): nat {
    if amounts == [] then 0 else amounts[0] + Sum(amounts[1..])
  }

  function Takings(amounts: seq<nat>): (events: seq<SendEvent>)
    ensures |events| == |amounts| && forall i :: 0 <= i < |events| ==> events[i] == Takes(amounts[i])
  {
    seq(|amounts|, i requires 0 <= i < |amounts| => Takes(amounts[i]))
  }

  /** Sends that take bytes add up. */
  lemma {:induction false} CapacityAdds(amounts: seq<nat>)
    ensures Capacity(Takings(amounts)) == Sum(amounts)
    decreases |amounts|
  {
    if amounts != [] {
      assert Takings(amounts)[1..] == Takings(amounts[1..]);
      CapacityAdds(amounts[1..]);
    }
  }

  /** The bytes taken by these sends, if none of them failed. */
  function Taken(events: seq<SendEvent>): nat {
    if events == [] then 0 else (if events[0].Takes? then events[0].amount else 0) + Taken(events[1..])
  }

  /** Enough is taken exactly when it is taken before the first failure. */
  lemma {:induction false} CapacityIff(events: seq<SendEvent>, n: nat)
    ensures Capacity(events) >= n
       <==> exists k :: 0 <= k <= |events| && Fails !in events[..k] && Taken(events[..k]) >= n
    decreases |events|, n
  {
    if n == 0 {
      assert Fails !in events[..0] && Taken(events[..0]) >= n;
    } else if events != [] && !events[0].Fails? {
      var amount := if events[0].Takes? then events[0].amount else 0;
      var left := if amount <= n then n - amount else 0;
      CapacityIff(events[1..], left);
      forall k | 1 <= k <= |events|
        ensures (Fails in events[..k] <==> Fails in events[1..][..k - 1])
        ensures Taken(events[..k]) == amount + Taken(events[1..][..k - 1])
      {
        assert events[..k] == [events[0]] + events[1..][..k - 1];
      }
      if Capacity(events) >= n {
        var j :| 0 <= j <= |events[1..]| && Fails !in events[1..][..j] && Taken(events[1..][..j]) >= left;
        assert Fails !in events[..j + 1] && Taken(events[..j + 1]) >= n;
      }
      forall k | 0 <= k <= |events| && Fails !in events[..k] && Taken(events[..k]) >= n ensures Capacity(events) >= n {
        assert k > 0 by { assert Taken([]) == 0; }
        assert Fails !in events[1..][..k - 1] && Taken(events[1..][..k - 1]) >= left;
      }
    } else {
      NothingTaken(events);
    }
  }

  lemma NothingTaken(events: seq<SendEvent>)
    requires events == [] || events[0].Fails?
    ensures forall k :: 0 <= k <= |events| && Fails !in events[..k] ==> Taken(events[..k]) == 0
  {
    forall k | 0 < k <= |events| ensures Fails in events[..k] {
      assert events[..k][0] == Fails;
    }
  }

  class SendSocket {
    var wire: string
    var events: seq<SendEvent>

    constructor (events: seq<SendEvent>)
      ensures wire == "" && this.events == events
    {
      wire, this.events := "", events;
    }

    /** `transmitMessage`: the request goes out in order and without repetition, completely exactly when the
        socket takes that many bytes before its first failure, however often it is interrupted. */
    method Transmit(msg: Message) returns (ok: bool)
      modifies this
      ensures ok <==> exists k :: 0 <= k <= |old(events)| && Fails !in old(events)[..k]
                                  && Taken(old(events)[..k]) >= |Deflate(msg)|
      ensures ok ==> wire == old(wire) + Deflate(msg)
      ensures !ok ==> Capacity(old(events)) < |Deflate(msg)|
                      && wire == old(wire) + Deflate(msg)[..Capacity(old(events))]
    {
      hide Deflate, Taken;
      var text := Deflate(msg);
      var toSend := |text|;
      CapacityIff(events, toSend);
      while toSend != 0
        invariant 0 <= toSend <= |text|
        invariant wire == old(wire) + text[..|text| - toSend]
        invariant Capacity(old(events)) == |text| - toSend + Capacity(events)
                  || (toSend == 0 && Capacity(old(events)) >= |text|)
        decreases |events|, toSend
      {
        if events == [] {
          return false;
        }
        var e := events[0];
        events := events[1..];
        match e {
          case Eintr =>
          case Fails =>
            return false;
          case Takes(n) =>
            var amount := if n <= toSend then n else toSend;
            var sent: nat := |text| - toSend;
            assert text[..sent] + text[sent..sent + amount] == text[..sent + amount];
            wire := wire + text[sent..sent + amount];
            toSend := toSend - amount;
        }
      }
      return true;
    }
  }

  // ---------------------------------------------------------------- the list response

  datatype Response = OkResponse | ErrResponse | ListResponse(titles: seq<string>) | ReadResponse(mail: SendMessage)

  function ReadTitles(s: LineSource, count: nat, acc: seq<string>): seq<string>
    decreases count
  {
    if count == 0 then acc
    else
      var n := GetLine(s);
      ReadTitles(n, count - 1, acc + [n.line])
  }

  /** `ListResponse::inflate`; a negative count never reaches zero. */
  function InflateTitles(data: string): Outcome<seq<string>> {
    var l0 := GetLine(Open(data));
    var n := ParseInt32(l0.line);
    if n.None? then BadConversion
    else if n.value < 0 then NeverReturns
    else Ok(ReadTitles(l0, n.value, []))
  }

  method ParseTitles(data: string) returns (r: Outcome<seq<string>>)
    ensures r == InflateTitles(data)
  {
    hide ParseInt, GetLine;
    var s := GetLine(Open(data));
    var count := ParseInt32(s.line);
    if count.None? {
      return BadConversion;
    }
    if count.value < 0 {
      return NeverReturns;
    }
    ghost var start := s;
    var titles: seq<string> := [];
    var left := count.value;
    while left != 0
      invariant 0 <= left
      invariant ReadTitles(s, left, titles) == ReadTitles(start, count.value, [])
    {
      s := GetLine(s);
      titles := titles + [s.line];
      left := left - 1;
    }
    return Ok(titles);
  }

  lemma {:induction false} ReadTitlesBack(titles: seq<string>, tail: string, previous: string, acc: seq<string>)
    requires AllOneLine(titles)
    ensures ReadTitles(LineSource(JoinLines(titles) + tail, false, previous), |titles|, acc) == acc + titles
    decreases |titles|
  {
    hide GetLine, JoinLines;
    if titles == [] {
      assert acc + titles == acc;
    } else {
      GetLineCons(titles, tail, previous);
      ReadTitlesBack(titles[1..], tail, titles[0], acc + [titles[0]]);
      assert acc + [titles[0]] + titles[1..] == acc + titles;
    }
  }

  /** `inflate` on a count and as many titles; any text that converts to their number will do for the count. */
  lemma InflateTitlesBack(count: string, titles: seq<string>)
    requires OneLine(count) && ParseInt32(count) == Some(|titles|) && AllOneLine(titles)
    ensures InflateTitles(JoinLines([count] + titles)) == Ok(titles)
    ensures titles == [] ==> InflateTitles(count) == Ok([])
  {
    hide ParseInt;
    var lines := [count] + titles;
    GetLineCons(lines, "", "");
    assert JoinLines(lines) + "" == JoinLines(lines);
    assert lines[1..] == titles;
    ReadTitlesBack(titles, "", count, []);
    assert [] + titles == titles;
    FindNone(count, '\n');
  }

  // ---------------------------------------------------------------- the response parser

  datatype ResponsePhase = Idle | InResponse

  datatype ResponseState = ResponseState(
    phase: ResponsePhase,
    total: int,
    lines: seq<string>,      // current_response_data_
    received: bool,          // didReceiveMsg_
    mail: SendMessage,       // tmp_msg_
    parser: ParserState)     // message_parser_

  /** What one call of `digest` ends with. `Raised`: an exception leaves getResponse; `Looping`: it never returns. */
  datatype ResponseStep = Silent | Answered(response: Response) | Raised | Looping

  function AnswerLine(data: string): Response {
    if data == "OK" then OkResponse else ErrResponse
  }

  function AnswerTitles(r: Outcome<seq<string>>, failed: ResponseStep): ResponseStep {
    match r
    case Ok(titles) => Answered(ListResponse(titles))
    case NeverReturns => Looping
    case _ => failed
  }

  function DigestFirst(s: ResponseState, data: string, request: MessageType): (ResponseState, ResponseStep) {
    var t := s.(lines := []);
    match request
    case TList =>
      var u := t.(lines := [data]);
      var n := ParseInt32(data);
      if n.None? then (u, Answered(ErrResponse))
      else
        var v := u.(total := n.value);
        if n.value > 0 then (v.(phase := InResponse), Silent)
        else (v, AnswerTitles(InflateTitles(data), Raised))
    case TRead =>
      if data == "OK" then (t.(phase := InResponse), Silent) else (t, Answered(ErrResponse))
    case TInvalid => (t, Silent)
    case _ => (t, Answered(AnswerLine(data)))
  }

  function DigestTitle(s: ResponseState, data: string): (ResponseState, ResponseStep) {
    var t := s.(lines := s.lines + [data], total := Wrap32(s.total - 1));
    if t.total != 0 then (t, Silent)
    else
      var r := InflateTitles(JoinLines(t.lines));
      (if r.NeverReturns? then t else t.(phase := Idle), AnswerTitles(r, Answered(ErrResponse)))
  }

  function DigestMail(s: ResponseState, data: string): (ResponseState, ResponseStep) {
    var (q, step) := Digest(s.parser, data);
    match step
    case Refused => (s.(parser := q), Raised)
    case Aborted => (s.(parser := q), Raised)
    case Stuck => (s.(parser := q), Looping)
    case Nothing => AfterMail(s.(parser := q))
    case Dispatched(m) => AfterMail(s.(parser := q, received := m.Send?, mail := if m.Send? then m.mail else s.mail))
  }

  /** After the embedded parser has seen a chunk: a message, or a parser that is idle without one. */
  function AfterMail(s: ResponseState): (ResponseState, ResponseStep) {
    if s.received then (s.(received := false, phase := Idle), Answered(ReadResponse(s.mail)))
    else if s.parser.phase == NewRequest then (s.(phase := Idle), Answered(ErrResponse))
    else (s, Silent)
  }

  function DigestResponse(s: ResponseState, data: string, request: MessageType): (ResponseState, ResponseStep) {
    if s.phase == Idle then DigestFirst(s, data, request)
    else if request == TList then DigestTitle(s, data)
    else if request == TRead then DigestMail(s, data)
    else (s, Silent)
  }

  class ResponseParser {
    var phase: ResponsePhase
    var total: int
    var lines: seq<string>
    var received: bool
    var mail: SendMessage
    const parser: MessageParser

    function View(): ResponseState
      reads this, parser
    {
      ResponseState(phase, total, lines, received, mail, parser.View())
    }

    constructor ()
      ensures View() == ResponseState(Idle, 0, [], false, SendMessage("", [], "", "", []), START)
      ensures fresh(parser)
    {
      phase, total, lines, received := Idle, 0, [], false;
      mail := SendMessage("", [], "", "", []);
      parser := new MessageParser();
    }

    /** The delegate of the embedded parser. */
    method FinishedSendMessage(m: Message)
      modifies this`mail, this`received
      ensures received == m.Send?
      ensures mail == if m.Send? then m.mail else old(mail)
    {
      if m.Send? {
        mail := m.mail;
        received := true;
      } else {
        received := false;
      }
    }

    method DigestFirstLine(data: string, request: MessageType) returns (step: ResponseStep)
      requires phase == Idle
      modifies this
      ensures (View(), step) == DigestFirst(old(View()), data, request)
    {
      hide ParseInt, InflateTitles;
      step := Silent;
      lines := [];
      match request {
        case TList =>
          lines := lines + [data];
          assert lines == [data];
          var n := ParseInt32(data);
          if n.None? {
            return Answered(ErrResponse);
          }
          total := n.value;
          if total > 0 {
            phase := InResponse;
          } else {
            var r := ParseTitles(data);
            match r {
              case Ok(titles) => step := Answered(ListResponse(titles));
              case NeverReturns => step := Looping;
              case _ => step := Raised;
            }
          }
        case TRead =>
          if data == "OK" {
            phase := InResponse;
          } else {
            step := Answered(ErrResponse);
          }
        case TInvalid =>
        case _ =>
          if data == "OK" {
            step := Answered(OkResponse);
          } else {
            step := Answered(ErrResponse);
          }
      }
    }

    method DigestData(data: string, request: MessageType) returns (step: ResponseStep)
      modifies this, parser
      ensures (View(), step) == DigestResponse(old(View()), data, request)
    {
      hide Digest, InflateTitles, Wrap32, DigestFirst;
      step := Silent;
      if phase == Idle {
        step := DigestFirstLine(data, request);
      } else if request == TList {
        lines := lines + [data];
        total := Wrap32(total - 1);
        if total == 0 {
          var text := DataToString(lines);
          var r := ParseTitles(text);
          match r {
            case Ok(titles) =>
              phase := Idle;
              step := Answered(ListResponse(titles));
            case NeverReturns =>
              step := Looping;
            case _ =>
              phase := Idle;
              step := Answered(ErrResponse);
          }
        }
      } else if request == TRead {
        var inner := parser.DigestData(data);
        match inner {
          case Refused => return Raised;
          case Aborted => return Raised;
          case Stuck => return Looping;
          case Nothing =>
          case Dispatched(m) => FinishedSendMessage(m);
        }
        if parser.phase == NewRequest && !received {
          phase := Idle;
          step := Answered(ErrResponse);
        }
        if received {
          received := false;
          phase := Idle;
          step := Answered(ReadResponse(mail));
        }
      }
    }
  }

  // ---------------------------------------------------------------- receiving one response

  datatype Received =
    | Got(response: Response, state: ResponseState, rest: string)
    | Lost   // the connection ended, or an exception or an endless loop took the client with it

  /** `getResponse`: chunks until the response parser has answered. */
  function Receive(s: ResponseState, request: MessageType, bytes: string, limit: nat): Received
    requires limit >= 2
    decreases |bytes|
  {
    match NextChunk(s.parser.awaiting, limit, bytes)
    case Chunk(data, rest) => (
      var (t, step) := DigestResponse(s, data, request);
      match step
      case Silent => Receive(t, request, rest, limit)
      case Answered(response) => Got(response, t, rest)
      case _ => Lost
    )
    case _ => Lost
  }

  /** A response parser between two responses. */
  predicate Awaiting(s: ResponseState) {
    s.phase == Idle && !s.received && Ready(s.parser)
  }

  lemma ReceiveStatus(s: ResponseState, request: MessageType, ok: bool, rest: string, limit: nat)
    requires limit >= 16 && Awaiting(s) && request != TList && request != TInvalid && (ok ==> request != TRead)
    ensures var line := if ok then "OK" else "ERR";
      Receive(s, request, line + "\n" + rest, limit)
      == Got(if ok then OkResponse else ErrResponse, s.(lines := []), rest)
  {
    hide NextChunk;
    var line := if ok then "OK" else "ERR";
    StatusLines(limit);
    FrameLine(line, rest, limit);
  }

  /** Any line at all in answer to a request that expects a status: OK is success, and everything else is failure. */
  lemma ReceiveAnyLine(s: ResponseState, request: MessageType, line: string, rest: string, limit: nat)
    requires limit >= 16 && Awaiting(s) && WireLine(line, limit)
    requires request == TSend || request == TDel || request == TLogin || request == TQuit
    ensures Receive(s, request, line + "\n" + rest, limit)
         == Got(if line == "OK" then OkResponse else ErrResponse, s.(lines := []), rest)
  {
    hide NextChunk, WireLine;
    FrameLine(line, rest, limit);
  }

  /** READ goes on behind OK only, and LIST behind a positive count; a negative count keeps the client for ever. */
  lemma ReceiveOtherLine(s: ResponseState, request: MessageType, line: string, rest: string, limit: nat)
    requires limit >= 16 && Awaiting(s) && WireLine(line, limit)
    ensures request == TRead && line != "OK" ==>
              Receive(s, TRead, line + "\n" + rest, limit) == Got(ErrResponse, s.(lines := []), rest)
    ensures request == TList && ParseInt32(line).None? ==>
              Receive(s, TList, line + "\n" + rest, limit) == Got(ErrResponse, s.(lines := [line]), rest)
    ensures request == TList && ParseInt32(line).Some? && ParseInt32(line).value < 0 ==>
              Receive(s, TList, line + "\n" + rest, limit) == Lost
  {
    hide NextChunk, ParseInt, InflateTitles;
    FrameLine(line, rest, limit);
    OneCount(line);
  }

  /** `inflate` on a count line alone, as it is called when no title is announced. */
  lemma OneCount(line: string)
    requires OneLine(line)
    ensures ParseInt32(line).Some? && ParseInt32(line).value < 0 ==> InflateTitles(line) == NeverReturns
  {
    hide ParseInt;
    FindNone(line, '\n');
  }

  lemma StatusLines(limit: nat)
    requires limit >= 16
    ensures WireLine("OK", limit) && WireLine("ERR", limit)
  {
  }

  /** After the count line the client takes exactly that many lines off the stream, as they are framed. */
  lemma {:induction false} ReceiveLines(s: ResponseState, count: string, got: seq<string>, bytes: string, limit: nat)
    requires limit >= 2 && s.phase == InResponse && !s.received && Ready(s.parser)
    requires OneLine(count) && 0 < s.total && ParseInt32(count) == Some(s.total + |got|)
    requires AllOneLine(got) && s.lines == [count] + got
    ensures match TakeFrames(bytes, s.total, limit)
            case None => Receive(s, TList, bytes, limit) == Lost
            case Some((frames, rest)) =>
              var r := Receive(s, TList, bytes, limit);
              && r.Got? && r.response == ListResponse(got + frames) && r.rest == rest
              && Awaiting(r.state) && r.state.parser == s.parser
    decreases s.total
  {
    hide NextChunk, PrintInt, ParseInt, InflateTitles;
    match NextChunk(0, limit, bytes) {
      case Chunk(line, rest) =>
        FrameIsOneLine(bytes, limit);
        var n := s.total;
        var t := s.(lines := s.lines + [line], total := n - 1);
        var more := got + [line];
        assert t.lines == [count] + more;
        if n == 1 {
          InflateTitlesBack(count, more);
          assert TakeFrames(rest, 0, limit) == Some(([], rest));
          assert [line] + [] == [line];
        } else {
          assert DigestResponse(s, line, TList) == (t, Silent);
          ReceiveLines(t, count, more, rest, limit);
          match TakeFrames(rest, n - 1, limit) {
            case Some((frames, left)) => assert more + frames == got + ([line] + frames);
            case None =>
          }
        }
      case _ =>
    }
  }

  /** LIST on any bytes, from a count line on that converts to a number of titles: exactly that many lines are taken, as
      they are framed, and they are the response. */
  lemma ReceiveCounted(s: ResponseState, count: string, n: nat, bytes: string, limit: nat)
    requires limit >= 16 && Awaiting(s) && WireLine(count, limit) && ParseInt32(count) == Some(n)
    ensures var r := Receive(s, TList, count + "\n" + bytes, limit);
      match TakeFrames(bytes, n, limit)
      case None => r == Lost
      case Some((frames, left)) =>
        && r.Got? && r.response == ListResponse(frames) && r.rest == left
        && Awaiting(r.state) && r.state.parser == s.parser
  {
    hide NextChunk, ParseInt, InflateTitles, Receive;
    if n == 0 {
      InflateTitlesBack(count, []);
      ReceiveAnswer(s, TList, count, bytes, ListResponse([]), limit);
    } else {
      var t := s.(lines := [count], total := n, phase := InResponse);
      assert DigestResponse(s, count, TList) == (t, Silent);
      ReceiveSilent(s, TList, count, bytes, limit);
      assert [count] + [] == [count];
      ReceiveLines(t, count, [], bytes, limit);
      match TakeFrames(bytes, n, limit) {
        case Some((frames, left)) => assert [] + frames == frames;
        case None =>
      }
    }
  }

  /** The printed list reply, from the count line on. */
  lemma ReceiveList(s: ResponseState, titles: seq<string>, rest: string, limit: nat)
    requires limit >= 16 && Awaiting(s) && |titles| <= INT_MAX
    ensures match TakeFrames(JoinLines(titles) + rest, |titles|, limit)
            case None => Receive(s, TList, JoinLines([PrintInt(|titles|)] + titles) + rest, limit) == Lost
            case Some((frames, left)) =>
              var r := Receive(s, TList, JoinLines([PrintInt(|titles|)] + titles) + rest, limit);
              && r.Got? && r.response == ListResponse(frames) && r.rest == left
              && Awaiting(r.state) && r.state.parser == s.parser
  {
    hide PrintInt, ParseInt, Receive, JoinLines, Awaiting, TakeFrames;
    NumberLine(|titles|, limit);
    Prefixed(PrintInt(|titles|), titles, rest);
    ReceiveCounted(s, PrintInt(|titles|), |titles|, JoinLines(titles) + rest, limit);
  }

  /** The client's list is the server's, title by title, whatever bytes follow. */
  lemma ReceiveTitles(s: ResponseState, titles: seq<string>, rest: string, limit: nat)
    requires limit >= 16 && Awaiting(s) && |titles| <= INT_MAX && WireLines(titles, limit)
    ensures var r := Receive(s, TList, JoinLines([PrintInt(|titles|)] + titles) + rest, limit);
      && r.Got? && r.response == ListResponse(titles) && r.rest == rest
      && Awaiting(r.state) && r.state.parser == s.parser
  {
    hide Receive, PrintInt;
    ReceiveList(s, titles, rest, limit);
    TakeWireLines(titles, rest, limit);
  }

  /** A list reply arrives as it was sent, with nothing left over, exactly when an int can count the titles and every
      title is a wire line. */
  lemma ReceiveTitlesIff(s: ResponseState, titles: seq<string>, limit: nat)
    requires limit >= 16 && Awaiting(s) && AllOneLine(titles)
    ensures var r := Receive(s, TList, JoinLines([PrintInt(|titles|)] + titles), limit);
      (r.Got? && r.response == ListResponse(titles) && r.rest == "" && Awaiting(r.state))
      <==> |titles| <= INT_MAX && WireLines(titles, limit)
  {
    hide Receive, PrintInt, TakeFrames, WireLines;
    var bytes := JoinLines([PrintInt(|titles|)] + titles);
    assert bytes + "" == bytes;
    assert JoinLines(titles) + "" == JoinLines(titles);
    if |titles| > INT_MAX {
      JoinedFirst(PrintInt(|titles|), titles);
      CountTooLong(s, |titles|, JoinLines(titles), limit);
    } else {
      ReceiveList(s, titles, "", limit);
      if WireLines(titles, limit) {
        TakeWireLines(titles, "", limit);
      } else if TakeFrames(JoinLines(titles), |titles|, limit) == Some((titles, "")) {
        TakenWereWireLines(titles, limit);
      }
    }
  }

  /** More titles than an int can count: the count line, or as much of it as fits, does not convert. */
  lemma CountTooLong(s: ResponseState, n: nat, rest: string, limit: nat)
    requires limit >= 16 && Awaiting(s) && n > INT_MAX
    ensures var r := Receive(s, TList, PrintInt(n) + "\n" + rest, limit);
      r.Got? && r.response == ErrResponse
  {
    hide ParseInt, NextChunk;
    CountFrame(n, rest, limit);
  }

  lemma CountFrame(n: nat, rest: string, limit: nat)
    requires limit >= 16 && n > INT_MAX
    ensures var framed := NextChunk(0, limit, PrintInt(n) + "\n" + rest);
      framed.Chunk? && ParseInt32(framed.data) == None
  {
    hide ParseInt, PrintNat;
    var digits := PrintNat(n);
    var s := digits + "\n" + rest;
    PrintIntOneLine(n);
    if |digits| + 2 <= limit {
      NoReturn(digits);
      FrameFitting(digits, rest, limit);
      LongCount(n, |digits|);
      assert digits[..|digits|] == digits;
    } else {
      NewlineAt(digits, rest);
      LongCount(n, limit - 1);
      assert s[..limit - 1] == digits[..limit - 1];
      NoReturn(digits[..limit - 1]);
    }
  }

  lemma NoReturn(digits: string)
    requires AllDigits(digits)
    ensures StripCR(digits) == digits
  {
    assert digits != "" ==> IsDigit(digits[|digits| - 1]);
  }

  /** A title that fills the buffer arrives whole, but its newline is left over for the next response. */
  lemma FullLineLeavesNewline(s: ResponseState, title: string, limit: nat)
    requires limit >= 16 && Awaiting(s) && OneLine(title) && |title| == limit - 1 && title[|title| - 1] != '\r'
    ensures var r := Receive(s, TList, JoinLines([PrintInt(1)] + [title]), limit);
      r.Got? && r.response == ListResponse([title]) && r.rest == "\n"
  {
    hide Receive, PrintInt;
    var bytes := title + "\n";
    JoinLinesOne(title);
    assert JoinLines([PrintInt(1)] + [title]) + "" == JoinLines([PrintInt(1)] + [title]);
    assert JoinLines([title]) + "" == bytes;
    ReceiveList(s, [title], "", limit);
    FrameFull(title, limit);
    assert TakeFrames("\n", 0, limit) == Some(([], "\n"));
    assert [title] + [] == [title];
  }

  lemma FrameFull(line: string, limit: nat)
    requires limit >= 16 && OneLine(line) && |line| == limit - 1 && line[|line| - 1] != '\r'
    ensures NextChunk(0, limit, line + "\n") == Chunk(line, "\n")
  {
    var s := line + "\n";
    assert s[..|line|] == line && s[|line|..] == "\n";
    LineEndElsewhere(s, |line|, limit);
  }

  /** Such a title, for the buffer of both programs. */
  lemma FullLineExample(s: ResponseState) returns (title: string)
    requires Awaiting(s)
    ensures OneLine(title) && |title| == 1023 && DEFAULT_BUFFER_SIZE == 1024
    ensures var r := Receive(s, TList, JoinLines([PrintInt(1)] + [title]), DEFAULT_BUFFER_SIZE);
      r.Got? && r.response == ListResponse([title]) && r.rest == "\n"
  {
    hide Receive, JoinLines, PrintInt, Awaiting;
    title := seq(DEFAULT_BUFFER_SIZE - 1, i => 'x');
    FullLineLeavesNewline(s, title, DEFAULT_BUFFER_SIZE);
  }

  lemma ReceiveSilent(s: ResponseState, request: MessageType, line: string, rest: string, limit: nat)
    requires limit >= 2 && s.parser.awaiting == 0 && WireLine(line, limit)
    requires DigestResponse(s, line, request).1 == Silent
    ensures Receive(s, request, line + "\n" + rest, limit)
         == Receive(DigestResponse(s, line, request).0, request, rest, limit)
  {
    hide NextChunk, DigestResponse;
    FrameLine(line, rest, limit);
  }

  lemma ReceiveAnswer(
      s: ResponseState, request: MessageType, line: string, rest: string, response: Response, limit: nat)
    requires limit >= 2 && s.parser.awaiting == 0 && WireLine(line, limit)
    requires DigestResponse(s, line, request).1 == Answered(response)
    ensures Receive(s, request, line + "\n" + rest, limit)
         == Got(response, DigestResponse(s, line, request).0, rest)
  {
    hide NextChunk, DigestResponse;
    FrameLine(line, rest, limit);
  }

  /** Inside a READ response the embedded parser sees the bytes exactly as a server connection would, and the
      response is what its factory makes of them. */
  lemma {:induction false} ReceiveMail(
      s: ResponseState, bytes: string, r: ParserState, rest: string, limit: nat)
    requires limit >= 2 && s.phase == InResponse && !s.received
    requires Completes(s.parser, bytes, r, rest, limit) && r.phase == NewRequest
    ensures Receive(s, TRead, bytes, limit)
         == match NewInstance(r.chunks)
            case Ok(Send(m)) => Got(ReadResponse(m), s.(parser := r.(chunks := []), mail := m, phase := Idle), rest)
            case Ok(_) => Got(ErrResponse, s.(parser := r.(chunks := []), phase := Idle), rest)
            case _ => Lost
    decreases |bytes|
  {
    hide NextChunk, Digest, NewInstance;
    var framed := NextChunk(s.parser.awaiting, limit, bytes);
    var (q, step) := Digest(s.parser, framed.data);
    if q.phase == NewRequest {
      assert (q, step) == Finish(r);
    } else {
      ReceiveMail(s.(parser := q), framed.rest, r, rest, limit);
    }
  }

  /** READ, up to the factory of the embedded parser. */
  lemma ReceiveReadFactory(s: ResponseState, m: SendMessage, rest: string, limit: nat)
    requires limit >= 16 && Awaiting(s) && WireSend(m, limit)
    ensures var r := Receive(s, TRead, "OK" + "\n" + (DeflateSend(m) + rest), limit);
      match NewInstance(SendChunks(m, limit))
      case Ok(Send(n)) => r.Got? && r.response == ReadResponse(n) && r.rest == rest && Awaiting(r.state)
      case Ok(_) => r.Got? && r.response == ErrResponse
      case _ => r == Lost
  {
    hide NextChunk, Receive, Completes, SendChunks, DeflateSend, WireSend, NewInstance;
    var t := s.(lines := [], phase := InResponse);
    var r := ParserState(NewRequest, TSend, 0, 0, t.parser.chunks + SendChunks(m, limit));
    assert DigestResponse(s, "OK", TRead) == (t, Silent);
    StatusLines(limit);
    ReceiveSilent(s, TRead, "OK", DeflateSend(m) + rest, limit);
    SendCompletes(t.parser, m, rest, limit);
    assert r.chunks == SendChunks(m, limit);
    ReceiveMail(t, DeflateSend(m) + rest, r, rest, limit);
  }

  /** Inside a READ response the client waits for what its embedded parser gathers, and answers with what is built
      from that. */
  lemma {:induction false} ReceiveGathered(s: ResponseState, bytes: string, limit: nat)
    requires limit >= 2 && s.phase == InResponse && !s.received
    requires s.parser.phase != NewRequest && FramingInvariant(s.parser)
    ensures var r := Receive(s, TRead, bytes, limit);
      match Gathered(s.parser, bytes, limit)
      case None => r == Lost
      case Some((chunks, left)) =>
        match NewInstance(s.parser.chunks + chunks)
        case Ok(Send(m)) => r.Got? && r.response == ReadResponse(m) && r.rest == left && Awaiting(r.state)
        case Ok(_) => r.Got? && r.response == ErrResponse
        case _ => r == Lost
    decreases |bytes|
  {
    hide NextChunk, Digest, NewInstance;
    match NextChunk(s.parser.awaiting, limit, bytes) {
      case Chunk(data, rest) =>
        var (q, step) := Digest(s.parser, data);
        var all := s.parser.chunks + [data];
        DigestKeepsFraming(s.parser, data);
        if q.phase == NewRequest {
          LastFinishes(s.parser, data);
          LastClears(s.parser, data);
        } else {
          QuietAppends(s.parser, data);
          ReceiveGathered(s.(parser := q), rest, limit);
          match Gathered(q, rest, limit) {
            case Some((more, left)) => assert all + more == s.parser.chunks + ([data] + more);
            case None =>
          }
        }
      case _ =>
    }
  }

  lemma LastClears(p: ParserState, data: string)
    requires p.phase != NewRequest && Digest(p, data).0.phase == NewRequest
    ensures Digest(p, data).1.Dispatched? ==> Digest(p, data).0.chunks == []
  {
    hide NewInstance, ParseInt, Wrap32;
  }

  /** The reply to READ, for every message and whatever follows it. */
  lemma ReceiveReadGathered(s: ResponseState, m: SendMessage, rest: string, limit: nat)
    requires limit >= 16 && Awaiting(s)
    ensures var r := Receive(s, TRead, "OK" + "\n" + (DeflateSend(m) + rest), limit);
      match Gathered(START, DeflateSend(m) + rest, limit)
      case None => r == Lost
      case Some((chunks, left)) =>
        match NewInstance(chunks)
        case Ok(Send(n)) => r.Got? && r.response == ReadResponse(n) && r.rest == left && Awaiting(r.state)
        case Ok(_) => r.Got? && r.response == ErrResponse
        case _ => r == Lost
  {
    hide NextChunk, DeflateSend, NewInstance, Gathered, Digest, Receive;
    var t := s.(lines := [], phase := InResponse);
    StatusLines(limit);
    assert DigestResponse(s, "OK", TRead) == (t, Silent);
    ReceiveSilent(s, TRead, "OK", DeflateSend(m) + rest, limit);
    var text := KeywordFirst(m, rest);
    KeywordGathered(START, text, limit);
    KeywordRead(t, text, limit);
    ReceiveGathered(t.(parser := KEYWORD_READ), text, limit);
  }

  /** READ, with any bytes behind: a plain message arrives as it was printed, with the same last-byte rule as on the way
      in, and leaves what follows, exactly when every line fits and no attachment is cut short. */
  lemma ReceiveReadIff(s: ResponseState, m: SendMessage, rest: string, limit: nat)
    requires limit >= 16 && Awaiting(s) && Plain(m) && (EndsEmpty(m.attachments) ==> rest == "")
    ensures var r := Receive(s, TRead, "OK" + "\n" + (DeflateSend(m) + rest), limit);
      (r.Got? && r.response == ReadResponse(NormaliseSend(m)) && r.rest == rest && Awaiting(r.state))
      <==> WireSend(m, limit) && AllKeepLength(m.attachments)
  {
    hide Receive, SendChunks, DeflateSend, WireSend, NewInstance, NormaliseSend, AllKeepLength, Awaiting, Gathered,
      Plain;
    if WireSend(m, limit) && AllKeepLength(m.attachments) {
      ReceiveReadFactory(s, m, rest, limit);
      SendFactoryIff(m, limit);
    } else {
      ReceiveReadGathered(s, m, rest, limit);
      var r := Receive(s, TRead, "OK" + "\n" + (DeflateSend(m) + rest), limit);
      if r.Got? && r.response == ReadResponse(NormaliseSend(m)) {
        OnlyWireGathered(START, m, rest, limit);
      }
    }
  }

  /** The client reads this response off these bytes, needs all of them, and is ready for the next. */
  predicate Arrives(r: ResponseState, request: MessageType, bytes: string, response: Response, limit: nat)
    requires limit >= 2
  {
    var got := Receive(r, request, bytes, limit);
    got.Got? && got.response == response && got.rest == "" && Awaiting(got.state)
  }

  /** READ, for every message at all: it arrives exactly when its own bytes come through the framing whole. */
  lemma ReadArrivesIff(s: ResponseState, m: SendMessage, limit: nat)
    requires limit >= 16 && Awaiting(s)
    ensures Arrives(s, TRead, "OK" + "\n" + DeflateSend(m), ReadResponse(NormaliseSend(m)), limit) <==> Whole(m, limit)
  {
    hide DeflateSend, NormaliseSend, NewInstance, Gathered, Receive, Awaiting;
    assert DeflateSend(m) + "" == DeflateSend(m);
    ReceiveReadGathered(s, m, "", limit);
  }

  lemma KeywordRead(s: ResponseState, rest: string, limit: nat)
    requires limit >= 16 && s.phase == InResponse && !s.received && Ready(s.parser)
    ensures Receive(s, TRead, "SEND" + "\n" + rest, limit) == Receive(s.(parser := KEYWORD_READ), TRead, rest, limit)
  {
    hide NextChunk, Digest;
    KeywordGathered(s.parser, rest, limit);
  }

  // ---------------------------------------------------------------- the client's view of the login

  datatype User = User(username: string, loggedIn: bool)

  /** The OK and ERR cases of `didReceiveResponse`; other responses leave the login alone. */
  function NoteResponse(u: User, response: Response): User {
    if u.username == "" || u.loggedIn then u
    else if response.OkResponse? then u.(loggedIn := true)
    else if response.ErrResponse? then User("", false)
    else u
  }

  class UserManager {
    var username: string
    var isLoggedIn: bool

    constructor ()
      ensures User(username, isLoggedIn) == User("", false)
    {
      username, isLoggedIn := "", false;
    }

    method StartLogin(name: string)
      modifies this
      ensures User(username, isLoggedIn) == old(User(username, isLoggedIn)).(username := name)
    {
      username := name;
    }

    method DidReceiveResponse(response: Response)
      modifies this
      ensures User(username, isLoggedIn) == NoteResponse(old(User(username, isLoggedIn)), response)
    {
      match response {
        case OkResponse =>
          if username != "" && !isLoggedIn {
            isLoggedIn := true;
          }
        case ErrResponse =>
          if username != "" && !isLoggedIn {
            isLoggedIn := false;
            username := "";
          }
        case _ =>
      }
    }
  }
}
