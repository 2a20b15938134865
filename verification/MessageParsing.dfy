/** The incremental request parser (`MessageParser`) and the factory that turns its chunks into a message. */
module MessageParsing {
  import opened Text
  import opened Messages
  import opened Inflation

  datatype Phase = NewRequest | Parsing | AwaitingAttachments

  datatype ParserState = ParserState(
    phase: Phase,
    kind: MessageType,
    total: int,           // total_lines_
    awaiting: int,        // awaiting_size_
    chunks: seq<string>)  // current_message_data_

  /** What one call of `digest` ends with: no call of the delegate, one call, or an exception from the
      factory (`Refused`: ConversionException, `Aborted`: length_error) or a factory that never returns. */
  datatype Step = Nothing | Dispatched(message: Message) | Refused | Aborted | Stuck

  const START := ParserState(NewRequest, TInvalid, 0, 0, [])

  /** 32-bit signed arithmetic, as the unoptimised build wraps it. */
  function Wrap32(n: int): (r: int)
    ensures INT_MIN <= r <= INT_MAX
    ensures INT_MIN <= n <= INT_MAX ==> r == n
    ensures (r - n) % 0x1_0000_0000 == 0
  {
    (n - INT_MIN) % 0x1_0000_0000 + INT_MIN
  }

  /** `dataToString` and the constructor that the first chunk selects. */
  function NewInstance(chunks: seq<string>): Outcome<Message> {
    if chunks == [] then BadConversion
    else Inflate(GetMessageType(chunks[0]), JoinLines(chunks))
  }

  method DataToString(chunks: seq<string>) returns (data: string)
    ensures data == JoinLines(chunks)
  {
    data := "";
    for i := 0 to |chunks|
      invariant data == JoinLines(chunks[..i])
    {
      JoinLinesSnoc(chunks[..i], chunks[i]);
      assert chunks[..i + 1] == chunks[..i] + [chunks[i]];
      data := data + chunks[i] + "\n";
    }
    assert chunks[..|chunks|] == chunks;
  }

  /** The end of a request. The chunks are cleared only when the factory returns. */
  function Finish(p: ParserState): (ParserState, Step) {
    match NewInstance(p.chunks)
    case Ok(m) => (p.(chunks := []), Dispatched(m))
    case BadConversion => (p, Refused)
    case BadLength => (p, Aborted)
    case NeverReturns => (p, Stuck)
  }

  function LinesAfterKeyword(t: MessageType, previous: int): int {
    match t
    case TSend => 3
    case TList => 1
    case TRead => 2
    case TDel => 2
    case TLogin => 2
    case TQuit => previous
    case TInvalid => previous
  }

  function DigestKeyword(p: ParserState, data: string): (ParserState, Step) {
    var t := GetMessageType(data);
    var total := LinesAfterKeyword(t, p.total);
    if t == TInvalid then (p.(kind := t, total := total), Nothing)
    else if t == TQuit then Finish(p.(kind := t, total := total, chunks := p.chunks + [data]))
    else (p.(kind := t, total := total, chunks := p.chunks + [data], phase := Parsing), Nothing)
  }

  function DigestText(p: ParserState, data: string): (ParserState, Step) {
    var q := p.(chunks := p.chunks + [data], total := Wrap32(p.total - 1));
    if p.kind == TSend then
      (if q.total < 0 && data == "." then q.(phase := AwaitingAttachments) else q, Nothing)
    else if q.total == 0 then Finish(q.(phase := NewRequest))
    else (q, Nothing)
  }

  /** The counter after a line of the attachment section: the count line, or one of the three lines of an
      attachment; back to NewRequest when the section is complete or a number does not convert. */
  function CountAttachment(q: ParserState, data: string): ParserState {
    var n := ParseInt32(data);
    var r :=
      if q.total < 0 then
        if n.Some? then q.(total := Wrap32(n.value * 3)) else q.(phase := NewRequest)
      else if q.total % 3 == 2 then q
      else if q.total % 3 == 1 then
        if n.Some? then q.(awaiting := n.value) else q.(phase := NewRequest)
      else q.(awaiting := 0);
    if r.total == 0 then r.(phase := NewRequest) else r
  }

  function DigestAttachment(p: ParserState, data: string): (ParserState, Step) {
    var q := CountAttachment(p.(chunks := p.chunks + [data], total := Wrap32(p.total - 1)), data);
    if q.phase == NewRequest then Finish(q) else (q, Nothing)
  }

  function Digest(p: ParserState, data: string): (ParserState, Step) {
    match p.phase
    case NewRequest => DigestKeyword(p, data)
    case Parsing => DigestText(p, data)
    case AwaitingAttachments => DigestAttachment(p, data)
  }

  class MessageParser {
    var phase: Phase
    var kind: MessageType
    var total: int
    var awaiting: int
    var chunks: seq<string>

    function View(): ParserState
      reads this
    {
      ParserState(phase, kind, total, awaiting, chunks)
    }

    constructor ()
      ensures View() == START
    {
      phase, kind, total, awaiting, chunks := NewRequest, TInvalid, 0, 0, [];
    }

    /** Builds the message, clears the chunks and calls the delegate. */
    method Dispatch() returns (step: Step)
      modifies this`chunks
      ensures (View(), step) == Finish(old(View()))
    {
      var text := DataToString(chunks);
      var r := if chunks == [] then BadConversion else Inflate(GetMessageType(chunks[0]), text);
      match r {
        case Ok(m) =>
          chunks := [];
          step := Dispatched(m);
        case BadConversion => step := Refused;
        case BadLength => step := Aborted;
        case NeverReturns => step := Stuck;
      }
    }

    method DigestData(data: string) returns (step: Step)
      modifies this
      ensures (View(), step) == Digest(old(View()), data)
    {
      hide Finish, NewInstance, ParseInt, Wrap32;
      step := Nothing;
      match phase {
        case NewRequest =>
          kind := GetMessageType(data);
          if kind != TInvalid {
            if kind != TQuit {
              phase := Parsing;
            }
            chunks := chunks + [data];
          }
          match kind {
            case TSend => total := 3;
            case TList => total := 1;
            case TRead => total := 2;
            case TDel => total := 2;
            case TLogin => total := 2;
            case TQuit => step := Dispatch();
            case TInvalid =>
          }
        case Parsing =>
          chunks := chunks + [data];
          total := Wrap32(total - 1);
          if kind == TSend {
            if total < 0 && data == "." {
              phase := AwaitingAttachments;
            }
          } else if total == 0 {
            phase := NewRequest;
          }
          if phase == NewRequest {
            step := Dispatch();
          }
        case AwaitingAttachments =>
          chunks := chunks + [data];
          total := Wrap32(total - 1);
          var n := ParseInt32(data);
          if total < 0 {
            if n.Some? {
              total := Wrap32(n.value * 3);
            } else {
              phase := NewRequest;
            }
          } else if total % 3 == 2 {
          } else if total % 3 == 1 {
            if n.Some? {
              awaiting := n.value;
            } else {
              phase := NewRequest;
            }
          } else {
            awaiting := 0;
          }
          if total == 0 {
            phase := NewRequest;
          }
          if phase == NewRequest {
            step := Dispatch();
          }
      }
    }
  }

  // ---------------------------------------------------------------- what holds after every chunk

  /** A counted read is pending only between the size line and the data of an attachment. */
  predicate FramingInvariant(p: ParserState) {
    && INT_MIN <= p.total <= INT_MAX
    && (p.awaiting != 0 ==> p.phase == AwaitingAttachments && p.total > 0 && p.total % 3 == 1)
  }

  function Feed(p: ParserState, chunks: seq<string>): (ParserState, seq<Step>)
    decreases |chunks|
  {
    if chunks == [] then (p, [])
    else
      var (q, step) := Digest(p, chunks[0]);
      var (r, steps) := Feed(q, chunks[1..]);
      (r, [step] + steps)
  }

  lemma DigestKeepsFraming(p: ParserState, data: string)
    requires FramingInvariant(p)
    ensures FramingInvariant(Digest(p, data).0)
  {
    hide ParseInt, NewInstance;
  }

  /** In every reachable state, failed conversions included, a counted read is pending only where the
      parser expects the bytes of an attachment. */
  lemma {:induction false} FramingInvariantOfRuns(p: ParserState, chunks: seq<string>)
    requires FramingInvariant(p)
    ensures FramingInvariant(Feed(p, chunks).0)
    decreases |chunks|
  {
    if chunks != [] {
      DigestKeepsFraming(p, chunks[0]);
      FramingInvariantOfRuns(Digest(p, chunks[0]).0, chunks[1..]);
    }
  }

  predicate FixedKind(t: MessageType) {
    t == TList || t == TRead || t == TDel || t == TLogin
  }

  /** A fixed-size request ends with exactly the chunk its counter announces, and not before. */
  lemma {:induction false} FixedProgress(p: ParserState, chunks: seq<string>)
    requires p.phase == Parsing && FixedKind(p.kind) && 0 < p.total <= INT_MAX
    requires |chunks| <= p.total
    ensures Feed(p, chunks).0.phase == NewRequest <==> |chunks| == p.total
    ensures |chunks| < p.total ==> Feed(p, chunks).0.phase == Parsing && Feed(p, chunks).0.total == p.total - |chunks|
    decreases |chunks|
  {
    hide NewInstance;
    if chunks != [] {
      var q := Digest(p, chunks[0]).0;
      if p.total > 1 {
        FixedProgress(q, chunks[1..]);
      } else {
        assert chunks[1..] == [];
      }
    }
  }

  /** Position `i` of an attachment section with `total` chunks to go is a size line. */
  predicate SizeLine(total: int, i: nat) {
    i < total && (total - 1 - i) % 3 == 1
  }

  predicate SizesConvert(total: int, chunks: seq<string>) {
    forall i :: 0 <= i < |chunks| && SizeLine(total, i) ==> ParseInt32(chunks[i]).Some?
  }

  /** An attachment section ends with exactly the chunk its counter announces, unless a size fails to convert. */
  lemma {:induction false} AttachmentProgress(p: ParserState, chunks: seq<string>)
    requires p.phase == AwaitingAttachments && 0 < p.total <= INT_MAX
    requires |chunks| <= p.total && SizesConvert(p.total, chunks)
    ensures Feed(p, chunks).0.phase == NewRequest <==> |chunks| == p.total
    ensures |chunks| < p.total ==>
              Feed(p, chunks).0.phase == AwaitingAttachments && Feed(p, chunks).0.total == p.total - |chunks|
    decreases |chunks|
  {
    hide NewInstance, ParseInt;
    if chunks != [] {
      var q := Digest(p, chunks[0]).0;
      assert SizeLine(p.total, 0) == ((p.total - 1) % 3 == 1);
      if p.total > 1 {
        forall i | 0 <= i < |chunks[1..]| && SizeLine(q.total, i) ensures ParseInt32(chunks[1..][i]).Some? {
          assert SizeLine(p.total, i + 1);
        }
        AttachmentProgress(q, chunks[1..]);
      } else {
        assert chunks[1..] == [];
      }
    }
  }

  /** A size line that fails to convert ends the section at once, wherever it stands. */
  lemma BadSizeEndsSection(p: ParserState, data: string)
    requires p.phase == AwaitingAttachments && 0 < p.total <= INT_MAX
    ensures Digest(p, data).0.phase == NewRequest
       <==> p.total == 1 || (SizeLine(p.total, 0) && ParseInt32(data).None?)
  {
    hide NewInstance, ParseInt;
  }
}
