/** How a byte stream is cut into chunks: `my_read`, `readline`, and the receive loop of `handleClient`. */
module Framing {
  import opened Text
  import opened MessageParsing

  const MAXLINE: nat := 1500
  const DEFAULT_BUFFER_SIZE: nat := 1024

  // ---------------------------------------------------------------- specification of the framing

  /** Payload and consumed length of one `readline`: up to a newline that is stored within the first
      `limit - 1` bytes, else whatever fits before the limit or the end of the stream. */
  function LineEnd(s: string, limit: nat): (r: (nat, nat))
    requires limit >= 2
    ensures r.0 <= r.1 <= |s|
    ensures s != "" ==> r.1 > 0
    ensures r.1 < limit
  {
    var i := Find(s, '\n');
    if i < |s| && i + 1 < limit then (i, i + 1)
    else if |s| < limit then (|s|, |s|)
    else (limit - 1, limit - 1)
  }

  /** A carriage return at the end of a payload is chopped as well. */
  function StripCR(s: string): string {
    if s != "" && s[|s| - 1] == '\r' then s[..|s| - 1] else s
  }

  /** The outcomes of one round of reading. `End` also stands for a connection that stays open without more
      bytes: nothing further happens until more arrive. */
  datatype Framed =
    | Chunk(data: string, rest: string)
    | End            // orderly shutdown: readline returned 0
    | Short          // end of stream inside a counted read
    | NegativeSize   // vector::reserve refuses the size and throws length_error

  /** The next chunk: `awaiting` bytes with the last one chopped off, or a line. */
  function NextChunk(awaiting: int, limit: nat, s: string): (r: Framed)
    requires limit >= 2
    ensures r.Chunk? ==> |r.rest| < |s|
  {
    if awaiting < 0 then NegativeSize
    else if awaiting > 0 then
      if |s| < awaiting then Short else Chunk(StripCR(s[..awaiting - 1]), s[awaiting..])
    else if s == "" then End
    else
      var (payload, consumed) := LineEnd(s, limit);
      Chunk(StripCR(s[..payload]), s[consumed..])
  }

  datatype Stop = Closed | CutShort | Crashed | Hung

  /** A whole connection: the dispatched and refused requests in order, and how it ended. */
  datatype Served = Served(steps: seq<Step>, parser: ParserState, stop: Stop) {
    function Prepend(step: Step): Served {
      this.(steps := [step] + steps)
    }
  }

  function Serve(p: ParserState, s: string, limit: nat): Served
    requires limit >= 2
    decreases |s|
  {
    match NextChunk(p.awaiting, limit, s)
    case End => Served([], p, Closed)
    case Short => Served([], p, CutShort)
    case NegativeSize => Served([], p, Crashed)
    case Chunk(data, rest) =>
      var (q, step) := Digest(p, data);
      match step
      case Nothing => Serve(q, rest, limit)
      case Dispatched(_) => Serve(q, rest, limit).Prepend(step)
      case Refused => Serve(q, rest, limit).Prepend(step)
      case Aborted => Served([], q, Crashed)
      case Stuck => Served([], q, Hung)
  }

  /** One round of the loop, with the steps of earlier rounds in front. */
  lemma ServeRound(p: ParserState, s: string, limit: nat, data: string, rest: string, earlier: seq<Step>)
    requires limit >= 2 && NextChunk(p.awaiting, limit, s) == Chunk(data, rest)
    ensures var (q, step) := Digest(p, data);
      Serve(p, s, limit).(steps := earlier + Serve(p, s, limit).steps)
      == match step
         case Nothing => Serve(q, rest, limit).(steps := earlier + Serve(q, rest, limit).steps)
         case Dispatched(_) => Serve(q, rest, limit).(steps := earlier + [step] + Serve(q, rest, limit).steps)
         case Refused => Serve(q, rest, limit).(steps := earlier + [step] + Serve(q, rest, limit).steps)
         case Aborted => Served(earlier, q, Crashed)
         case Stuck => Served(earlier, q, Hung)
  {
    hide Digest, NextChunk;
    var (q, step) := Digest(p, data);
    var r := Serve(q, rest, limit);
    assert earlier + [step] + r.steps == earlier + ([step] + r.steps);
    assert earlier + [] == earlier;
  }

  lemma ServeStops(p: ParserState, s: string, limit: nat, earlier: seq<Step>)
    requires limit >= 2 && !NextChunk(p.awaiting, limit, s).Chunk?
    ensures Serve(p, s, limit).(steps := earlier + Serve(p, s, limit).steps)
         == Served(earlier, p, match NextChunk(p.awaiting, limit, s)
                               case Short => CutShort
                               case NegativeSize => Crashed
                               case _ => Closed)
  {
    hide Digest, NextChunk;
    assert earlier + [] == earlier;
  }

  // ---------------------------------------------------------------- the buffered reader

  /** What one `read` on the socket returns: some bytes, or EINTR. After the last one, end of file. */
  datatype ReadEvent = Data(bytes: string) | Interrupted

  predicate ValidEvents(events: seq<ReadEvent>) {
    forall i :: 0 <= i < |events| && events[i].Data? ==> 1 <= |events[i].bytes| <= MAXLINE
  }

  function Bytes(events: seq<ReadEvent>): string {
    if events == [] then ""
    else (if events[0].Data? then events[0].bytes else "") + Bytes(events[1..])
  }

  lemma BytesCons(events: seq<ReadEvent>)
    requires events != []
    ensures Bytes(events) == if events[0].Data? then events[0].bytes + Bytes(events[1..]) else Bytes(events[1..])
  {
    assert "" + Bytes(events[1..]) == Bytes(events[1..]);
  }

  /** What the reads give is strung together; an interrupted read gives nothing and ends nothing. */
  lemma {:induction false} BytesConcat(a: seq<ReadEvent>, b: seq<ReadEvent>)
    ensures Bytes(a + b) == Bytes(a) + Bytes(b)
    ensures Bytes(a + [Interrupted] + b) == Bytes(a + b)
    decreases |a|
  {
    if a == [] {
      assert a + b == b && a + [Interrupted] + b == [Interrupted] + b;
      BytesCons([Interrupted] + b);
    } else {
      assert (a + b)[1..] == a[1..] + b && (a + [Interrupted] + b)[1..] == a[1..] + [Interrupted] + b;
      BytesConcat(a[1..], b);
    }
  }

  lemma BytesOne(bytes: string)
    ensures Bytes([Data(bytes)]) == bytes && Bytes([]) == ""
  {
    assert [Data(bytes)][1..] == [];
  }

  /** One read gives at most 1500 bytes. */
  lemma ReadLimit(bytes: string)
    ensures ValidEvents([Data(bytes)]) <==> 1 <= |bytes| <= 1500
  {
    assert [Data(bytes)][0] == Data(bytes);
  }

  /** What `read` does to the buffer it is given. */
  method StoreBytes(buf: array<char>, bytes: string)
    requires |bytes| <= buf.Length
    modifies buf
    ensures buf[..|bytes|] == bytes
  {
    forall i | 0 <= i < |bytes| {
      buf[i] := bytes[i];
    }
  }

  lemma NextEvents(events: seq<ReadEvent>)
    requires events != [] && ValidEvents(events)
    ensures ValidEvents(events[1..])
    ensures events[0].Data? ==> 1 <= |events[0].bytes| <= MAXLINE
  {
  }

  lemma NoBytes()
    ensures Bytes([]) == ""
  {
  }

  class SocketReader {
    const buf: array<char>          // read_buf
    var cnt: nat                    // read_cnt
    var pos: nat                    // read_ptr, as an index into buf
    var socket: seq<ReadEvent>      // the results of the reads still to come

    ghost predicate Valid()
      reads this
    {
      buf.Length == MAXLINE && pos + cnt <= MAXLINE && ValidEvents(socket)
    }

    /** The bytes still to be handed out: those buffered and those not yet read. */
    ghost function Remaining(): string
      requires Valid()
      reads this, buf
    {
      buf[pos..pos + cnt] + Bytes(socket)
    }

    constructor (events: seq<ReadEvent>)
      requires ValidEvents(events)
      ensures Valid() && fresh(buf) && Remaining() == Bytes(events)
    {
      buf := new char[MAXLINE];
      cnt, pos, socket := 0, 0, events;
    }

    /** Refills an empty buffer with one `read`, retrying on EINTR; false at end of file. */
    method Refill() returns (more: bool)
      requires Valid() && cnt == 0
      modifies this, buf
      ensures Valid() && Remaining() == old(Remaining())
      ensures more <==> cnt > 0
      ensures !more ==> Remaining() == ""
    {
      hide Bytes, ValidEvents;
      ghost var all := Bytes(socket);
      NoBytes();
      while socket != [] && socket[0].Interrupted?
        invariant Valid() && cnt == 0
        invariant Bytes(socket) == all
        decreases |socket|
      {
        BytesCons(socket);
        NextEvents(socket);
        socket := socket[1..];
      }
      if socket == [] {
        return false;
      }
      BytesCons(socket);
      assert old(Remaining()) == all;
      var bytes := socket[0].bytes;
      NextEvents(socket);
      StoreBytes(buf, bytes);
      socket := socket[1..];
      cnt, pos := |bytes|, 0;
      assert buf[pos..pos + cnt] == bytes;
      return true;
    }

    method MyRead() returns (rc: nat, c: char)
      requires Valid()
      modifies this, buf
      ensures Valid()
      ensures old(Remaining()) == "" ==> rc == 0 && Remaining() == ""
      ensures old(Remaining()) != "" ==> rc == 1 && old(Remaining()) == [c] + Remaining()
    {
      c := '\0';
      if cnt == 0 {
        var more := Refill();
        if !more {
          return 0, c;
        }
      }
      c := buf[pos];
      assert buf[pos..pos + cnt] == [c] + buf[pos + 1..pos + cnt];
      cnt := cnt - 1;
      pos := pos + 1;
      rc := 1;
    }

    /** `readline`: through each of its three exits the result is the payload length plus one. */
    method ReadLine(ptr: array<char>, maxlen: nat) returns (rc: nat)
      requires Valid() && ptr != buf && 2 <= maxlen <= ptr.Length
      modifies this, buf, ptr
      ensures Valid()
      ensures old(Remaining()) == "" ==> rc == 0 && Remaining() == ""
      ensures old(Remaining()) != "" ==>
                var s := old(Remaining());
                var (payload, consumed) := LineEnd(s, maxlen);
                rc == payload + 1 && ptr[..payload] == s[..payload] && Remaining() == s[consumed..]
    {
      hide LineEnd, Find, Bytes, Valid, Remaining;
      ghost var s := Remaining();
      var n := 1;
      while n < maxlen
        invariant Valid() && 1 <= n <= maxlen
        invariant n - 1 <= |s| && '\n' !in s[..n - 1]
        invariant ptr[..n - 1] == s[..n - 1]
        invariant Remaining() == s[n - 1..]
      {
        var ok, c := MyRead();
        if ok == 1 {
          TakeOne(s, n - 1, c, Remaining());
          ptr[n - 1] := c;
          assert ptr[..n] == ptr[..n - 1] + [c];
          if c == '\n' {
            LineEndAtNewline(s, n - 1, maxlen);
            ptr[n] := '\0';
            return n;
          }
        } else {
          if n == 1 {
            return 0;
          }
          break;
        }
        n := n + 1;
      }
      LineEndElsewhere(s, n - 1, maxlen);
      ptr[n - 1] := '\0';
      return n;
    }
  }

  lemma TakeOne(s: string, k: nat, c: char, rest: string)
    requires k < |s| && s[k..] == [c] + rest
    ensures s[k] == c && rest == s[k + 1..] && s[..k + 1] == s[..k] + [c]
  {
    assert s[k..][0] == c && s[k..][1..] == rest;
  }

  lemma LineEndAtNewline(s: string, k: nat, limit: nat)
    requires k < |s| && s[k] == '\n' && '\n' !in s[..k] && k + 1 < limit
    ensures LineEnd(s, limit) == (k, k + 1)
  {
    FindFirst(s[..k], '\n', s[k + 1..]);
    assert s == s[..k] + ['\n'] + s[k + 1..];
  }

  lemma LineEndElsewhere(s: string, k: nat, limit: nat)
    requires limit >= 2 && k <= |s| && '\n' !in s[..k] && (k == |s| || k == limit - 1) && k < limit
    ensures LineEnd(s, limit) == (k, k)
  {
    var i := Find(s, '\n');
    assert k <= i by {
      forall j | 0 <= j < k ensures s[j] != '\n' { assert s[..k][j] != '\n'; }
    }
  }

  // ---------------------------------------------------------------- the receive loop

  /** The chunk of a filled buffer: the last byte is chopped, and a '\r' before it too. The original reads
      buffer[size - 2] even when size is 1; that read before the buffer is guarded here. */
  method Chop(buffer: array<char>, size: nat) returns (data: string)
    requires 1 <= size <= buffer.Length + 1
    ensures data == StripCR(buffer[..size - 1])
  {
    var chopSize := 1;
    if size >= 2 && buffer[size - 2] == '\r' {
      chopSize := 2;
    }
    data := buffer[..size - chopSize];
  }

  class Connection {
    const reader: SocketReader
    const parser: MessageParser

    constructor (reader: SocketReader)
      ensures this.reader == reader && fresh(parser) && parser.View() == START
    {
      this.reader := reader;
      parser := new MessageParser();
    }

    /** The counted read of an attachment: `size` single-byte reads. False when the stream ends first. */
    method ReadCounted(buffer: array<char>, size: nat) returns (complete: bool)
      requires reader.Valid() && buffer != reader.buf && size <= buffer.Length
      modifies reader, reader.buf, buffer
      ensures reader.Valid()
      ensures complete <==> size <= |old(reader.Remaining())|
      ensures complete ==>
                && buffer[..size] == old(reader.Remaining())[..size]
                && reader.Remaining() == old(reader.Remaining())[size..]
    {
      hide Bytes, ValidEvents;
      ghost var s := reader.Remaining();
      var i := 0;
      while i < size
        invariant reader.Valid() && i <= size && i <= |s|
        invariant buffer[..i] == s[..i]
        invariant reader.Remaining() == s[i..]
      {
        var rc, c := reader.MyRead();
        if rc == 0 {
          return false;
        }
        buffer[i] := c;
        i := i + 1;
      }
      return true;
    }

    /** The bytes of one round, still with the one to be chopped: `size` of them are counted. */
    method Fill(buffer: array<char>, limit: nat) returns (size: nat, stop: Stop, next: array<char>)
      requires reader.Valid() && buffer != reader.buf && 2 <= limit <= buffer.Length && parser.awaiting >= 0
      modifies reader, reader.buf, buffer
      ensures reader.Valid() && (next == buffer || fresh(next)) && buffer.Length <= next.Length
      ensures size <= next.Length + 1
      ensures match NextChunk(parser.awaiting, limit, old(reader.Remaining()))
              case Chunk(data, rest) => size >= 1 && data == StripCR(next[..size - 1]) && reader.Remaining() == rest
              case End => size == 0 && stop == Closed
              case Short => size == 0 && stop == CutShort
              case NegativeSize => false
    {
      hide StripCR, LineEnd;
      ghost var s := reader.Remaining();
      size, stop, next := parser.awaiting, Closed, buffer;
      if size != 0 {
        if buffer.Length < size {
          next := new char[size];
        }
        var complete := ReadCounted(next, size);
        if !complete {
          return 0, CutShort, next;
        }
        assert next[..size - 1] == next[..size][..size - 1] == s[..size][..size - 1] == s[..size - 1];
      } else {
        size := reader.ReadLine(buffer, limit);
      }
    }

    /** One round of reading: a counted read when the parser announced a size, else a line. */
    method ReceiveChunk(buffer: array<char>, limit: nat)
      returns (chunk: Option<string>, stop: Stop, next: array<char>)
      requires reader.Valid() && buffer != reader.buf && 2 <= limit <= buffer.Length
      modifies reader, reader.buf, buffer
      ensures reader.Valid() && (next == buffer || fresh(next)) && buffer.Length <= next.Length
      ensures match NextChunk(parser.awaiting, limit, old(reader.Remaining()))
              case Chunk(data, rest) => chunk == Some(data) && reader.Remaining() == rest
              case End => chunk == None && stop == Closed
              case Short => chunk == None && stop == CutShort
              case NegativeSize => chunk == None && stop == Crashed
    {
      hide StripCR, LineEnd;
      if parser.awaiting < 0 {
        return None, Crashed, buffer;
      }
      var size;
      size, stop, next := Fill(buffer, limit);
      if size == 0 {
        return None, stop, next;
      }
      var data := Chop(next, size);
      chunk := Some(data);
    }

    /** The loop of `handleClient`: it serves exactly the byte stream, however `read` cuts it up. */
    method HandleClient(limit: nat) returns (steps: seq<Step>, stop: Stop)
      requires reader.Valid() && limit >= 2
      modifies reader, reader.buf, parser
      ensures reader.Valid()
      ensures Served(steps, parser.View(), stop) == Serve(old(parser.View()), old(reader.Remaining()), limit)
    {
      hide Digest, NextChunk, Serve;
      ghost var whole := Serve(parser.View(), reader.Remaining(), limit);
      assert [] + whole.steps == whole.steps;
      var buffer := new char[limit];
      steps := [];
      while true
        invariant reader.Valid() && fresh(buffer) && buffer.Length >= limit
        invariant var r := Serve(parser.View(), reader.Remaining(), limit); whole == r.(steps := steps + r.steps)
        decreases |reader.Remaining()|
      {
        ghost var p, s := parser.View(), reader.Remaining();
        var chunk;
        chunk, stop, buffer := ReceiveChunk(buffer, limit);
        if chunk == None {
          ServeStops(p, s, limit, steps);
          return steps, stop;
        }
        ServeRound(p, s, limit, chunk.value, reader.Remaining(), steps);
        var step := parser.DigestData(chunk.value);
        match step {
          case Nothing =>
          case Dispatched(_) => steps := steps + [step];
          case Refused => steps := steps + [step];
          case Aborted => return steps, Crashed;
          case Stuck => return steps, Hung;
        }
      }
    }
  }
}
