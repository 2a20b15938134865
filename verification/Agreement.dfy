/** The two parsers of a SEND request: the incremental one that decides where it ends, and `inflate`, which reads
    its chunks again. */
module Agreement {
  import opened Text
  import opened Messages
  import opened Inflation
  import opened SendFormat
  import opened MessageParsing
  import opened Wire
  import opened Delivery

  // ---------------------------------------------------------------- the end of the text

  /** After these lines, and after none of them earlier, the parser waits for the attachment section. */
  ghost predicate TextEndsAtLast(p: ParserState, lines: seq<string>) {
    && (forall k :: 0 < k < |lines| ==> Feed(p, lines[..k]).0.phase == Parsing)
    && Feed(p, lines).0.phase == AwaitingAttachments
  }

  lemma {:induction false} FeedText(p: ParserState, lines: seq<string>)
    requires p.phase == Parsing && p.kind == TSend && p.total <= INT_MAX && INT_MIN <= p.total - |lines|
    requires NoDotFrom(lines, p.total)
    ensures Feed(p, lines).0 == p.(total := p.total - |lines|, chunks := p.chunks + lines)
    decreases |lines|
  {
    if lines == [] {
      assert p.chunks + lines == p.chunks;
    } else {
      var q := p.(total := p.total - 1, chunks := p.chunks + [lines[0]]);
      NoDotTail(lines, p.total);
      TextDigest(p, lines[0]);
      FeedText(q, lines[1..]);
      assert q.chunks + lines[1..] == p.chunks + lines;
    }
  }

  lemma {:induction false} FeedConcat(p: ParserState, a: seq<string>, b: seq<string>)
    ensures Feed(p, a + b).0 == Feed(Feed(p, a).0, b).0
    decreases |a|
  {
    hide Digest;
    if a == [] {
      assert a + b == b;
    } else {
      assert (a + b)[1..] == a[1..] + b;
      FeedConcat(Digest(p, a[0]).0, a[1..], b);
    }
  }

  lemma FeedOne(p: ParserState, line: string)
    ensures Feed(p, [line]).0 == Digest(p, line).0
  {
    hide Digest;
    assert [line][1..] == [];
    assert Feed(Digest(p, line).0, []).0 == Digest(p, line).0;
  }

  /** Text lines none of which ends the text, after the keyword. */
  lemma FeedKeywordText(p: ParserState, text: seq<string>)
    requires p.phase == NewRequest && |text| <= INT_MAX && NoDotFrom(text, 3)
    ensures Feed(p, ["SEND"] + text).0
         == p.(phase := Parsing, kind := TSend, total := 3 - |text|, chunks := p.chunks + (["SEND"] + text))
  {
    hide Feed, Digest;
    var q := Digest(p, "SEND").0;
    KeywordDigest(p);
    FeedConcat(p, ["SEND"], text);
    FeedOne(p, "SEND");
    FeedText(q, text);
    assert q.chunks + text == p.chunks + (["SEND"] + text);
  }

  lemma NoDotPrefix(text: seq<string>, k: nat)
    requires k <= |text| && NoDotFrom(text, 3)
    ensures NoDotFrom(text[..k], 3)
  {
  }

  /** Without an early dot the head brings the parser to the attachment section, and no earlier chunk does. */
  lemma HeadFeeds(p: ParserState, sender: string, receivers: seq<string>, title: string, lines: seq<string>)
    requires p.phase == NewRequest && "." !in lines && NoEarlyDot(receivers, title)
    requires |receivers| + |lines| + 4 <= INT_MAX
    ensures var head := HeadLines(sender, receivers, title, lines);
      && TextEndsAtLast(p, head)
      && Feed(p, head).0 == p.(phase := AwaitingAttachments, kind := TSend, total := -1 - |receivers| - |lines|,
                               chunks := p.chunks + head)
  {
    hide Feed, HeadLines, NoEarlyDot, Digest, NoDotFrom;
    var text := TextLines(sender, receivers, title, lines);
    var head := HeadLines(sender, receivers, title, lines);
    HeadIsText(sender, receivers, title, lines);
    NoDotInText(sender, receivers, title, lines);
    forall k | 0 < k < |head| ensures Feed(p, head[..k]).0.phase == Parsing {
      assert head[..k] == ["SEND"] + text[..k - 1];
      NoDotPrefix(text, k - 1);
      FeedKeywordText(p, text[..k - 1]);
    }
    FeedKeywordText(p, text);
    var q := Feed(p, ["SEND"] + text).0;
    FeedConcat(p, ["SEND"] + text, ["."]);
    FeedOne(q, ".");
    DotDigest(q);
    assert q.chunks + ["."] == p.chunks + head;
  }

  /** The lines of any SEND request, in the only way `inflate` can read them: receivers up to the first EOT
      line, one title, a body up to the first dot, and whatever follows is read from there on. The incremental
      parser ends the text at that same dot exactly when no dot stands between the fourth line and the title. */
  lemma TextEndsAgreeIff(p: ParserState, sender: string, receivers: seq<string>, title: string, lines: seq<string>)
    requires p.phase == NewRequest && "." !in lines
    requires OneLine(sender) && OneLine(title) && AllOneLine(lines) && ReceiverLines(receivers)
    requires |receivers| + |lines| + 4 <= INT_MAX
    ensures TextEndsAtLast(p, HeadLines(sender, receivers, title, lines)) <==> NoEarlyDot(receivers, title)
    ensures forall tail :: InflateSend(JoinLines(HeadLines(sender, receivers, title, lines)) + tail)
                        == WithTail(sender, receivers, title, lines, tail)
  {
    hide Feed, HeadLines, NoEarlyDot, Digest, InflateSend, WithTail, NoDotFrom;
    forall tail ensures InflateSend(JoinLines(HeadLines(sender, receivers, title, lines)) + tail)
                     == WithTail(sender, receivers, title, lines, tail)
    {
      InflateHead(sender, receivers, title, lines, tail);
    }
    if NoEarlyDot(receivers, title) {
      HeadFeeds(p, sender, receivers, title, lines);
    } else {
      EarlyEnd(p, sender, receivers, title, lines);
    }
  }

  /** An early dot ends the text too soon. */
  lemma EarlyEnd(p: ParserState, sender: string, receivers: seq<string>, title: string, lines: seq<string>)
    requires p.phase == NewRequest && "." !in lines && !NoEarlyDot(receivers, title)
    requires |receivers| + |lines| + 4 <= INT_MAX
    ensures !TextEndsAtLast(p, HeadLines(sender, receivers, title, lines))
  {
    hide Feed, HeadLines, NoEarlyDot, Digest;
    var text := TextLines(sender, receivers, title, lines);
    var head := HeadLines(sender, receivers, title, lines);
    HeadIsText(sender, receivers, title, lines);
    NoDotInText(sender, receivers, title, lines);
    var i := FirstDot(text);
    var before := ["SEND"] + text[..i];
    assert head[..i + 2] == before + ["."];
    FeedKeywordText(p, text[..i]);
    FeedConcat(p, before, ["."]);
    FeedOne(Feed(p, before).0, ".");
    DotDigest(Feed(p, before).0);
  }

  lemma KeywordDigest(p: ParserState)
    requires p.phase == NewRequest
    ensures Digest(p, "SEND").0 == p.(phase := Parsing, kind := TSend, total := 3, chunks := p.chunks + ["SEND"])
  {
  }

  lemma DotDigest(p: ParserState)
    requires p.phase == Parsing && p.kind == TSend && INT_MIN < p.total <= 0
    ensures Digest(p, ".").0
         == p.(phase := AwaitingAttachments, total := p.total - 1, chunks := p.chunks + ["."])
  {
  }

  /** The first dot among the lines that can end the text. */
  lemma FirstDot(text: seq<string>) returns (i: nat)
    requires !NoDotFrom(text, 3)
    ensures 3 <= i < |text| && text[i] == "."
    ensures forall j :: 0 <= j < i && 3 - j <= 0 ==> text[j] != "."
  {
    i := 3;
    while i < |text| && text[i] != "."
      invariant 3 <= i <= |text|
      invariant forall j :: 0 <= j < i && 3 - j <= 0 ==> text[j] != "."
    {
      i := i + 1;
    }
  }

  // ---------------------------------------------------------------- the whole request

  /** A chunk that does not end a request is collected, and nothing else happens. */
  lemma QuietAppends(p: ParserState, data: string)
    requires Digest(p, data).0.phase != NewRequest
    ensures Digest(p, data).0.chunks == p.chunks + [data] && Digest(p, data).1 == Nothing
  {
    hide ParseInt, Finish, Wrap32;
    FinishKeepsPhase(p);
  }

  /** The chunk that ends a request is collected before the factory is called. */
  lemma LastFinishes(p: ParserState, data: string)
    requires p.phase != NewRequest && Digest(p, data).0.phase == NewRequest
    ensures Digest(p, data).1 == Finish(p.(chunks := p.chunks + [data])).1
  {
    hide ParseInt, NewInstance, Wrap32;
  }

  lemma FinishKeepsPhase(p: ParserState)
    ensures forall q: ParserState :: Finish(q).0.phase == q.phase
  {
    hide NewInstance;
  }

  /** Chunks none of which ends a request. */
  ghost predicate StaysInside(p: ParserState, chunks: seq<string>) {
    forall k :: 0 < k <= |chunks| ==> Feed(p, chunks[..k]).0.phase != NewRequest
  }

  lemma {:induction false} FeedCollects(p: ParserState, chunks: seq<string>)
    requires StaysInside(p, chunks)
    ensures Feed(p, chunks).0.chunks == p.chunks + chunks
    ensures forall i :: 0 <= i < |Feed(p, chunks).1| ==> Feed(p, chunks).1[i] == Nothing
    decreases |chunks|
  {
    hide Digest;
    if chunks == [] {
      assert p.chunks + chunks == p.chunks;
    } else {
      var q := Digest(p, chunks[0]).0;
      assert Feed(p, chunks[..1]).0 == q by {
        assert chunks[..1] == [chunks[0]];
        FeedOne(p, chunks[0]);
      }
      QuietAppends(p, chunks[0]);
      forall k | 0 < k <= |chunks[1..]| ensures Feed(q, chunks[1..][..k]).0.phase != NewRequest {
        assert chunks[..k + 1][1..] == chunks[1..][..k];
        assert Feed(p, chunks[..k + 1]).0.phase != NewRequest;
      }
      FeedCollects(q, chunks[1..]);
      assert q.chunks + chunks[1..] == p.chunks + chunks;
    }
  }

  /** The parser is inside the request until the last of these chunks, which ends it. */
  ghost predicate EndsAtLast(p: ParserState, chunks: seq<string>) {
    && chunks != []
    && StaysInside(p, chunks[..|chunks| - 1])
    && Feed(p, chunks).0.phase == NewRequest
  }

  /** What the parser does on the last chunk. */
  function LastStep(p: ParserState, chunks: seq<string>): Step
    requires chunks != []
  {
    Digest(Feed(p, chunks[..|chunks| - 1]).0, chunks[|chunks| - 1]).1
  }

  lemma EndsInFactory(p: ParserState, chunks: seq<string>)
    requires EndsAtLast(p, chunks) && |chunks| >= 2
    ensures LastStep(p, chunks) == Finish(p.(chunks := p.chunks + chunks)).1
  {
    hide Digest, NewInstance, Feed;
    var before, last := chunks[..|chunks| - 1], chunks[|chunks| - 1];
    var q := Feed(p, before).0;
    assert q.phase != NewRequest by { assert before[..|before|] == before; }
    FeedCollects(p, before);
    assert before + [last] == chunks;
    FeedConcat(p, before, [last]);
    FeedOne(q, last);
    LastFinishes(q, last);
    assert q.chunks + [last] == p.chunks + chunks;
  }

  lemma {:induction false} ChunkAt(raws: seq<RawAttachment>, i: nat)
    requires i < 3 * |raws|
    ensures |AttachmentChunks(raws)| == 3 * |raws|
    ensures AttachmentChunks(raws)[i]
         == if i % 3 == 0 then raws[i / 3].name else if i % 3 == 1 then raws[i / 3].size else raws[i / 3].data
    decreases |raws|
  {
    if |raws| > 1 {
      ChunkAt(raws[1..], if i < 3 then 0 else i - 3);
    } else {
      assert AttachmentChunks(raws[1..]) == [];
    }
  }

  lemma DescribedSizes(raws: seq<RawAttachment>, k: nat)
    requires raws != [] && Described(raws) && k <= 3 * |raws|
    ensures |AttachmentChunks(raws)| == 3 * |raws|
    ensures SizesConvert(3 * |raws|, AttachmentChunks(raws)[..k])
  {
    hide ParseInt, AttachmentChunks;
    ChunkAt(raws, 0);
    forall i | 0 <= i < k && SizeLine(3 * |raws|, i) ensures ParseInt32(AttachmentChunks(raws)[i]).Some? {
      ChunkAt(raws, i);
    }
  }

  lemma CountDigest(q: ParserState, count: string, n: nat)
    requires q.phase == AwaitingAttachments && INT_MIN < q.total <= 0
    requires ParseInt32(count) == Some(n) && 3 * n <= INT_MAX
    ensures var r := Digest(q, count).0;
      if n == 0 then r.phase == NewRequest else r.phase == AwaitingAttachments && r.total == 3 * n
  {
    hide ParseInt, NewInstance;
  }

  /** The attachment section ends with exactly its last chunk. */
  lemma SectionFeeds(q: ParserState, count: string, raws: seq<RawAttachment>)
    requires q.phase == AwaitingAttachments && INT_MIN < q.total <= 0
    requires ParseInt32(count) == Some(|raws|) && 3 * |raws| <= INT_MAX && Described(raws)
    ensures EndsAtLast(q, [count] + AttachmentChunks(raws))
  {
    hide ParseInt, Digest, AttachmentChunks, Feed, Described, SizesConvert;
    var n := |raws|;
    var chunks := AttachmentChunks(raws);
    var all := [count] + chunks;
    var r := Digest(q, count).0;
    CountDigest(q, count, n);
    FeedOne(q, count);
    FeedConcat(q, [count], chunks);
    if n == 0 {
      NoChunks();
      assert all == [count] && all[..0] == [];
    } else {
      DescribedSizes(raws, 0);
      assert |chunks| == 3 * n;
      forall k | 0 < k <= |all[..3 * n]| ensures Feed(q, all[..3 * n][..k]).0.phase != NewRequest {
        assert all[..3 * n][..k] == [count] + chunks[..k - 1];
        FeedConcat(q, [count], chunks[..k - 1]);
        DescribedSizes(raws, k - 1);
        AttachmentProgress(r, chunks[..k - 1]);
      }
      DescribedSizes(raws, 3 * n);
      assert chunks[..3 * n] == chunks;
      AttachmentProgress(r, chunks);
    }
  }

  lemma NoChunks()
    ensures AttachmentChunks([]) == []
  {
  }

  /** First chunks that stay inside the request, then chunks that end it. */
  lemma EndsLater(p: ParserState, a: seq<string>, b: seq<string>)
    requires StaysInside(p, a) && EndsAtLast(Feed(p, a).0, b)
    ensures EndsAtLast(p, a + b)
  {
    hide Digest, Feed, StaysInside;
    FeedConcat(p, a, b);
    assert (a + b)[..|a + b| - 1] == a + b[..|b| - 1];
    InsideLater(p, a, b[..|b| - 1]);
  }

  lemma InsideLater(p: ParserState, a: seq<string>, b: seq<string>)
    requires StaysInside(p, a) && StaysInside(Feed(p, a).0, b)
    ensures StaysInside(p, a + b)
  {
    hide Digest, Feed;
    var all := a + b;
    forall k | 0 < k <= |all| ensures Feed(p, all[..k]).0.phase != NewRequest {
      if k <= |a| {
        assert all[..k] == a[..k];
      } else {
        var j := k - |a|;
        assert all[..k] == a + b[..j];
        FeedConcat(p, a, b[..j]);
        assert Feed(Feed(p, a).0, b[..j]).0.phase != NewRequest;
      }
    }
  }

  /** The parsers agree. Any SEND request in lines, with any data in place of the attachments, is one request for
      the incremental parser, ending exactly with its last chunk. What it dispatches there are these very fields
      and attachments exactly when every size line is the length of its data with the newline. */
  lemma ParsersAgreeIff(
      p: ParserState, sender: string, receivers: seq<string>, title: string, lines: seq<string>,
      count: string, raws: seq<RawAttachment>)
    requires Ready(p) && NoEarlyDot(receivers, title)
    requires OneLine(sender) && OneLine(title) && AllOneLine(lines) && "." !in lines && ReceiverLines(receivers)
    requires |receivers| + |lines| + 4 <= INT_MAX && 3 * |raws| <= INT_MAX
    requires OneLine(count) && ParseInt32(count) == Some(|raws|) && Described(raws)
    ensures var all := HeadLines(sender, receivers, title, lines) + [count] + AttachmentChunks(raws);
      var m := SendMessage(sender, receivers, title, JoinLines(lines), Parsed(Newlined(raws)));
      && EndsAtLast(p, all)
      && (LastStep(p, all) == Dispatched(Send(m)) <==> AllAligned(Newlined(raws)))
  {
    SectionInflatesIff(sender, receivers, title, lines, count, raws);
    WholeEnds(p, sender, receivers, title, lines, count, raws);
    HeadKeyword(sender, receivers, title, lines);
    hide ParseInt, EndsAtLast, LastStep, AttachmentChunks, Described, NoEarlyDot, HeadLines, NewInstance, AllAligned,
      JoinLines, ReceiverLines, Parsed, Newlined, Finish;
    var all := HeadLines(sender, receivers, title, lines) + [count] + AttachmentChunks(raws);
    EndsInFactory(p, all);
    assert p.chunks + all == all;
    FinishDispatches(p.(chunks := all),
                     Send(SendMessage(sender, receivers, title, JoinLines(lines), Parsed(Newlined(raws)))));
  }

  lemma FinishDispatches(p: ParserState, m: Message)
    ensures Finish(p).1 == Dispatched(m) <==> NewInstance(p.chunks) == Ok(m)
  {
    hide NewInstance;
  }

  lemma WholeEnds(
      p: ParserState, sender: string, receivers: seq<string>, title: string, lines: seq<string>,
      count: string, raws: seq<RawAttachment>)
    requires Ready(p) && NoEarlyDot(receivers, title) && "." !in lines
    requires |receivers| + |lines| + 4 <= INT_MAX && 3 * |raws| <= INT_MAX
    requires ParseInt32(count) == Some(|raws|) && Described(raws)
    ensures EndsAtLast(p, HeadLines(sender, receivers, title, lines) + [count] + AttachmentChunks(raws))
  {
    hide ParseInt, AttachmentChunks, Feed, Described, NoEarlyDot, HeadLines, EndsAtLast, TextEndsAtLast, StaysInside,
      Digest;
    HeadFeeds(p, sender, receivers, title, lines);
    var head := HeadLines(sender, receivers, title, lines);
    HeadInside(p, head);
    SectionFeeds(Feed(p, head).0, count, raws);
    EndsLater(p, head, [count] + AttachmentChunks(raws));
    assert head + ([count] + AttachmentChunks(raws)) == head + [count] + AttachmentChunks(raws);
  }

  lemma HeadInside(p: ParserState, head: seq<string>)
    requires TextEndsAtLast(p, head)
    ensures StaysInside(p, head)
  {
    hide Feed;
    forall k | 0 < k <= |head| ensures Feed(p, head[..k]).0.phase != NewRequest {
      assert head[..|head|] == head;
    }
  }
}
