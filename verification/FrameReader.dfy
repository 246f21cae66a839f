/** The frame reader of a live child: a queue of decoded frames over the line decoder and the
    reassembler, filled by one read at a time. */
module FrameReading {
  import opened Seqs
  import opened Utf8
  import opened Wire
  import opened Base64
  import opened Reassembler
  import opened LineDecoding
  import opened Replay
  import opened Wrappers

  /** How the frames of a child end: its output ended between lines, reading it failed, or
      something was wrong with it. */
  datatype End = Eof | PipeError | Broken(error: RpcError)

  datatype Stream<+F> = Stream(frames: seq<F>, end: End)

  // ----- what a child's reads amount to -------------------------------------

  /** The end when all reads are accepted: the pipe fails, or closes, perhaps inside a line. */
  function EndOf(rest: bytes, fails: bool): End {
    if fails then PipeError else if rest == [] then Eof else Broken(ProtocolViolation)
  }

  /** What the reader returns for these reads, each of at least one byte, and then a failing
      read or the end of output: the frames of every read that is accepted, up to one that is
      not. */
  function Live<F>(parse: Parser, decode: FrameDecoder<F>, pending: State, buffer: bytes,
        arrivals: seq<bytes>, fails: bool): Stream<F>
    decreases |arrivals|
  {
    if arrivals == [] then Stream([], EndOf(buffer, fails))
    else
      var o := Whole(parse, ReadSink(parse, decode), Reading(pending, []), buffer + arrivals[0]);
      if o.error.Some? then Stream([], Broken(o.error.value))
      else
        var rest := Live(parse, decode, o.state.pending, o.rest, arrivals[1..], fails);
        Stream(o.state.frames + rest.frames, rest.end)
  }

  /** How many reads are accepted before one is not. */
  function Accepted<F>(parse: Parser, decode: FrameDecoder<F>, pending: State, buffer: bytes,
        arrivals: seq<bytes>): (n: nat)
    ensures n <= |arrivals|
    decreases |arrivals|
  {
    if arrivals == [] then 0
    else
      var o := Whole(parse, ReadSink(parse, decode), Reading(pending, []), buffer + arrivals[0]);
      if o.error.Some? then 0 else 1 + Accepted(parse, decode, o.state.pending, o.rest, arrivals[1..])
  }

  function Queued<F>(s: Reading<F>, before: seq<F>): Reading<F> {
    Reading(s.pending, before + s.frames)
  }

  /** Frames that are already there do not matter for what follows. */
  lemma {:induction false} ProcessAppends<F>(parse: Parser, decode: FrameDecoder<F>, s: Reading<F>,
        before: seq<F>, lines: seq<bytes>)
    requires lines != []
    ensures var a := Process(parse, ReadSink(parse, decode), s, lines);
            var b := Process(parse, ReadSink(parse, decode), Queued(s, before), lines);
            b == Outcome(Queued(a.state, before), a.rest, a.error)
    decreases |lines|
  {
    if |lines| > 1 {
      LineAppends(parse, decode, s, before, lines[0]);
      var (s', e) := TakeLine(parse, ReadSink(parse, decode), s, lines[0]);
      hide TakeLine, Queued;
      if e.None? {
        ProcessAppends(parse, decode, s', before, lines[1..]);
      }
    }
  }

  lemma LineAppends<F>(parse: Parser, decode: FrameDecoder<F>, s: Reading<F>, before: seq<F>, line: bytes)
    ensures var (a, e) := TakeLine(parse, ReadSink(parse, decode), s, line);
            TakeLine(parse, ReadSink(parse, decode), Queued(s, before), line) == (Queued(a, before), e)
  {
    hide Push, ParseLine;
    var v := ParseLine(parse, line);
    if v.Some? {
      var r := Push(parse, s.pending, v.value).1;
      if r.Ok? && r.value.Some? && decode(r.value.value).Some? {
        JoinAssoc(before, s.frames, [decode(r.value.value).value]);
      }
    }
  }

  /** One more accepted read, with frames already there. */
  lemma FeedStep<F>(parse: Parser, decode: FrameDecoder<F>, pending: State, before: seq<F>, buffer: bytes,
        arrivals: seq<bytes>)
    requires arrivals != []
    ensures var o := Whole(parse, ReadSink(parse, decode), Reading(pending, []), buffer + arrivals[0]);
            FeedAll(parse, ReadSink(parse, decode), Reading(pending, before), buffer, arrivals)
            == if o.error.Some? then Outcome(Queued(o.state, before), o.rest, o.error)
               else FeedAll(parse, ReadSink(parse, decode), Queued(o.state, before), o.rest, arrivals[1..])
  {
    JoinEmpty(before);
    ProcessAppends(parse, decode, Reading(pending, []), before, Lines(buffer + arrivals[0]));
    hide Process, Lines, ReadSink;
  }

  /** What the reader returns is what feeding the accepted reads yields; it ends as feeding
      them all does. */
  lemma {:induction false} LiveIsFeed<F>(parse: Parser, decode: FrameDecoder<F>, pending: State,
        before: seq<F>, buffer: bytes, arrivals: seq<bytes>, fails: bool)
    ensures var k := Accepted(parse, decode, pending, buffer, arrivals);
            var live := Live(parse, decode, pending, buffer, arrivals, fails);
            var fed := FeedAll(parse, ReadSink(parse, decode), Reading(pending, before), buffer, arrivals[..k]);
            fed.error.None? && fed.state.frames == before + live.frames
    ensures var all := FeedAll(parse, ReadSink(parse, decode), Reading(pending, before), buffer, arrivals);
            && (all.error.None? <==> Accepted(parse, decode, pending, buffer, arrivals) == |arrivals|)
            && Live(parse, decode, pending, buffer, arrivals, fails).end
               == if all.error.Some? then Broken(all.error.value) else EndOf(all.rest, fails)
    decreases |arrivals|
  {
    var k := Accepted(parse, decode, pending, buffer, arrivals);
    if arrivals == [] {
      JoinEmpty(before);
    } else {
      var o := Whole(parse, ReadSink(parse, decode), Reading(pending, []), buffer + arrivals[0]);
      FeedStep(parse, decode, pending, before, buffer, arrivals);
      if o.error.Some? {
        JoinEmpty(before);
        assert arrivals[..0] == [];
      } else {
        var front := arrivals[..k];
        FeedStep(parse, decode, pending, before, buffer, front);
        assert front[1..] == arrivals[1..][..k - 1];
        LiveIsFeed(parse, decode, o.state.pending, before + o.state.frames, o.rest, arrivals[1..], fails);
        var rest := Live(parse, decode, o.state.pending, o.rest, arrivals[1..], fails);
        JoinAssoc(before, o.state.frames, rest.frames);
        hide Whole, FeedAll, ReadSink;
      }
    }
  }

  /** A whole run of the reader: the frames of the reads before the first that goes wrong,
      those of that read itself being dropped, and the error of that read, of the class that
      one split of all the bytes would report. */
  lemma LiveExactly<F>(parse: Parser, decode: FrameDecoder<F>, arrivals: seq<bytes>, fails: bool)
    ensures var k := Accepted(parse, decode, None, [], arrivals);
            var live := Live(parse, decode, None, [], arrivals, fails);
            var fed := FeedAll(parse, ReadSink(parse, decode), Reading(None, []), [], arrivals[..k]);
            fed.error.None? && live.frames == fed.state.frames
    ensures var live := Live(parse, decode, None, [], arrivals, fails);
            var whole := Whole(parse, ReadSink(parse, decode), Reading(None, []), Concat(arrivals));
            if whole.error.None? then live == Stream(whole.state.frames, EndOf(whole.rest, fails))
            else live.end.Broken? && Class(live.end.error) == Class(whole.error.value)
  {
    LiveIsFeed(parse, decode, None, [], [], arrivals, fails);
    JoinEmpty(Live(parse, decode, None, [], arrivals, fails).frames);
    ChunkedFeedIsWhole(parse, ReadSink(parse, decode), Reading(None, []), arrivals);
    assert arrivals[..|arrivals|] == arrivals;
    hide Live, Accepted, Whole, FeedAll, Class;
  }

  /** How a run ends in which all reads are accepted: with a failing pipe if that is how the
      output ends, cleanly after nothing or a newline, and else for the partial line. */
  lemma LiveEnds<F>(parse: Parser, decode: FrameDecoder<F>, arrivals: seq<bytes>, fails: bool)
    requires Whole(parse, ReadSink(parse, decode), Reading(None, []), Concat(arrivals)).error.None?
    ensures var input := Concat(arrivals);
            Live(parse, decode, None, [], arrivals, fails).end
            == if fails then PipeError
               else if input == [] || input[|input| - 1] == 10 then Eof
               else Broken(ProtocolViolation)
  {
    LiveExactly(parse, decode, arrivals, fails);
    CleanEnd(parse, ReadSink(parse, decode), Reading(None, []), Concat(arrivals));
    hide Live, Whole, ReadSink, Accepted, FeedAll;
  }

  /** The reader and a replay of the same bytes: what replays ends cleanly with the same
      frames; and the reader ends cleanly where the replay fails exactly when the only thing
      wrong is a chunk sequence left unfinished. */
  lemma CleanEndVersusReplay<F>(parse: Parser, decode: FrameDecoder<F>, arrivals: seq<bytes>)
    ensures var live := Live(parse, decode, None, [], arrivals, false);
            var whole := Whole(parse, StepSink(parse, decode), Start(), Concat(arrivals));
            && (Replays(parse, decode, Concat(arrivals)) ==> live == Stream(whole.state.frames, Eof))
            && (live.end == Eof && !Replays(parse, decode, Concat(arrivals))
                <==> whole.error.None? && whole.rest == [] && whole.state.pending.Some?)
  {
    LiveExactly(parse, decode, arrivals, false);
    ReaderFollowsReplay(parse, decode, Start(), Lines(Concat(arrivals)));
    hide Live, Lines, Process, Accepted, FeedAll, Class, ReadSink, StepSink;
  }

  /** A child that writes plain objects that decode: the reader returns their decodings, in
      order, and ends cleanly, whatever the reads. */
  lemma PlainLinesLive<F>(parse: Parser, decode: FrameDecoder<F>, arrivals: seq<bytes>)
    requires var input := Concat(arrivals);
             && LinesOk(parse, WholeLines(input)) && PartialLine(input) == []
             && var vs := Values(parse, WholeLines(input));
                AllDecode(decode, vs) && forall i :: 0 <= i < |vs| ==> IsPlain(vs[i])
    ensures var live := Live(parse, decode, None, [], arrivals, false);
            live.end == Eof && Decodes(decode, Values(parse, WholeLines(Concat(arrivals))), live.frames)
  {
    PlainLinesReplay(parse, decode, Concat(arrivals));
    CleanEndVersusReplay(parse, decode, arrivals);
    hide Live, Whole, Replays, Decodes, AllDecode, IsPlain;
  }

  /** One line that parses to the first chunk of a sequence is such an input. */
  lemma UnfinishedSequenceEndsCleanly<F>(parse: Parser, decode: FrameDecoder<F>, line: bytes, v: Json, m: Meta)
    requires NoNewline(line) && |line| < MAX_RPC_FRAME_BYTES
    requires ParseLine(parse, line) == Some(v) && IsChunk(v, m, 0) && |ParseChunk(v).value.payload| <= m.byteLength
    ensures var arrivals := [line + [NEWLINE]];
            && Live(parse, decode, None, [], arrivals, false) == Stream([], Eof)
            && !Replays(parse, decode, Concat(arrivals))
  {
    var arrivals := [line + [NEWLINE]];
    var input := line + [NEWLINE] + [];
    assert Concat(arrivals) == input;
    FirstChunkWaits(parse, v, m);
    WholeStep(parse, StepSink(parse, decode), Start(), line, []);
    WholeStep(parse, ReadSink(parse, decode), Reading(None, []), line, []);
    WholeOfRest(parse, StepSink(parse, decode), Step(parse, decode, Start(), v).0, [], []);
    WholeOfRest(parse, ReadSink(parse, decode), ReadStep(parse, decode, Reading(None, []), v).0, [], []);
    hide Live, Whole, Push, ParseLine, IsChunk, ParseChunk, IsRpcChunk;
    CleanEndVersusReplay(parse, decode, arrivals);
    LiveExactly(parse, decode, arrivals, false);
  }

  /** The first of the two chunks of a sequence of the least length. */
  function FirstChunk(): Json {
    MakeChunk([99], 0, 2, 1_048_576, [120])
  }

  /** With any parser that reads `{}` as that chunk, the output `{}` and a newline ends cleanly
      for the reader and is refused by a replay. */
  lemma UnfinishedSequenceInput<F>(parse: Parser, decode: FrameDecoder<F>)
    requires parse([123, 125]) == Some(FirstChunk())
    ensures Live(parse, decode, None, [], [[123, 125, 10]], false) == Stream([], Eof)
    ensures !Replays(parse, decode, [123, 125, 10])
  {
    var m, line := Meta([99], 0, 2, 1_048_576), [123, 125];
    FirstChunkIsChunk(m);
    BracesParse(parse);
    hide ParseChunk, IsRpcChunk, FirstChunk, ParseLine, IsChunk, Live, Replays;
    UnfinishedSequenceEndsCleanly(parse, decode, line, FirstChunk(), m);
    assert line + [NEWLINE] == [123, 125, 10];
    assert Concat([[123, 125, 10]]) == [123, 125, 10];
  }

  lemma FirstChunkIsChunk(m: Meta)
    requires m == Meta([99], 0, 2, 1_048_576)
    ensures IsChunk(FirstChunk(), m, 0) && |ParseChunk(FirstChunk()).value.payload| == 1
  {
    assert [99][1..] == [] && Utf16Len([99]) == 1;
    MadeChunkParses([99], 0, 2, 1_048_576, [120]);
    hide MakeChunk, ParseChunk, IsRpcChunk;
  }

  lemma BracesParse(parse: Parser)
    requires parse([123, 125]) == Some(FirstChunk())
    ensures ParseLine(parse, [123, 125]) == Some(FirstChunk())
  {
    ValidAscii([123, 125]);
    assert FirstChunk().Object?;
    hide FirstChunk, Valid;
  }

  lemma FirstChunkWaits(parse: Parser, v: Json, m: Meta)
    requires IsChunk(v, m, 0) && |ParseChunk(v).value.payload| <= m.byteLength
    ensures Push(parse, None, v).1 == Ok(None) && Push(parse, None, v).0.Some?
  {
    hide IsRpcChunk;
    assert MetaInRange(ParseChunk(v).value.meta);
    hide ParseChunk, MetaInRange, Finalize;
  }

  // ----- the reader ---------------------------------------------------------

  datatype NextFrame<+F> = Frame(frame: F) | Ended(end: End)

  /** `unread` is what the child will still write, as the reads that will return it; `fails`
      says whether a failing read or the end of output follows. */
  class FrameReader<F> {
    const parse: Parser
    const decode: FrameDecoder<F>
    const lines: LineDecoder
    const fails: bool
    var pending: State
    var ready: seq<F>
    var hitEof: bool
    var unread: seq<bytes>

    ghost predicate Sound()
      reads this, lines
    {
      lines.Sound() && !lines.poisoned && (hitEof ==> unread == [] && lines.buffer == [] && !fails)
    }

    /** What will be returned from now on. */
    ghost function Remaining(): Stream<F>
      reads this, lines
    {
      var live := Live(parse, decode, pending, lines.buffer, unread, fails);
      Stream(ready + live.frames, live.end)
    }

    constructor (parse: Parser, decode: FrameDecoder<F>, output: seq<bytes>, fails: bool)
      ensures Sound() && fresh(lines) && Remaining() == Live(parse, decode, None, [], output, fails)
      ensures this.parse == parse && this.decode == decode
    {
      this.parse, this.decode, this.fails := parse, decode, fails;
      lines := new LineDecoder();
      pending, ready, hitEof, unread := None, [], false, output;
      new;
      JoinEmpty(Live(parse, decode, None, [], output, fails).frames);
    }

    /** Each call returns the next frame of the run, or how it ends. */
    method Next() returns (r: NextFrame<F>)
      requires Sound()
      modifies this, lines
      ensures r.Frame? ==> Sound() && old(Remaining()) == Stream([r.frame] + Remaining().frames, Remaining().end)
      ensures r.Ended? ==> old(Remaining()) == Stream([], r.end)
    {
      ghost var goal := Remaining();
      while ready == []
        invariant Sound() && Remaining() == goal
        decreases |unread|, !hitEof
      {
        if hitEof {
          return Ended(Eof);
        }
        if unread == [] && fails {
          return Ended(PipeError);
        }
        if unread == [] {
          hitEof := true;
          var e := lines.Eof();
          if e.Some? {
            return Ended(Broken(e.value));
          }
          continue;
        }
        var buf := unread[0];
        unread := unread[1..];
        var s, e := lines.Feed(parse, ReadSink(parse, decode), buf, Reading(pending, []));
        pending, ready := s.pending, s.frames;
        if e.Some? {
          return Ended(Broken(e.value));
        }
        JoinEmpty(Live(parse, decode, s.pending, lines.buffer, unread, fails).frames);
      }
      var f := ready[0];
      SplitFirst(ready);
      JoinAssoc([f], ready[1..], Live(parse, decode, pending, lines.buffer, unread, fails).frames);
      ready := ready[1..];
      return Frame(f);
    }
  }
}
