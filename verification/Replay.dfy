/** The decoder pipeline: lines, chunk reassembly, typed decoding; driven by the transcript
    replay over a whole file and by the frame reader over whatever reads arrive. */
module Replay {
  import opened Seqs
  import opened Utf8
  import opened Wire
  import opened Base64
  import opened Reassembler
  import opened LineDecoding
  import opened Wrappers

  /** `decode_frame`: any fixed function from an object to a typed frame. */
  type FrameDecoder<!F> = Json -> Option<F>

  // ----- the replay sink ----------------------------------------------------

  /** The variables of one replay; `frames` lists what was applied to the projection. */
  datatype Tally<F> = Tally(
    pending: State,
    physical: nat,
    logical: nat,
    chunks: nat,
    sequences: nat,
    chunkActive: bool,
    frames: seq<F>)

  function Start<F>(): Tally<F> {
    Tally(None, 0, 0, 0, 0, false, [])
  }

  /** Count one physical frame. */
  function Count<F>(t: Tally<F>, v: Json): Tally<F> {
    var t1 := t.(physical := t.physical + 1);
    if IsRpcChunk(v) then t1.(chunks := t.chunks + 1, chunkActive := true) else t1
  }

  /** Count one logical frame. */
  function Emit<F>(t: Tally<F>): Tally<F> {
    var t1 := t.(logical := t.logical + 1);
    if t.chunkActive then t1.(sequences := t.sequences + 1, chunkActive := false) else t1
  }

  /** The closure that the replay hands to the line decoder. */
  function Step<F>(parse: Parser, decode: FrameDecoder<F>, t: Tally<F>, v: Json): (Tally<F>, Option<RpcError>) {
    var t1 := Count(t, v);
    var (pending, r) := Push(parse, t.pending, v);
    var t2 := t1.(pending := pending);
    match r
    case Err(_) => (t2, Some(ProtocolViolation))
    case Ok(None) => (t2, None)
    case Ok(Some(logical)) =>
      var t3 := Emit(t2);
      match decode(logical)
      case None => (t3, Some(ProtocolViolation))
      case Some(f) => (t3.(frames := t3.frames + [f]), None)
  }

  /** Whatever goes wrong with a frame stops the line splitter with a protocol violation: the
      reassembler refuses it, or what it hands on does not decode. */
  lemma StepErrors<F>(parse: Parser, decode: FrameDecoder<F>, t: Tally<F>, v: Json)
    ensures var r := Push(parse, t.pending, v).1;
            Step(parse, decode, t, v).1
            == if r.Err? || (r.value.Some? && decode(r.value.value).None?) then Some(ProtocolViolation) else None
  {
    hide Push;
  }

  function StepSink<F>(parse: Parser, decode: FrameDecoder<F>): Sink<Tally<F>> {
    (t: Tally<F>, v: Json) => Step(parse, decode, t, v)
  }

  // ----- what the counters keep ---------------------------------------------

  /** Chunk frames of the sequence in progress. */
  function InProgress(st: State): nat {
    if st.Some? then st.value.nextIndex else 0
  }

  /** A pending sequence is within the limits its chunks were checked against. */
  ghost predicate PendingInRange(st: State) {
    st.Some? ==>
      var p := st.value;
      && 1 <= p.nextIndex < p.count <= 256
      && MAX_RPC_FRAME_BYTES <= p.byteLength
      && |p.payload| <= 262_144 * p.nextIndex
  }

  /** Between frames: physical frames are the logical ones, with each reassembled one
      replaced by its chunks; a finished sequence took 4 to 256 of them; and the flag agrees
      with the reassembler. */
  ghost predicate Balanced<F>(t: Tally<F>) {
    && PendingInRange(t.pending)
    && t.logical + t.chunks == t.physical + t.sequences
    && InProgress(t.pending) <= t.chunks
    && 4 * t.sequences <= t.chunks - InProgress(t.pending) <= 256 * t.sequences
    && (t.chunkActive <==> t.pending.Some?)
  }

  lemma StartBalanced<F>()
    ensures Balanced(Start<F>())
  {
  }

  /** A sequence that a chunk completes has 4 to 256 chunks: the least length of a sequence
      is four times the most a chunk can carry. */
  lemma CompletedCount(parse: Parser, st: State, v: Json)
    requires PendingInRange(st) && IsRpcChunk(v) && Push(parse, st, v).1.Ok?
    ensures var (st', r) := Push(parse, st, v);
            && PendingInRange(st')
            && if r == Ok(None) then InProgress(st') == InProgress(st) + 1
               else st'.None? && 4 <= InProgress(st) + 1 <= 256
  {
    var c := ParseChunk(v).value;
    assert MetaInRange(c.meta) && |c.payload| <= RPC_CHUNK_PAYLOAD_BYTES;
    hide ParseChunk, IsRpcChunk, Finalize, Utf16Len;
    ExtendInRange(st, c);
    OnlyAwaitingIsPending(parse, st, v);
  }

  lemma ExtendInRange(st: State, c: Chunk)
    requires PendingInRange(st) && Extend(st, c).Some?
    requires 2 <= c.meta.count <= RPC_CHUNK_MAX_COUNT && c.meta.index < c.meta.count
    requires MAX_RPC_FRAME_BYTES <= c.meta.byteLength && |c.payload| <= RPC_CHUNK_PAYLOAD_BYTES
    ensures var p := Extend(st, c).value;
            && p.nextIndex == InProgress(st) + 1 <= p.count <= 256
            && MAX_RPC_FRAME_BYTES <= p.byteLength
            && |p.payload| <= 262_144 * p.nextIndex
            && (|p.payload| == p.byteLength ==> p.nextIndex >= 4)
  {
  }

  /** Every accepted frame keeps the balance. */
  lemma StepKeepsBalance<F>(parse: Parser, decode: FrameDecoder<F>, t: Tally<F>, v: Json)
    requires Balanced(t) && Step(parse, decode, t, v).1.None?
    ensures Balanced(Step(parse, decode, t, v).0)
  {
    if IsRpcChunk(v) {
      ChunkKeepsBalance(parse, decode, t, v);
    } else {
      PlainKeepsBalance(parse, decode, t, v);
    }
  }

  lemma ChunkKeepsBalance<F>(parse: Parser, decode: FrameDecoder<F>, t: Tally<F>, v: Json)
    requires Balanced(t) && Step(parse, decode, t, v).1.None? && IsRpcChunk(v)
    ensures Balanced(Step(parse, decode, t, v).0)
  {
    CompletedCount(parse, t.pending, v);
    hide Push, IsRpcChunk, PendingInRange;
  }

  lemma PlainKeepsBalance<F>(parse: Parser, decode: FrameDecoder<F>, t: Tally<F>, v: Json)
    requires Balanced(t) && Step(parse, decode, t, v).1.None? && !IsRpcChunk(v)
    ensures Balanced(Step(parse, decode, t, v).0)
  {
    hide IsRpcChunk, ParseChunk, Extend, Conclude;
  }

  lemma {:induction false} ProcessKeepsBalance<F>(parse: Parser, decode: FrameDecoder<F>, t: Tally<F>,
        lines: seq<bytes>)
    requires Balanced(t) && lines != []
    requires Process(parse, StepSink(parse, decode), t, lines).error.None?
    ensures Balanced(Process(parse, StepSink(parse, decode), t, lines).state)
    decreases |lines|
  {
    if |lines| > 1 {
      var v := ParseLine(parse, lines[0]);
      var t' := Step(parse, decode, t, v.value).0;
      assert TakeLine(parse, StepSink(parse, decode), t, lines[0]).0 == t';
      hide Push, ParseLine, Count, Emit, Balanced;
      StepKeepsBalance(parse, decode, t, v.value);
      ProcessKeepsBalance(parse, decode, t', lines[1..]);
    }
  }

  // ----- which frames come out ----------------------------------------------

  /** The line fits, is text, and parses to an object. */
  predicate LineOk(parse: Parser, line: bytes) {
    |line| + 1 <= MAX_RPC_FRAME_BYTES && ParseLine(parse, line).Some?
  }

  ghost predicate LinesOk(parse: Parser, lines: seq<bytes>) {
    forall i :: 0 <= i < |lines| ==> LineOk(parse, lines[i])
  }

  /** The values of the lines. */
  ghost function Values(parse: Parser, lines: seq<bytes>): (vs: seq<Json>)
    requires LinesOk(parse, lines)
    ensures |vs| == |lines|
  {
    if lines == [] then [] else [ParseLine(parse, lines[0]).value] + Values(parse, lines[1..])
  }

  /** The frames are what the values decode to. */
  ghost predicate Decodes<F>(decode: FrameDecoder<F>, vs: seq<Json>, fs: seq<F>) {
    |fs| == |vs| && forall i :: 0 <= i < |vs| ==> decode(vs[i]) == Some(fs[i])
  }

  function ChunkCount(vs: seq<Json>): nat {
    if vs == [] then 0 else (if IsRpcChunk(vs[0]) then 1 else 0) + ChunkCount(vs[1..])
  }

  lemma {:induction false} ChunkCountJoin(a: seq<Json>, b: seq<Json>)
    ensures ChunkCount(a + b) == ChunkCount(a) + ChunkCount(b)
  {
    hide IsRpcChunk;
    if a == [] {
      JoinEmpty(b);
    } else {
      ChunkCountJoin(a[1..], b);
      assert (a + b)[1..] == a[1..] + b;
    }
  }

  /** The tally has seen these values: it holds the decodings of what they hand on, and its
      counters count them. */
  ghost predicate HasSeen<F>(parse: Parser, decode: FrameDecoder<F>, t: Tally<F>, vs: seq<Json>) {
    && Run(parse, vs) == Some(t.pending)
    && Decodes(decode, Emitted(parse, vs), t.frames)
    && t.physical == |vs| && t.logical == |t.frames| && t.chunks == ChunkCount(vs)
  }

  lemma DecodesSnoc<F>(decode: FrameDecoder<F>, vs: seq<Json>, fs: seq<F>, v: Json, f: F)
    requires Decodes(decode, vs, fs)
    ensures decode(v) == Some(f) ==> Decodes(decode, vs + [v], fs + [f])
  {
  }

  /** One more value is accepted exactly when the reassembler accepts it and what it hands on,
      if anything, decodes. */
  lemma StepSees<F>(parse: Parser, decode: FrameDecoder<F>, t: Tally<F>, vs: seq<Json>, v: Json)
    requires HasSeen(parse, decode, t, vs)
    ensures var (t', e) := Step(parse, decode, t, v);
            var r := Push(parse, t.pending, v).1;
            && (e.None? <==> r.Ok? && (r.value.Some? ==> decode(r.value.value).Some?))
            && (e.None? ==> HasSeen(parse, decode, t', vs + [v]))
  {
    hide Run, Emitted, Push, ChunkCount, IsRpcChunk, Decodes;
    RunExtends(parse, vs, v);
    ChunkCountSnoc(vs, v);
    var r := Push(parse, t.pending, v).1;
    if r.Ok? {
      EmittedSnoc(parse, vs, v);
      JoinEmpty(Emitted(parse, vs));
      if r.value.Some? && decode(r.value.value).Some? {
        DecodesSnoc(decode, Emitted(parse, vs), t.frames, r.value.value, decode(r.value.value).value);
      }
    }
  }

  lemma ChunkCountSnoc(vs: seq<Json>, v: Json)
    ensures ChunkCount(vs + [v]) == ChunkCount(vs) + (if IsRpcChunk(v) then 1 else 0)
  {
    ChunkCountJoin(vs, [v]);
    assert [v][1..] == [];
    hide IsRpcChunk;
  }

  lemma ValuesFirst(parse: Parser, lines: seq<bytes>, rest: seq<bytes>)
    requires lines != [] && LineOk(parse, lines[0]) && LinesOk(parse, rest) && rest == lines[1..]
    ensures LinesOk(parse, lines)
    ensures Values(parse, lines) == [ParseLine(parse, lines[0]).value] + Values(parse, rest)
  {
    hide LineOk;
    forall i | 0 <= i < |lines|
      ensures LineOk(parse, lines[i])
    {
      assert i > 0 ==> lines[i] == rest[i - 1];
    }
  }

  lemma ProcessFirst<S>(parse: Parser, sink: Sink<S>, st: S, whole: seq<bytes>, last: bytes)
    ensures whole == [] ==> Process(parse, sink, st, whole + [last]) == KeepRest(st, last)
    ensures whole != [] ==>
              var (st', e) := TakeLine(parse, sink, st, whole[0]);
              Process(parse, sink, st, whole + [last])
              == if e.Some? then Outcome(st', [], e) else Process(parse, sink, st', whole[1..] + [last])
  {
    hide TakeLine, KeepRest;
    if whole == [] {
      JoinEmpty([last]);
    } else {
      assert (whole + [last])[1..] == whole[1..] + [last];
    }
  }

  /** What one more line does to the tally. */
  lemma LineSees<F>(parse: Parser, decode: FrameDecoder<F>, t: Tally<F>, vs: seq<Json>, line: bytes)
    requires HasSeen(parse, decode, t, vs)
    ensures var (t', e) := TakeLine(parse, StepSink(parse, decode), t, line);
            && (e.None? ==> LineOk(parse, line) && ParseLine(parse, line).Some?
                            && HasSeen(parse, decode, t', vs + [ParseLine(parse, line).value]))
            && (LineOk(parse, line) && Takes(parse, decode, t.pending, ParseLine(parse, line).value) ==> e.None?)
  {
    hide ParseLine, HasSeen, Push;
    if LineOk(parse, line) {
      StepSees(parse, decode, t, vs, ParseLine(parse, line).value);
    }
    hide Step;
  }

  /** The reassembler accepts the value, and what it hands on, if anything, decodes. */
  ghost predicate Takes<F>(parse: Parser, decode: FrameDecoder<F>, st: State, v: Json) {
    var r := Push(parse, st, v).1;
    r.Ok? && (r.value.Some? ==> decode(r.value.value).Some?)
  }

  /** An accepted list of lines: all but the last are whole and parse, the reassembler accepts
      their values, and the frames are the decodings of what it hands on. */
  lemma {:induction false} ProcessSees<F>(parse: Parser, decode: FrameDecoder<F>, t: Tally<F>, vs: seq<Json>,
        whole: seq<bytes>, last: bytes)
    requires HasSeen(parse, decode, t, vs)
    requires Process(parse, StepSink(parse, decode), t, whole + [last]).error.None?
    ensures var o := Process(parse, StepSink(parse, decode), t, whole + [last]);
            && o.rest == last && |last| + 1 <= MAX_RPC_FRAME_BYTES && LinesOk(parse, whole)
            && HasSeen(parse, decode, o.state, vs + Values(parse, whole))
    decreases |whole|
  {
    ProcessFirst(parse, StepSink(parse, decode), t, whole, last);
    hide HasSeen, TakeLine, LineOk, Process, StepSink;
    if whole == [] {
      JoinEmpty(vs);
    } else {
      LineSees(parse, decode, t, vs, whole[0]);
      var t' := TakeLine(parse, StepSink(parse, decode), t, whole[0]).0;
      var v := ParseLine(parse, whole[0]).value;
      ProcessSees(parse, decode, t', vs + [v], whole[1..], last);
      ValuesFirst(parse, whole, whole[1..]);
      JoinAssoc(vs, [v], Values(parse, whole[1..]));
    }
  }

  /** Everything handed on decodes. */
  ghost predicate AllDecode<F>(decode: FrameDecoder<F>, vs: seq<Json>) {
    forall i :: 0 <= i < |vs| ==> decode(vs[i]).Some?
  }

  lemma {:induction false} EmittedPrefix(parse: Parser, xs: seq<Json>, ys: seq<Json>)
    requires Run(parse, xs + ys).Some?
    ensures Run(parse, xs).Some? && Emitted(parse, xs) <= Emitted(parse, xs + ys)
    decreases |ys|
  {
    hide Run, Emitted;
    if ys == [] {
      JoinEmpty(xs);
    } else {
      var n := |ys| - 1;
      SplitLast(ys);
      JoinAssoc(xs, ys[..n], [ys[n]]);
      EmittedSnoc(parse, xs + ys[..n], ys[n]);
      EmittedPrefix(parse, xs, ys[..n]);
    }
  }

  /** A value whose history goes on without an error and decodes is taken. */
  lemma NextIsTaken<F>(parse: Parser, decode: FrameDecoder<F>, st: State, vs: seq<Json>, v: Json, rest: seq<Json>)
    requires Run(parse, vs) == Some(st) && Run(parse, vs + [v] + rest).Some?
    requires AllDecode(decode, Emitted(parse, vs + [v] + rest))
    ensures Takes(parse, decode, st, v)
  {
    EmittedPrefix(parse, vs + [v], rest);
    EmittedSnoc(parse, vs, v);
    var r := Push(parse, st, v).1;
    var all, some := Emitted(parse, vs + [v] + rest), Emitted(parse, vs + [v]);
    hide Run, Emitted, Push;
    if r.value.Some? {
      var n := |Emitted(parse, vs)|;
      assert some[n] == r.value.value && all[n] == some[n];
    }
  }

  lemma {:induction false} SeenProcess<F>(parse: Parser, decode: FrameDecoder<F>, t: Tally<F>, vs: seq<Json>,
        whole: seq<bytes>, last: bytes)
    requires HasSeen(parse, decode, t, vs) && LinesOk(parse, whole) && |last| + 1 <= MAX_RPC_FRAME_BYTES
    requires Run(parse, vs + Values(parse, whole)).Some?
    requires AllDecode(decode, Emitted(parse, vs + Values(parse, whole)))
    ensures Process(parse, StepSink(parse, decode), t, whole + [last]).error.None?
    decreases |whole|
  {
    ProcessFirst(parse, StepSink(parse, decode), t, whole, last);
    if whole != [] {
      var v, rest := ParseLine(parse, whole[0]).value, Values(parse, whole[1..]);
      assert LineOk(parse, whole[0]) && LinesOk(parse, whole[1..]);
      assert Run(parse, vs) == Some(t.pending);
      hide HasSeen, TakeLine, LineOk, Process, StepSink, Run, Emitted, Takes, AllDecode;
      ValuesFirst(parse, whole, whole[1..]);
      JoinAssoc(vs, [v], rest);
      NextIsTaken(parse, decode, t.pending, vs, v, rest);
      LineSees(parse, decode, t, vs, whole[0]);
      SeenProcess(parse, decode, TakeLine(parse, StepSink(parse, decode), t, whole[0]).0, vs + [v], whole[1..], last);
    }
  }

  /** The whole lines of an input, and what follows the last newline. */
  function WholeLines(input: bytes): seq<bytes> {
    Lines(input)[..|Lines(input)| - 1]
  }

  function PartialLine(input: bytes): bytes {
    Lines(input)[|Lines(input)| - 1]
  }

  /** A stream is accepted exactly when its whole lines fit and parse to objects, what follows
      them leaves room for a newline, the reassembler accepts the objects, and all it hands on
      decodes. The frames are then those decodings, and the counters count objects, frames
      and chunks. */
  lemma AcceptedStream<F>(parse: Parser, decode: FrameDecoder<F>, input: bytes)
    ensures var o := Whole(parse, StepSink(parse, decode), Start(), input);
            var lines := WholeLines(input);
            && (o.error.None? <==>
                && LinesOk(parse, lines) && |PartialLine(input)| + 1 <= MAX_RPC_FRAME_BYTES
                && Run(parse, Values(parse, lines)).Some?
                && AllDecode(decode, Emitted(parse, Values(parse, lines))))
            && (o.error.None? ==>
                  o.rest == PartialLine(input) && HasSeen(parse, decode, o.state, Values(parse, lines)))
  {
    var lines, last := WholeLines(input), PartialLine(input);
    var t: Tally<F> := Start();
    SplitLast(Lines(input));
    assert HasSeen(parse, decode, t, []);
    if Whole(parse, StepSink(parse, decode), t, input).error.None? {
      ProcessSees(parse, decode, t, [], lines, last);
      JoinEmpty(Values(parse, lines));
      hide Run, Emitted;
    }
    if LinesOk(parse, lines) {
      JoinEmpty(Values(parse, lines));
      if |last| + 1 <= MAX_RPC_FRAME_BYTES && Run(parse, Values(parse, lines)).Some?
         && AllDecode(decode, Emitted(parse, Values(parse, lines))) {
        hide Run, Emitted, Process, Lines, AllDecode, HasSeen;
        SeenProcess(parse, decode, t, [], lines, last);
      }
    }
  }

  /** A replay succeeds exactly on whole lines of objects, with nothing after them, that read as
      plain objects and complete sequences whose frames all decode. */
  lemma ReplaysExactly<F>(parse: Parser, decode: FrameDecoder<F>, input: bytes)
    ensures Replays(parse, decode, input) <==>
            && LinesOk(parse, WholeLines(input)) && PartialLine(input) == []
            && exists frames :: Reads(parse, Values(parse, WholeLines(input)), frames) && AllDecode(decode, frames)
  {
    AcceptedStream(parse, decode, input);
    hide Whole, WholeLines, PartialLine, LinesOk, Run, Emitted, Reads, Decodes, AllDecode;
    if LinesOk(parse, WholeLines(input)) {
      var vs := Values(parse, WholeLines(input));
      if Replays(parse, decode, input) {
        AcceptedExactly(parse, vs, Emitted(parse, vs));
      }
      forall frames | Reads(parse, vs, frames) && AllDecode(decode, frames)
        ensures Run(parse, vs) == Some(None) && Emitted(parse, vs) == frames
      {
        AcceptedExactly(parse, vs, frames);
      }
    }
  }

  /** What a replay that succeeds has read: plain objects and complete sequences. */
  lemma ReplayedReads<F>(parse: Parser, decode: FrameDecoder<F>, input: bytes)
    requires Replays(parse, decode, input)
    ensures var o, lines := Whole(parse, StepSink(parse, decode), Start(), input).state, WholeLines(input);
            && LinesOk(parse, lines)
            && (exists frames :: Reads(parse, Values(parse, lines), frames) && Decodes(decode, frames, o.frames))
            && o.physical == |lines| && o.logical == |o.frames| && o.chunks == ChunkCount(Values(parse, lines))
  {
    AcceptedStream(parse, decode, input);
    var vs := Values(parse, WholeLines(input));
    var o := Whole(parse, StepSink(parse, decode), Start(), input).state;
    hide Whole, WholeLines, LinesOk, Run, Emitted, Reads, Decodes;
    AcceptedExactly(parse, vs, Emitted(parse, vs));
  }

  /** A stream of plain objects that decode is accepted, and its frames are their decodings. */
  lemma PlainLinesReplay<F>(parse: Parser, decode: FrameDecoder<F>, input: bytes)
    requires LinesOk(parse, WholeLines(input)) && PartialLine(input) == []
    requires var vs := Values(parse, WholeLines(input));
             AllDecode(decode, vs) && forall i :: 0 <= i < |vs| ==> IsPlain(vs[i])
    ensures Replays(parse, decode, input)
    ensures Decodes(decode, Values(parse, WholeLines(input)),
                    Whole(parse, StepSink(parse, decode), Start(), input).state.frames)
  {
    AcceptedStream(parse, decode, input);
    PlainStream(parse, Values(parse, WholeLines(input)));
    hide Whole, WholeLines, PartialLine, LinesOk, Run, Emitted, Decodes, AllDecode;
  }

  // ----- replay -------------------------------------------------------------

  datatype ReplayError = FrameError | UnexpectedEof

  datatype Report<F> =
    | Report(frames: seq<F>, physical: nat, logical: nat, chunks: nat, sequences: nat)
    | Failed(error: ReplayError)

  /** The input is accepted and leaves neither a partial line nor an unfinished sequence. */
  predicate Replays<F>(parse: Parser, decode: FrameDecoder<F>, input: bytes) {
    var whole := Whole(parse, StepSink(parse, decode), Start(), input);
    whole.error.None? && whole.rest == [] && whole.state.pending.None?
  }

  /** `replay_ndjson_bytes`: one feed of the whole buffer, then the end-of-stream checks. On
      success no sequence is left over and the counters account for every frame. */
  method ReplayBytes<F>(parse: Parser, decode: FrameDecoder<F>, input: bytes) returns (r: Report<F>)
    ensures var whole := Whole(parse, StepSink(parse, decode), Start(), input);
            && (r.Report? <==> Replays(parse, decode, input))
            && (r.Report? ==> r == Report(whole.state.frames, whole.state.physical, whole.state.logical,
                                          whole.state.chunks, whole.state.sequences))
            && (r == Failed(FrameError) <==> whole.error.Some?)
    ensures r.Report? ==>
              && r.logical == r.physical - r.chunks + r.sequences
              && 4 * r.sequences <= r.chunks <= 256 * r.sequences
    ensures r.Report? ==>
              && LinesOk(parse, WholeLines(input))
              && (exists frames :: Reads(parse, Values(parse, WholeLines(input)), frames)
                                   && Decodes(decode, frames, r.frames))
              && r.physical == |WholeLines(input)| && r.logical == |r.frames|
              && r.chunks == ChunkCount(Values(parse, WholeLines(input)))
  {
    var lines := new LineDecoder();
    var sink := StepSink(parse, decode);
    var t, error := lines.Feed(parse, sink, input, Start());
    assert [] + input == input;
    if error.Some? {
      return Failed(FrameError);
    }
    ProcessKeepsBalance(parse, decode, Start(), Lines(input));
    var eof := lines.Eof();
    if eof.Some? || t.pending.Some? {
      return Failed(UnexpectedEof);
    }
    ReplayedReads(parse, decode, input);
    hide LinesOk, Reads, Decodes, WholeLines;
    return Report(t.frames, t.physical, t.logical, t.chunks, t.sequences);
  }

  // ----- the frame reader ---------------------------------------------------

  /** What the reader of a live child keeps: the pending sequence and the decoded frames. */
  datatype Reading<F> = Reading(pending: State, frames: seq<F>)

  /** The closure that the frame reader hands to the line decoder, with the error that the
      reader reports: a reassembly error loses its kind, a frame that does not decode counts
      as bad JSON. */
  function ReadStep<F>(parse: Parser, decode: FrameDecoder<F>, s: Reading<F>, v: Json): (Reading<F>, Option<RpcError>) {
    var (pending, r) := Push(parse, s.pending, v);
    match r
    case Err(_) => (Reading(pending, s.frames), Some(ProtocolViolation))
    case Ok(None) => (Reading(pending, s.frames), None)
    case Ok(Some(logical)) =>
      match decode(logical)
      case None => (Reading(pending, s.frames), Some(JsonError))
      case Some(f) => (Reading(pending, s.frames + [f]), None)
  }

  /** The reader's errors: a frame that does not decode is bad JSON, whatever the reassembler
      refuses is a protocol violation, and nothing else is an error. */
  lemma ReaderErrors<F>(parse: Parser, decode: FrameDecoder<F>, s: Reading<F>, v: Json)
    ensures var r := Push(parse, s.pending, v).1;
            ReadStep(parse, decode, s, v).1
            == if r.Err? then Some(ProtocolViolation)
               else if r.value.Some? && decode(r.value.value).None? then Some(JsonError) else None
  {
    hide Push;
  }

  function ReadSink<F>(parse: Parser, decode: FrameDecoder<F>): Sink<Reading<F>> {
    (s: Reading<F>, v: Json) => ReadStep(parse, decode, s, v)
  }

  function Seen<F>(t: Tally<F>): Reading<F> {
    Reading(t.pending, t.frames)
  }

  lemma {:induction false} ReaderFollowsReplay<F>(parse: Parser, decode: FrameDecoder<F>, t: Tally<F>,
        lines: seq<bytes>)
    requires lines != []
    ensures var a := Process(parse, StepSink(parse, decode), t, lines);
            var b := Process(parse, ReadSink(parse, decode), Seen(t), lines);
            b.state == Seen(a.state) && b.rest == a.rest && b.error.Some? == a.error.Some?
    decreases |lines|
  {
    var e := TakeLine(parse, StepSink(parse, decode), t, lines[0]);
    assert (Seen(e.0), e.1.Some?) == (TakeLine(parse, ReadSink(parse, decode), Seen(t), lines[0]).0,
                                      TakeLine(parse, ReadSink(parse, decode), Seen(t), lines[0]).1.Some?)
    by {
      hide Push, ParseLine, IsRpcChunk;
    }
    if |lines| > 1 && e.1.None? {
      hide TakeLine, KeepRest;
      ReaderFollowsReplay(parse, decode, e.0, lines[1..]);
    }
  }

  /** However the bytes of a child arrive, an error-free stream yields the frames that a
      replay of the same bytes yields, and one is rejected exactly when the other is. */
  lemma ReadsAgreeWithReplay<F>(parse: Parser, decode: FrameDecoder<F>, arrivals: seq<bytes>)
    ensures var live := FeedAll(parse, ReadSink(parse, decode), Reading(None, []), [], arrivals);
            var whole := Whole(parse, StepSink(parse, decode), Start(), Concat(arrivals));
            && (live.error.None? <==> whole.error.None?)
            && (live.error.None? ==> live.state == Seen(whole.state) && live.rest == whole.rest)
  {
    ChunkedFeedIsWhole(parse, ReadSink(parse, decode), Reading(None, []), arrivals);
    ReaderFollowsReplay(parse, decode, Start(), Lines(Concat(arrivals)));
    hide Lines, Process;
  }
}
