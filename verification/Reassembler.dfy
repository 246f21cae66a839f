/** The chunk reassembler: `rpc_chunk` frames in, one logical object out. */
module Reassembler {
  import opened Seqs
  import opened Utf8
  import opened Wire
  import opened Base64
  import opened Wrappers

  // ----- one chunk frame ----------------------------------------------------

  function Field(v: Json, name: string): Option<Json> {
    if v.Object? && name in v.fields then Some(v.fields[name]) else None
  }

  function StrField(v: Json, name: string): Option<bytes> {
    match Field(v, name)
    case Some(Str(t)) => Some(t)
    case _ => None
  }

  predicate IsRpcChunk(v: Json) {
    StrField(v, "type") == Some(Ascii("rpc_chunk"))
  }

  /** `extract_safe_u64`. */
  function SafeInteger(v: Json, name: string): Option<nat> {
    match Field(v, name)
    case Some(UInt(n)) => if n <= JS_SAFE_INTEGER_MAX then Some(n) else None
    case _ => None
  }

  /** UTF-16 code units of a UTF-8 text: two for a four-byte character, else one. */
  function Utf16Len(s: bytes): nat {
    if s == [] || CharLen(s) == 0 then 0
    else (if CharLen(s) == 4 then 2 else 1) + Utf16Len(s[CharLen(s)..])
  }

  /** A character outside the basic plane, which takes four bytes, counts twice. */
  lemma Utf16OfCharacter(c: bytes)
    requires c != [] && CharLen(c) == |c|
    ensures Utf16Len(c) == if |c| == 4 then 2 else 1
  {
    assert c[|c|..] == [];
  }

  lemma {:induction false} Utf16OfJoin(a: bytes, b: bytes)
    requires Valid(a)
    ensures Utf16Len(a + b) == Utf16Len(a) + Utf16Len(b)
    decreases |a|
  {
    hide CharLen;
    if a == [] {
      JoinEmpty(b);
    } else {
      var n := CharLen(a);
      Utf16OfJoin(a[n..], b);
      DropOfJoin(a, b, n);
      CharLenJoin(a, b);
    }
  }

  datatype Meta = Meta(id: bytes, index: nat, count: nat, byteLength: nat)

  /** The limits on the fields of a chunk frame. */
  predicate MetaInRange(m: Meta) {
    && m.id != [] && Utf16Len(m.id) <= RPC_CHUNK_ID_MAX_UTF16
    && 2 <= m.count <= RPC_CHUNK_MAX_COUNT && m.index < m.count
    && MAX_RPC_FRAME_BYTES <= m.byteLength <= MAX_RPC_REASSEMBLED_BYTES
  }

  /** `extract_chunk_meta`. */
  function ExtractMeta(v: Json): (r: Result<Meta>)
    ensures r.Ok? ==> MetaInRange(r.value)
  {
    var id := StrField(v, "chunkId");
    if id.None? || id.value == [] || Utf16Len(id.value) > RPC_CHUNK_ID_MAX_UTF16 then Err(ProtocolViolation)
    else
      var index, count, len := SafeInteger(v, "index"), SafeInteger(v, "count"), SafeInteger(v, "byteLength");
      if index.None? || count.None? || len.None? then Err(ProtocolViolation)
      else if count.value < 2 || count.value > RPC_CHUNK_MAX_COUNT then Err(ProtocolViolation)
      else if index.value >= count.value then Err(ProtocolViolation)
      else if len.value < MAX_RPC_FRAME_BYTES then Err(ProtocolViolation)
      else if len.value > MAX_RPC_REASSEMBLED_BYTES then Err(FrameTooLarge(len.value, MAX_RPC_REASSEMBLED_BYTES))
      else Ok(Meta(id.value, index.value, count.value, len.value))
  }

  datatype Chunk = Chunk(meta: Meta, payload: bytes)

  /** Fields first, then the payload. */
  function ParseChunk(v: Json): (r: Result<Chunk>)
    ensures r.Ok? ==> MetaInRange(r.value.meta) && 1 <= |r.value.payload| <= RPC_CHUNK_PAYLOAD_BYTES
  {
    match ExtractMeta(v)
    case Err(e) => Err(e)
    case Ok(m) =>
      match StrField(v, "data")
      case None => Err(ProtocolViolation)
      case Some(data) =>
        match DecodePayload(data)
        case Err(e) => Err(e)
        case Ok(b) =>
          PayloadExact(data, b);
          Ok(Chunk(m, b))
  }

  // ----- the state machine --------------------------------------------------

  datatype Pending = Pending(id: bytes, count: nat, byteLength: nat, nextIndex: nat, payload: bytes)

  type State = Option<Pending>

  /** The value handed on, if any, or the error. */
  type Verdict = Result<Option<Json>>

  /** The final check on a complete payload. */
  function Finalize(parse: Parser, payload: bytes): Verdict {
    match ParseObject(parse, payload)
    case None => Err(ProtocolViolation)
    case Some(v) => Ok(Some(v))
  }

  /** The sequence with one more well-formed chunk, if it is the next one and fits. */
  function Extend(st: State, c: Chunk): Option<Pending> {
    var m := c.meta;
    if st.None? && m.index != 0 then None
    else
      var p := if st.Some? then st.value else Pending(m.id, m.count, m.byteLength, 0, []);
      if p.id != m.id || p.count != m.count || p.byteLength != m.byteLength || p.nextIndex != m.index
      then None
      else if |p.payload| + |c.payload| > p.byteLength then None
      else Some(Pending(p.id, p.count, p.byteLength, p.nextIndex + 1, p.payload + c.payload))
  }

  /** Wait for more chunks, or finish. */
  function Conclude(parse: Parser, p: Pending): (State, Verdict) {
    if p.nextIndex < p.count then (Some(p), Ok(None))
    else if |p.payload| != p.byteLength then (None, Err(ProtocolViolation))
    else (None, Finalize(parse, p.payload))
  }

  /** `push`. */
  function Push(parse: Parser, st: State, v: Json): (State, Verdict) {
    if !IsRpcChunk(v) then
      if st.Some? || !v.Object? then (None, Err(ProtocolViolation)) else (None, Ok(Some(v)))
    else
      match ParseChunk(v)
      case Err(e) => (None, Err(e))
      case Ok(c) =>
        match Extend(st, c)
        case None => (None, Err(ProtocolViolation))
        case Some(p) => Conclude(parse, p)
  }

  /** An error, and a completed frame, leave the reassembler fresh. */
  lemma OnlyAwaitingIsPending(parse: Parser, st: State, v: Json)
    ensures var (st', r) := Push(parse, st, v); st'.Some? <==> r == Ok(None)
  {
  }

  // ----- what a history of pushes means -------------------------------------

  /** `v` is chunk `i` of the sequence that `m` describes. */
  predicate IsChunk(v: Json, m: Meta, i: nat) {
    IsRpcChunk(v) && ParseChunk(v).Ok? && ParseChunk(v).value.meta == m.(index := i)
  }

  predicate ChunksOf(vs: seq<Json>, m: Meta) {
    forall i :: 0 <= i < |vs| ==> IsChunk(vs[i], m, i)
  }

  function Payloads(vs: seq<Json>): bytes
    requires forall i :: 0 <= i < |vs| ==> ParseChunk(vs[i]).Ok?
  {
    if vs == [] then [] else Payloads(vs[..|vs| - 1]) + ParseChunk(vs[|vs| - 1]).value.payload
  }

  /** All chunks of one sequence, in order, with the declared total length. */
  predicate Complete(vs: seq<Json>, m: Meta) {
    |vs| == m.count && ChunksOf(vs, m) && |Payloads(vs)| == m.byteLength
  }

  /** The last `k` of the values seen. */
  function Last(vs: seq<Json>, k: nat): seq<Json>
    requires k <= |vs|
  {
    vs[|vs| - k..]
  }

  /** State after a history, or `None` of it when some push failed. */
  function Run(parse: Parser, vs: seq<Json>): Option<State> {
    if vs == [] then Some(None)
    else
      match Run(parse, vs[..|vs| - 1])
      case None => None
      case Some(st) =>
        var (st', r) := Push(parse, st, vs[|vs| - 1]);
        if r.Ok? then Some(st') else None
  }

  /** The history ends with the chunks that `p` has taken in. */
  ghost predicate TracksPending(vs: seq<Json>, p: Pending) {
    var m := Meta(p.id, 0, p.count, p.byteLength);
    && 1 <= p.nextIndex <= p.count && 2 <= p.count && p.nextIndex <= |vs|
    && ChunksOf(Last(vs, p.nextIndex), m)
    && p.payload == Payloads(Last(vs, p.nextIndex))
    && |p.payload| <= p.byteLength
  }

  ghost predicate Tracks(vs: seq<Json>, st: State) {
    st.Some? ==> TracksPending(vs, st.value) && st.value.nextIndex < st.value.count
  }

  lemma ExtendChunks(ws: seq<Json>, m: Meta, v: Json)
    requires ChunksOf(ws, m) && IsChunk(v, m, |ws|)
    ensures ChunksOf(ws + [v], m)
    ensures Payloads(ws + [v]) == Payloads(ws) + ParseChunk(v).value.payload
  {
    ExtendOrder(ws, m, v);
    hide ChunksOf, ParseChunk, IsRpcChunk;
    assert ParseChunk(v).Ok?;
    PayloadsSnoc(ws, v);
  }

  lemma ExtendOrder(ws: seq<Json>, m: Meta, v: Json)
    requires ChunksOf(ws, m) && IsChunk(v, m, |ws|)
    ensures ChunksOf(ws + [v], m)
  {
    hide IsChunk;
    var all := ws + [v];
    assert all[|ws|] == v;
    assert forall i :: 0 <= i < |ws| ==> all[i] == ws[i];
  }

  lemma PayloadsSnoc(ws: seq<Json>, v: Json)
    requires forall i :: 0 <= i < |ws| ==> ParseChunk(ws[i]).Ok?
    requires ParseChunk(v).Ok?
    ensures forall i :: 0 <= i <= |ws| ==> ParseChunk((ws + [v])[i]).Ok?
    ensures Payloads(ws + [v]) == Payloads(ws) + ParseChunk(v).value.payload
  {
    hide ParseChunk;
    PartsOfJoin(ws, [v]);
    var all := ws + [v];
    assert all[|ws|] == v;
    assert forall i :: 0 <= i < |ws| ==> all[i] == ws[i];
  }

  lemma LastExtends(vs: seq<Json>, k: nat, v: Json)
    requires k <= |vs|
    ensures Last(vs + [v], k + 1) == Last(vs, k) + [v]
  {
  }

  /** A chunk that extends the sequence extends what is tracked. */
  lemma ExtendTracks(vs: seq<Json>, st: State, v: Json)
    requires Tracks(vs, st) && IsRpcChunk(v) && ParseChunk(v).Ok?
    requires Extend(st, ParseChunk(v).value).Some?
    ensures TracksPending(vs + [v], Extend(st, ParseChunk(v).value).value)
  {
    var c := ParseChunk(v).value;
    var m := c.meta.(index := 0);
    var k := if st.Some? then st.value.nextIndex else 0;
    assert 2 <= m.count && c.meta.index < m.count;
    assert c.meta == m.(index := k);
    var ws := Last(vs, k);
    assert IsChunk(v, m, k);
    assert ChunksOf(ws, m);
    var p := Extend(st, c).value;
    assert p == Pending(m.id, m.count, m.byteLength, k + 1, Payloads(ws) + c.payload) by {
      NoPayloads();
    }
    assert |p.payload| <= p.byteLength;
    hide ParseChunk, IsRpcChunk, Payloads, Extend, IsChunk, ChunksOf, Tracks, Last;
    ExtendChunks(ws, m, v);
    LastExtends(vs, k, v);
    assert m == Meta(p.id, 0, p.count, p.byteLength);
  }

  lemma NoPayloads()
    ensures Payloads([]) == []
  {
  }

  lemma {:induction false} RunTracks(parse: Parser, vs: seq<Json>)
    requires Run(parse, vs).Some?
    ensures Tracks(vs, Run(parse, vs).value)
    decreases |vs|
  {
    if vs != [] {
      var us, v := vs[..|vs| - 1], vs[|vs| - 1];
      assert us + [v] == vs;
      RunTracks(parse, us);
      if IsRpcChunk(v) && Run(parse, vs).value.Some? {
        ExtendTracks(us, Run(parse, us).value, v);
      }
    }
  }

  // ----- exactly when a frame comes out -------------------------------------

  /** What is pending after the first `k` chunks of a sequence. */
  function Started(m: Meta, k: nat, payload: bytes): State {
    if k == 0 then None else Some(Pending(m.id, m.count, m.byteLength, k, payload))
  }

  /** The chunk that is awaited extends the sequence as far as the declared length allows. */
  lemma NextExtends(c: Chunk, m: Meta, k: nat, sofar: bytes)
    requires c.meta == m.(index := k) && (k == 0 ==> sofar == [])
    ensures Extend(Started(m, k, sofar), c)
            == if |sofar + c.payload| > m.byteLength then None
               else Some(Pending(m.id, m.count, m.byteLength, k + 1, sofar + c.payload))
  {
  }

  lemma PushNext(parse: Parser, m: Meta, k: nat, sofar: bytes, v: Json)
    requires IsChunk(v, m, k) && (k == 0 ==> sofar == [])
    ensures var payload := sofar + ParseChunk(v).value.payload;
            Push(parse, Started(m, k, sofar), v)
            == if |payload| > m.byteLength then (None, Err(ProtocolViolation))
               else Conclude(parse, Pending(m.id, m.count, m.byteLength, k + 1, payload))
  {
    NextExtends(ParseChunk(v).value, m, k, sofar);
    hide ParseChunk, IsRpcChunk, Extend, Conclude;
  }

  /** From a started sequence, its next chunk is taken in while it fits. */
  lemma StartedStep(parse: Parser, xs: seq<Json>, v: Json, m: Meta)
    requires ChunksOf(xs, m) && IsChunk(v, m, |xs|)
    ensures ChunksOf(xs + [v], m)
    ensures var payload := Payloads(xs + [v]);
            Push(parse, Started(m, |xs|, Payloads(xs)), v)
            == if |payload| > m.byteLength then (None, Err(ProtocolViolation))
               else Conclude(parse, Pending(m.id, m.count, m.byteLength, |xs| + 1, payload))
  {
    ExtendChunks(xs, m, v);
    var sofar := Payloads(xs);
    assert xs == [] ==> sofar == [];
    hide Payloads, ParseChunk, IsRpcChunk, Push, Conclude;
    PushNext(parse, m, |xs|, sofar, v);
  }

  /** In a history without errors, a started sequence is what the state holds. */
  lemma {:induction false} StartedIsPending(parse: Parser, us: seq<Json>, ws: seq<Json>, m: Meta)
    requires Run(parse, us + ws).Some?
    requires 1 <= |ws| < m.count && ChunksOf(ws, m)
    ensures Run(parse, us + ws).value == Started(m, |ws|, Payloads(ws))
    decreases |ws|
  {
    var all := Payloads(ws);
    hide Run, ChunksOf, Payloads, Push, ParseChunk, IsChunk, Started, Conclude;
    var n := |ws| - 1;
    var xs, v := ws[..n], ws[n];
    SplitLast(ws);
    ChunksOfParts(xs, v, m);
    JoinAssoc(us, xs, [v]);
    RunSplits(parse, us + xs, v);
    StartedStep(parse, xs, v, m);
    if n == 0 {
      JoinEmpty(us);
      IdleAtStart(parse, us, v, m);
      assert Started(m, 0, Payloads(xs)) == None by {
        NothingStarted(m, Payloads(xs));
      }
    } else {
      StartedIsPending(parse, us, xs, m);
    }
    StartedConcludes(parse, m, |ws|, all);
  }

  lemma NothingStarted(m: Meta, payload: bytes)
    ensures Started(m, 0, payload) == None
  {
  }

  lemma StartedConcludes(parse: Parser, m: Meta, k: nat, payload: bytes)
    requires 1 <= k < m.count
    ensures Conclude(parse, Pending(m.id, m.count, m.byteLength, k, payload)) == (Started(m, k, payload), Ok(None))
  {
  }

  lemma RunSplits(parse: Parser, vs: seq<Json>, v: Json)
    requires Run(parse, vs + [v]).Some?
    ensures Run(parse, vs).Some?
    ensures Push(parse, Run(parse, vs).value, v).1.Ok?
    ensures Run(parse, vs + [v]).value == Push(parse, Run(parse, vs).value, v).0
  {
    PartsOfJoin(vs, [v]);
    hide Push;
  }

  /** A first chunk is accepted only when nothing is pending. */
  lemma IdleAtStart(parse: Parser, us: seq<Json>, v: Json, m: Meta)
    requires Run(parse, us).Some? && IsChunk(v, m, 0)
    requires Push(parse, Run(parse, us).value, v).1.Ok?
    ensures Run(parse, us).value == None
  {
    RunTracks(parse, us);
    hide ParseChunk, Finalize, IsRpcChunk, Run, ChunksOf, Payloads;
  }

  /** The history ends with a whole sequence whose payloads parse to `frame`. */
  ghost predicate EndsComplete(parse: Parser, vs: seq<Json>, m: Meta, frame: Json) {
    && 2 <= m.count <= |vs| && Complete(Last(vs, m.count), m)
    && ParseObject(parse, Payloads(Last(vs, m.count))) == Some(frame)
  }

  /** After a history without errors, pushing a chunk hands on a frame exactly when the last
      pushes were all the chunks of one sequence, in order, and their payloads make up the
      declared length and parse to that frame. */
  lemma EmitsWithoutErrors(parse: Parser, vs: seq<Json>, v: Json, frame: Json)
    requires Run(parse, vs).Some? && IsRpcChunk(v)
    ensures Push(parse, Run(parse, vs).value, v).1 == Ok(Some(frame))
            <==> exists m: Meta :: EndsComplete(parse, vs + [v], m, frame)
  {
    if Push(parse, Run(parse, vs).value, v).1 == Ok(Some(frame)) {
      EmittedIsComplete(parse, vs, v, frame);
    }
    hide ParseChunk, IsRpcChunk, Run, Push, Complete, Payloads, Last;
    if m: Meta :| EndsComplete(parse, vs + [v], m, frame) {
      CompleteEmits(parse, vs, v, m);
    }
  }

  /** What is pending after any history, errors included: a failed push leaves nothing. */
  function RunOn(parse: Parser, vs: seq<Json>): State {
    if vs == [] then None else Push(parse, RunOn(parse, vs[..|vs| - 1]), vs[|vs| - 1]).0
  }

  /** The pushes since the last that failed. */
  function SinceError(parse: Parser, vs: seq<Json>): seq<Json> {
    if vs == [] then []
    else
      var us, v := vs[..|vs| - 1], vs[|vs| - 1];
      if Push(parse, RunOn(parse, us), v).1.Err? then [] else SinceError(parse, us) + [v]
  }

  /** After an error the reassembler is as good as new: only the pushes since then count. */
  lemma {:induction false} ErrorsAreForgotten(parse: Parser, vs: seq<Json>)
    ensures Run(parse, SinceError(parse, vs)) == Some(RunOn(parse, vs))
    decreases |vs|
  {
    RunOfNothing(parse);
    if vs != [] {
      var us, v := vs[..|vs| - 1], vs[|vs| - 1];
      ErrorsAreForgotten(parse, us);
      OnlyAwaitingIsPending(parse, RunOn(parse, us), v);
      RunExtends(parse, SinceError(parse, us), v);
      hide Run, Push;
    }
  }

  /** After any history, pushing a chunk hands on a frame exactly when the last pushes since
      the latest error were all the chunks of one sequence, in order, and their payloads make
      up the declared length and parse to that frame. */
  lemma EmitsExactly(parse: Parser, vs: seq<Json>, v: Json, frame: Json)
    requires IsRpcChunk(v)
    ensures Push(parse, RunOn(parse, vs), v).1 == Ok(Some(frame))
            <==> exists m: Meta :: EndsComplete(parse, SinceError(parse, vs) + [v], m, frame)
  {
    hide Run, Push, RunOn, SinceError, IsRpcChunk, EndsComplete;
    ErrorsAreForgotten(parse, vs);
    EmitsWithoutErrors(parse, SinceError(parse, vs), v, frame);
  }

  lemma EmittedIsComplete(parse: Parser, vs: seq<Json>, v: Json, frame: Json)
    requires Run(parse, vs).Some? && IsRpcChunk(v)
    requires Push(parse, Run(parse, vs).value, v).1 == Ok(Some(frame))
    ensures exists m: Meta :: EndsComplete(parse, vs + [v], m, frame)
  {
    var st := Run(parse, vs).value;
    var c := ParseChunk(v).value;
    var p := Extend(st, c).value;
    RunTracks(parse, vs);
    ExtendTracks(vs, st, v);
    hide ParseChunk, IsRpcChunk, Run, Payloads, Last, Extend, Tracks, ChunksOf;
    var m := Meta(p.id, 0, p.count, p.byteLength);
    assert EndsComplete(parse, vs + [v], m, frame);
  }

  lemma SequenceEmits(parse: Parser, us: seq<Json>, ws: seq<Json>, v: Json, m: Meta)
    requires Run(parse, us + ws).Some? && ws != []
    requires Complete(ws + [v], m)
    ensures Push(parse, Run(parse, us + ws).value, v) == (None, Finalize(parse, Payloads(ws + [v])))
  {
    assert ChunksOf(ws, m) && IsChunk(v, m, |ws|) by { ChunksOfParts(ws, v, m); }
    var all := Payloads(ws + [v]);
    hide ParseChunk, IsRpcChunk, Payloads, Finalize, Run, Push;
    StartedIsPending(parse, us, ws, m);
    StartedStep(parse, ws, v, m);
    hide ChunksOf, IsChunk, Started;
  }

  lemma ChunksOfParts(ws: seq<Json>, v: Json, m: Meta)
    requires ChunksOf(ws + [v], m)
    ensures ChunksOf(ws, m) && IsChunk(v, m, |ws|)
  {
    hide IsChunk;
    var all := ws + [v];
    assert forall i :: 0 <= i < |ws| ==> ws[i] == all[i];
    assert all[|ws|] == v;
  }

  lemma CompleteEmits(parse: Parser, vs: seq<Json>, v: Json, m: Meta)
    requires Run(parse, vs).Some? && 2 <= m.count <= |vs| + 1
    requires Complete(Last(vs + [v], m.count), m)
    ensures Push(parse, Run(parse, vs).value, v)
            == (None, Finalize(parse, Payloads(Last(vs + [v], m.count))))
  {
    hide Run, Push, Complete, Payloads, Finalize;
    var k := m.count - 1;
    LastExtends(vs, k, v);
    SplitAt(vs, |vs| - k);
    SequenceEmits(parse, vs[..|vs| - k], Last(vs, k), v, m);
  }

  // ----- splitting and reassembling -----------------------------------------

  /** A chunk frame as a peer would send it. */
  function MakeChunk(id: bytes, index: nat, count: nat, byteLength: nat, piece: bytes): Json {
    Object(map["type" := Str(Ascii("rpc_chunk")), "chunkId" := Str(id), "index" := UInt(index),
               "count" := UInt(count), "byteLength" := UInt(byteLength), "data" := Str(Encode(piece))])
  }

  lemma MadeChunkParses(id: bytes, index: nat, count: nat, byteLength: nat, piece: bytes)
    requires MetaInRange(Meta(id, index, count, byteLength))
    requires 1 <= |piece| <= RPC_CHUNK_PAYLOAD_BYTES
    ensures var v := MakeChunk(id, index, count, byteLength, piece);
            IsRpcChunk(v) && ParseChunk(v) == Ok(Chunk(Meta(id, index, count, byteLength), piece))
  {
    hide Encode, DecodePayload, Utf16Len;
    PayloadExact(Encode(piece), piece);
  }

  /** What becomes of a chunk frame with all its fields, in numbers: which are accepted, and
      which of the others are reported as too large. */
  lemma MadeChunkExactly(id: bytes, index: nat, count: nat, byteLength: nat, piece: bytes)
    ensures ParseChunk(MakeChunk(id, index, count, byteLength, piece)) ==
            if id == [] || Utf16Len(id) > 128 || index >= count || count < 2 || count > 256
               || byteLength < 1_048_576 || byteLength > 9_007_199_254_740_991 then Err(ProtocolViolation)
            else if byteLength > 67_108_864 then Err(FrameTooLarge(byteLength, 67_108_864))
            else if piece == [] then Err(ProtocolViolation)
            else if |piece| > 262_144 then Err(FrameTooLarge(|piece|, 262_144))
            else Ok(Chunk(Meta(id, index, count, byteLength), piece))
  {
    hide Encode, DecodePayload, Utf16Len;
    MadePayload(piece);
    MadeMeta(id, index, count, byteLength, piece);
    MadeFields(id, index, count, byteLength, piece);
    hide ExtractMeta, MakeChunk, StrField, SafeInteger;
  }

  lemma MadePayload(piece: bytes)
    ensures DecodePayload(Encode(piece)) ==
            if piece == [] then Err(ProtocolViolation)
            else if |piece| > 262_144 then Err(FrameTooLarge(|piece|, 262_144))
            else Ok(piece)
  {
    PayloadExact(Encode(piece), piece);
    EmptyEncoding();
    assert DecodePayload([]) == Err(ProtocolViolation);
    hide Encode, DecodePayload;
  }

  lemma MadeMeta(id: bytes, index: nat, count: nat, byteLength: nat, piece: bytes)
    ensures ExtractMeta(MakeChunk(id, index, count, byteLength, piece)) ==
            if id == [] || Utf16Len(id) > 128 || index >= count || count < 2 || count > 256
               || byteLength < 1_048_576 || byteLength > 9_007_199_254_740_991 then Err(ProtocolViolation)
            else if byteLength > 67_108_864 then Err(FrameTooLarge(byteLength, 67_108_864))
            else Ok(Meta(id, index, count, byteLength))
  {
    MadeFields(id, index, count, byteLength, piece);
    hide MakeChunk, StrField, SafeInteger, Utf16Len;
  }

  lemma MadeFields(id: bytes, index: nat, count: nat, byteLength: nat, piece: bytes)
    ensures var v := MakeChunk(id, index, count, byteLength, piece);
            && StrField(v, "chunkId") == Some(id) && StrField(v, "data") == Some(Encode(piece))
            && SafeInteger(v, "index") == Safe(index) && SafeInteger(v, "count") == Safe(count)
            && SafeInteger(v, "byteLength") == Safe(byteLength)
  {
    hide Encode, Ascii;
  }

  function Safe(n: nat): Option<nat> {
    if n > 9_007_199_254_740_991 then None else Some(n)
  }

  function MakeChunks(id: bytes, byteLength: nat, pieces: seq<bytes>): seq<Json> {
    seq(|pieces|, i requires 0 <= i < |pieces| => MakeChunk(id, i, |pieces|, byteLength, pieces[i]))
  }

  lemma {:induction false} MadePayloads(vs: seq<Json>, m: Meta, pieces: seq<bytes>)
    requires |vs| == |pieces| && ChunksOf(vs, m)
    requires forall i :: 0 <= i < |vs| ==> ParseChunk(vs[i]).value.payload == pieces[i]
    ensures Payloads(vs) == Concat(pieces)
    decreases |vs|
  {
    hide ParseChunk;
    if vs != [] {
      var n := |vs| - 1;
      MadePayloads(vs[..n], m, pieces[..n]);
      SplitLast(pieces);
      ConcatSnoc(pieces[..n], pieces[n]);
    }
  }

  /** A sequence under way is accepted chunk by chunk. */
  lemma PrefixStep(parse: Parser, vs: seq<Json>, m: Meta, k: nat)
    requires Complete(vs, m) && k + 1 < m.count
    ensures Push(parse, Started(m, k, Payloads(vs[..k])), vs[k])
            == (Started(m, k + 1, Payloads(vs[..k + 1])), Ok(None))
  {
    assert ChunksOf(vs[..k], m) && IsChunk(vs[k], m, k);
    SplitLast(vs[..k + 1]);
    PrefixOfPrefix(vs, k + 1, k);
    PayloadsGrow(vs, k + 1);
    StartedStep(parse, vs[..k], vs[k], m);
    hide ParseChunk, Payloads, Push, ChunksOf, IsChunk;
  }

  lemma {:induction false} PrefixAcceptedFrom(parse: Parser, us: seq<Json>, vs: seq<Json>, m: Meta, k: nat)
    requires Run(parse, us) == Some(None) && Complete(vs, m) && k < m.count
    ensures Run(parse, us + vs[..k]) == Some(Started(m, k, Payloads(vs[..k])))
  {
    if k == 0 {
      JoinEmpty(us);
      assert vs[..0] == [];
      hide Run;
    } else {
      PrefixAcceptedFrom(parse, us, vs, m, k - 1);
      PrefixStep(parse, vs, m, k - 1);
      TakeSnoc(vs, k - 1);
      AcceptStep(parse, us, vs[..k - 1], vs[k - 1], Started(m, k - 1, Payloads(vs[..k - 1])),
                 Started(m, k, Payloads(vs[..k])));
      hide Complete, ChunksOf, Payloads, Run, ParseChunk, Push, Started;
    }
  }

  lemma AcceptStep(parse: Parser, us: seq<Json>, xs: seq<Json>, v: Json, a: State, b: State)
    requires Run(parse, us + xs) == Some(a) && Push(parse, a, v) == (b, Ok(None))
    ensures Run(parse, us + (xs + [v])) == Some(b)
  {
    hide Run, Push;
    JoinAssoc(us, xs, [v]);
    RunExtends(parse, us + xs, v);
  }

  lemma PrefixAccepted(parse: Parser, vs: seq<Json>, m: Meta, k: nat)
    requires Complete(vs, m) && k < m.count
    ensures Run(parse, vs[..k]) == Some(Started(m, k, Payloads(vs[..k])))
  {
    RunOfNothing(parse);
    PrefixAcceptedFrom(parse, [], vs, m, k);
    hide Run, Complete, Started;
    JoinEmpty(vs[..k]);
  }

  lemma RunOfNothing(parse: Parser)
    ensures Run(parse, []) == Some(None)
  {
  }

  lemma RunExtends(parse: Parser, vs: seq<Json>, v: Json)
    requires Run(parse, vs).Some?
    ensures var (st, r) := Push(parse, Run(parse, vs).value, v);
            Run(parse, vs + [v]) == if r.Ok? then Some(st) else None
  {
    PartsOfJoin(vs, [v]);
    hide Push;
  }

  lemma {:induction false} PayloadsGrow(vs: seq<Json>, k: nat)
    requires k <= |vs| && forall i :: 0 <= i < |vs| ==> ParseChunk(vs[i]).Ok?
    ensures |Payloads(vs[..k])| <= |Payloads(vs)|
    decreases |vs|
  {
    hide ParseChunk;
    if k < |vs| {
      PayloadsGrow(vs[..|vs| - 1], k);
      assert vs[..|vs| - 1][..k] == vs[..k];
    } else {
      assert vs[..k] == vs;
    }
  }

  /** The first `n` values are awaited one by one, without an error. */
  ghost predicate AwaitsMore(parse: Parser, vs: seq<Json>, n: int)
    requires n < |vs|
  {
    && (forall k :: 0 <= k <= n ==> Run(parse, vs[..k]).Some?)
    && (forall k :: 0 <= k < n ==> Push(parse, Run(parse, vs[..k]).value, vs[k]).1 == Ok(None))
  }

  /** Cutting a payload of legal size into 2 to 256 legal pieces and pushing their chunks
      into a fresh reassembler: each one but the last is awaited, and the last returns what
      the whole payload parses to and leaves the reassembler fresh. */
  lemma SplitReassembles(parse: Parser, id: bytes, pieces: seq<bytes>)
    requires MetaInRange(Meta(id, 0, |pieces|, |Concat(pieces)|))
    requires forall i :: 0 <= i < |pieces| ==> 1 <= |pieces[i]| <= RPC_CHUNK_PAYLOAD_BYTES
    ensures var vs := MakeChunks(id, |Concat(pieces)|, pieces);
            var n := |pieces| - 1;
            && AwaitsMore(parse, vs, n)
            && Push(parse, Run(parse, vs[..n]).value, vs[n]) == (None, Finalize(parse, Concat(pieces)))
  {
    var m := Meta(id, 0, |pieces|, |Concat(pieces)|);
    assert m.count >= 2;
    assert |MakeChunks(id, m.byteLength, pieces)| == |pieces|;
    hide ParseChunk, Finalize, IsRpcChunk, MetaInRange, MakeChunks, Push, Run, Payloads, ChunksOf, AwaitsMore;
    MadeComplete(m, pieces);
    WholeSequence(parse, MakeChunks(id, m.byteLength, pieces), m);
  }

  /** Pushing a whole sequence into a fresh reassembler. */
  lemma WholeSequence(parse: Parser, vs: seq<Json>, m: Meta)
    requires Complete(vs, m) && m.count >= 2
    ensures var n := m.count - 1;
            && AwaitsMore(parse, vs, n)
            && Push(parse, Run(parse, vs[..n]).value, vs[n]) == (None, Finalize(parse, Payloads(vs)))
  {
    var n := m.count - 1;
    hide ParseChunk, Finalize, IsRpcChunk, Push, Run, Started;
    forall k | 0 <= k <= n
      ensures Run(parse, vs[..k]).Some?
      ensures k < n ==> Push(parse, Run(parse, vs[..k]).value, vs[k]).1 == Ok(None)
    {
      PrefixAccepted(parse, vs, m, k);
      if k < n {
        PrefixStep(parse, vs, m, k);
      }
    }
    SplitLast(vs);
    JoinEmpty(vs[..n]);
    SequenceEmits(parse, [], vs[..n], vs[n], m);
  }

  lemma MadeComplete(m: Meta, pieces: seq<bytes>)
    requires MetaInRange(m) && m.index == 0 && m.count == |pieces| && m.byteLength == |Concat(pieces)|
    requires forall i :: 0 <= i < |pieces| ==> 1 <= |pieces[i]| <= RPC_CHUNK_PAYLOAD_BYTES
    ensures var vs := MakeChunks(m.id, m.byteLength, pieces);
            Complete(vs, m) && Payloads(vs) == Concat(pieces)
  {
    var vs := MakeChunks(m.id, m.byteLength, pieces);
    hide ParseChunk, IsRpcChunk, Utf16Len;
    forall i | 0 <= i < |vs|
      ensures IsChunk(vs[i], m, i) && ParseChunk(vs[i]).value.payload == pieces[i]
    {
      MadeChunkParses(m.id, i, m.count, m.byteLength, pieces[i]);
    }
    hide MakeChunk;
    MadePayloads(vs, m, pieces);
  }

  // ----- whole streams of values --------------------------------------------

  predicate IsPlain(v: Json) {
    v.Object? && !IsRpcChunk(v)
  }

  /** After any history a value that is no chunk is accepted exactly when it is an object and
      nothing is pending; it is then handed on as it is. */
  lemma PlainExactly(parse: Parser, vs: seq<Json>, v: Json)
    requires !IsRpcChunk(v)
    ensures Push(parse, RunOn(parse, vs), v)
            == (None, if v.Object? && RunOn(parse, vs) == None then Ok(Some(v)) else Err(ProtocolViolation))
  {
    hide RunOn, IsRpcChunk;
  }

  lemma ChunkErrors(v: Json)
    ensures ParseChunk(v).Err? ==> ParseChunk(v).error == ProtocolViolation || ParseChunk(v).error.FrameTooLarge?
  {
    hide Encode, Utf16Len, StrField, SafeInteger;
  }

  /** A chunk that is refused by itself is refused for its own reason; every other refusal is
      a protocol violation. */
  lemma RefusalsExactly(parse: Parser, st: State, v: Json, e: RpcError)
    requires Push(parse, st, v).1 == Err(e)
    ensures if IsRpcChunk(v) && ParseChunk(v).Err? then e == ParseChunk(v).error else e == ProtocolViolation
    ensures e == ProtocolViolation || (IsRpcChunk(v) && e.FrameTooLarge?)
  {
    ChunkErrors(v);
    hide IsRpcChunk, ParseChunk, ParseObject;
  }

  /** What a history without errors has handed on. */
  function Emitted(parse: Parser, vs: seq<Json>): seq<Json>
    requires Run(parse, vs).Some?
  {
    if vs == [] then []
    else
      var us, v := vs[..|vs| - 1], vs[|vs| - 1];
      var r := Push(parse, Run(parse, us).value, v).1.value;
      Emitted(parse, us) + (if r.Some? then [r.value] else [])
  }

  /** The values are plain objects and complete sequences, and the frames are, in order, those
      objects and what the payloads of those sequences parse to. */
  ghost predicate Reads(parse: Parser, vs: seq<Json>, frames: seq<Json>)
    decreases |vs|
  {
    if vs == [] then frames == []
    else
      && frames != []
      && var fs, f := frames[..|frames| - 1], frames[|frames| - 1];
         || (IsPlain(vs[|vs| - 1]) && f == vs[|vs| - 1] && Reads(parse, vs[..|vs| - 1], fs))
         || exists m: Meta :: EndsComplete(parse, vs, m, f) && Reads(parse, vs[..|vs| - m.count], fs)
  }

  lemma EmittedSnoc(parse: Parser, vs: seq<Json>, v: Json)
    requires Run(parse, vs + [v]).Some?
    ensures Run(parse, vs).Some? && Push(parse, Run(parse, vs).value, v).1.Ok?
    ensures var r := Push(parse, Run(parse, vs).value, v).1.value;
            Emitted(parse, vs + [v]) == Emitted(parse, vs) + (if r.Some? then [r.value] else [])
  {
    RunSplits(parse, vs, v);
    PartsOfJoin(vs, [v]);
    hide Run, Push;
  }

  /** The chunks of a sequence under way hand on nothing and start when nothing is pending. */
  lemma {:induction false} QuietPrefix(parse: Parser, us: seq<Json>, ws: seq<Json>, m: Meta)
    requires Run(parse, us + ws).Some? && |ws| < m.count && ChunksOf(ws, m)
    ensures Run(parse, us).Some? && Emitted(parse, us + ws) == Emitted(parse, us)
    ensures ws != [] ==> Run(parse, us).value == None
    decreases |ws|
  {
    hide Run, Push, ChunksOf, Emitted, Payloads, IsChunk, ParseChunk, IsRpcChunk;
    if ws == [] {
      JoinEmpty(us);
    } else {
      var n := |ws| - 1;
      var xs, v := ws[..n], ws[n];
      SplitLast(ws);
      JoinAssoc(us, xs, [v]);
      ChunksOfParts(xs, v, m);
      EmittedSnoc(parse, us + xs, v);
      RunSplits(parse, us + xs, v);
      OnlyAwaitingIsPending(parse, Run(parse, us + xs).value, v);
      StartedIsPending(parse, us, ws, m);
      JoinEmpty(Emitted(parse, us + xs));
      QuietPrefix(parse, us, xs, m);
      if n == 0 {
        JoinEmpty(us);
        IdleAtStart(parse, us, v, m);
      }
    }
  }

  lemma {:induction false} AcceptedReads(parse: Parser, vs: seq<Json>)
    requires Run(parse, vs) == Some(None)
    ensures Reads(parse, vs, Emitted(parse, vs))
    decreases |vs|
  {
    if vs != [] {
      var us, v := vs[..|vs| - 1], vs[|vs| - 1];
      SplitLast(vs);
      if IsRpcChunk(v) {
        SequenceReads(parse, us, v);
      } else {
        PlainReads(parse, us, v);
      }
    }
  }

  lemma PlainReads(parse: Parser, us: seq<Json>, v: Json)
    requires Run(parse, us + [v]) == Some(None) && !IsRpcChunk(v)
    ensures Reads(parse, us + [v], Emitted(parse, us + [v]))
    decreases |us| + 1, 0
  {
    RunSplits(parse, us, v);
    EmittedSnoc(parse, us, v);
    assert Run(parse, us) == Some(None) && IsPlain(v);
    hide Run, Push, IsPlain, Emitted, EndsComplete;
    AcceptedReads(parse, us);
    PartsOfJoin(us, [v]);
    PartsOfJoin(Emitted(parse, us), [v]);
  }

  lemma SequenceReads(parse: Parser, us: seq<Json>, v: Json)
    requires Run(parse, us + [v]) == Some(None) && IsRpcChunk(v)
    ensures Reads(parse, us + [v], Emitted(parse, us + [v]))
    decreases |us| + 1, 0
  {
    var vs := us + [v];
    RunSplits(parse, us, v);
    EmittedSnoc(parse, us, v);
    OnlyAwaitingIsPending(parse, Run(parse, us).value, v);
    hide Run, Push, Emitted, IsRpcChunk;
    var f := Push(parse, Run(parse, us).value, v).1.value.value;
    EmittedIsComplete(parse, us, v, f);
    var m: Meta :| EndsComplete(parse, vs, m, f);
    hide EndsComplete, Reads;
    SequenceStarts(parse, us, v, m, f);
    var front := vs[..|vs| - m.count];
    AcceptedReads(parse, front);
    ReadsSequence(parse, vs, Emitted(parse, front), m, f);
  }

  lemma ReadsSequence(parse: Parser, vs: seq<Json>, fs: seq<Json>, m: Meta, f: Json)
    requires EndsComplete(parse, vs, m, f) && Reads(parse, vs[..|vs| - m.count], fs)
    ensures Reads(parse, vs, fs + [f])
  {
    assert vs != [];
    var all := fs + [f];
    PartsOfJoin(fs, [f]);
    hide EndsComplete, Reads;
    assert all != [] && all[..|all| - 1] == fs && all[|all| - 1] == f;
    ReadsLast(parse, vs, all, m);
  }

  lemma ReadsLast(parse: Parser, vs: seq<Json>, frames: seq<Json>, m: Meta)
    requires vs != [] && frames != [] && EndsComplete(parse, vs, m, frames[|frames| - 1])
    requires Reads(parse, vs[..|vs| - m.count], frames[..|frames| - 1])
    ensures Reads(parse, vs, frames)
  {
    hide EndsComplete, IsPlain;
  }

  /** The history before a complete sequence left nothing pending, and all of it but the last
      chunk handed on nothing. */
  lemma SequenceStarts(parse: Parser, us: seq<Json>, v: Json, m: Meta, f: Json)
    requires Run(parse, us).Some? && EndsComplete(parse, us + [v], m, f)
    ensures 2 <= m.count <= |us| + 1
    ensures var front := (us + [v])[..|us| + 1 - m.count];
            Run(parse, front) == Some(None) && Emitted(parse, us) == Emitted(parse, front)
  {
    var k := m.count - 1;
    LastExtends(us, k, v);
    var ws := Last(us, k);
    assert ChunksOf(ws + [v], m);
    hide Run, Emitted, ChunksOf, EndsComplete, Complete;
    ChunksOfParts(ws, v, m);
    SplitAt(us, |us| - k);
    DropOfJoin(us, [v], |us| - k);
    QuietPrefix(parse, us[..|us| - k], ws, m);
  }

  lemma {:induction false} ReadsAccepted(parse: Parser, vs: seq<Json>, frames: seq<Json>)
    requires Reads(parse, vs, frames)
    ensures Run(parse, vs) == Some(None) && Emitted(parse, vs) == frames
    decreases |vs|
  {
    if vs != [] {
      var us, v := vs[..|vs| - 1], vs[|vs| - 1];
      var fs, f := frames[..|frames| - 1], frames[|frames| - 1];
      SplitLast(vs);
      SplitLast(frames);
      if IsPlain(v) && f == v && Reads(parse, us, fs) {
        ReadsAccepted(parse, us, fs);
        hide Reads, EndsComplete;
        RunExtends(parse, us, v);
        EmittedSnoc(parse, us, v);
      } else {
        var m: Meta :| EndsComplete(parse, vs, m, f) && Reads(parse, vs[..|vs| - m.count], fs);
        ReadsAccepted(parse, vs[..|vs| - m.count], fs);
        hide Reads, Run, Emitted, Push;
        SequenceAccepted(parse, vs[..|vs| - m.count], Last(vs, m.count), m, f);
        SplitAt(vs, |vs| - m.count);
      }
    }
  }

  lemma SequenceAccepted(parse: Parser, us: seq<Json>, vs: seq<Json>, m: Meta, f: Json)
    requires Run(parse, us) == Some(None) && Complete(vs, m) && m.count >= 2
    requires ParseObject(parse, Payloads(vs)) == Some(f)
    ensures Run(parse, us + vs) == Some(None)
    ensures Emitted(parse, us + vs) == Emitted(parse, us) + [f]
  {
    var n := m.count - 1;
    var ws, v := vs[..n], vs[n];
    var all := Payloads(vs);
    assert Finalize(parse, all) == Ok(Some(f));
    SplitLast(vs);
    JoinAssoc(us, ws, [v]);
    PrefixAcceptedFrom(parse, us, vs, m, n);
    assert ChunksOf(vs, m);
    hide Run, Emitted, Push, Payloads, ChunksOf, Finalize, ParseObject, Started;
    SequenceEmits(parse, us, ws, v, m);
    ChunksOfParts(ws, v, m);
    RunExtends(parse, us + ws, v);
    EmittedSnoc(parse, us + ws, v);
    QuietPrefix(parse, us, ws, m);
  }

  /** A list of values is accepted with nothing left pending, and hands on these frames,
      exactly when it reads as plain objects and complete sequences with these frames. */
  lemma AcceptedExactly(parse: Parser, vs: seq<Json>, frames: seq<Json>)
    ensures (Run(parse, vs) == Some(None) && Emitted(parse, vs) == frames) <==> Reads(parse, vs, frames)
  {
    hide Reads, Run, Emitted;
    if Reads(parse, vs, frames) {
      ReadsAccepted(parse, vs, frames);
    }
    if Run(parse, vs) == Some(None) {
      AcceptedReads(parse, vs);
    }
  }

  /** A stream of plain objects is handed on as it is. */
  lemma {:induction false} PlainStream(parse: Parser, vs: seq<Json>)
    requires forall i :: 0 <= i < |vs| ==> IsPlain(vs[i])
    ensures Run(parse, vs) == Some(None) && Emitted(parse, vs) == vs
    decreases |vs|
  {
    if vs != [] {
      var us, v := vs[..|vs| - 1], vs[|vs| - 1];
      SplitLast(vs);
      PlainStream(parse, us);
      hide Run, Emitted;
      RunExtends(parse, us, v);
      EmittedSnoc(parse, us, v);
    }
  }

  // ----- the object ---------------------------------------------------------

  class ChunkReassembler {
    var pending: State

    constructor ()
      ensures pending == None
    {
      pending := None;
    }

    method PushValue(parse: Parser, value: Json) returns (r: Verdict)
      modifies this
      ensures (pending, r) == Push(parse, old(pending), value)
    {
      hide ParseChunk, Finalize;
      if !IsRpcChunk(value) {
        if pending.Some? || !value.Object? {
          pending := None;
          return Err(ProtocolViolation);
        }
        return Ok(Some(value));
      }
      r := PushChunk(parse, value);
      if r.Err? {
        pending := None;
      }
    }

    /** An error may leave `pending` in any state; the caller clears it. */
    method PushChunk(parse: Parser, value: Json) returns (r: Verdict)
      requires IsRpcChunk(value)
      modifies this
      ensures r == Push(parse, old(pending), value).1
      ensures r.Ok? ==> pending == Push(parse, old(pending), value).0
    {
      hide Finalize;
      var parsed := ParseChunk(value);
      if parsed.Err? {
        return Err(parsed.error);
      }
      hide ParseChunk;
      var meta, bytes := parsed.value.meta, parsed.value.payload;
      if pending.None? {
        if meta.index != 0 {
          return Err(ProtocolViolation);
        }
        pending := Some(Pending(meta.id, meta.count, meta.byteLength, 0, []));
      }
      var p := pending.value;
      if p.id != meta.id || p.count != meta.count || p.byteLength != meta.byteLength || p.nextIndex != meta.index {
        return Err(ProtocolViolation);
      }
      if |p.payload| + |bytes| > p.byteLength {
        return Err(ProtocolViolation);
      }
      p := p.(payload := p.payload + bytes, nextIndex := p.nextIndex + 1);
      pending := Some(p);
      if p.nextIndex < p.count {
        return Ok(None);
      }
      if |p.payload| != p.byteLength {
        return Err(ProtocolViolation);
      }
      pending := None;
      r := Finalize(parse, p.payload);
    }
  }
}
