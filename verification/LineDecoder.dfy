/** The newline splitter: bytes in, in any chunks; parsed objects out to a sink. */
module LineDecoding {
  import opened Seqs
  import opened Utf8
  import opened Wire
  import opened Wrappers

  const NEWLINE: byte := 10
  const CR: byte := 13

  predicate NoNewline(s: bytes) {
    forall k :: 0 <= k < |s| ==> s[k] != NEWLINE
  }

  /** `memchr_newline`; the length when there is none. */
  function IndexOfNewline(s: bytes): (i: nat)
    ensures i <= |s|
    ensures forall k :: 0 <= k < i ==> s[k] != NEWLINE
    ensures i < |s| ==> s[i] == NEWLINE
  {
    if s == [] || s[0] == NEWLINE then 0 else IndexOfNewline(s[1..]) + 1
  }

  // ----- the stream as a list of lines --------------------------------------

  /** The stream split at its newlines; the last item is what follows the last one. */
  function Lines(s: bytes): (r: seq<bytes>)
    ensures r != []
    ensures forall i :: 0 <= i < |r| ==> NoNewline(r[i])
    decreases |s|
  {
    var i := IndexOfNewline(s);
    if i == |s| then [s] else [s[..i]] + Lines(s[i + 1..])
  }

  function Join(lines: seq<bytes>): bytes
    requires lines != []
  {
    if |lines| == 1 then lines[0] else lines[0] + [NEWLINE] + Join(lines[1..])
  }

  /** Splitting loses nothing: the lines joined by newlines are the stream. */
  lemma {:induction false} JoinLines(s: bytes)
    ensures Join(Lines(s)) == s
    decreases |s|
  {
    hide IndexOfNewline;
    var i := IndexOfNewline(s);
    if i < |s| {
      JoinLines(s[i + 1..]);
      JoinCons(s[..i], Lines(s[i + 1..]));
      SplitAround(s, i);
    }
  }

  lemma JoinCons(line: bytes, rest: seq<bytes>)
    requires rest != []
    ensures Join([line] + rest) == line + [NEWLINE] + Join(rest)
  {
    assert ([line] + rest)[1..] == rest;
  }

  lemma LinesOfRest(s: bytes)
    requires NoNewline(s)
    ensures Lines(s) == [s]
  {
  }

  lemma LinesOfJoin(line: bytes, tail: bytes)
    requires NoNewline(line)
    ensures Lines(line + [NEWLINE] + tail) == [line] + Lines(tail)
  {
    var s := line + [NEWLINE] + tail;
    assert IndexOfNewline(s) == |line| by {
      assert s[|line|] == NEWLINE;
      assert forall k :: 0 <= k < |line| ==> s[k] == line[k];
    }
    assert s[..|line|] == line && s[|line| + 1..] == tail;
  }

  lemma FirstLineGrows(a: bytes, b: bytes)
    requires NoNewline(a)
    ensures |Lines(a + b)[0]| >= |a|
  {
    assert forall k :: 0 <= k < |a| ==> (a + b)[k] == a[k];
  }

  // ----- the reference ------------------------------------------------------

  /** `parse_physical_line`. */
  function ParseLine(parse: Parser, line: bytes): (r: Option<Json>)
    ensures r.Some? ==> r.value.Object?
  {
    var payload := if line != [] && line[|line| - 1] == CR then line[..|line| - 1] else line;
    ParseObject(parse, payload)
  }

  /** One carriage return before the newline is not part of the line. */
  lemma LineEndings(parse: Parser, line: bytes)
    ensures ParseLine(parse, line + [13]) == ParseObject(parse, line)
    ensures line == [] || line[|line| - 1] != 13 ==> ParseLine(parse, line) == ParseObject(parse, line)
  {
    hide ParseObject;
    PartsOfJoin(line, [13]);
  }

  type Sink<!S> = (S, Json) -> (S, Option<RpcError>)

  /** A complete line must fit the frame limit with its newline, parse, and be accepted by
      the sink. */
  function TakeLine<S>(parse: Parser, sink: Sink<S>, st: S, line: bytes): (S, Option<RpcError>) {
    if |line| + 1 > MAX_RPC_FRAME_BYTES then
      (st, Some(FrameTooLarge(|line| + 1, MAX_RPC_FRAME_BYTES)))
    else
      match ParseLine(parse, line)
      case None => (st, Some(ProtocolViolation))
      case Some(v) => sink(st, v)
  }

  /** What a stream does: the sink state it leads to, the unterminated bytes it leaves, and
      the error that stopped it. */
  datatype Outcome<S> = Outcome(state: S, rest: bytes, error: Option<RpcError>)

  function KeepRest<S>(st: S, rest: bytes): Outcome<S> {
    if |rest| + 1 > MAX_RPC_FRAME_BYTES
    then Outcome(st, [], Some(FrameTooLarge(|rest| + 1, MAX_RPC_FRAME_BYTES)))
    else Outcome(st, rest, None)
  }

  /** Both limits in numbers: a line with its newline, or a partial line with the newline it
      still needs, has at most 1048576 bytes; a longer one is refused with its size. */
  lemma SizesExactly<S>(parse: Parser, sink: Sink<S>, st: S, line: bytes)
    ensures |line| >= 1_048_576 ==>
              && TakeLine(parse, sink, st, line) == (st, Some(FrameTooLarge(|line| + 1, 1_048_576)))
              && KeepRest(st, line) == Outcome(st, [], Some(FrameTooLarge(|line| + 1, 1_048_576)))
    ensures |line| < 1_048_576 ==>
              && KeepRest(st, line) == Outcome(st, line, None)
              && TakeLine(parse, sink, st, line)
                 == (match ParseLine(parse, line)
                     case Some(v) => sink(st, v)
                     case None => (st, Some(ProtocolViolation)))
  {
    hide ParseLine;
  }

  /** The lines are taken one by one; the unterminated last one must leave room for a
      newline. */
  function Process<S>(parse: Parser, sink: Sink<S>, st: S, lines: seq<bytes>): Outcome<S>
    requires lines != []
    decreases |lines|
  {
    if |lines| == 1 then KeepRest(st, lines[0])
    else
      var (st', e) := TakeLine(parse, sink, st, lines[0]);
      if e.Some? then Outcome(st', [], e) else Process(parse, sink, st', lines[1..])
  }

  function Whole<S>(parse: Parser, sink: Sink<S>, st: S, stream: bytes): Outcome<S> {
    Process(parse, sink, st, Lines(stream))
  }

  /** Same sink calls (hence the same state), same verdict, same class of error. */
  ghost predicate Agree<S>(a: Outcome<S>, b: Outcome<S>) {
    && a.state == b.state && a.rest == b.rest
    && a.error.Some? == b.error.Some?
    && (a.error.Some? ==> Class(a.error.value) == Class(b.error.value))
  }

  lemma WholeStep<S>(parse: Parser, sink: Sink<S>, st: S, line: bytes, tail: bytes)
    requires NoNewline(line)
    ensures var (st', e) := TakeLine(parse, sink, st, line);
            Whole(parse, sink, st, line + [NEWLINE] + tail)
            == if e.Some? then Outcome(st', [], e) else Whole(parse, sink, st', tail)
  {
    LinesOfJoin(line, tail);
    hide Lines, TakeLine;
  }

  /** More input after an accepted part continues from the state and the rest it left;
      after a rejected part it changes neither the sink calls nor the class of the error. */
  lemma {:induction false} WholeContinues<S>(parse: Parser, sink: Sink<S>, st: S, a: bytes, b: bytes)
    ensures var r := Whole(parse, sink, st, a);
            Agree(Whole(parse, sink, st, a + b),
                  if r.error.None? then Whole(parse, sink, r.state, r.rest + b) else r)
    decreases |a|
  {
    var i := IndexOfNewline(a);
    if i == |a| {
      LinesOfRest(a);
      FirstLineGrows(a, b);
      hide Lines;
    } else {
      var line, tail := a[..i], a[i + 1..];
      assert a == line + [NEWLINE] + tail && a + b == line + [NEWLINE] + (tail + b);
      WholeStep(parse, sink, st, line, tail);
      WholeStep(parse, sink, st, line, tail + b);
      hide Whole, TakeLine;
      var (st', e) := TakeLine(parse, sink, st, line);
      if e.None? {
        WholeContinues(parse, sink, st', tail, b);
      }
    }
  }

  // ----- chunked input ------------------------------------------------------

  /** Feeding chunk after chunk, dropping the decoder at its first error. */
  function FeedAll<S>(parse: Parser, sink: Sink<S>, st: S, buffer: bytes, chunks: seq<bytes>): Outcome<S>
    decreases |chunks|
  {
    if chunks == [] then Outcome(st, buffer, None)
    else
      var r := Whole(parse, sink, st, buffer + chunks[0]);
      if r.error.Some? then r else FeedAll(parse, sink, r.state, r.rest, chunks[1..])
  }

  /** A buffer at rest: an unterminated line that can still be completed. */
  predicate AtRest(buffer: bytes) {
    NoNewline(buffer) && |buffer| < MAX_RPC_FRAME_BYTES
  }

  lemma {:induction false} RestAtRest<S>(parse: Parser, sink: Sink<S>, st: S, lines: seq<bytes>)
    requires lines != [] && forall i :: 0 <= i < |lines| ==> NoNewline(lines[i])
    ensures AtRest(Process(parse, sink, st, lines).rest)
    decreases |lines|
  {
    if |lines| > 1 {
      RestAtRest(parse, sink, TakeLine(parse, sink, st, lines[0]).0, lines[1..]);
    }
  }

  lemma {:induction false} FeedAllIsWhole<S>(parse: Parser, sink: Sink<S>, st: S, buffer: bytes, chunks: seq<bytes>)
    requires AtRest(buffer)
    ensures Agree(FeedAll(parse, sink, st, buffer, chunks), Whole(parse, sink, st, buffer + Concat(chunks)))
    decreases |chunks|
  {
    if chunks == [] {
      assert buffer + Concat(chunks) == buffer;
      LinesOfRest(buffer);
    } else {
      var a := buffer + chunks[0];
      var r := Whole(parse, sink, st, a);
      assert buffer + Concat(chunks) == a + Concat(chunks[1..]);
      WholeContinues(parse, sink, st, a, Concat(chunks[1..]));
      RestAtRest(parse, sink, st, Lines(a));
      hide Lines, Process, TakeLine;
      if r.error.None? {
        FeedAllIsWhole(parse, sink, r.state, r.rest, chunks[1..]);
      }
    }
  }

  /** Any chunking of a byte stream makes the sink calls and reaches the verdict of one
      split of the whole stream, early rejection of an over-long partial line included. */
  lemma ChunkedFeedIsWhole<S>(parse: Parser, sink: Sink<S>, st: S, chunks: seq<bytes>)
    ensures Agree(FeedAll(parse, sink, st, [], chunks), Whole(parse, sink, st, Concat(chunks)))
  {
    FeedAllIsWhole(parse, sink, st, [], chunks);
    assert [] + Concat(chunks) == Concat(chunks);
  }

  /** After an accepted stream, end-of-file is clean exactly when the stream is empty or
      ends in a newline. */
  lemma {:induction false} CleanEnd<S>(parse: Parser, sink: Sink<S>, st: S, stream: bytes)
    requires Whole(parse, sink, st, stream).error.None?
    ensures Whole(parse, sink, st, stream).rest == []
            <==> (stream == [] || stream[|stream| - 1] == NEWLINE)
    decreases |stream|
  {
    var i := IndexOfNewline(stream);
    if i < |stream| {
      FirstLine(parse, sink, st, stream);
      hide Whole, TakeLine, IndexOfNewline;
      CleanEnd(parse, sink, TakeLine(parse, sink, st, stream[..i]).0, stream[i + 1..]);
    } else {
      LinesOfRest(stream);
    }
  }

  lemma FirstLine<S>(parse: Parser, sink: Sink<S>, st: S, stream: bytes)
    requires IndexOfNewline(stream) < |stream|
    ensures var i := IndexOfNewline(stream);
            var (st', e) := TakeLine(parse, sink, st, stream[..i]);
            Whole(parse, sink, st, stream)
            == if e.Some? then Outcome(st', [], e) else Whole(parse, sink, st', stream[i + 1..])
  {
    var i := IndexOfNewline(stream);
    assert NoNewline(stream[..i]);
    SplitAround(stream, i);
    hide Whole, TakeLine, NoNewline, IndexOfNewline;
    WholeStep(parse, sink, st, stream[..i], stream[i + 1..]);
  }

  // ----- the decoder --------------------------------------------------------

  class LineDecoder {
    var buffer: bytes
    var poisoned: bool

    ghost predicate Sound()
      reads this
    {
      AtRest(buffer) && (poisoned ==> buffer == [])
    }

    constructor ()
      ensures Sound() && buffer == [] && !poisoned
    {
      buffer, poisoned := [], false;
    }

    /** Feeding from a sound state does what the reference does to the buffered bytes and
        the input together. */
    method Feed<S>(parse: Parser, sink: Sink<S>, input: bytes, st0: S) returns (st: S, error: Option<RpcError>)
      requires Sound()
      modifies this
      ensures Sound()
      ensures old(poisoned) ==>
                st == st0 && error == Some(ProtocolViolation) && poisoned
      ensures !old(poisoned) ==>
                && Outcome(st, buffer, error) == Whole(parse, sink, st0, old(buffer) + input)
                && poisoned == error.Some?
    {
      st := st0;
      if poisoned {
        return st, Some(ProtocolViolation);
      }
      var data := input;
      ghost var goal := Whole(parse, sink, st0, buffer + input);
      hide Whole, TakeLine, IndexOfNewline, NoNewline;
      var nl := IndexOfNewline(data);
      while nl < |data|
        invariant AtRest(buffer) && !poisoned && nl == IndexOfNewline(data)
        invariant Whole(parse, sink, st, buffer + data) == goal
        decreases |data|
      {
        var line, rest := buffer + data[..nl], data[nl + 1..];
        LineTaken(parse, sink, st, buffer, data);
        st, error := Complete(parse, sink, line, st);
        if error.Some? {
          return;
        }
        data := rest;
        nl := IndexOfNewline(data);
      }
      NoneFound(data);
      WholeOfRest(parse, sink, st, buffer, data);
      if data != [] {
        var projected := |buffer| + |data|;
        if projected >= MAX_RPC_FRAME_BYTES {
          Poison();
          return st, Some(FrameTooLarge(projected + 1, MAX_RPC_FRAME_BYTES));
        }
        buffer := buffer + data;
      }
      return st, None;
    }

    /** One completed line; any failure poisons the decoder. */
    method Complete<S>(parse: Parser, sink: Sink<S>, line: bytes, st0: S) returns (st: S, error: Option<RpcError>)
      modifies this
      ensures (st, error) == TakeLine(parse, sink, st0, line)
      ensures buffer == [] && (poisoned <==> old(poisoned) || error.Some?)
    {
      if |line| + 1 > MAX_RPC_FRAME_BYTES {
        Poison();
        return st0, Some(FrameTooLarge(|line| + 1, MAX_RPC_FRAME_BYTES));
      }
      var value := ParseLine(parse, line);
      if value.None? {
        Poison();
        return st0, Some(ProtocolViolation);
      }
      buffer := [];
      var (st', e) := sink(st0, value.value);
      if e.Some? {
        Poison();
      }
      return st', e;
    }

    method Eof() returns (error: Option<RpcError>)
      requires Sound()
      modifies this
      ensures Sound() && buffer == [] && poisoned == error.Some?
      ensures error == if old(poisoned) || old(buffer) != [] then Some(ProtocolViolation) else None
    {
      if poisoned {
        return Some(ProtocolViolation);
      }
      if buffer != [] {
        Poison();
        return Some(ProtocolViolation);
      }
      return None;
    }

    method Poison()
      modifies this
      ensures poisoned && buffer == []
    {
      poisoned, buffer := true, [];
    }
  }

  /** What is buffered, up to the first newline of the input, is the next line. */
  lemma LineTaken<S>(parse: Parser, sink: Sink<S>, st: S, buffer: bytes, data: bytes)
    requires AtRest(buffer) && IndexOfNewline(data) < |data|
    ensures AtRest([])
    ensures var nl := IndexOfNewline(data);
            var (st', e) := TakeLine(parse, sink, st, buffer + data[..nl]);
            Whole(parse, sink, st, buffer + data)
            == if e.Some? then Outcome(st', [], e) else Whole(parse, sink, st', [] + data[nl + 1..])
  {
    var nl := IndexOfNewline(data);
    var first, rest := data[..nl], data[nl + 1..];
    assert NoNewline(buffer + first);
    SplitAround(data, nl);
    hide Whole, TakeLine, IndexOfNewline, NoNewline;
    JoinAssoc(buffer + first, [NEWLINE], rest);
    JoinAssoc(buffer, first, [NEWLINE] + rest);
    JoinAssoc(first, [NEWLINE], rest);
    WholeStep(parse, sink, st, buffer + first, rest);
    JoinEmpty(rest);
  }

  lemma NoneFound(data: bytes)
    requires IndexOfNewline(data) == |data|
    ensures NoNewline(data) && NoNewline([])
  {
  }

  lemma RestFits<S>(parse: Parser, sink: Sink<S>, st: S, buffer: bytes, data: bytes)
    requires AtRest(buffer) && NoNewline(data)
    ensures AtRest([]) && (data == [] ==> |buffer| < MAX_RPC_FRAME_BYTES && buffer + data == buffer)
    ensures var n := |buffer| + |data|;
            if n >= MAX_RPC_FRAME_BYTES then
              Whole(parse, sink, st, buffer + data)
              == Outcome(st, [], Some(FrameTooLarge(n + 1, MAX_RPC_FRAME_BYTES)))
            else AtRest(buffer + data) && Whole(parse, sink, st, buffer + data) == Outcome(st, buffer + data, None)
  {
    WholeOfRest(parse, sink, st, buffer, data);
    assert NoNewline([]);
    hide Whole, NoNewline;
  }

  /** Input without a newline is buffered, unless no newline could follow within the limit. */
  lemma WholeOfRest<S>(parse: Parser, sink: Sink<S>, st: S, buffer: bytes, input: bytes)
    requires NoNewline(buffer) && NoNewline(input)
    ensures NoNewline(buffer + input)
    ensures Whole(parse, sink, st, buffer + input) == KeepRest(st, buffer + input)
    ensures input == [] ==> buffer + input == buffer
  {
    LinesOfRest(buffer + input);
    hide Lines, KeepRest, TakeLine;
  }
}
