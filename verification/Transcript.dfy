/** `BoundedText`: a streamed text that keeps a head and a tail of what was appended
    and renders them joined by an elision marker. */
module Transcript {
  import opened Seqs
  import opened Utf8
  import opened Wrappers

  const U64_MAX: nat := 0xFFFF_FFFF_FFFF_FFFF

  /** Longest elision marker that the storage budget allows for. */
  const MARKER_RESERVE: nat := 64

  const BOUNDED_TEXT_CAP: nat := 512 * 1024
  const HEAD_CAP: nat := (BOUNDED_TEXT_CAP - MARKER_RESERVE) / 2
  const TAIL_CAP: nat := BOUNDED_TEXT_CAP - MARKER_RESERVE - HEAD_CAP

  /** The two size limits. All results hold for every pair that leaves room for one
      character in the tail; `PLAN_CAPS` is the pair the program uses. */
  datatype Caps = Caps(head: nat, tail: nat) {
    predicate Valid() {
      tail >= 4 && head + MARKER_RESERVE + tail <= U64_MAX
    }

    function Cap(): nat {
      head + MARKER_RESERVE + tail
    }
  }

  const PLAN_CAPS := Caps(HEAD_CAP, TAIL_CAP)

  lemma PlanCaps()
    ensures PLAN_CAPS.Valid() && PLAN_CAPS.Cap() == BOUNDED_TEXT_CAP == 524_288
    ensures PLAN_CAPS == Caps(262_112, 262_112) && MARKER_RESERVE == 64
    ensures Caps(0, 4).Valid()
  {
  }

  // ----- the stored value ---------------------------------------------------

  /** The three fields. `tailBuf` may hold bytes ahead of the part that is shown. */
  datatype Text = Text(head: bytes, tailBuf: bytes, total: nat)

  const EMPTY := Text([], [], 0)

  /** The last `cap` bytes of `buf`, less a character they would split. */
  function LastChars(cap: nat, buf: bytes): (r: bytes)
    requires |buf| >= cap
    ensures |r| <= cap
  {
    buf[Ceil(buf, |buf| - cap)..]
  }

  /** The part of `buf` that is shown: its last `cap` bytes, cut at a char boundary. */
  function Shown(cap: nat, buf: bytes): (r: bytes)
    ensures |r| <= cap && |r| <= |buf|
  {
    if |buf| <= cap then buf else LastChars(cap, buf)
  }

  function Tail(c: Caps, t: Text): bytes {
    Shown(c.tail, t.tailBuf)
  }

  /** What every constructor and every append keeps, and what deserialization checks. */
  ghost predicate WellFormed(c: Caps, t: Text) {
    && c.Valid()
    && Valid(t.head) && Valid(t.tailBuf)
    && |t.head| <= c.head && |t.tailBuf| <= 2 * c.tail
    && |t.head| + |Tail(c, t)| <= t.total <= U64_MAX
  }

  function SaturatingAdd(a: nat, b: nat): nat {
    if a + b <= U64_MAX then a + b else U64_MAX
  }

  /** `append_tail`. */
  function AppendTail(c: Caps, buf: bytes, rest: bytes): bytes {
    if |rest| >= c.tail then LastChars(c.tail, rest)
    else
      var joined := buf + rest;
      if |joined| > 2 * c.tail then LastChars(c.tail, joined) else joined
  }

  /** How much of `chunk` goes to the head. */
  function HeadTake(c: Caps, t: Text, chunk: bytes): (n: nat)
    ensures n <= |chunk|
  {
    if t.tailBuf == [] && |t.head| < c.head then Floor(chunk, c.head - |t.head|) else 0
  }

  /** `push_str`. */
  function Push(c: Caps, t: Text, chunk: bytes): Text {
    if chunk == [] then t
    else
      var k := HeadTake(c, t, chunk);
      Text(t.head + chunk[..k],
           if k == |chunk| then t.tailBuf else AppendTail(c, t.tailBuf, chunk[k..]),
           SaturatingAdd(t.total, |chunk|))
  }

  /** Equality as the program defines it: only what can be observed counts. */
  predicate Same(c: Caps, a: Text, b: Text) {
    a.total == b.total && a.head == b.head && Tail(c, a) == Tail(c, b)
  }

  // ----- the shown suffix ---------------------------------------------------

  lemma ShownValid(cap: nat, buf: bytes)
    requires Valid(buf)
    ensures Valid(Shown(cap, buf))
    ensures cap >= 4 ==> (Shown(cap, buf) == [] <==> buf == [])
  {
    if |buf| > cap {
      ValidCut(buf, Ceil(buf, |buf| - cap));
      CeilNear(buf, |buf| - cap);
    }
  }

  /** Dropping bytes at a boundary that the final cut would drop anyway changes nothing. */
  lemma ShownOfSuffix(cap: nat, buf: bytes, p: nat)
    requires p <= |buf| && IsBoundary(buf, p)
    requires if |buf| > cap then p <= Ceil(buf, |buf| - cap) else p == 0
    ensures Shown(cap, buf[p..]) == Shown(cap, buf)
  {
    if |buf| <= cap {
      assert buf[0..] == buf;
    } else {
      var w := |buf| - cap;
      if p < w {
        var rest := buf[p..];
        CeilDrop(buf, p, w);
        assert LastChars(cap, rest) == rest[Ceil(rest, w - p)..] == buf[Ceil(buf, w)..];
      } else {
        assert p == Ceil(buf, w);
      }
    }
  }

  /** The law behind streaming: cutting before an append does not change what the cut
      after the append shows. */
  lemma ShownAbsorbs(cap: nat, buf: bytes, rest: bytes)
    requires Valid(buf) && Valid(rest) && cap >= 4
    ensures Shown(cap, Shown(cap, buf) + rest) == Shown(cap, buf + rest)
  {
    hide Valid, Ceil, IsBoundary;
    if |buf| > cap {
      var w := |buf| - cap;
      var p := Ceil(buf, w);
      CeilNear(buf, w);
      var all := buf + rest;
      BoundaryJoin(buf, rest, p);
      DropOfJoin(buf, rest, p);
      CeilJoin(buf, rest, w);
      CeilMonotone(all, w, w + |rest|);
      ShownOfSuffix(cap, all, p);
    }
  }

  /** Rounding up inside the first part does not see the second. */
  lemma CeilJoin(a: bytes, b: bytes, i: nat)
    requires Valid(a) && Valid(b) && i <= |a|
    ensures Ceil(a + b, i) == Ceil(a, i)
  {
    hide Valid, Ceil;
    forall j: nat | j <= |a|
      ensures IsBoundary(a + b, j) <==> IsBoundary(a, j)
    {
      BoundaryJoin(a, b, j);
    }
    var r, q := Ceil(a, i), Ceil(a + b, i);
    assert IsBoundary(a + b, r);
    assert q <= r;
    assert IsBoundary(a, q);
  }

  /** A long enough append shows only itself. */
  lemma ShownForgets(cap: nat, buf: bytes, rest: bytes)
    requires Valid(buf) && Valid(rest) && cap >= 4 && |rest| >= cap
    ensures Shown(cap, buf + rest) == LastChars(cap, rest)
  {
    var p := |buf|;
    ValidJoin(buf, rest);
    BoundaryJoin(buf, rest, p);
    assert (buf + rest)[p..] == rest;
    if buf == [] {
      assert buf + rest == rest;
    } else {
      ShownOfSuffix(cap, buf + rest, p);
    }
    assert |rest| == cap ==> rest[0..] == rest;
  }

  /** Compaction keeps what is shown. */
  lemma CompactionShows(cap: nat, buf: bytes)
    requires Valid(buf) && cap >= 4 && |buf| >= cap
    ensures var r := LastChars(cap, buf);
            && Valid(r) && r != [] && |r| <= cap
            && Shown(cap, r) == Shown(cap, buf)
  {
    var p := Ceil(buf, |buf| - cap);
    ValidCut(buf, p);
    CeilNear(buf, |buf| - cap);
    assert |buf| == cap ==> buf[p..] == buf;
  }

  /** Appending to the tail buffer, with or without compaction, shows exactly the tail of
      everything that was appended. */
  lemma AppendTailShows(c: Caps, buf: bytes, rest: bytes)
    requires c.Valid() && Valid(buf) && Valid(rest) && rest != []
    requires |buf| <= 2 * c.tail
    ensures var r := AppendTail(c, buf, rest);
            && Valid(r) && r != [] && |r| <= 2 * c.tail
            && Shown(c.tail, r) == Shown(c.tail, buf + rest)
  {
    if |rest| >= c.tail {
      AppendLong(c, buf, rest);
    } else {
      AppendShort(c, buf, rest);
    }
  }

  lemma AppendLong(c: Caps, buf: bytes, rest: bytes)
    requires c.Valid() && Valid(buf) && Valid(rest) && |rest| >= c.tail
    ensures var r := AppendTail(c, buf, rest);
            && Valid(r) && r != [] && |r| <= c.tail
            && Shown(c.tail, r) == Shown(c.tail, buf + rest)
  {
    var cap := c.tail;
    CompactionShows(cap, rest);
    ShownForgets(cap, buf, rest);
  }

  lemma AppendShort(c: Caps, buf: bytes, rest: bytes)
    requires c.Valid() && Valid(buf) && Valid(rest) && 0 < |rest| < c.tail
    ensures var r := AppendTail(c, buf, rest);
            && Valid(r) && r != [] && |r| <= 2 * c.tail
            && Shown(c.tail, r) == Shown(c.tail, buf + rest)
  {
    ValidJoin(buf, rest);
    var joined := buf + rest;
    if |joined| > 2 * c.tail {
      CompactionShows(c.tail, joined);
    }
  }

  // ----- one append ---------------------------------------------------------

  /** Rounding down sees only the part it falls into. */
  lemma FloorJoin(a: bytes, b: bytes, i: nat)
    requires Valid(a) && Valid(b)
    ensures i <= |a| ==> Floor(a + b, i) == Floor(a, i)
    ensures i >= |a| ==> Floor(a + b, i) == |a| + Floor(b, i - |a|)
  {
    hide Valid, Floor;
    forall j: nat | j <= |a| + |b|
      ensures j <= |a| ==> (IsBoundary(a + b, j) <==> IsBoundary(a, j))
      ensures j >= |a| ==> (IsBoundary(a + b, j) <==> IsBoundary(b, j - |a|))
    {
      BoundaryJoin(a, b, j);
    }
    var r := Floor(a + b, i);
    if i <= |a| {
      var q := Floor(a, i);
      assert IsBoundary(a + b, q) && IsBoundary(a, r);
    }
    if i >= |a| {
      var q := Floor(b, i - |a|);
      assert IsBoundary(a + b, |a| + q);
      assert r >= |a| + q;
      assert IsBoundary(b, r - |a|);
    }
  }

  /** What a reader of the value can see. */
  datatype View = View(head: bytes, tail: bytes, total: nat)

  function Observe(c: Caps, t: Text): View {
    View(t.head, Tail(c, t), t.total)
  }

  /** What should be seen of the stream `s`, without reference to chunks: the head is the
      stream cut at the last boundary within the head limit, the tail is what is shown of
      the rest. */
  function Project(c: Caps, s: bytes): View {
    var k := Floor(s, c.head);
    View(s[..k], Shown(c.tail, s[k..]), SaturatingAdd(0, |s|))
  }

  /** `t` is a value that has read `s`. The tail buffer may differ between two such values;
      whether it is empty may not. */
  ghost predicate HasRead(c: Caps, t: Text, s: bytes) {
    && WellFormed(c, t)
    && Observe(c, t) == Project(c, s)
    && (t.tailBuf == [] <==> |t.head| == |s|)
  }

  /** Appending keeps the representation sound, from any sound value. */
  lemma PushKeepsWellFormed(c: Caps, t: Text, chunk: bytes)
    requires WellFormed(c, t) && Valid(chunk)
    ensures WellFormed(c, Push(c, t, chunk))
  {
    hide Valid, Floor, Ceil, LastChars, AppendTail;
    if chunk != [] {
      var k := HeadTake(c, t, chunk);
      var rest := chunk[k..];
      assert Valid(rest) && Valid(chunk[..k]) by { ValidCut(chunk, k); }
      ValidJoin(t.head, chunk[..k]);
      if rest != [] {
        AppendTailShows(c, t.tailBuf, rest);
        ShownAbsorbs(c.tail, t.tailBuf, rest);
        assert |Shown(c.tail, t.tailBuf + rest)| <= |Tail(c, t)| + |rest|;
      }
    }
  }

  /** Two buffers that show the same still show the same after an append. */
  lemma TailCarries(c: Caps, buf: bytes, r: bytes, rest: bytes)
    requires c.Valid() && Valid(buf) && Valid(r) && Valid(rest) && rest != []
    requires |buf| <= 2 * c.tail
    requires Shown(c.tail, buf) == Shown(c.tail, r)
    ensures Shown(c.tail, AppendTail(c, buf, rest)) == Shown(c.tail, r + rest)
  {
    AppendTailShows(c, buf, rest);
    ShownAbsorbs(c.tail, buf, rest);
    ShownAbsorbs(c.tail, r, rest);
  }

  /** Once the head is cut, more of the stream only adds to the rest. */
  lemma ProjectBeyondHead(c: Caps, s: bytes, chunk: bytes)
    requires Valid(s) && Valid(chunk) && Floor(s, c.head) < |s|
    ensures var k := Floor(s, c.head);
            && Project(c, s + chunk).head == s[..k]
            && Project(c, s + chunk).tail == Shown(c.tail, s[k..] + chunk)
  {
    var k := Floor(s, c.head);
    FloorJoin(s, chunk, c.head);
    assert (s + chunk)[k..] == s[k..] + chunk;
    assert (s + chunk)[..k] == s[..k];
  }

  /** While the head holds the whole stream, the next chunk is cut where the stream is. */
  lemma ProjectWithinHead(c: Caps, s: bytes, chunk: bytes, k: nat)
    requires k <= |chunk| && Floor(s + chunk, c.head) == |s| + k
    ensures Project(c, s + chunk).head == s + chunk[..k]
    ensures Project(c, s + chunk).tail == Shown(c.tail, chunk[k..])
  {
    SliceOfJoin(s, chunk, k);
  }

  lemma FrozenHeadPush(c: Caps, t: Text, s: bytes, chunk: bytes)
    requires HasRead(c, t, s) && Valid(s) && Valid(chunk) && chunk != []
    requires t.tailBuf != []
    ensures Observe(c, Push(c, t, chunk)) == Project(c, s + chunk)
  {
    hide Valid, Floor, AppendTail;
    var k := Floor(s, c.head);
    ProjectBeyondHead(c, s, chunk);
    assert Valid(s[k..]) by { ValidCut(s, k); }
    TailCarries(c, t.tailBuf, s[k..], chunk);
    assert chunk[0..] == chunk && t.head + chunk[..0] == t.head;
  }

  lemma FillingHeadPush(c: Caps, t: Text, s: bytes, chunk: bytes)
    requires HasRead(c, t, s) && Valid(s) && Valid(chunk) && chunk != []
    requires t.tailBuf == []
    ensures Observe(c, Push(c, t, chunk)) == Project(c, s + chunk)
  {
    hide Valid, Floor, Ceil;
    assert t.head == s;
    var k := HeadTake(c, t, chunk);
    FloorJoin(s, chunk, c.head);
    ProjectWithinHead(c, s, chunk, k);
    var rest := chunk[k..];
    if rest != [] {
      assert Valid(rest) by { ValidCut(chunk, k); }
      TailCarries(c, [], [], rest);
      assert [] + rest == rest;
    }
  }

  /** The tail buffer stays empty exactly as long as the head holds everything. */
  lemma PushEmptiness(c: Caps, t: Text, n: nat, chunk: bytes)
    requires WellFormed(c, t) && Valid(chunk)
    requires |t.head| <= n && (t.tailBuf == [] <==> |t.head| == n)
    ensures var r := Push(c, t, chunk); r.tailBuf == [] <==> |r.head| == n + |chunk|
  {
    hide Valid, Floor, AppendTail;
    var k := HeadTake(c, t, chunk);
    if k < |chunk| {
      assert Valid(chunk[k..]) by { ValidCut(chunk, k); }
      AppendTailShows(c, t.tailBuf, chunk[k..]);
    }
  }

  /** One append reads one more chunk. */
  lemma PushReads(c: Caps, t: Text, s: bytes, chunk: bytes)
    requires HasRead(c, t, s) && Valid(s) && Valid(chunk)
    ensures HasRead(c, Push(c, t, chunk), s + chunk)
  {
    assert |t.head| <= |s|;
    hide Valid, WellFormed, Project, Tail;
    if chunk == [] {
      assert s + chunk == s;
    } else {
      PushKeepsWellFormed(c, t, chunk);
      PushEmptiness(c, t, |s|, chunk);
      if t.tailBuf == [] {
        FillingHeadPush(c, t, s, chunk);
      } else {
        FrozenHeadPush(c, t, s, chunk);
      }
    }
  }

  // ----- runs of appends ----------------------------------------------------

  function PushAll(c: Caps, t: Text, chunks: seq<bytes>): Text
    decreases |chunks|
  {
    if chunks == [] then t else PushAll(c, Push(c, t, chunks[0]), chunks[1..])
  }

  ghost predicate AllValid(chunks: seq<bytes>) {
    forall i :: 0 <= i < |chunks| ==> Valid(chunks[i])
  }

  lemma {:induction false} ConcatValid(chunks: seq<bytes>)
    requires AllValid(chunks)
    ensures Valid(Concat(chunks))
  {
    if chunks != [] {
      ConcatValid(chunks[1..]);
      ValidJoin(chunks[0], Concat(chunks[1..]));
    }
  }

  lemma EmptyHasRead(c: Caps)
    requires c.Valid()
    ensures HasRead(c, EMPTY, [])
  {
  }

  lemma {:induction false} PushAllReads(c: Caps, t: Text, s: bytes, chunks: seq<bytes>)
    requires HasRead(c, t, s) && Valid(s) && AllValid(chunks)
    ensures HasRead(c, PushAll(c, t, chunks), s + Concat(chunks))
    decreases |chunks|
  {
    hide Valid, Push, HasRead;
    if chunks == [] {
      assert s + Concat(chunks) == s;
    } else {
      var t', s' := Push(c, t, chunks[0]), s + chunks[0];
      assert HasRead(c, t', s') by { PushReads(c, t, s, chunks[0]); }
      assert Valid(s') by { ValidJoin(s, chunks[0]); }
      PushAllReads(c, t', s', chunks[1..]);
      assert s + Concat(chunks) == s' + Concat(chunks[1..]);
    }
  }

  /** After any run of appends the value shows the projection of the whole stream. */
  lemma RunShowsStream(c: Caps, chunks: seq<bytes>)
    requires c.Valid() && AllValid(chunks)
    ensures WellFormed(c, PushAll(c, EMPTY, chunks))
    ensures Observe(c, PushAll(c, EMPTY, chunks)) == Project(c, Concat(chunks))
  {
    EmptyHasRead(c);
    PushAllReads(c, EMPTY, [], chunks);
    assert [] + Concat(chunks) == Concat(chunks);
  }

  /** How a stream was chunked, and when compaction ran, cannot be observed: any two
      chunkings compare equal, and equal to the value built from the whole text at once. */
  lemma ChunkingIrrelevant(c: Caps, xs: seq<bytes>, ys: seq<bytes>)
    requires c.Valid() && AllValid(xs) && AllValid(ys)
    requires Concat(xs) == Concat(ys)
    ensures Same(c, PushAll(c, EMPTY, xs), PushAll(c, EMPTY, ys))
    ensures Same(c, PushAll(c, EMPTY, xs), Push(c, EMPTY, Concat(xs)))
  {
    RunShowsStream(c, xs);
    RunShowsStream(c, ys);
    EmptyHasRead(c);
    ConcatValid(xs);
    PushReads(c, EMPTY, [], Concat(xs));
    assert [] + Concat(xs) == Concat(xs);
  }

  // ----- observable equality and serialization ------------------------------

  /** Values compare equal exactly when a reader sees the same of both. */
  lemma SameExactly(c: Caps, a: Text, b: Text)
    ensures Same(c, a, b) <==> Observe(c, a) == Observe(c, b)
  {
    hide Tail;
  }

  /** Values that compare equal stay equal under every further append. */
  lemma SamePush(c: Caps, a: Text, b: Text, chunk: bytes)
    requires WellFormed(c, a) && WellFormed(c, b) && Same(c, a, b) && Valid(chunk)
    ensures Same(c, Push(c, a, chunk), Push(c, b, chunk))
  {
    ShownValid(c.tail, a.tailBuf);
    ShownValid(c.tail, b.tailBuf);
    var k := HeadTake(c, a, chunk);
    assert HeadTake(c, b, chunk) == k;
    if k < |chunk| {
      assert Valid(chunk[k..]) by { ValidCut(chunk, k); }
      TailCarries(c, a.tailBuf, b.tailBuf, chunk[k..]);
      TailCarries(c, b.tailBuf, b.tailBuf, chunk[k..]);
    }
  }

  lemma {:induction false} SamePushAll(c: Caps, a: Text, b: Text, chunks: seq<bytes>)
    requires WellFormed(c, a) && WellFormed(c, b) && Same(c, a, b) && AllValid(chunks)
    ensures Same(c, PushAll(c, a, chunks), PushAll(c, b, chunks))
    decreases |chunks|
  {
    if chunks != [] {
      SamePush(c, a, b, chunks[0]);
      PushKeepsWellFormed(c, a, chunks[0]);
      PushKeepsWellFormed(c, b, chunks[0]);
      SamePushAll(c, Push(c, a, chunks[0]), Push(c, b, chunks[0]), chunks[1..]);
    }
  }

  /** The serialized shape holds the head, the shown tail and the total. */
  function Serialize(c: Caps, t: Text): View {
    Observe(c, t)
  }

  function Deserialize(c: Caps, r: View): Option<Text> {
    if |r.head| > c.head || |r.tail| > c.tail || r.total < SaturatingAdd(|r.head|, |r.tail|)
    then None
    else Some(Text(r.head, r.tail, r.total))
  }

  /** A value that was saved and loaded compares equal to the original under all later
      appends, although the hidden tail bytes are gone. */
  lemma ReloadedStaysSame(c: Caps, t: Text, chunks: seq<bytes>)
    requires WellFormed(c, t) && AllValid(chunks)
    ensures var r := Deserialize(c, Serialize(c, t));
            && r.Some?
            && WellFormed(c, r.value)
            && Serialize(c, r.value) == Serialize(c, t)
            && Same(c, PushAll(c, t, chunks), PushAll(c, r.value, chunks))
  {
    var r := Deserialize(c, Serialize(c, t));
    ShownValid(c.tail, t.tailBuf);
    assert WellFormed(c, r.value);
    SamePushAll(c, t, r.value, chunks);
  }

  /** Loading accepts exactly the shapes that some sound value saves to. */
  lemma LoadsWhatIsSaved(c: Caps, r: View)
    requires c.Valid() && Valid(r.head) && Valid(r.tail) && r.total <= U64_MAX
    ensures Deserialize(c, r).Some? <==> exists t :: WellFormed(c, t) && Serialize(c, t) == r
  {
    if Deserialize(c, r).Some? {
      var t := Deserialize(c, r).value;
      assert WellFormed(c, t) && Serialize(c, t) == r;
    }
  }

  // ----- cost ---------------------------------------------------------------

  /** Bytes `append_tail` copies in, plus the bytes its compaction moves. */
  function AppendCost(c: Caps, buf: bytes, rest: bytes): nat {
    if |rest| >= c.tail then |LastChars(c.tail, rest)|
    else
      |rest| + if |buf + rest| > 2 * c.tail then |LastChars(c.tail, buf + rest)| else 0
  }

  function PushCost(c: Caps, t: Text, chunk: bytes): nat {
    var k := HeadTake(c, t, chunk);
    k + if k == |chunk| then 0 else AppendCost(c, t.tailBuf, chunk[k..])
  }

  function RunCost(c: Caps, t: Text, chunks: seq<bytes>): nat
    decreases |chunks|
  {
    if chunks == [] then 0
    else PushCost(c, t, chunks[0]) + RunCost(c, Push(c, t, chunks[0]), chunks[1..])
  }

  /** Hidden bytes that a compaction may still have to step over. */
  function Potential(c: Caps, t: Text): nat {
    if |t.tailBuf| > c.tail then |t.tailBuf| - c.tail else 0
  }

  /** What is counted: the bytes that reach the head, those that are put into the tail buffer,
      and those that a compaction leaves in it. */
  lemma CostIsWork(c: Caps, t: Text, chunk: bytes)
    requires WellFormed(c, t) && chunk != []
    ensures var t' := Push(c, t, chunk);
            var k := |t'.head| - |t.head|;
            var rest := chunk[k..];
            && 0 <= k <= |chunk|
            && PushCost(c, t, chunk)
               == k + (if rest == [] then 0
                       else if |rest| >= c.tail then |t'.tailBuf|
                       else |rest| + (if |t.tailBuf| + |rest| > c.tail + c.tail then |t'.tailBuf| else 0))
  {
  }

  lemma PushAmortized(c: Caps, t: Text, chunk: bytes)
    requires WellFormed(c, t)
    ensures PushCost(c, t, chunk) + Potential(c, Push(c, t, chunk)) <= 2 * |chunk| + Potential(c, t)
  {
  }

  lemma {:induction false} RunAmortized(c: Caps, t: Text, chunks: seq<bytes>)
    requires WellFormed(c, t) && AllValid(chunks)
    ensures RunCost(c, t, chunks) + Potential(c, PushAll(c, t, chunks))
            <= 2 * |Concat(chunks)| + Potential(c, t)
    decreases |chunks|
  {
    if chunks != [] {
      PushAmortized(c, t, chunks[0]);
      PushKeepsWellFormed(c, t, chunks[0]);
      RunAmortized(c, Push(c, t, chunks[0]), chunks[1..]);
    }
  }

  /** Streaming costs at most two moves for each byte, however it is chunked, and the tail
      buffer never rests above twice its limit. */
  lemma StreamingIsLinear(c: Caps, chunks: seq<bytes>)
    requires c.Valid() && AllValid(chunks)
    ensures RunCost(c, EMPTY, chunks) <= 2 * |Concat(chunks)|
    ensures |PushAll(c, EMPTY, chunks).tailBuf| <= 2 * c.tail
  {
    EmptyHasRead(c);
    RunAmortized(c, EMPTY, chunks);
    RunShowsStream(c, chunks);
  }

  // ----- elision and the rendered form --------------------------------------

  function Elided(c: Caps, t: Text): nat
    requires WellFormed(c, t)
  {
    t.total - |t.head| - |Tail(c, t)|
  }

  function Decimal(n: nat): bytes {
    if n < 10 then [48 + n] else Decimal(n / 10) + [48 + n % 10]
  }

  /** `"\n…[N bytes elided]\n"`. */
  function MarkerText(n: nat): bytes {
    [10, 0xE2, 0x80, 0xA6, 91] + Decimal(n) + Ascii(" bytes elided]\n")
  }

  function Marker(c: Caps, t: Text): Option<bytes>
    requires WellFormed(c, t)
  {
    if Elided(c, t) > 0 then Some(MarkerText(Elided(c, t))) else None
  }

  /** The `Display` form. */
  function Display(c: Caps, t: Text): bytes
    requires WellFormed(c, t)
  {
    t.head + (match Marker(c, t) case Some(m) => m case None => []) + Tail(c, t)
  }

  /** `render`, which leaves the tail out when there is no marker. */
  function Render(c: Caps, t: Text): bytes
    requires WellFormed(c, t)
  {
    match Marker(c, t)
    case Some(m) => t.head + m + Tail(c, t)
    case None => t.head
  }

  /** 10 to the power `k`. */
  function Pow10(k: nat): nat {
    if k == 0 then 1 else 10 * Pow10(k - 1)
  }

  lemma {:induction false} DecimalSize(n: nat, k: nat)
    requires k > 0 && n < Pow10(k)
    ensures 0 < |Decimal(n)| <= k
    ensures forall i :: 0 <= i < |Decimal(n)| ==> Decimal(n)[i] < 0x80
    decreases k
  {
    if n >= 10 {
      assert Pow10(1) == 10;
      DecimalSize(n / 10, k - 1);
    }
  }

  /** The value of digits read from the left. */
  function NumberOf(digits: bytes): int {
    if digits == [] then 0
    else 10 * NumberOf(digits[..|digits| - 1]) + (digits[|digits| - 1] as int - 48)
  }

  /** The digits read back as the number; none but the last is an unneeded zero. */
  lemma {:induction false} DecimalReads(n: nat)
    ensures NumberOf(Decimal(n)) == n
    ensures Decimal(n) != [] && forall i :: 0 <= i < |Decimal(n)| ==> 48 <= Decimal(n)[i] <= 57
    ensures Decimal(n)[0] == 48 ==> n == 0 && Decimal(n) == [48]
  {
    if n < 10 {
      assert [48 + n][..0] == [];
    } else {
      DecimalReads(n / 10);
      PartsOfJoin(Decimal(n / 10), [48 + n % 10]);
    }
  }

  /** The marker around its number. */
  lemma MarkerSays(n: nat)
    ensures var m, lead, words := MarkerText(n), [10, 0xE2, 0x80, 0xA6, 91], Ascii(" bytes elided]\n");
            && |m| > 20 && m[..5] == lead && m[|m| - 15..] == words
            && NumberOf(m[5..|m| - 15]) == n
  {
    DecimalReads(n);
    var lead: bytes, digits, words := [10, 0xE2, 0x80, 0xA6, 91], Decimal(n), Ascii(" bytes elided]\n");
    hide Decimal, NumberOf, Ascii;
    assert |words| == 15 by {
      WordsSize();
    }
    var m := lead + digits + words;
    assert MarkerText(n) == m;
    assert m[..5] == lead && m[|m| - 15..] == words && m[5..|m| - 15] == digits;
  }

  lemma WordsSize()
    ensures |Ascii(" bytes elided]\n")| == 15
  {
  }

  lemma TwentyDigits()
    ensures Pow10(20) > U64_MAX
  {
    assert Pow10(5) == 100000;
    assert Pow10(10) == 10000000000;
    assert Pow10(15) == 1000000000000000;
    assert Pow10(20) == 100000000000000000000;
  }

  /** The marker of any 64-bit count is well-formed text and fits its reserve. */
  lemma MarkerFits(n: nat)
    requires n <= U64_MAX
    ensures Valid(MarkerText(n)) && |MarkerText(n)| <= 40 <= MARKER_RESERVE
  {
    var lead: bytes := [10, 0xE2, 0x80, 0xA6, 91];
    assert Valid(lead) by {
      assert lead[1..][3..] == [91];
    }
    hide Valid, Decimal, Pow10;
    var digits, words := Decimal(n), Ascii(" bytes elided]\n");
    assert Valid(digits) && |digits| <= 20 by {
      TwentyDigits();
      DecimalSize(n, 20);
      ValidAscii(digits);
    }
    assert Valid(words) by { ValidAscii(words); }
    ValidJoin(lead, digits);
    ValidJoin(lead + digits, words);
  }

  /** The rendered form of every sound value is well-formed text within the budget. */
  lemma DisplayBounded(c: Caps, t: Text)
    requires WellFormed(c, t)
    ensures Valid(Display(c, t)) && |Display(c, t)| <= c.Cap()
  {
    ShownValid(c.tail, t.tailBuf);
    var n := Elided(c, t);
    if n > 0 {
      MarkerFits(n);
      ValidJoin(t.head, MarkerText(n));
      ValidJoin(t.head + MarkerText(n), Tail(c, t));
    } else {
      assert t.head + [] == t.head;
      ValidJoin(t.head, Tail(c, t));
    }
  }

  /** The projection consists of a prefix and a suffix of the stream: the two meet if the
      suffix limit allows, and otherwise fall short of their limits by at most three bytes. */
  lemma ProjectionEnds(c: Caps, s: bytes)
    requires c.Valid() && Valid(s)
    ensures var v := Project(c, s);
            && v.head == s[..|v.head|] && v.total == SaturatingAdd(0, |s|)
            && |s| >= |v.tail| && v.tail == s[|s| - |v.tail|..]
            && (|s| >= c.head ==> c.head - 3 <= |v.head|)
            && if |s| - |v.head| <= c.tail then |v.head| + |v.tail| == |s|
               else c.tail - 3 <= |v.tail| <= c.tail && |v.head| + |v.tail| < |s|
  {
    hide Valid, Floor, Ceil, LastChars;
    var k := Floor(s, c.head);
    var rest := s[k..];
    if |s| >= c.head {
      FloorNear(s, c.head);
    }
    if |rest| > c.tail {
      assert Valid(rest) by { ValidCut(s, k); }
      ShownSlack(c.tail, rest);
      var n := |Shown(c.tail, rest)|;
      assert s[|s| - n..] == rest[|rest| - n..];
    }
  }

  lemma EndsMeet(s: bytes, h: bytes, t: bytes)
    requires |h| + |t| == |s| && h == s[..|h|] && t == s[|s| - |t|..]
    ensures h + t == s
  {
  }

  lemma DisplayUncut(c: Caps, t: Text)
    requires WellFormed(c, t) && Elided(c, t) == 0
    ensures Display(c, t) == t.head + Tail(c, t)
  {
    hide WellFormed, Valid, Shown;
    assert t.head + [] == t.head;
  }

  /** Bytes are elided exactly when what follows the head outgrows the tail limit; as long
      as none are, the rendered form is the whole stream. */
  lemma DisplayOfStream(c: Caps, t: Text, s: bytes)
    requires HasRead(c, t, s) && Valid(s) && |s| <= U64_MAX
    ensures Elided(c, t) == |s| - |t.head| - |Tail(c, t)|
    ensures Elided(c, t) > 0 <==> |s| - |t.head| > c.tail
    ensures Elided(c, t) == 0 ==> Display(c, t) == s
  {
    assert c.Valid();
    hide Valid, Project, Tail, WellFormed, Display;
    ProjectionEnds(c, s);
    if Elided(c, t) == 0 {
      DisplayUncut(c, t);
      EndsMeet(s, t.head, Tail(c, t));
    }
  }

  /** Once bytes are elided, the rendered form is a prefix of the stream, the marker of the
      exact number of bytes missing between, and a suffix of the stream. */
  lemma DisplayOfElided(c: Caps, t: Text, s: bytes)
    requires HasRead(c, t, s) && Valid(s) && |s| <= U64_MAX && Elided(c, t) > 0
    ensures var h, k := |t.head|, |s| - |Tail(c, t)|;
            && 0 <= h < k && Display(c, t) == s[..h] + MarkerText(k - h) + s[k..]
  {
    ReadTotals(c, t, s);
    DisplayCut(c, t);
    hide Valid, HasRead, WellFormed, Display, Tail, MarkerText;
  }

  lemma DisplayCut(c: Caps, t: Text)
    requires WellFormed(c, t) && Elided(c, t) > 0
    ensures Display(c, t) == t.head + MarkerText(Elided(c, t)) + Tail(c, t)
  {
    hide WellFormed, Valid, Tail, MarkerText;
  }

  lemma ReadTotals(c: Caps, t: Text, s: bytes)
    requires HasRead(c, t, s) && Valid(s) && |s| <= U64_MAX
    ensures |t.head| <= |s| && t.head == s[..|t.head|]
    ensures |Tail(c, t)| <= |s| && Tail(c, t) == s[|s| - |Tail(c, t)|..]
    ensures Elided(c, t) == |s| - |t.head| - |Tail(c, t)|
  {
    var v := Project(c, s);
    hide Valid, Project, Tail, Shown, Floor;
    assert c.Valid() && t.head == v.head && Tail(c, t) == v.tail && t.total == v.total;
    hide WellFormed, HasRead;
    ProjectionEnds(c, s);
    assert v.total == |s|;
  }

  /** A cut suffix is a proper suffix, at most three bytes short of the limit. */
  lemma ShownSlack(cap: nat, buf: bytes)
    requires Valid(buf) && cap >= 4 && |buf| > cap
    ensures cap - 3 <= |Shown(cap, buf)| < |buf|
    ensures buf[|buf| - |Shown(cap, buf)|..] == Shown(cap, buf)
  {
    CeilNear(buf, |buf| - cap);
  }

  /** By how many bytes an append lengthens what is shown. */
  function Gain(c: Caps, t: Text, chunk: bytes): int {
    var k := HeadTake(c, t, chunk);
    k + if k == |chunk| then 0 else |Shown(c.tail, Tail(c, t) + chunk[k..])| - |Tail(c, t)|
  }

  lemma PushGains(c: Caps, t: Text, chunk: bytes)
    requires WellFormed(c, t) && Valid(chunk)
    ensures Gain(c, t, chunk) <= |chunk|
    ensures |Push(c, t, chunk).head| + |Tail(c, Push(c, t, chunk))|
            == |t.head| + |Tail(c, t)| + Gain(c, t, chunk)
  {
    hide Valid, Floor, AppendTail;
    if chunk != [] {
      var k := HeadTake(c, t, chunk);
      if k < |chunk| {
        assert Valid(chunk[k..]) by { ValidCut(chunk, k); }
        TailCarries(c, t.tailBuf, t.tailBuf, chunk[k..]);
        ShownAbsorbs(c.tail, t.tailBuf, chunk[k..]);
      }
    }
  }

  /** Elision does not shrink exactly when the bytes newly shown still fit the 64-bit byte
      count; it takes an append past its end to shrink it. */
  lemma ElidedMonotoneExactly(c: Caps, t: Text, chunk: bytes)
    requires WellFormed(c, t) && Valid(chunk)
    ensures WellFormed(c, Push(c, t, chunk))
    ensures Elided(c, Push(c, t, chunk)) >= Elided(c, t) <==> t.total + Gain(c, t, chunk) <= U64_MAX
    ensures t.total + |chunk| <= U64_MAX ==> Elided(c, Push(c, t, chunk)) >= Elided(c, t)
  {
    PushKeepsWellFormed(c, t, chunk);
    PushGains(c, t, chunk);
    hide Valid, Gain, Tail, HeadTake, AppendTail;
  }

  /** At saturation it can shrink: a loadable value and one more byte show it. */
  lemma ElidedShrinksWhenSaturated(c: Caps)
    requires c.Valid() && c.head >= 1
    ensures var t := Text([], [97], U64_MAX);
            && Deserialize(c, View([], [97], U64_MAX)) == Some(t)
            && WellFormed(c, t) && WellFormed(c, Push(c, t, [98]))
            && Elided(c, Push(c, t, [98])) < Elided(c, t)
  {
    var t := Text([], [97], U64_MAX);
    assert [98][0..] == [98] && [97] + [98] == [97, 98];
    assert Push(c, t, [98]) == Text([], [97, 98], U64_MAX);
    ValidAscii([97, 98]);
  }

  /** `render` is the `Display` form exactly when something is elided or the tail is empty. */
  lemma RenderVersusDisplay(c: Caps, t: Text)
    requires WellFormed(c, t)
    ensures Render(c, t) == Display(c, t) <==> (Elided(c, t) > 0 || Tail(c, t) == [])
  {
    if Elided(c, t) == 0 {
      assert t.head + [] == t.head;
      assert |Display(c, t)| == |t.head| + |Tail(c, t)|;
      if Tail(c, t) == [] {
        assert Display(c, t) == t.head;
      }
    }
  }

  /** `len`. */
  function Len(c: Caps, t: Text): nat
    requires WellFormed(c, t)
  {
    match Marker(c, t)
    case Some(m) => |t.head| + |m| + |Tail(c, t)|
    case None => |t.head|
  }

  /** `len` is the length of what `render` returns, so it is that of the `Display` form in
      the same cases only. */
  lemma LenVersusDisplay(c: Caps, t: Text)
    requires WellFormed(c, t)
    ensures Len(c, t) == |Render(c, t)| <= c.Cap()
    ensures Len(c, t) == |Display(c, t)| <==> (Elided(c, t) > 0 || Tail(c, t) == [])
  {
    DisplayBounded(c, t);
    hide WellFormed, Valid;
  }

  /** It then loses text: one byte more than the head holds is stored but not rendered. */
  lemma RenderDropsTail(c: Caps, s: bytes)
    requires c.Valid() && Valid(s) && |s| == c.head + 1
    ensures var t := Push(c, EMPTY, s);
            WellFormed(c, t) && Elided(c, t) == 0 && Display(c, t) == s && Render(c, t) != s
  {
    EmptyHasRead(c);
    PushReads(c, EMPTY, [], s);
    assert [] + s == s;
    var t := Push(c, EMPTY, s);
    assert |t.head| >= c.head - 3 by { FloorNear(s, c.head); }
    assert |t.head| <= c.head;
    hide Valid, WellFormed, Push, Project;
    DisplayOfStream(c, t, s);
  }

  // ----- the mutable buffer -------------------------------------------------

  /** The buffer itself. `moved` counts the bytes copied in and moved by compaction. */
  class BoundedText {
    const caps: Caps
    var head: bytes
    var tailBuf: bytes
    var totalBytes: nat
    ghost var moved: nat

    ghost function State(): Text
      reads this
    {
      Text(head, tailBuf, totalBytes)
    }

    ghost predicate Sound()
      reads this
    {
      WellFormed(caps, State())
    }

    constructor (caps: Caps)
      requires caps.Valid()
      ensures this.caps == caps && Sound() && State() == EMPTY && moved == 0
    {
      this.caps := caps;
      head, tailBuf, totalBytes, moved := [], [], 0, 0;
    }

    constructor FromText(caps: Caps, s: bytes)
      requires caps.Valid() && Valid(s)
      ensures this.caps == caps && Sound() && State() == Push(caps, EMPTY, s)
    {
      this.caps := caps;
      head, tailBuf, totalBytes, moved := [], [], 0, 0;
      new;
      PushStr(s);
    }

    method Clear()
      requires Sound()
      modifies this
      ensures Sound() && State() == EMPTY && moved == old(moved)
    {
      head, tailBuf, totalBytes := [], [], 0;
    }

    method SetText(s: bytes)
      requires Sound() && Valid(s)
      modifies this
      ensures Sound() && State() == Push(caps, EMPTY, s)
    {
      Clear();
      PushStr(s);
    }

    method PushStr(chunk: bytes)
      requires Sound() && Valid(chunk)
      modifies this
      ensures Sound() && State() == Push(caps, old(State()), chunk)
      ensures moved == old(moved) + PushCost(caps, old(State()), chunk)
    {
      PushKeepsWellFormed(caps, State(), chunk);
      hide Valid, WellFormed, Floor, AppendTail, AppendCost;
      if chunk == [] {
        return;
      }
      totalBytes := SaturatingAdd(totalBytes, |chunk|);
      var rest := chunk;
      if tailBuf == [] && |head| < caps.head {
        var room := caps.head - |head|;
        if |rest| <= room {
          head, moved := head + rest, moved + |rest|;
          assert chunk[..|chunk|] == chunk;
          return;
        }
        var split := FloorCharBoundary(rest, room);
        head, moved := head + rest[..split], moved + split;
        rest := rest[split..];
        if rest == [] {
          return;
        }
      }
      ghost var k := |chunk| - |rest|;
      assert k == HeadTake(caps, old(State()), chunk) && rest == chunk[k..];
      assert head == old(head) + chunk[..k];
      AppendToTail(rest);
    }

    method AppendToTail(rest: bytes)
      modifies `tailBuf, `moved
      ensures tailBuf == AppendTail(caps, old(tailBuf), rest)
      ensures moved == old(moved) + AppendCost(caps, old(tailBuf), rest)
    {
      if |rest| >= caps.tail {
        var start := CeilCharBoundary(rest, |rest| - caps.tail);
        tailBuf, moved := rest[start..], moved + |rest[start..]|;
        return;
      }
      tailBuf, moved := tailBuf + rest, moved + |rest|;
      if |tailBuf| > 2 * caps.tail {
        var start := CeilCharBoundary(tailBuf, |tailBuf| - caps.tail);
        tailBuf := tailBuf[start..];
        moved := moved + |tailBuf|;
      }
    }

    method ShownTail() returns (r: bytes)
      ensures r == Tail(caps, State())
    {
      if |tailBuf| <= caps.tail {
        return tailBuf;
      }
      var start := CeilCharBoundary(tailBuf, |tailBuf| - caps.tail);
      return tailBuf[start..];
    }

    method Equals(other: BoundedText) returns (r: bool)
      requires caps == other.caps
      ensures r <==> Same(caps, State(), other.State())
    {
      var a := ShownTail();
      var b := other.ShownTail();
      r := totalBytes == other.totalBytes && head == other.head && a == b;
    }
  }
}
