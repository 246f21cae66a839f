/** Paged history hydration: a loop over pages, with retries while the session is busy, one
    restart when the cursor is stale, and a full fetch as a last resort. The peer is the
    list of its replies; clearing and hydrating are clear and append on a list of pages. */
module Hydration {
  import opened Seqs
  import opened Utf8
  import opened Wrappers

  const MAX_PAGES: nat := 50
  const BUSY_RETRIES: nat := 8

  // ----- the peer -----------------------------------------------------------

  /** A page: what identifies its data, how many history rows it hydrates to, and the cursor
      of the next page unless that is missing or empty. */
  datatype Page = Page(data: nat, rows: nat, next: Option<bytes>)

  datatype Reply =
    | Served(page: Option<Page>)
    | Refused(code: Option<bytes>, message: Option<bytes>)
    | Unreachable

  datatype ErrorKind = Busy | Stale | Other

  function Lower(s: bytes): bytes {
    seq(|s|, i requires 0 <= i < |s| => if 65 <= s[i] <= 90 then s[i] + 32 else s[i])
  }

  function OrEmpty(t: Option<bytes>): bytes {
    if t.Some? then t.value else []
  }

  /** `classify_messages_page_error`. */
  function Classify(code: Option<bytes>, message: Option<bytes>): ErrorKind {
    var blob := Lower(OrEmpty(code) + [32] + OrEmpty(message));
    if code == Some(Ascii("session_busy")) || Contains(blob, Ascii("session_busy"))
       || Contains(blob, Ascii("session is changing"))
    then Busy
    else if code == Some(Ascii("stale_cursor")) || Contains(blob, Ascii("stale_cursor"))
            || Contains(blob, Ascii("cursor is stale"))
    then Stale
    else Other
  }

  /** The text by which the inner loop tells the outer one to start over. */
  function Sentinel(): bytes {
    Ascii("stale_restart")
  }

  predicate IsStale(r: Reply) {
    r.Refused? && Classify(r.code, r.message) == Stale
  }

  predicate SaysSentinel(r: Reply) {
    r.Refused? && r.message == Some(Sentinel())
  }

  // ----- one reply ----------------------------------------------------------

  datatype Stop = Going | LastPage | PageLimit | GaveUp

  /** The variables of the loop. `attempt` counts the requests already made for the current
      page; `requests` and `sentinels` count requests and replies whose error text was taken
      for the restart signal. */
  datatype Loop = Loop(
    cursor: Option<bytes>,
    pages: nat,
    staleRestarts: nat,
    attempt: nat,
    history: seq<Page>,
    requests: nat,
    sentinels: nat,
    stop: Stop)

  const START := Loop(None, 0, 0, 0, [], 0, 0, Going)

  /** The effect of the reply to one page request. */
  function Answer(l: Loop, r: Reply): Loop {
    var l1 := l.(requests := l.requests + 1, attempt := l.attempt + 1);
    match r
    case Served(Some(page)) =>
      var l2 := l1.(history := l.history + [page], pages := l.pages + 1, attempt := 0);
      if page.next.None? then l2.(stop := LastPage)
      else l2.(cursor := page.next, stop := if l2.pages >= MAX_PAGES then PageLimit else Going)
    case Served(None) => l1.(stop := LastPage)
    case Unreachable => l1.(stop := GaveUp)
    case Refused(code, message) =>
      var kind := Classify(code, message);
      if kind == Busy && l1.attempt < BUSY_RETRIES then l1
      else if kind == Stale && l.staleRestarts == 0 then
        l1.(cursor := None, pages := 0, staleRestarts := 1, attempt := 0, history := [])
      else if message == Some(Sentinel()) then l1.(attempt := 0, sentinels := l.sentinels + 1)
      else l1.(stop := GaveUp)
  }

  /** The loop over the replies so far; it rests when it has stopped or waits for more. */
  function Run(l: Loop, replies: seq<Reply>): Loop
    decreases |replies|
  {
    if replies == [] || l.stop != Going then l else Run(Answer(l, replies[0]), replies[1..])
  }

  // ----- termination --------------------------------------------------------

  ghost predicate InBounds(l: Loop) {
    && l.staleRestarts <= 1 && l.pages <= MAX_PAGES
    && (l.stop == Going ==> l.pages < MAX_PAGES && l.attempt < BUSY_RETRIES)
  }

  /** Requests that can still be made, if no error text is taken for the signal. */
  function Remaining(l: Loop): int {
    (if l.staleRestarts == 0 then 400 else 0) + 8 * (50 - l.pages) - l.attempt
  }

  lemma AnswerSpends(l: Loop, r: Reply)
    requires InBounds(l) && l.stop == Going
    ensures var l' := Answer(l, r);
            && InBounds(l')
            && l'.requests == l.requests + 1
            && l.sentinels <= l'.sentinels <= l.sentinels + 1
            && (!SaysSentinel(r) ==> l'.sentinels == l.sentinels)
            && l'.requests + (if l'.stop == Going then Remaining(l') else 0)
               <= l.requests + Remaining(l) + 8 * (l'.sentinels - l.sentinels)
  {
    hide Classify, Sentinel;
  }

  lemma {:induction false} RunSpends(l: Loop, replies: seq<Reply>)
    requires InBounds(l) && l.stop == Going
    ensures var e := Run(l, replies);
            && InBounds(e) && e.sentinels >= l.sentinels
            && e.requests + (if e.stop == Going then Remaining(e) else 0)
               <= l.requests + Remaining(l) + 8 * (e.sentinels - l.sentinels)
            && (e.stop == Going ==> e.requests == l.requests + |replies|)
            && ((forall i :: 0 <= i < |replies| ==> !SaysSentinel(replies[i])) ==> e.sentinels == l.sentinels)
    decreases |replies|
  {
    if replies != [] {
      AnswerSpends(l, replies[0]);
      hide Answer, SaysSentinel;
      var l' := Answer(l, replies[0]);
      if l'.stop == Going {
        RunSpends(l', replies[1..]);
      }
    }
  }

  /** At most 800 page requests are made, plus eight for every error text that is taken for
      the restart signal; there is at most one restart, and at most 50 pages are kept. */
  lemma RequestsBounded(replies: seq<Reply>)
    ensures var e := Run(START, replies);
            e.requests <= 800 + 8 * e.sentinels && e.staleRestarts <= 1 && |e.history| <= 50
  {
    RunSpends(START, replies);
    HistorySize(START, replies);
  }

  /** Without such a text hydration always stops: no peer can keep it going past its 800th
      reply. */
  lemma StopsWithoutSentinel(replies: seq<Reply>)
    requires |replies| >= 800
    requires forall i :: 0 <= i < |replies| ==> !SaysSentinel(replies[i])
    ensures Run(START, replies).stop != Going
  {
    RunSpends(START, replies);
  }

  lemma {:induction false} HistorySize(l: Loop, replies: seq<Reply>)
    requires |l.history| == l.pages
    ensures |Run(l, replies).history| == Run(l, replies).pages
    decreases |replies|
  {
    if replies != [] && l.stop == Going {
      hide Classify, Sentinel;
      HistorySize(Answer(l, replies[0]), replies[1..]);
    }
  }

  // ----- exactly when it stops ----------------------------------------------

  /** Every error text among the replies is one of `texts`. */
  ghost predicate Speaks(replies: seq<Reply>, texts: iset<bytes>) {
    forall i :: 0 <= i < |replies| && replies[i].Refused? && replies[i].message.Some?
                ==> replies[i].message.value in texts
  }

  /** No peer limited to these error texts can keep hydration going past its 800th reply. */
  ghost predicate AlwaysStops(texts: iset<bytes>) {
    forall replies :: |replies| >= 800 && Speaks(replies, texts) ==> Run(START, replies).stop != Going
  }

  /** Hydration is sure to stop exactly when the peer has no error text that reads like the
      restart signal. */
  lemma StopsExactly(texts: iset<bytes>)
    ensures AlwaysStops(texts) <==> Sentinel() !in texts
  {
    if Sentinel() !in texts {
      forall replies | |replies| >= 800 && Speaks(replies, texts)
        ensures Run(START, replies).stop != Going
      {
        StopsWithoutSentinel(replies);
      }
    } else {
      SentinelNeverStops(START, 800);
      assert Speaks(Echo(800), texts);
      assert |Echo(800)| >= 800 && Run(START, Echo(800)).stop == Going;
    }
  }

  /** A peer that answers every request with that text. */
  function Echo(n: nat): (replies: seq<Reply>)
    ensures |replies| == n
  {
    seq(n, _ => Refused(None, Some(Sentinel())))
  }

  /** Against it hydration makes as many requests as there are replies, for ever. */
  lemma {:induction false} SentinelNeverStops(l: Loop, n: nat)
    requires l.stop == Going && l.attempt == 0
    ensures var e := Run(l, Echo(n));
            e.stop == Going && e.attempt == 0 && e.requests == l.requests + n && e.history == l.history
    decreases n
  {
    if n > 0 {
      SentinelIsOther();
      assert Echo(n)[1..] == Echo(n - 1);
      assert Echo(n)[0] == Refused(None, Some(Sentinel()));
      hide Classify, Sentinel, Echo;
      SentinelNeverStops(Answer(l, Refused(None, Some(Sentinel()))), n - 1);
    }
  }

  lemma SentinelIsOther()
    ensures Classify(None, Some(Sentinel())) == Other
  {
    SentinelBlob();
    BusyAbsent();
    StaleAbsent();
    hide Contains, Lower, OrEmpty, Sentinel, Ascii;
  }

  lemma BusyAbsent()
    ensures !Contains(Ascii(" stale_restart"), Ascii("session_busy"))
    ensures !Contains(Ascii(" stale_restart"), Ascii("session is changing"))
  {
    Absent(Ascii(" stale_restart"), Ascii("session_busy"));
    Absent(Ascii(" stale_restart"), Ascii("session is changing"));
  }

  lemma StaleAbsent()
    ensures !Contains(Ascii(" stale_restart"), Ascii("stale_cursor"))
    ensures !Contains(Ascii(" stale_restart"), Ascii("cursor is stale"))
  {
    Absent(Ascii(" stale_restart"), Ascii("stale_cursor"));
    Absent(Ascii(" stale_restart"), Ascii("cursor is stale"));
  }

  lemma SentinelBlob()
    ensures Lower(OrEmpty(None) + [32] + OrEmpty(Some(Sentinel()))) == Ascii(" stale_restart")
  {
    assert OrEmpty(None) + [32] + OrEmpty(Some(Sentinel())) == Ascii(" stale_restart");
  }

  /** Neither the first two bytes nor the seventh of the needle fit anywhere. */
  lemma Absent(blob: bytes, needle: bytes)
    requires blob == Ascii(" stale_restart") && |needle| >= 12
    requires needle[0] == 99 || (needle[0] == 115 && (needle[1] == 101 || needle[6] == 99))
    ensures !Contains(blob, needle)
  {
    forall i | 0 <= i <= |blob| - |needle|
      ensures !MatchAt(blob, i, needle)
    {
      MatchByte(blob, i, needle, 0);
      MatchByte(blob, i, needle, 1);
      MatchByte(blob, i, needle, 6);
    }
  }

  lemma MatchByte(hay: bytes, i: nat, needle: bytes, k: nat)
    requires i + |needle| <= |hay| && k < |needle|
    ensures MatchAt(hay, i, needle) ==> hay[i + k] == needle[k]
  {
    assert hay[i..i + |needle|][k] == hay[i + k];
  }

  // ----- which refusals are which -------------------------------------------

  lemma LowerJoin(a: bytes, b: bytes)
    ensures Lower(a + [32] + b) == Lower(a) + [32] + Lower(b)
  {
  }

  lemma MatchInJoin(a: bytes, b: bytes, w: bytes, i: int)
    requires w != [] && 32 !in w && MatchAt(a + [32] + b, i, w)
    ensures MatchAt(a, i, w) || MatchAt(b, i - |a| - 1, w)
  {
    var s := a + [32] + b;
    if i + |w| <= |a| {
      SliceLeft(a, [32] + b, i, |w|);
      JoinAssoc(a, [32], b);
    } else if i > |a| {
      SliceRight(a + [32], b, i - |a| - 1, |w|);
    } else {
      MatchByte(s, i, w, |a| - i);
    }
  }

  lemma SliceLeft(a: bytes, b: bytes, i: nat, n: nat)
    requires i + n <= |a|
    ensures (a + b)[i..i + n] == a[i..i + n]
  {
  }

  lemma SliceRight(a: bytes, b: bytes, i: nat, n: nat)
    requires i + n <= |b|
    ensures (a + b)[|a| + i..|a| + i + n] == b[i..i + n]
  {
  }

  /** A word without blanks is in the joined text exactly when it is in one of the two. */
  lemma WordInJoin(a: bytes, b: bytes, w: bytes)
    requires w != [] && 32 !in w
    ensures Contains(a + [32] + b, w) <==> Contains(a, w) || Contains(b, w)
  {
    var s := a + [32] + b;
    if Contains(s, w) {
      var i :| 0 <= i <= |s| - |w| && MatchAt(s, i, w);
      MatchInJoin(a, b, w, i);
    }
    if Contains(a, w) {
      var i :| 0 <= i <= |a| - |w| && MatchAt(a, i, w);
      SliceLeft(a, [32] + b, i, |w|);
      JoinAssoc(a, [32], b);
      assert MatchAt(s, i, w);
    }
    if Contains(b, w) {
      var i :| 0 <= i <= |b| - |w| && MatchAt(b, i, w);
      SliceRight(a + [32], b, i, |w|);
      assert MatchAt(s, |a| + 1 + i, w);
    }
  }

  /** The code or the message has the word, in any mixture of cases. */
  predicate Mentions(code: Option<bytes>, message: Option<bytes>, word: bytes) {
    Contains(Lower(OrEmpty(code)), word) || Contains(Lower(OrEmpty(message)), word)
  }

  /** Code and message, with a blank between them, have the phrase. */
  predicate Says(code: Option<bytes>, message: Option<bytes>, phrase: bytes) {
    Contains(Lower(OrEmpty(code)) + [32] + Lower(OrEmpty(message)), phrase)
  }

  /** A refusal is busy exactly when it mentions `session_busy` or says that the session is
      changing, and stale exactly when it is not busy and mentions `stale_cursor` or says that
      the cursor is stale. */
  lemma ClassifyExactly(code: Option<bytes>, message: Option<bytes>)
    ensures var busy := Mentions(code, message, Ascii("session_busy"))
                        || Says(code, message, Ascii("session is changing"));
            var stale := Mentions(code, message, Ascii("stale_cursor"))
                         || Says(code, message, Ascii("cursor is stale"));
            && (Classify(code, message) == Busy <==> busy)
            && (Classify(code, message) == Stale <==> !busy && stale)
  {
    LowerJoin(OrEmpty(code), OrEmpty(message));
    CodeIsMentioned(code);
    assert 32 !in Ascii("session_busy") && 32 !in Ascii("stale_cursor");
    assert Ascii("session_busy") != [] && Ascii("stale_cursor") != [];
    hide Lower, Contains, Ascii;
    WordInJoin(Lower(OrEmpty(code)), Lower(OrEmpty(message)), Ascii("session_busy"));
    WordInJoin(Lower(OrEmpty(code)), Lower(OrEmpty(message)), Ascii("stale_cursor"));
  }

  lemma CodeIsMentioned(code: Option<bytes>)
    ensures code == Some(Ascii("session_busy")) ==> Contains(Lower(OrEmpty(code)), Ascii("session_busy"))
    ensures code == Some(Ascii("stale_cursor")) ==> Contains(Lower(OrEmpty(code)), Ascii("stale_cursor"))
  {
    if code == Some(Ascii("session_busy")) {
      LowerOfLower(code.value);
      ContainsItself(code.value);
    } else if code == Some(Ascii("stale_cursor")) {
      LowerOfLower(code.value);
      ContainsItself(code.value);
    }
    hide Contains;
  }

  /** Only capitals are changed. */
  lemma LowerOfLower(s: bytes)
    requires forall i :: 0 <= i < |s| ==> !('A' <= s[i] as char <= 'Z')
    ensures Lower(s) == s
  {
  }

  lemma ContainsItself(s: bytes)
    ensures Contains(s, s)
  {
    assert s[0..|s|] == s;
    assert MatchAt(s, 0, s);
  }

  /** The text has no `s` with an `e` behind it, hence no word that begins with them. */
  predicate NoSe(hay: bytes) {
    forall i :: 0 <= i < |hay| - 1 && hay[i] == 115 ==> hay[i + 1] != 101
  }

  lemma NoWord(hay: bytes, needle: bytes)
    requires |needle| >= 2 && needle[0] == 115 && needle[1] == 101 && NoSe(hay)
    ensures !Contains(hay, needle)
  {
    forall i | 0 <= i <= |hay| - |needle|
      ensures !MatchAt(hay, i, needle)
    {
      MatchByte(hay, i, needle, 0);
      MatchByte(hay, i, needle, 1);
    }
  }

  lemma NotBusy(code: Option<bytes>, message: Option<bytes>)
    requires NoSe(Lower(OrEmpty(code))) && NoSe(Lower(OrEmpty(message)))
    ensures Classify(code, message) != Busy
  {
    ClassifyExactly(code, message);
    var a, b := Lower(OrEmpty(code)), Lower(OrEmpty(message));
    assert NoSe(a + [32] + b);
    SePhrases();
    hide Classify, Contains, Lower, Ascii, NoSe;
    NoWord(a, Ascii("session_busy"));
    NoWord(b, Ascii("session_busy"));
    NoWord(a + [32] + b, Ascii("session is changing"));
  }

  lemma SePhrases()
    ensures |Ascii("session_busy")| >= 2 && Ascii("session_busy")[0] == 115 && Ascii("session_busy")[1] == 101
    ensures |Ascii("session is changing")| >= 2
    ensures Ascii("session is changing")[0] == 115 && Ascii("session is changing")[1] == 101
  {
  }

  lemma BusyCodeDecides(message: Option<bytes>)
    ensures Classify(Some(Ascii("session_busy")), message) == Busy
  {
    ClassifyExactly(Some(Ascii("session_busy")), message);
    CodeIsMentioned(Some(Ascii("session_busy")));
    hide Classify, Contains, Ascii, Lower;
  }

  lemma StaleCodeDecides()
    ensures Classify(Some(Ascii("stale_cursor")), None) == Stale
  {
    ClassifyExactly(Some(Ascii("stale_cursor")), None);
    CodeIsMentioned(Some(Ascii("stale_cursor")));
    StaleCodeLetters();
    hide Classify, Contains, Ascii, Lower, NoSe;
    NotBusy(Some(Ascii("stale_cursor")), None);
  }

  lemma StaleCodeLetters()
    ensures NoSe(Lower(OrEmpty(Some(Ascii("stale_cursor"))))) && NoSe(Lower(OrEmpty(None)))
  {
    LowerOfLower(Ascii("stale_cursor"));
  }

  /** Capitals do not matter. */
  lemma CapitalsDoNotMatter()
    ensures Lower(Ascii("ABCDEFGHIJKLMNOPQRSTUVWXYZ")) == Ascii("abcdefghijklmnopqrstuvwxyz")
    ensures Lower(Ascii("SESSION_BUSY")) == Ascii("session_busy")
  {
  }

  lemma ShoutedBusy()
    ensures Classify(None, Some(Ascii("SESSION_BUSY"))) == Busy
  {
    ClassifyExactly(None, Some(Ascii("SESSION_BUSY")));
    CapitalsDoNotMatter();
    ContainsItself(Ascii("session_busy"));
    hide Classify, Contains, Ascii, Lower;
  }

  // ----- how it stops -------------------------------------------------------

  /** Each way to stop has its reply: a served page without a next one, or no page at all; the
      fiftieth page although there is a next one; a request that failed, or a refusal that is
      neither retried nor a restart nor taken for the restart signal. */
  lemma StopsExactlyBy(l: Loop, r: Reply)
    requires l.stop == Going
    ensures var e := Answer(l, r).stop;
            && (e == LastPage <==> r.Served? && (r.page.None? || r.page.value.next.None?))
            && (e == PageLimit <==> r.Served? && r.page.Some? && r.page.value.next.Some? && l.pages >= 49)
            && (e == GaveUp <==>
                  || r.Unreachable?
                  || (r.Refused? && !(IsBusy(r) && l.attempt < 7) && !(IsStale(r) && l.staleRestarts == 0)
                      && !SaysSentinel(r)))
  {
    hide Classify, Sentinel;
  }

  // ----- busy pages ---------------------------------------------------------

  predicate IsBusy(r: Reply) {
    r.Refused? && Classify(r.code, r.message) == Busy
  }

  predicate AllBusy(replies: seq<Reply>) {
    forall i :: 0 <= i < |replies| ==> IsBusy(replies[i])
  }

  /** While the page may still be asked for, busy refusals count as requests and change
      nothing else. */
  lemma {:induction false} BusyWaits(l: Loop, replies: seq<Reply>)
    requires l.stop == Going && AllBusy(replies) && l.attempt + |replies| < 8
    ensures Run(l, replies) == l.(requests := l.requests + |replies|, attempt := l.attempt + |replies|)
    decreases |replies|
  {
    if replies != [] {
      assert IsBusy(replies[0]);
      BusyAnswer(l, replies[0]);
      hide Answer, IsBusy;
      BusyWaits(Answer(l, replies[0]), replies[1..]);
    }
  }

  lemma {:induction false} RunSplits(l: Loop, xs: seq<Reply>, ys: seq<Reply>)
    ensures Run(l, xs + ys) == Run(Run(l, xs), ys)
    decreases |xs|
  {
    hide Answer;
    if xs == [] {
      JoinEmpty(ys);
    } else if l.stop == Going {
      assert (xs + ys)[1..] == xs[1..] + ys;
      RunSplits(Answer(l, xs[0]), xs[1..], ys);
    }
  }

  /** Fewer than eight busy refusals before a page is served might as well not have come. */
  lemma BusyIsRetried(l: Loop, busy: seq<Reply>, page: Page)
    requires l.stop == Going && l.attempt == 0 && AllBusy(busy) && |busy| < 8
    ensures Run(l, busy + [Served(Some(page))])
            == Answer(l, Served(Some(page))).(requests := l.requests + |busy| + 1)
  {
    BusyWaits(l, busy);
    RunSplits(l, busy, [Served(Some(page))]);
    RunOneReply(Run(l, busy), Served(Some(page)));
    hide Run;
  }

  lemma RunOneReply(l: Loop, r: Reply)
    requires l.stop == Going
    ensures Run(l, [r]) == Answer(l, r)
  {
    assert [r][1..] == [];
    hide Answer;
  }

  /** The eighth in a row gives up, with the pages served so far, unless its text is taken for
      the restart signal. */
  lemma EighthBusyGivesUp(l: Loop, busy: seq<Reply>)
    requires l.stop == Going && l.attempt == 0 && AllBusy(busy) && |busy| == 8
    requires busy[7].message != Some(Sentinel())
    ensures var e := Run(l, busy);
            e.stop == GaveUp && e.history == l.history && e.staleRestarts == l.staleRestarts
  {
    var front, r := busy[..7], busy[7];
    SplitLast(busy);
    assert forall i :: 0 <= i < 7 ==> front[i] == busy[i];
    hide Run;
    BusyWaits(l, front);
    RunSplits(l, front, [r]);
    RunOneReply(Run(l, front), r);
    hide Classify, Sentinel;
    assert IsBusy(r);
  }

  /** The first stale refusal starts over; the second gives up. */
  lemma StaleRestartsOnce(l: Loop)
    requires l.stop == Going
    ensures var e := Answer(l, Refused(Some(Ascii("stale_cursor")), None));
            if l.staleRestarts == 0 then
              e.stop == Going && e.cursor == None && e.pages == 0 && e.history == [] && e.staleRestarts == 1
            else e.stop == GaveUp && e.history == l.history
  {
    StaleCodeDecides();
    hide Classify, Sentinel, Ascii;
  }

  // ----- what is hydrated ---------------------------------------------------

  /** The pages among some replies, in order. */
  function PagesIn(replies: seq<Reply>): seq<Page> {
    if replies == [] then [] else PagesIn(replies[..|replies| - 1]) + PageOf(replies[|replies| - 1])
  }

  /** The replies after the first that reports a stale cursor; all if none does. */
  function SinceRestart(replies: seq<Reply>): seq<Reply> {
    if replies == [] then []
    else
      var front, r := replies[..|replies| - 1], replies[|replies| - 1];
      if IsStale(r) && NoneStale(front) then []
      else SinceRestart(front) + [r]
  }

  predicate NoneStale(replies: seq<Reply>) {
    forall i :: 0 <= i < |replies| ==> !IsStale(replies[i])
  }

  function LastCursor(history: seq<Page>): Option<bytes> {
    if history == [] then None else history[|history| - 1].next
  }

  ghost predicate Tracks(l: Loop, consumed: seq<Reply>) {
    && l.requests == |consumed|
    && l.history == PagesIn(SinceRestart(consumed))
    && (l.staleRestarts == 0 <==> NoneStale(consumed))
    && l.staleRestarts <= 1
    && (l.stop == Going ==> l.cursor == LastCursor(l.history))
  }

  function PageOf(r: Reply): seq<Page> {
    match r { case Served(Some(p)) => [p] case _ => [] }
  }

  /** Whether this reply makes the loop start over. */
  predicate Restarts(l: Loop, r: Reply) {
    l.staleRestarts == 0 && IsStale(r)
  }

  lemma AnswerHistory(l: Loop, r: Reply)
    ensures var l' := Answer(l, r);
            && l'.requests == l.requests + 1
            && l'.history == (if Restarts(l, r) then [] else l.history + PageOf(r))
            && l'.staleRestarts == (if Restarts(l, r) then 1 else l.staleRestarts)
  {
    hide Classify, Sentinel;
  }

  lemma AnswerCursor(l: Loop, r: Reply)
    requires l.stop == Going && l.cursor == LastCursor(l.history) && Answer(l, r).stop == Going
    ensures Answer(l, r).cursor == LastCursor(Answer(l, r).history)
  {
    hide Classify, Sentinel;
    if r.Served? && r.page.Some? {
      assert (l.history + [r.page.value])[|l.history|] == r.page.value;
    }
  }

  lemma SinceSnoc(consumed: seq<Reply>, r: Reply)
    ensures NoneStale(consumed + [r]) <==> NoneStale(consumed) && !IsStale(r)
    ensures SinceRestart(consumed + [r]) ==
            if IsStale(r) && NoneStale(consumed) then [] else SinceRestart(consumed) + [r]
  {
    hide IsStale;
    var all := consumed + [r];
    PartsOfJoin(consumed, [r]);
    assert all[|consumed|] == r;
    assert forall i :: 0 <= i < |consumed| ==> all[i] == consumed[i];
  }

  lemma PagesSnoc(replies: seq<Reply>, r: Reply)
    ensures PagesIn(replies + [r]) == PagesIn(replies) + PageOf(r)
  {
    PartsOfJoin(replies, [r]);
  }

  lemma AnswerTracks(l: Loop, consumed: seq<Reply>, r: Reply)
    requires Tracks(l, consumed) && l.stop == Going
    ensures Tracks(Answer(l, r), consumed + [r])
  {
    hide Answer, IsStale, PageOf, LastCursor, NoneStale, PagesIn, SinceRestart;
    AnswerHistory(l, r);
    if Answer(l, r).stop == Going {
      AnswerCursor(l, r);
    }
    SinceSnoc(consumed, r);
    var since := SinceRestart(consumed);
    PagesSnoc(since, r);
    NoPages();
  }

  lemma NoPages()
    ensures PagesIn([]) == []
  {
  }

  lemma {:induction false} RunTracks(l: Loop, consumed: seq<Reply>, replies: seq<Reply>)
    requires Tracks(l, consumed)
    ensures var e := Run(l, replies);
            && 0 <= e.requests - |consumed| <= |replies|
            && Tracks(e, consumed + replies[..e.requests - |consumed|])
    decreases |replies|
  {
    hide Answer, Tracks;
    assert l.requests == |consumed| by { TracksCount(l, consumed); }
    if replies == [] || l.stop != Going {
      assert consumed + replies[..0] == consumed;
    } else {
      var r := replies[0];
      AnswerTracks(l, consumed, r);
      RunTracks(Answer(l, r), consumed + [r], replies[1..]);
      var k := Run(l, replies).requests - |consumed|;
      assert consumed + [r] + replies[1..][..k - 1] == consumed + replies[..k];
    }
  }

  lemma TracksCount(l: Loop, consumed: seq<Reply>)
    requires Tracks(l, consumed)
    ensures l.requests == |consumed|
  {
  }

  /** The history is exactly the pages served since the restart, in order; a restart happens
      exactly at the first reply that reports a stale cursor; and every page is asked for
      with the cursor of the page before it. */
  lemma HistoryIsServed(replies: seq<Reply>)
    ensures var e := Run(START, replies);
            && e.requests <= |replies|
            && e.history == PagesIn(SinceRestart(replies[..e.requests]))
            && (e.staleRestarts == 1 <==> exists i :: 0 <= i < e.requests && IsStale(replies[i]))
            && (e.stop == Going ==> e.cursor == LastCursor(e.history))
  {
    hide Run, PagesIn, SinceRestart, IsStale, NoneStale, Tracks, LastCursor;
    RunTracksAll(replies);
    var e := Run(START, replies);
    TracksMeans(e, replies[..e.requests]);
    SomeStale(replies, e.requests);
  }

  lemma RunTracksAll(replies: seq<Reply>)
    ensures var e := Run(START, replies);
            e.requests <= |replies| && Tracks(e, replies[..e.requests])
  {
    hide Run, Tracks;
    StartTracks();
    RunTracks(START, [], replies);
    JoinEmpty(replies[..Run(START, replies).requests]);
  }

  lemma StartTracks()
    ensures Tracks(START, [])
  {
  }

  lemma SomeStale(replies: seq<Reply>, k: nat)
    requires k <= |replies|
    ensures !NoneStale(replies[..k]) <==> exists i :: 0 <= i < k && IsStale(replies[i])
  {
    hide IsStale;
    var front := replies[..k];
    assert forall i :: 0 <= i < k ==> front[i] == replies[i];
  }

  lemma TracksMeans(l: Loop, consumed: seq<Reply>)
    requires Tracks(l, consumed)
    ensures l.history == PagesIn(SinceRestart(consumed))
    ensures l.staleRestarts == 1 <==> !NoneStale(consumed)
    ensures l.stop == Going ==> l.cursor == LastCursor(l.history)
  {
    hide PagesIn, SinceRestart, NoneStale, LastCursor;
  }

  // ----- the program --------------------------------------------------------

  function Rows(history: seq<Page>): nat {
    if history == [] then 0 else Rows(history[..|history| - 1]) + history[|history| - 1].rows
  }

  /** After giving up with no rows to show, one full fetch may supply them. */
  function Finish(l: Loop, full: Reply): seq<Page> {
    if l.stop == GaveUp && Rows(l.history) == 0 && full.Served? && full.page.Some?
    then l.history + [full.page.value]
    else l.history
  }

  /** No page so far had anything to show. */
  predicate NothingShown(history: seq<Page>) {
    forall i :: 0 <= i < |history| ==> history[i].rows == 0
  }

  lemma {:induction false} RowsExactly(history: seq<Page>)
    ensures Rows(history) == 0 <==> NothingShown(history)
  {
    if history != [] {
      var front, last := history[..|history| - 1], history[|history| - 1];
      RowsExactly(front);
      assert NothingShown(history) <==> NothingShown(front) && last.rows == 0 by {
        assert forall i :: 0 <= i < |front| ==> front[i] == history[i];
      }
    }
  }

  /** The full fetch adds its page exactly when the loop gave up and nothing is shown; in
      every other case the history is that of the loop. */
  lemma FinishExactly(l: Loop, full: Reply)
    ensures l.stop == GaveUp && NothingShown(l.history) && full.Served? && full.page.Some? ==>
              Finish(l, full) == l.history + [full.page.value]
    ensures l.stop != GaveUp || !NothingShown(l.history) || !full.Served? || full.page.None? ==>
              Finish(l, full) == l.history
  {
    RowsExactly(l.history);
    hide Rows, NothingShown;
  }

  lemma RunStep(l: Loop, replies: seq<Reply>, k: nat)
    requires l.stop == Going && k < |replies|
    ensures Run(l, replies[k..]) == Run(Answer(l, replies[k]), replies[k + 1..])
  {
    assert replies[k..][0] == replies[k] && replies[k..][1..] == replies[k + 1..];
  }

  /** What the inner loop breaks with: a page's data, if any, or an error text. */
  datatype PageResult = Fetched(page: Option<Page>) | Failed(isSignal: bool)

  predicate RetriesBusy(l: Loop, r: Reply) {
    r.Refused? && Classify(r.code, r.message) == Busy && l.attempt + 1 < BUSY_RETRIES
  }

  lemma BusyAnswer(l: Loop, r: Reply)
    requires RetriesBusy(l, r)
    ensures Answer(l, r) == l.(requests := l.requests + 1, attempt := l.attempt + 1)
  {
    hide Classify, Sentinel;
  }

  lemma StaleAnswer(l: Loop, r: Reply)
    requires Restarts(l, r)
    ensures Answer(l, r) == Loop(None, 0, 1, 0, [], l.requests + 1, l.sentinels, l.stop)
  {
    hide Classify, Sentinel;
  }

  lemma FailedAnswer(l: Loop, r: Reply)
    requires !r.Served? && !RetriesBusy(l, r) && !Restarts(l, r) && l.stop == Going
    ensures SaysSentinel(r) ==>
              Answer(l, r) == l.(requests := l.requests + 1, attempt := 0, sentinels := l.sentinels + 1)
    ensures !SaysSentinel(r) ==>
              Answer(l, r) == l.(requests := l.requests + 1, attempt := l.attempt + 1, stop := GaveUp)
  {
    hide Classify, Sentinel;
  }

  lemma ServedAnswer(l: Loop, page: Page)
    requires l.stop == Going
    ensures Answer(l, Served(Some(page))) ==
            Loop(if page.next.None? then l.cursor else page.next, l.pages + 1, l.staleRestarts, 0,
                 l.history + [page], l.requests + 1, l.sentinels,
                 if page.next.None? then LastPage else if l.pages + 1 >= MAX_PAGES then PageLimit else Going)
  {
  }

  lemma EmptyAnswer(l: Loop)
    ensures Answer(l, Served(None)) ==
            l.(requests := l.requests + 1, attempt := l.attempt + 1, stop := LastPage)
  {
  }

  lemma Rests(l: Loop, replies: seq<Reply>)
    requires replies == [] || l.stop != Going
    ensures Run(l, replies) == l
  {
  }

  /** The variables of the program describe `l`, from which the remaining replies lead to
      the same end as all of them do from the start. */
  ghost predicate Mirrors(l: Loop, cursor: Option<bytes>, pages: nat, staleRestarts: nat, attempt: nat,
                          history: seq<Page>, requests: nat, stop: Stop)
  {
    l == Loop(cursor, pages, staleRestarts, attempt, history, requests, l.sentinels, stop)
  }

  ghost predicate OnTrack(l: Loop, replies: seq<Reply>, k: nat)
    requires k <= |replies|
  {
    Run(l, replies[k..]) == Run(START, replies)
  }

  lemma Advance(l: Loop, replies: seq<Reply>, k: nat)
    requires k < |replies| && l.stop == Going && OnTrack(l, replies, k)
    ensures OnTrack(Answer(l, replies[k]), replies, k + 1)
  {
    RunStep(l, replies, k);
  }

  lemma Arrived(l: Loop, replies: seq<Reply>, k: nat)
    requires k <= |replies| && OnTrack(l, replies, k) && (k == |replies| || l.stop != Going)
    ensures Run(START, replies) == l
  {
    Rests(l, replies[k..]);
  }

  /** `hydrate_history_pages` against the page replies so far, and the reply to a full fetch
      should one be made. */
  method HydrateHistoryPages(replies: seq<Reply>, full: Reply)
      returns (history: seq<Page>, notice: bool, requests: nat, fullFetches: nat)
    ensures var e := Run(START, replies);
            && history == Finish(e, full) && requests == e.requests
            && (notice <==> e.stop == PageLimit)
            && (fullFetches == if e.stop == GaveUp && NothingShown(e.history) then 1 else 0)
  {
    RowsExactly(Run(START, replies).history);
    hide Classify, Sentinel, Rows, NothingShown, Run, Answer;
    var cursor: Option<bytes>, pages, staleRestarts := None, 0, 0;
    history, notice, requests, fullFetches := [], false, 0, 0;
    ghost var l := START;
    assert OnTrack(l, replies, 0) by {
      assert replies[0..] == replies;
    }
    hide OnTrack;
    while requests < |replies| || pages >= MAX_PAGES
      invariant requests <= |replies| && !notice && fullFetches == 0 && pages <= MAX_PAGES
      invariant Mirrors(l, cursor, pages, staleRestarts, 0, history, requests,
                        if pages >= MAX_PAGES then PageLimit else Going)
      invariant OnTrack(l, replies, requests)
      decreases |replies| - requests
    {
      if pages >= MAX_PAGES {
        notice := true;
        Arrived(l, replies, requests);
        return;
      }
      var attempt, result: Option<PageResult>, before := 0, None, requests;
      while result.None? && requests < |replies|
        invariant before <= requests <= |replies| && pages < MAX_PAGES
        invariant result.None? && attempt == 0 ==> requests == before
        invariant result.Some? ==> before < requests
        invariant result.None? ==>
                    && Mirrors(l, cursor, pages, staleRestarts, attempt, history, requests, Going)
                    && OnTrack(l, replies, requests)
        invariant result.Some? && result.value.Fetched? ==>
                    && attempt > 0
                    && Mirrors(l, cursor, pages, staleRestarts, attempt - 1, history, requests - 1, Going)
                    && OnTrack(Answer(l, Served(result.value.page)), replies, requests)
        invariant result.Some? && result.value.Failed? ==>
                    && Mirrors(l, cursor, pages, staleRestarts, if result.value.isSignal then 0 else attempt,
                               history, requests, if result.value.isSignal then Going else GaveUp)
                    && OnTrack(l, replies, requests)
        decreases |replies| - requests
      {
        var r := replies[requests];
        attempt, requests := attempt + 1, requests + 1;
        Advance(l, replies, requests - 1);
        match r {
          case Served(page) =>
            result := Some(Fetched(page));
          case Refused(code, message) =>
            if Classify(code, message) == Busy && attempt < BUSY_RETRIES {
              BusyAnswer(l, r);
              l := Answer(l, r);
            } else if Classify(code, message) == Stale && staleRestarts == 0 {
              StaleAnswer(l, r);
              l := Answer(l, r);
              history, cursor, pages, staleRestarts := [], None, 0, 1;
              result := Some(Failed(true));
            } else {
              FailedAnswer(l, r);
              l := Answer(l, r);
              result := Some(Failed(message == Some(Sentinel())));
            }
          case Unreachable =>
            FailedAnswer(l, r);
            l := Answer(l, r);
            result := Some(Failed(false));
        }
      }
      if result.None? {
        Arrived(l, replies, requests);
        return;
      }
      match result.value {
        case Failed(true) =>
        case Failed(false) =>
          Arrived(l, replies, requests);
          history, fullFetches := FullFetch(history, full);
          return;
        case Fetched(None) =>
          EmptyAnswer(l);
          Arrived(Answer(l, Served(None)), replies, requests);
          return;
        case Fetched(Some(page)) =>
          ServedAnswer(l, page);
          l := Answer(l, Served(Some(page)));
          history, pages := history + [page], pages + 1;
          if page.next.None? {
            Arrived(l, replies, requests);
            return;
          }
          cursor := page.next;
      }
    }
    Arrived(l, replies, requests);
  }

  method FullFetch(history0: seq<Page>, full: Reply) returns (history: seq<Page>, fetches: nat)
    ensures fetches == if Rows(history0) == 0 then 1 else 0
    ensures history == if Rows(history0) == 0 && full.Served? && full.page.Some?
                       then history0 + [full.page.value] else history0
  {
    history, fetches := history0, 0;
    if Rows(history) == 0 {
      fetches := 1;
      if full.Served? && full.page.Some? {
        history := history + [full.page.value];
      }
    }
  }
}
