/** The list of recent sessions kept on disk: stored by time of use, sorted, freed of
    duplicates and cut, and shown to be a move-to-front list. */
module Recents {
  import opened Seqs
  import opened Wrappers

  const MAX_RECENT_SESSIONS: nat := 12
  const U64_MAX: nat := 0xFFFF_FFFF_FFFF_FFFF

  type u64 = x: int | 0 <= x <= 0xFFFF_FFFF_FFFF_FFFF

  /** A path as the code of its components by which paths compare; empty for the empty path. */
  type Path = seq<nat>

  datatype RecentSession = RecentSession(file: Path, cwd: Path, name: string, lastUsed: u64)

  // ----- the order ----------------------------------------------------------

  predicate PathLe(a: Path, b: Path) {
    a == [] || (b != [] && (a[0] < b[0] || (a[0] == b[0] && PathLe(a[1..], b[1..]))))
  }

  lemma {:induction false} PathTotal(a: Path, b: Path)
    ensures PathLe(a, b) || PathLe(b, a)
    ensures PathLe(a, b) && PathLe(b, a) ==> a == b
    ensures a == b ==> PathLe(a, b)
  {
    if a != [] && b != [] && a[0] == b[0] {
      PathTotal(a[1..], b[1..]);
      SplitFirst(a);
      SplitFirst(b);
    }
  }

  lemma {:induction false} PathTransitive(a: Path, b: Path, c: Path)
    requires PathLe(a, b) && PathLe(b, c)
    ensures PathLe(a, c)
  {
    if a != [] && a[0] == b[0] == c[0] {
      PathTransitive(a[1..], b[1..], c[1..]);
    }
  }

  /** `a` may stand before `b`: used later, or as late with no greater a path. */
  predicate Precedes(a: RecentSession, b: RecentSession) {
    a.lastUsed > b.lastUsed || (a.lastUsed == b.lastUsed && PathLe(a.file, b.file))
  }

  /** Paths compare from the front: a beginning comes before what goes on, and the first
      component that differs decides. */
  lemma {:induction false} PathPrefix(p: Path, x: Path)
    ensures PathLe(p, p + x)
  {
    if p != [] {
      PathPrefix(p[1..], x);
      DropOfJoin(p, x, 1);
    }
  }

  lemma {:induction false} PathDiffers(p: Path, x: Path, y: Path)
    requires x != [] && y != [] && x[0] < y[0]
    ensures PathLe(p + x, p + y) && !PathLe(p + y, p + x)
    decreases |p|
  {
    if p == [] {
      JoinEmpty(x);
      JoinEmpty(y);
    } else {
      PathDiffers(p[1..], x, y);
      DropOfJoin(p, x, 1);
      DropOfJoin(p, y, 1);
    }
  }

  lemma PrecedesTotal(a: RecentSession, b: RecentSession)
    ensures Precedes(a, b) || Precedes(b, a)
    ensures Precedes(a, b) && Precedes(b, a) ==> a.file == b.file && a.lastUsed == b.lastUsed
    ensures a == b ==> Precedes(a, b)
  {
    PathTotal(a.file, b.file);
    hide PathLe;
  }

  lemma PrecedesTransitive(a: RecentSession, b: RecentSession, c: RecentSession)
    requires Precedes(a, b) && Precedes(b, c)
    ensures Precedes(a, c)
  {
    hide PathLe;
    if a.lastUsed == b.lastUsed == c.lastUsed {
      PathTransitive(a.file, b.file, c.file);
    }
  }

  predicate AllAfter(x: RecentSession, s: seq<RecentSession>) {
    forall y :: y in s ==> Precedes(x, y)
  }

  predicate Sorted(s: seq<RecentSession>) {
    s == [] || (AllAfter(s[0], s[1..]) && Sorted(s[1..]))
  }

  // ----- normalization ------------------------------------------------------

  predicate Usable(x: RecentSession) {
    x.file != [] && x.cwd != []
  }

  function Retain(s: seq<RecentSession>): seq<RecentSession> {
    if s == [] then [] else (if Usable(s[0]) then [s[0]] else []) + Retain(s[1..])
  }

  function Insert(x: RecentSession, s: seq<RecentSession>): seq<RecentSession> {
    if s == [] || Precedes(x, s[0]) then [x] + s else [s[0]] + Insert(x, s[1..])
  }

  /** The stable sort by `Precedes`: of equals the earlier stays first. */
  function Sort(s: seq<RecentSession>): seq<RecentSession> {
    if s == [] then [] else Insert(s[0], Sort(s[1..]))
  }

  /** The first session for each file that is not in `seen`. */
  function Dedupe(seen: set<Path>, s: seq<RecentSession>): seq<RecentSession>
    decreases |s|
  {
    if s == [] then []
    else if s[0].file in seen then Dedupe(seen, s[1..])
    else [s[0]] + Dedupe(seen + {s[0].file}, s[1..])
  }

  function Truncate(s: seq<RecentSession>): seq<RecentSession> {
    if |s| <= MAX_RECENT_SESSIONS then s else s[..MAX_RECENT_SESSIONS]
  }

  /** `normalize_recent_sessions`. */
  function Normalize(s: seq<RecentSession>): seq<RecentSession> {
    Truncate(Dedupe({}, Sort(Retain(s))))
  }

  // ----- what normalization yields ------------------------------------------

  predicate FileIn(f: Path, s: seq<RecentSession>) {
    exists y :: y in s && y.file == f
  }

  predicate Distinct(s: seq<RecentSession>) {
    s == [] || (!FileIn(s[0].file, s[1..]) && Distinct(s[1..]))
  }

  predicate AllUsable(s: seq<RecentSession>) {
    forall y :: y in s ==> Usable(y)
  }

  /** Usable, in order, one session a file, at most twelve. */
  predicate IsNormal(s: seq<RecentSession>) {
    AllUsable(s) && Sorted(s) && Distinct(s) && |s| <= 12
  }

  lemma {:induction false} RetainMembers(s: seq<RecentSession>, y: RecentSession)
    ensures y in Retain(s) <==> y in s && Usable(y)
  {
    if s != [] {
      RetainMembers(s[1..], y);
      SplitFirst(s);
      assert y in s <==> y == s[0] || y in s[1..];
    }
  }

  lemma {:induction false} InsertMembers(x: RecentSession, s: seq<RecentSession>, y: RecentSession)
    ensures y in Insert(x, s) <==> y == x || y in s
  {
    hide Precedes;
    if s != [] && !Precedes(x, s[0]) {
      InsertMembers(x, s[1..], y);
      assert y in s <==> y == s[0] || y in s[1..];
    }
  }

  lemma {:induction false} InsertSorted(x: RecentSession, s: seq<RecentSession>)
    requires Sorted(s)
    ensures Sorted(Insert(x, s))
  {
    hide Precedes;
    if s == [] {
      assert Insert(x, s)[1..] == [];
    } else if Precedes(x, s[0]) {
      assert ([x] + s)[1..] == s;
      forall y | y in s
        ensures Precedes(x, y)
      {
        if y != s[0] {
          PrecedesTransitive(x, s[0], y);
        }
      }
    } else {
      InsertSorted(x, s[1..]);
      PrecedesTotal(x, s[0]);
      var rest := Insert(x, s[1..]);
      forall y | y in rest
        ensures Precedes(s[0], y)
      {
        InsertMembers(x, s[1..], y);
      }
      assert ([s[0]] + rest)[1..] == rest;
    }
  }

  lemma {:induction false} SortSorted(s: seq<RecentSession>)
    ensures Sorted(Sort(s))
  {
    if s != [] {
      SortSorted(s[1..]);
      InsertSorted(s[0], Sort(s[1..]));
    }
  }

  lemma {:induction false} SortMembers(s: seq<RecentSession>, y: RecentSession)
    ensures y in Sort(s) <==> y in s
  {
    hide Insert;
    if s != [] {
      SortMembers(s[1..], y);
      InsertMembers(s[0], Sort(s[1..]), y);
      assert y in s <==> y == s[0] || y in s[1..];
    }
  }

  lemma {:induction false} DedupeMembers(seen: set<Path>, s: seq<RecentSession>, y: RecentSession)
    requires y in Dedupe(seen, s)
    ensures y in s && y.file !in seen
    decreases |s|
  {
    if s != [] {
      var rest := Dedupe(if s[0].file in seen then seen else seen + {s[0].file}, s[1..]);
      if y in rest {
        DedupeMembers(if s[0].file in seen then seen else seen + {s[0].file}, s[1..], y);
      }
    }
  }

  lemma {:induction false} DedupeNormal(seen: set<Path>, s: seq<RecentSession>)
    requires Sorted(s)
    ensures Sorted(Dedupe(seen, s)) && Distinct(Dedupe(seen, s))
    decreases |s|
  {
    hide Precedes;
    if s != [] {
      if s[0].file in seen {
        DedupeNormal(seen, s[1..]);
      } else {
        var seen' := seen + {s[0].file};
        var rest := Dedupe(seen', s[1..]);
        DedupeNormal(seen', s[1..]);
        forall y | y in rest
          ensures y in s[1..] && y.file != s[0].file
        {
          DedupeMembers(seen', s[1..], y);
        }
        assert ([s[0]] + rest)[1..] == rest;
      }
    }
  }

  lemma {:induction false} DedupeKeepsFirst(seen: set<Path>, s: seq<RecentSession>, x: RecentSession)
      returns (y: RecentSession)
    requires Sorted(s) && x in s && x.file !in seen
    ensures y in Dedupe(seen, s) && y.file == x.file && Precedes(y, x)
    decreases |s|
  {
    PrecedesTotal(x, x);
    hide Precedes;
    if s[0].file == x.file {
      y := s[0];
    } else {
      y := DedupeKeepsFirst(if s[0].file in seen then seen else seen + {s[0].file}, s[1..], x);
    }
  }

  lemma {:induction false} TakeNormal(s: seq<RecentSession>, n: nat)
    requires Sorted(s) && Distinct(s) && n <= |s|
    ensures Sorted(s[..n]) && Distinct(s[..n])
    decreases n
  {
    hide Precedes;
    if n > 0 {
      TakeNormal(s[1..], n - 1);
      var t := s[..n];
      assert t[1..] == s[1..][..n - 1];
      assert forall y :: y in t[1..] ==> y in s[1..];
    }
  }

  lemma NormalizeIsNormal(s: seq<RecentSession>)
    ensures IsNormal(Normalize(s))
  {
    var kept := Retain(s);
    SortSorted(kept);
    DedupeNormal({}, Sort(kept));
    var all := Dedupe({}, Sort(kept));
    TakeNormal(all, if |all| <= 12 then |all| else 12);
    assert all[..|all|] == all;
    forall y | y in Normalize(s)
      ensures Usable(y)
    {
      assert y in all;
      DedupeMembers({}, Sort(kept), y);
      SortMembers(kept, y);
      RetainMembers(s, y);
    }
    hide Sorted, Distinct, Usable, Dedupe, Sort, Retain;
  }

  lemma {:induction false} RetainAll(s: seq<RecentSession>)
    requires AllUsable(s)
    ensures Retain(s) == s
  {
    if s != [] {
      RetainAll(s[1..]);
    }
  }

  lemma InsertFirst(x: RecentSession, s: seq<RecentSession>)
    requires AllAfter(x, s)
    ensures Insert(x, s) == [x] + s
  {
    hide Precedes;
  }

  lemma {:induction false} SortNormal(s: seq<RecentSession>)
    requires Sorted(s)
    ensures Sort(s) == s
  {
    if s != [] {
      SortNormal(s[1..]);
      InsertFirst(s[0], s[1..]);
      SplitFirst(s);
    }
  }

  lemma {:induction false} DedupeDistinct(seen: set<Path>, s: seq<RecentSession>)
    requires Distinct(s) && forall y :: y in s ==> y.file !in seen
    ensures Dedupe(seen, s) == s
    decreases |s|
  {
    if s != [] {
      DedupeDistinct(seen + {s[0].file}, s[1..]);
      SplitFirst(s);
    }
  }

  /** Normalizing changes nothing exactly when there is nothing to normalize. */
  lemma NormalExactly(s: seq<RecentSession>)
    ensures Normalize(s) == s <==> IsNormal(s)
  {
    NormalizeIsNormal(s);
    if IsNormal(s) {
      RetainAll(s);
      SortNormal(s);
      DedupeDistinct({}, s);
    }
    hide IsNormal;
  }

  /** Normalizing is idempotent. */
  lemma NormalizeTwice(s: seq<RecentSession>)
    ensures Normalize(Normalize(s)) == Normalize(s)
  {
    NormalizeIsNormal(s);
    NormalExactly(Normalize(s));
  }

  lemma {:induction false} SortedAt(s: seq<RecentSession>, i: nat, j: nat)
    requires Sorted(s) && i <= j < |s|
    ensures Precedes(s[i], s[j])
    decreases i
  {
    PrecedesTotal(s[i], s[i]);
    hide Precedes;
    if i > 0 {
      SortedAt(s[1..], i - 1, j - 1);
    } else if j > 0 {
      assert s[j] == s[1..][j - 1];
    }
  }

  /** Nothing is lost but older entries for the same file and, once twelve are kept, entries
      that come after all twelve; nothing is made up. */
  lemma NormalizeKeepsNewest(s: seq<RecentSession>, x: RecentSession)
    requires x in s && x.file != [] && x.cwd != []
    ensures var r := Normalize(s);
            || (exists y :: y in r && y.file == x.file && Precedes(y, x))
            || (|r| == 12 && forall y :: y in r ==> Precedes(y, x))
  {
    NormalizeIsNormal(s);
    RetainMembers(s, x);
    SortMembers(Retain(s), x);
    SortSorted(Retain(s));
    var y := DedupeKeepsFirst({}, Sort(Retain(s)), x);
    var all := Dedupe({}, Sort(Retain(s)));
    DedupeNormal({}, Sort(Retain(s)));
    hide Precedes, Sort, Retain, Dedupe, Sorted, Distinct, IsNormal;
    var k :| 0 <= k < |all| && all[k] == y;
    if k < 12 {
      assert Truncate(all)[k] == y;
      assert y in Normalize(s);
    } else {
      forall z | z in Truncate(all)
        ensures Precedes(z, x)
      {
        var i :| 0 <= i < 12 && Truncate(all)[i] == z;
        SortedAt(all, i, k);
        PrecedesTransitive(z, y, x);
      }
    }
  }

  lemma NormalizeMembers(s: seq<RecentSession>, y: RecentSession)
    requires y in Normalize(s)
    ensures y in s && y.file != [] && y.cwd != []
  {
    DedupeMembers({}, Sort(Retain(s)), y);
    SortMembers(Retain(s), y);
    RetainMembers(s, y);
  }

  // ----- remembering and forgetting -----------------------------------------

  function FileOf(x: RecentSession): Path {
    x.file
  }

  lemma {:induction false} WithoutNormal(s: seq<RecentSession>, f: Path)
    requires IsNormal(s)
    ensures IsNormal(Without(s, FileOf, f)) && !FileIn(f, Without(s, FileOf, f)) && |Without(s, FileOf, f)| <= |s|
  {
    hide Precedes, Usable;
    forall y
      ensures y in Without(s, FileOf, f) <==> y in s && y.file != f
    {
      WithoutMembers(s, FileOf, f, y);
    }
    if s != [] {
      var rest := Without(s[1..], FileOf, f);
      assert forall y :: y in s[1..] ==> y in s;
      WithoutNormal(s[1..], f);
      forall y | y in rest
        ensures y in s[1..]
      {
        WithoutMembers(s[1..], FileOf, f, y);
      }
      if s[0].file != f {
        assert ([s[0]] + rest)[1..] == rest;
      } else {
        JoinEmpty(rest);
      }
    }
  }

  function MaxUsed(s: seq<RecentSession>): u64 {
    if s == [] then 0
    else
      var rest := MaxUsed(s[1..]);
      if s[0].lastUsed >= rest then s[0].lastUsed else rest
  }

  /** `next_last_used`: the clock, or one past the latest time in use, saturating. */
  function NextLastUsed(s: seq<RecentSession>, now: u64): u64 {
    var next: u64 := if MaxUsed(s) == U64_MAX then MaxUsed(s) else MaxUsed(s) + 1;
    if now >= next then now else next
  }

  lemma {:induction false} MaxUsedBounds(s: seq<RecentSession>, y: RecentSession)
    requires y in s
    ensures y.lastUsed <= MaxUsed(s)
  {
    if y != s[0] {
      MaxUsedBounds(s[1..], y);
    }
  }

  /** What `remember_recent_session` saves, given the list it loaded and the new record. */
  function Remembered(s: seq<RecentSession>, r: RecentSession): seq<RecentSession> {
    Normalize(Without(s, FileOf, r.file) + [r])
  }

  lemma {:induction false} SortSnoc(s: seq<RecentSession>, r: RecentSession)
    requires Sorted(s) && !FileIn(r.file, s)
    ensures Sort(s + [r]) == Insert(r, s)
  {
    hide Precedes;
    if s == [] {
      assert [r][1..] == [];
    } else {
      var x, rest := s[0], s[1..];
      assert (s + [r])[0] == x && (s + [r])[1..] == rest + [r];
      assert x in s && forall y :: y in rest ==> y in s;
      SortSnoc(rest, r);
      PrecedesTotal(x, r);
      if Precedes(x, r) {
        forall y | y in Insert(r, rest)
          ensures Precedes(x, y)
        {
          InsertMembers(r, rest, y);
        }
        InsertFirst(x, Insert(r, rest));
      } else {
        InsertBefore(r, s);
        assert Insert(r, rest) == [r] + rest;
        InsertFirst(x, rest);
        assert ([r] + rest)[1..] == rest;
        assert [x] + rest == s;
      }
    }
  }

  lemma InsertBefore(r: RecentSession, s: seq<RecentSession>)
    requires Sorted(s) && s != [] && Precedes(r, s[0])
    ensures AllAfter(r, s) && Insert(r, s) == [r] + s && Insert(r, s[1..]) == [r] + s[1..]
  {
    hide Precedes;
    forall y | y in s
      ensures Precedes(r, y)
    {
      if y != s[0] {
        PrecedesTransitive(r, s[0], y);
      }
    }
    assert forall y :: y in s[1..] ==> y in s;
    InsertFirst(r, s[1..]);
  }

  lemma {:induction false} InsertDistinct(r: RecentSession, s: seq<RecentSession>)
    requires Distinct(s) && !FileIn(r.file, s)
    ensures Distinct(Insert(r, s))
  {
    hide Precedes;
    if s == [] || Precedes(r, s[0]) {
      assert ([r] + s)[1..] == s;
    } else {
      var rest := Insert(r, s[1..]);
      assert s[0] in s && forall y :: y in s[1..] ==> y in s;
      InsertDistinct(r, s[1..]);
      forall y | y in rest
        ensures y.file != s[0].file
      {
        InsertMembers(r, s[1..], y);
      }
      assert ([s[0]] + rest)[1..] == rest;
    }
  }

  /** The stored list after remembering: the new record put in its place. */
  lemma RememberInserts(s: seq<RecentSession>, r: RecentSession)
    requires IsNormal(s) && Usable(r)
    ensures Remembered(s, r) == Truncate(Insert(r, Without(s, FileOf, r.file)))
  {
    WithoutNormal(s, r.file);
    var w := Without(s, FileOf, r.file);
    forall y | y in w + [r]
      ensures Usable(y)
    {
      assert y in w || y == r;
    }
    hide Usable, Without;
    RetainAll(w + [r]);
    SortSnoc(w, r);
    InsertDistinct(r, w);
    DedupeDistinct({}, Insert(r, w));
  }

  /** No other session was used at the greatest time there is and has a smaller path. */
  predicate Unshadowed(s: seq<RecentSession>, f: Path) {
    forall y :: y in s && y.file != f && y.lastUsed == U64_MAX ==> PathLe(f, y.file)
  }

  /** Remembering puts the new record in front of the others and cuts to twelve exactly when
      no other session sits at the end of time with a smaller path. */
  lemma RememberExactly(s: seq<RecentSession>, r: RecentSession, now: u64)
    requires IsNormal(s) && Usable(r) && r.lastUsed == NextLastUsed(s, now)
    ensures Remembered(s, r) == Truncate([r] + Without(s, FileOf, r.file)) <==> Unshadowed(s, r.file)
  {
    RememberInserts(s, r);
    WithoutNormal(s, r.file);
    AfterAllExactly(s, r, now);
    var w := Without(s, FileOf, r.file);
    hide Usable, Precedes, Without, IsNormal, Unshadowed;
    if AllAfter(r, w) {
      InsertFirst(r, w);
    } else {
      NotFirst(w, r);
      assert Truncate(Insert(r, w))[0] == Insert(r, w)[0];
      assert Truncate([r] + w)[0] == r;
    }
  }

  lemma NotFirst(w: seq<RecentSession>, r: RecentSession)
    requires Sorted(w) && !AllAfter(r, w) && !FileIn(r.file, w)
    ensures Insert(r, w)[0] != r
  {
    if Precedes(r, w[0]) {
      InsertBefore(r, w);
    }
    assert w[0] in w;
    hide Precedes;
  }

  lemma AfterAllExactly(s: seq<RecentSession>, r: RecentSession, now: u64)
    requires r.lastUsed == NextLastUsed(s, now)
    ensures AllAfter(r, Without(s, FileOf, r.file)) <==> Unshadowed(s, r.file)
  {
    forall y
      ensures y in Without(s, FileOf, r.file) <==> y in s && y.file != r.file
      ensures y in s ==> y.lastUsed <= MaxUsed(s)
    {
      WithoutMembers(s, FileOf, r.file, y);
      if y in s {
        MaxUsedBounds(s, y);
      }
    }
    hide Without, MaxUsed, PathLe;
  }

  // ----- runs ---------------------------------------------------------------

  /** A call to `remember_recent_session` or `forget_session`; `now` is the clock it reads. */
  datatype Op =
    | Remember(file: Path, cwd: Path, name: string, now: u64)
    | Forget(file: Path)

  /** The list in the file after a call; the file may hold any list before. */
  function Step(disk: seq<RecentSession>, op: Op): seq<RecentSession> {
    var s := Normalize(disk);
    match op
    case Remember(file, cwd, name, now) =>
      if file == [] || cwd == [] then disk
      else Remembered(s, RecentSession(file, cwd, name, NextLastUsed(s, now)))
    case Forget(file) =>
      if |Without(s, FileOf, file)| != |s| then Normalize(Without(s, FileOf, file)) else disk
  }

  function After(disk: seq<RecentSession>, ops: seq<Op>): seq<RecentSession>
    decreases |ops|
  {
    if ops == [] then disk else After(Step(disk, ops[0]), ops[1..])
  }

  /** A session without its time of use. */
  datatype Entry = Entry(file: Path, cwd: Path, name: string)

  function Shown(x: RecentSession): Entry {
    Entry(x.file, x.cwd, x.name)
  }

  function Show(s: seq<RecentSession>): seq<Entry> {
    if s == [] then [] else [Shown(s[0])] + Show(s[1..])
  }

  function Drop(v: seq<Entry>, f: Path): seq<Entry> {
    if v == [] then [] else (if v[0].file == f then [] else [v[0]]) + Drop(v[1..], f)
  }

  /** A move-to-front list of at most twelve entries, with no clock and no sorting. */
  function MoveToFront(v: seq<Entry>, op: Op): seq<Entry> {
    match op
    case Remember(file, cwd, name, _) =>
      if file == [] || cwd == [] then v
      else
        var all := [Entry(file, cwd, name)] + Drop(v, file);
        if |all| <= 12 then all else all[..12]
    case Forget(file) => Drop(v, file)
  }

  function MoveToFronts(v: seq<Entry>, ops: seq<Op>): seq<Entry>
    decreases |ops|
  {
    if ops == [] then v else MoveToFronts(MoveToFront(v, ops[0]), ops[1..])
  }

  lemma {:induction false} ShowWithout(s: seq<RecentSession>, f: Path)
    ensures Show(Without(s, FileOf, f)) == Drop(Show(s), f)
  {
    if s != [] {
      ShowWithout(s[1..], f);
      var rest := Without(s[1..], FileOf, f);
      PartsOfJoin([Shown(s[0])], Show(s[1..]));
      JoinEmpty(rest);
      JoinEmpty(Drop(Show(s[1..]), f));
      if s[0].file != f {
        PartsOfJoin([s[0]], rest);
      }
    }
  }

  lemma {:induction false} ShowTake(s: seq<RecentSession>, n: nat)
    requires n <= |s|
    ensures |Show(s)| == |s| && Show(s[..n]) == Show(s)[..n]
    decreases |s|
  {
    if s != [] {
      PartsOfJoin([Shown(s[0])], Show(s[1..]));
      if n > 0 {
        ShowTake(s[1..], n - 1);
        assert s[..n][1..] == s[1..][..n - 1];
        HeadThenTake(Show(s), n);
      } else {
        ShowTake(s[1..], 0);
      }
    }
  }

  /** One call, as the user sees it, is one move-to-front step. */
  lemma StepIsMoveToFront(disk: seq<RecentSession>, op: Op)
    requires op.Remember? && op.file != [] && op.cwd != [] ==> Unshadowed(Normalize(disk), op.file)
    ensures Show(Normalize(Step(disk, op))) == MoveToFront(Show(Normalize(disk)), op)
  {
    var s := Normalize(disk);
    NormalizeIsNormal(disk);
    WithoutNormal(s, op.file);
    ShowWithout(s, op.file);
    hide Normalize, IsNormal, Unshadowed, Show;
    match op
    case Remember(file, cwd, name, now) =>
      if file != [] && cwd != [] {
        var r := RecentSession(file, cwd, name, NextLastUsed(s, now));
        RememberExactly(s, r, now);
        NormalizeTwice(Without(s, FileOf, file) + [r]);
        ShowFront(r, Without(s, FileOf, file));
      }
    case Forget(file) =>
      NormalExactly(Without(s, FileOf, file));
      if |Without(s, FileOf, file)| == |s| {
        WithoutNothing(s, file);
      }
  }

  lemma ShowFront(r: RecentSession, w: seq<RecentSession>)
    ensures var all := [Shown(r)] + Show(w);
            Show(Truncate([r] + w)) == if |all| <= MAX_RECENT_SESSIONS then all else all[..MAX_RECENT_SESSIONS]
  {
    var s := [r] + w;
    PartsOfJoin([r], w);
    assert Show(s) == [Shown(r)] + Show(w);
    hide Show;
    ShowTake(s, if |s| <= 12 then |s| else 12);
    assert s[..|s|] == s;
  }

  lemma {:induction false} WithoutShrinks(s: seq<RecentSession>, f: Path)
    ensures |Without(s, FileOf, f)| <= |s|
    ensures |Without(s, FileOf, f)| == |s| ==> Without(s, FileOf, f) == s
  {
    if s != [] {
      WithoutShrinks(s[1..], f);
      SplitFirst(s);
    }
  }

  lemma WithoutNothing(s: seq<RecentSession>, f: Path)
    requires |Without(s, FileOf, f)| == |s|
    ensures Without(s, FileOf, f) == s
  {
    WithoutShrinks(s, f);
  }

  /** Every call of a run meets the condition of `RememberExactly`. */
  predicate NeverShadowed(disk: seq<RecentSession>, ops: seq<Op>)
    decreases |ops|
  {
    ops == []
    || ((ops[0].Remember? && ops[0].file != [] && ops[0].cwd != []
         ==> Unshadowed(Normalize(disk), ops[0].file))
        && NeverShadowed(Step(disk, ops[0]), ops[1..]))
  }

  /** Over every such run, from whatever list the file holds, the stored list reads as the
      move-to-front list. */
  lemma {:induction false} RunIsMoveToFront(disk: seq<RecentSession>, ops: seq<Op>)
    requires NeverShadowed(disk, ops)
    ensures Show(Normalize(After(disk, ops))) == MoveToFronts(Show(Normalize(disk)), ops)
    decreases |ops|
  {
    hide Step, Normalize, Show, MoveToFront, Unshadowed;
    if ops != [] {
      StepIsMoveToFront(disk, ops[0]);
      RunIsMoveToFront(Step(disk, ops[0]), ops[1..]);
    }
  }

  predicate ClockBelow(ops: seq<Op>, limit: nat) {
    forall i :: 0 <= i < |ops| && ops[i].Remember? ==> ops[i].now <= limit
  }

  lemma {:induction false} MaxUsedMember(s: seq<RecentSession>)
    requires s != []
    ensures exists y :: y in s && y.lastUsed == MaxUsed(s)
  {
    assert s[0] in s;
    if s[0].lastUsed < MaxUsed(s[1..]) {
      MaxUsedMember(s[1..]);
      var y :| y in s[1..] && y.lastUsed == MaxUsed(s[1..]);
      assert y in s;
    }
  }

  lemma MaxUsedBelow(s: seq<RecentSession>, limit: nat)
    requires forall y :: y in s ==> y.lastUsed <= limit
    ensures MaxUsed(s) <= limit
  {
    if s != [] {
      MaxUsedMember(s);
    }
  }

  lemma StepUses(disk: seq<RecentSession>, op: Op, limit: nat)
    requires MaxUsed(Normalize(disk)) <= limit < U64_MAX
    requires op.Remember? ==> op.now <= limit
    ensures MaxUsed(Normalize(Step(disk, op))) <= limit + 1
  {
    var s := Normalize(disk);
    var after := Step(disk, op);
    forall y | y in Normalize(after)
      ensures y.lastUsed <= limit + 1
    {
      StepMember(disk, op, y);
      if y in s {
        MaxUsedBounds(s, y);
      }
    }
    hide Step, Normalize, MaxUsed;
    MaxUsedBelow(Normalize(after), limit + 1);
  }

  lemma StepMember(disk: seq<RecentSession>, op: Op, y: RecentSession)
    requires y in Normalize(Step(disk, op))
    ensures y in Normalize(disk) || (op.Remember? && y.lastUsed == NextLastUsed(Normalize(disk), op.now))
  {
    var s := Normalize(disk);
    NormalizeMembers(Step(disk, op), y);
    hide Normalize, NextLastUsed;
    if Step(disk, op) != disk {
      var kept := Without(s, FileOf, op.file);
      WithoutMembers(s, FileOf, op.file, y);
      if op.Remember? {
        var r := RecentSession(op.file, op.cwd, op.name, NextLastUsed(s, op.now));
        NormalizeMembers(kept + [r], y);
        assert y in kept || y == r;
      } else {
        NormalizeMembers(kept, y);
      }
    }
  }

  /** The condition holds as long as neither the clock nor the stored times come near the
      end of time. */
  lemma {:induction false} EarlyClocksNeverShadow(disk: seq<RecentSession>, ops: seq<Op>, limit: nat)
    requires MaxUsed(Normalize(disk)) <= limit && ClockBelow(ops, limit) && limit + |ops| <= U64_MAX
    ensures NeverShadowed(disk, ops)
    decreases |ops|
  {
    hide Step, Normalize, MaxUsed, PathLe;
    if ops != [] {
      var s := Normalize(disk);
      forall y | y in s
        ensures y.lastUsed < U64_MAX
      {
        MaxUsedBounds(s, y);
      }
      StepUses(disk, ops[0], limit);
      EarlyClocksNeverShadow(Step(disk, ops[0]), ops[1..], limit + 1);
    }
  }

  /** The other way: a tie at the end of time is settled by the paths, against the session
      just used. */
  lemma TieAtTheEndOfTime()
    ensures var a := RecentSession([1], [1], "a", 0xFFFF_FFFF_FFFF_FFFF);
            var s := Step([a], Remember([2], [1], "b", 0));
            |s| == 2 && s[0] == a && s[1].file == [2]
  {
    var a := RecentSession([1], [1], "a", 0xFFFF_FFFF_FFFF_FFFF);
    var r := RecentSession([2], [1], "b", 0xFFFF_FFFF_FFFF_FFFF);
    assert [a][1..] == [];
    assert Sorted([]) && Distinct([]);
    assert !FileIn(a.file, [a][1..]) && AllAfter(a, [a][1..]);
    assert IsNormal([a]);
    NormalExactly([a]);
    assert MaxUsed([a]) == U64_MAX;
    RememberInserts([a], r);
    assert Without([a], FileOf, [2]) == [a];
    hide Normalize, Remembered, IsNormal, Sorted, Distinct, Without, MaxUsed;
    assert !Precedes(r, a);
    assert Insert(r, [a]) == [a, r];
  }

  // ----- ties ---------------------------------------------------------------

  predicate HasKey(x: RecentSession, f: Path, t: u64) {
    x.file == f && x.lastUsed == t
  }

  /** The first session with this file and time. */
  function First(s: seq<RecentSession>, f: Path, t: u64): Option<RecentSession> {
    if s == [] then None else if HasKey(s[0], f, t) then Some(s[0]) else First(s[1..], f, t)
  }

  lemma {:induction false} FirstOfInsert(x: RecentSession, s: seq<RecentSession>, f: Path, t: u64)
    ensures First(Insert(x, s), f, t) == if HasKey(x, f, t) then Some(x) else First(s, f, t)
  {
    if s == [] || Precedes(x, s[0]) {
      PartsOfJoin([x], s);
    } else {
      FirstOfInsert(x, s[1..], f, t);
      PartsOfJoin([s[0]], Insert(x, s[1..]));
      PrecedesTotal(x, s[0]);
      PathTotal(x.file, s[0].file);
    }
    hide PathLe;
  }

  lemma {:induction false} SortIsStable(s: seq<RecentSession>, f: Path, t: u64)
    ensures First(Sort(s), f, t) == First(s, f, t)
  {
    hide Insert;
    if s != [] {
      SortIsStable(s[1..], f, t);
      FirstOfInsert(s[0], Sort(s[1..]), f, t);
    }
  }

  lemma {:induction false} DedupeKeepsFirstOfTies(seen: set<Path>, s: seq<RecentSession>, y: RecentSession)
    requires y in Dedupe(seen, s)
    ensures First(s, y.file, y.lastUsed) == Some(y)
    decreases |s|
  {
    if s != [] {
      var seen' := if s[0].file in seen then seen else seen + {s[0].file};
      if y in Dedupe(seen', s[1..]) {
        DedupeMembers(seen', s[1..], y);
        DedupeKeepsFirstOfTies(seen', s[1..], y);
      }
    }
  }

  /** Of entries with one file and one time the first listed is the one that is kept. */
  lemma NormalizeKeepsFirstOfTies(s: seq<RecentSession>, y: RecentSession)
    requires y in Normalize(s)
    ensures First(Retain(s), y.file, y.lastUsed) == Some(y)
  {
    DedupeKeepsFirstOfTies({}, Sort(Retain(s)), y);
    SortIsStable(Retain(s), y.file, y.lastUsed);
  }

  // ----- the program --------------------------------------------------------

  lemma {:induction false} RetainSnoc(s: seq<RecentSession>, x: RecentSession)
    ensures Retain(s + [x]) == Retain(s) + (if Usable(x) then [x] else [])
  {
    hide Usable;
    if s != [] {
      RetainSnoc(s[1..], x);
      assert (s + [x])[1..] == s[1..] + [x];
    }
  }

  method NormalizeRecentSessions(s: seq<RecentSession>) returns (sessions: seq<RecentSession>)
    ensures sessions == Normalize(s)
  {
    hide Usable, Precedes, Normalize, Sort;
    sessions := [];
    for i := 0 to |s|
      invariant sessions == Retain(s[..i])
    {
      RetainSnoc(s[..i], s[i]);
      assert s[..i] + [s[i]] == s[..i + 1];
      if Usable(s[i]) {
        sessions := sessions + [s[i]];
      }
    }
    assert s[..|s|] == s;
    ghost var goal := Normalize(s);
    assert goal == Truncate(Dedupe({}, Sort(Retain(s)))) by {
      NormalizeUnfolds(s);
    }
    var sorted := Sort(sessions);
    var seen: set<Path> := {};
    sessions := [];
    assert sorted[0..] == sorted;
    JoinEmpty(Dedupe({}, sorted));
    for i := 0 to |sorted|
      invariant sessions + Dedupe(seen, sorted[i..]) == Dedupe({}, sorted)
    {
      ghost var rest := sorted[i..];
      assert rest[0] == sorted[i] && rest[1..] == sorted[i + 1..];
      if sorted[i].file !in seen {
        JoinAssoc(sessions, [sorted[i]], Dedupe(seen + {sorted[i].file}, rest[1..]));
        seen := seen + {sorted[i].file};
        sessions := sessions + [sorted[i]];
      }
    }
    assert sorted[|sorted|..] == [];
    JoinEmpty(sessions);
    if |sessions| > MAX_RECENT_SESSIONS {
      sessions := sessions[..MAX_RECENT_SESSIONS];
    }
  }

  lemma NormalizeUnfolds(s: seq<RecentSession>)
    ensures Normalize(s) == Truncate(Dedupe({}, Sort(Retain(s))))
  {
    hide Truncate, Dedupe, Sort, Retain;
  }

  lemma {:induction false} MaxUsedSnoc(s: seq<RecentSession>, x: RecentSession)
    ensures MaxUsed(s + [x]) == if x.lastUsed >= MaxUsed(s) then x.lastUsed else MaxUsed(s)
  {
    if s == [] {
      assert [x][1..] == [];
      JoinEmpty([x]);
    } else {
      MaxUsedSnoc(s[1..], x);
      assert (s + [x])[1..] == s[1..] + [x];
    }
  }

  method NextLastUsedAt(s: seq<RecentSession>, now: u64) returns (t: u64)
    ensures t == NextLastUsed(s, now)
    ensures MaxUsed(s) < U64_MAX ==> forall y :: y in s ==> y.lastUsed < t
  {
    var previous: u64 := 0;
    for i := 0 to |s|
      invariant previous == MaxUsed(s[..i])
    {
      MaxUsedSnoc(s[..i], s[i]);
      assert s[..i] + [s[i]] == s[..i + 1];
      if s[i].lastUsed >= previous {
        previous := s[i].lastUsed;
      }
    }
    assert s[..|s|] == s;
    var next: u64 := if previous == U64_MAX then previous else previous + 1;
    t := if now >= next then now else next;
    forall y | y in s
      ensures y.lastUsed <= MaxUsed(s)
    {
      MaxUsedBounds(s, y);
    }
  }

  /** White space as `str::trim` knows it. */
  predicate IsWhite(c: char) {
    var n := c as int;
    || 0x09 <= n <= 0x0D || n == 0x20 || n == 0x85 || n == 0xA0 || n == 0x1680
    || 0x2000 <= n <= 0x200A || n == 0x2028 || n == 0x2029 || n == 0x202F || n == 0x205F || n == 0x3000
  }

  /** A text without surrounding white space; nothing is left of a blank one. */
  function Cleaned(text: Option<string>): Option<string> {
    if text.None? then None
    else
      var t := TrimRight(TrimLeft(text.value, IsWhite), IsWhite);
      if t == [] then None else Some(t)
  }

  /** `SessionPersistence`: the parsed contents of the file of recent sessions, empty when it
      is missing or unreadable, and of the file that names the last session. `pathOf` is how
      the system reads a text as a path, `defaultName` the name after a directory. */
  class SessionPersistence {
    const pathOf: string -> Path
    const defaultName: Path -> string
    var recent: seq<RecentSession>
    var last: Option<Path>

    /** A text that is not empty is no empty path. */
    ghost predicate Sound() {
      forall t :: t != [] ==> pathOf(t) != []
    }

    constructor (pathOf: string -> Path, defaultName: Path -> string, disk: seq<RecentSession>, lastFile: Option<Path>)
      ensures this.pathOf == pathOf && this.defaultName == defaultName
      ensures recent == disk && last == lastFile
    {
      this.pathOf, this.defaultName, recent, last := pathOf, defaultName, disk, lastFile;
    }

    /** What a call to remember asks for: nothing without a file or a directory; the name is
        the trimmed one unless that is blank. */
    function Request(file: Option<string>, cwd: Option<Path>, name: Option<string>, now: u64): Option<Op> {
      if Cleaned(file).None? || cwd.None? || cwd.value == [] then None
      else
        var shown := if Cleaned(name).Some? then Cleaned(name).value else defaultName(cwd.value);
        Some(Remember(pathOf(Cleaned(file).value), cwd.value, shown, now))
    }

    method LoadRecentSessions() returns (sessions: seq<RecentSession>)
      ensures sessions == Normalize(recent) && IsNormal(sessions)
    {
      sessions := NormalizeRecentSessions(recent);
      NormalizeIsNormal(recent);
    }

    /** `written`: the file could be replaced. */
    method SaveRecentSessions(sessions: seq<RecentSession>, written: bool)
      modifies this`recent
      ensures recent == if written then Normalize(sessions) else old(recent)
    {
      var contents := NormalizeRecentSessions(sessions);
      if written {
        recent := contents;
      }
    }

    method RememberRecentSession(file: Option<string>, cwd: Option<Path>, name: Option<string>, now: u64, written: bool)
      requires Sound()
      modifies this`recent
      ensures var op := Request(file, cwd, name, now);
              recent == if op.None? || !written then old(recent) else Step(old(recent), op.value)
      ensures var op := Request(file, cwd, name, now);
              op.Some? && written && Unshadowed(Normalize(old(recent)), op.value.file) ==>
                Show(recent) == MoveToFront(Show(Normalize(old(recent))), op.value)
    {
      hide Normalize, NextLastUsed, Without, Show, MoveToFront, Unshadowed, Cleaned;
      var sessionFile, given := Cleaned(file), Cleaned(name);
      if sessionFile.None? || cwd.None? || cwd.value == [] {
        return;
      }
      var sessions := LoadRecentSessions();
      var lastUsed := NextLastUsedAt(sessions, now);
      var record := RecentSession(pathOf(sessionFile.value), cwd.value,
                                  if given.Some? then given.value else defaultName(cwd.value), lastUsed);
      assert record.file != [] by {
        CleanedIsNotEmpty(file);
      }
      sessions := RetainOthers(sessions, FileOf, record.file);
      sessions := sessions + [record];
      SaveRecentSessions(sessions, written);
      NormalizeTwice(sessions);
      if written && Unshadowed(Normalize(old(recent)), record.file) {
        StepIsMoveToFront(old(recent), Remember(record.file, record.cwd, record.name, now));
      }
    }

    /** `removed`: the file that names the last session could be deleted. */
    method ForgetSession(file: Path, written: bool, removed: bool)
      modifies this
      ensures recent == if written then Step(old(recent), Forget(file)) else old(recent)
      ensures written ==> !FileIn(file, Normalize(recent))
      ensures last == if removed && old(last) == Some(file) then None else old(last)
    {
      hide Normalize, Without;
      var sessions := LoadRecentSessions();
      var originalLen := |sessions|;
      WithoutNormal(sessions, file);
      WithoutShrinks(sessions, file);
      NormalExactly(Without(sessions, FileOf, file));
      sessions := RetainOthers(sessions, FileOf, file);
      if |sessions| != originalLen {
        NormalizeTwice(sessions);
        SaveRecentSessions(sessions, written);
      }
      if removed && last == Some(file) {
        last := None;
      }
    }
  }

  /** What is left after trimming starts and ends with a character that is not white space. */
  lemma CleanedIsTrimmed(text: Option<string>)
    ensures Cleaned(text).Some? ==>
              var t := Cleaned(text).value;
              t != [] && !IsWhite(t[0]) && !IsWhite(t[|t| - 1])
  {
    hide IsWhite;
    if text.Some? {
      var left := TrimLeft(text.value, IsWhite);
      var j := TrimLeftIsSlice(text.value, IsWhite);
      var k := TrimRightIsSlice(left, IsWhite);
      if k > 0 {
        assert left[..k][0] == left[0];
      }
    }
  }

  /** The characters are those with the Unicode property White_Space. */
  lemma WhiteExactly(c: char)
    ensures IsWhite(c) <==>
            c as int in {0x09, 0x0A, 0x0B, 0x0C, 0x0D, 0x20, 0x85, 0xA0, 0x1680, 0x2000, 0x2001, 0x2002, 0x2003,
                         0x2004, 0x2005, 0x2006, 0x2007, 0x2008, 0x2009, 0x200A, 0x2028, 0x2029, 0x202F, 0x205F,
                         0x3000}
  {
  }

  /** All characters are white space. */
  predicate Blank(t: string) {
    forall i :: 0 <= i < |t| ==> IsWhite(t[i])
  }

  /** A text that neither starts nor ends with white space. */
  predicate Trimmed(t: string) {
    t != [] && !IsWhite(t[0]) && !IsWhite(t[|t| - 1])
  }

  /** What is left of a text is all of it between white space at its ends; nothing is left of
      a blank one. */
  lemma CleanedKeeps(pre: string, t: string, post: string)
    requires Blank(pre) && Blank(post) && (t == [] || Trimmed(t))
    ensures Cleaned(Some(pre + t + post)) == if t == [] then None else Some(t)
  {
    if t == [] {
      TrimLeftDrops(pre + t + post, [], IsWhite);
      JoinEmpty(pre + t + post);
    } else {
      JoinAssoc(pre, t, post);
      TrimLeftDrops(pre, t + post, IsWhite);
      TrimRightDrops(t, post, IsWhite);
    }
    hide IsWhite;
  }

  /** Of a named session the trimmed name is stored; of one without a name, or with a blank
      one, the name after its directory; a blank file asks for nothing. */
  lemma RequestSays(p: SessionPersistence, pre: string, file: string, post: string, cwd: Path,
                    before: string, name: string, after: string, now: u64)
    requires Blank(pre) && Blank(post) && (file == [] || Trimmed(file))
    requires Blank(before) && Blank(after) && (name == [] || Trimmed(name))
    ensures var op := p.Request(Some(pre + file + post), Some(cwd), Some(before + name + after), now);
            if file == [] || cwd == [] then op == None
            else op == Some(Remember(p.pathOf(file), cwd, if name == [] then p.defaultName(cwd) else name, now))
    ensures file != [] && cwd != [] ==>
              p.Request(Some(pre + file + post), Some(cwd), None, now)
              == Some(Remember(p.pathOf(file), cwd, p.defaultName(cwd), now))
    ensures p.Request(None, Some(cwd), Some(name), now) == None
    ensures p.Request(Some(file), None, Some(name), now) == None
  {
    CleanedKeeps(pre, file, post);
    CleanedKeeps(before, name, after);
    assert Cleaned(None) == None;
    hide Cleaned, IsWhite;
  }

  lemma CleanedIsNotEmpty(text: Option<string>)
    ensures Cleaned(text).Some? ==> Cleaned(text).value != []
  {
  }
}
