/** Reading what the login shell prints: the path of the binary, a marker line, and the
    environment as NUL-ended records. */
module Discovery {
  import opened Seqs
  import opened Utf8
  import opened Wrappers

  const NUL: byte := 0
  const NEWLINE: byte := 10
  const EQUALS: byte := 61

  type Env = map<bytes, bytes>

  /** `ENV_MARKER`. */
  function Marker(): (m: bytes)
    ensures |m| == 46 && NEWLINE !in m
  {
    Ascii("--PIMIENTO-OMP-ENV-") + Ascii("8f3c1a94b06d4e2a") + Ascii("-BOUNDARY--")
  }

  /** The marker in full. */
  lemma MarkerInFull()
    ensures Marker()[..19] == Ascii("--PIMIENTO-OMP-ENV-")
    ensures Marker()[19..35] == Ascii("8f3c1a94b06d4e2a")
    ensures Marker()[35..] == Ascii("-BOUNDARY--")
  {
  }

  // ----- searching and cutting ----------------------------------------------

  /** The first position of `b`; the length if there is none. */
  function IndexOf(s: bytes, b: byte): (i: nat)
    ensures i <= |s| && b !in s[..i]
    ensures i < |s| ==> s[i] == b
  {
    if s == [] || s[0] == b then 0
    else
      HeadThenTake(s, 1 + IndexOf(s[1..], b));
      1 + IndexOf(s[1..], b)
  }

  /** `find_subslice`: the first occurrence, none for an empty needle. */
  function FindFrom(hay: bytes, needle: bytes, i: nat): (r: Option<nat>)
    ensures r.Some? ==> i <= r.value && MatchAt(hay, r.value, needle)
    ensures forall j :: i <= j && (r.Some? ==> j < r.value) ==> needle == [] || !MatchAt(hay, j, needle)
    decreases |hay| - i
  {
    if needle == [] || |needle| + i > |hay| then None
    else if hay[i..i + |needle|] == needle then Some(i)
    else FindFrom(hay, needle, i + 1)
  }

  function FindSubslice(hay: bytes, needle: bytes): Option<nat> {
    FindFrom(hay, needle, 0)
  }

  /** Space, tab or carriage return. */
  predicate IsBlank(b: byte) {
    b == 32 || b == 9 || b == 13
  }

  function Trim(s: bytes): bytes {
    TrimRight(TrimLeft(s, IsBlank), IsBlank)
  }

  /** The pieces between separators, one more than there are separators. */
  function Split(s: bytes, sep: byte): (pieces: seq<bytes>)
    ensures pieces != []
    decreases |s|
  {
    var i := IndexOf(s, sep);
    if i == |s| then [s] else [s[..i]] + Split(s[i + 1..], sep)
  }

  // ----- records ------------------------------------------------------------

  datatype Record = Record(key: bytes, value: bytes)

  /** A record has a non-empty key, which ends at the first equals sign. */
  function ParseRecord(piece: bytes): Option<Record> {
    var e := IndexOf(piece, EQUALS);
    if e == |piece| || e == 0 then None else Some(Record(piece[..e], piece[e + 1..]))
  }

  function Put(m: Env, piece: bytes): Env {
    var r := ParseRecord(piece);
    if r.None? then m else m[r.value.key := r.value.value]
  }

  function PutAll(m: Env, pieces: seq<bytes>): Env
    decreases |pieces|
  {
    if pieces == [] then m else PutAll(Put(m, pieces[0]), pieces[1..])
  }

  function EnvOf(body: bytes, sep: byte): Env {
    PutAll(map[], Split(body, sep))
  }

  // ----- the whole output ---------------------------------------------------

  datatype Parsed =
    | MissingMarker
    | Captured(path: Option<bytes>, env: Env)

  /** The first line that is not blank, trimmed. */
  function FirstLine(lines: seq<bytes>): Option<bytes> {
    if lines == [] then None
    else if Trim(lines[0]) != [] then Some(Trim(lines[0]))
    else FirstLine(lines[1..])
  }

  function Resolved(head: bytes): Option<bytes> {
    var line := FirstLine(Split(head, NEWLINE));
    if line == Some(Marker()) then None else line
  }

  /** What comes after the rest of the marker's line. */
  function EnvBody(rest: bytes): bytes {
    var nl := IndexOf(rest, NEWLINE);
    if nl == |rest| then [] else rest[nl + 1..]
  }

  /** `parse_login_shell_output`. */
  function Parse(stdout: bytes): Parsed {
    var at := FindSubslice(stdout, Marker());
    if at.None? then MissingMarker
    else
      var body := EnvBody(stdout[at.value + |Marker()|..]);
      Captured(Resolved(stdout[..at.value]), EnvOf(body, if NUL in body then NUL else NEWLINE))
  }

  // ----- what the shell prints ----------------------------------------------

  /** The records, each followed by `sep`. */
  function PrintRecords(records: seq<Record>, sep: byte): bytes {
    if records == [] then []
    else records[0].key + [EQUALS] + records[0].value + [sep] + PrintRecords(records[1..], sep)
  }

  /** The output of the login-shell script. */
  function PrintOutput(path: Option<bytes>, records: seq<Record>, sep: byte): bytes {
    (if path.Some? then path.value + [NEWLINE] else []) + [NEWLINE] + Marker() + [NEWLINE]
    + PrintRecords(records, sep)
  }

  /** The environment with these records, the last record for a key counting. */
  function Environment(m: Env, records: seq<Record>): Env
    decreases |records|
  {
    if records == [] then m else Environment(m[records[0].key := records[0].value], records[1..])
  }

  /** Keys are not empty and have neither equals sign nor separator; values have no
      separator, but may have newlines, equals signs or the marker. */
  predicate GoodRecord(r: Record, sep: byte) {
    r.key != [] && EQUALS !in r.key && sep !in r.key && sep !in r.value
  }

  predicate GoodRecords(records: seq<Record>, sep: byte) {
    forall r :: r in records ==> GoodRecord(r, sep)
  }

  /** A line that is neither blank nor padded and does not hold the marker. */
  predicate GoodPath(p: bytes) {
    p != [] && Trim(p) == p && NEWLINE !in p && !Contains(p, Marker())
  }

  // ----- the pieces of a separated text -------------------------------------

  lemma IndexUnique(s: bytes, b: byte, i: nat)
    requires i <= |s| && b !in s[..i] && (i < |s| ==> s[i] == b)
    ensures IndexOf(s, b) == i
  {
    var k := IndexOf(s, b);
    assert forall x :: 0 <= x < i ==> s[..i][x] == s[x];
    assert forall x :: 0 <= x < k ==> s[..k][x] == s[x];
  }

  lemma IndexOfJoin(a: bytes, b: byte, rest: bytes)
    requires b !in a
    ensures IndexOf(a + [b] + rest, b) == |a|
  {
    var s := a + [b] + rest;
    assert s[..|a|] == a;
    IndexUnique(s, b, |a|);
  }

  lemma IndexOfNone(a: bytes, b: byte)
    requires b !in a
    ensures IndexOf(a, b) == |a|
  {
    assert a[..|a|] == a;
    IndexUnique(a, b, |a|);
  }

  /** Splitting undoes one joining. */
  lemma SplitJoin(a: bytes, sep: byte, rest: bytes)
    requires sep !in a
    ensures Split(a + [sep] + rest, sep) == [a] + Split(rest, sep)
  {
    var s := a + [sep] + rest;
    IndexOfJoin(a, sep, rest);
    assert s[..|a|] == a && s[|a| + 1..] == rest;
  }

  lemma SplitNone(a: bytes, sep: byte)
    requires sep !in a
    ensures Split(a, sep) == [a]
  {
    IndexOfNone(a, sep);
  }

  lemma {:induction false} PieceHasNoSeparator(s: bytes, sep: byte, piece: bytes)
    requires piece in Split(s, sep)
    ensures sep !in piece
    decreases |s|
  {
    var i := IndexOf(s, sep);
    if i == |s| {
      assert s[..|s|] == s;
    } else if piece != s[..i] {
      PieceHasNoSeparator(s[i + 1..], sep, piece);
    }
  }

  lemma SplitCases(s: bytes, sep: byte, piece: bytes)
    requires piece in Split(s, sep)
    ensures var i := IndexOf(s, sep);
            piece == s[..i] || (i < |s| && piece in Split(s[i + 1..], sep))
  {
    hide IndexOf;
    var i := IndexOf(s, sep);
    if i == |s| {
      TakeIsSlice(s, i);
    } else {
      var first, rest := s[..i], Split(s[i + 1..], sep);
      assert Split(s, sep) == [first] + rest;
      hide Split;
      InCons(first, rest, piece);
    }
  }

  lemma InCons(first: bytes, rest: seq<bytes>, piece: bytes)
    requires piece in [first] + rest
    ensures piece == first || piece in rest
  {
  }

  /** Every piece is a slice of the text. */
  lemma {:induction false} PieceIsSlice(s: bytes, sep: byte, piece: bytes) returns (at: nat)
    requires piece in Split(s, sep)
    ensures at + |piece| <= |s| && s[at..at + |piece|] == piece
    decreases |s|
  {
    hide Split, IndexOf;
    var i := IndexOf(s, sep);
    SplitCases(s, sep, piece);
    TakeIsSlice(s, i);
    if piece == s[..i] {
      at := 0;
    } else {
      var k := PieceIsSlice(s[i + 1..], sep, piece);
      at := i + 1 + k;
      SliceInSuffix(s, i + 1, k, |piece|);
    }
  }

  // ----- records come back --------------------------------------------------

  lemma RecordComesBack(r: Record)
    requires r.key != [] && EQUALS !in r.key
    ensures ParseRecord(r.key + [EQUALS] + r.value) == Some(r)
  {
    var piece := r.key + [EQUALS] + r.value;
    IndexOfJoin(r.key, EQUALS, r.value);
    assert piece[..|r.key|] == r.key && piece[|r.key| + 1..] == r.value;
  }

  lemma {:induction false} RecordsComeBack(m: Env, records: seq<Record>, sep: byte)
    requires GoodRecords(records, sep) && sep != EQUALS
    ensures PutAll(m, Split(PrintRecords(records, sep), sep)) == Environment(m, records)
    decreases |records|
  {
    if records == [] {
      SplitNone([], sep);
      assert ParseRecord([]) == None;
      assert PutAll(Put(m, []), []) == m;
    } else {
      var r, rest := records[0], PrintRecords(records[1..], sep);
      assert GoodRecord(r, sep);
      var line := r.key + [EQUALS] + r.value;
      SplitJoin(line, sep, rest);
      RecordComesBack(r);
      PartsOfJoin([line], Split(rest, sep));
      hide Split, ParseRecord;
      RecordsComeBack(m[r.key := r.value], records[1..], sep);
    }
  }

  lemma NulInRecords(records: seq<Record>)
    ensures records != [] ==> NUL in PrintRecords(records, NUL)
  {
    if records != [] {
      var front := records[0].key + [EQUALS] + records[0].value;
      var s := front + [NUL] + PrintRecords(records[1..], NUL);
      assert s[|front|] == NUL;
    }
  }

  lemma {:induction false} NoNulInLines(records: seq<Record>)
    requires forall r :: r in records ==> NUL !in r.key && NUL !in r.value
    ensures NUL !in PrintRecords(records, NEWLINE)
  {
    if records != [] {
      NoNulInLines(records[1..]);
    }
  }

  // ----- the path comes back ------------------------------------------------

  predicate Blank(s: bytes) {
    forall i :: 0 <= i < |s| ==> s[i] as char in " \t\r"
  }

  /** What is left is all of it between spaces, tabs and carriage returns at its ends. */
  lemma TrimKeeps(pre: bytes, t: bytes, post: bytes)
    requires Blank(pre) && Blank(post)
    requires t != [] ==> t[0] as char !in " \t\r" && t[|t| - 1] as char !in " \t\r"
    ensures Trim(pre + t + post) == t
  {
    forall b: byte
      ensures IsBlank(b) <==> b as char in " \t\r"
    {
    }
    if t == [] {
      TrimLeftDrops(pre + t + post, [], IsBlank);
      JoinEmpty(pre + t + post);
    } else {
      JoinAssoc(pre, t, post);
      TrimLeftDrops(pre, t + post, IsBlank);
      TrimRightDrops(t, post, IsBlank);
    }
    hide IsBlank;
  }

  lemma TrimIsSlice(s: bytes) returns (at: nat)
    ensures at + |Trim(s)| <= |s| && Trim(s) == s[at..at + |Trim(s)|]
    ensures Trim(Trim(s)) == Trim(s)
  {
    at := TrimLeftIsSlice(s, IsBlank);
    var left := TrimLeft(s, IsBlank);
    var k := TrimRightIsSlice(left, IsBlank);
    var t := Trim(s);
    assert t == s[at..at + k];
    if t != [] {
      assert t[0] == left[0];
      assert TrimLeft(t, IsBlank) == t;
    }
  }

  /** A marker that follows a newline is found unless the text before it holds one. */
  lemma MarkerFound(head: bytes, rest: bytes)
    requires head != [] && head[|head| - 1] == NEWLINE && !Contains(head, Marker())
    ensures FindSubslice(head + Marker() + rest, Marker()) == Some(|head|)
  {
    var m := Marker();
    var s := head + m + rest;
    hide Marker;
    assert s[|head|..|head| + 46] == m;
    assert MatchAt(s, |head|, m);
    forall j | 0 <= j < |head|
      ensures !MatchAt(s, j, m)
    {
      NoMatchAcross(head, rest, j);
    }
  }

  lemma NoMatchAcross(head: bytes, rest: bytes, j: nat)
    requires j < |head| && head[|head| - 1] == NEWLINE && !Contains(head, Marker())
    ensures !MatchAt(head + Marker() + rest, j, Marker())
  {
    var m := Marker();
    var s := head + m + rest;
    hide Marker;
    var cut := s[j..j + 46];
    if j + 46 <= |head| {
      assert cut == head[j..j + 46];
      assert !MatchAt(head, j, m);
    } else {
      assert cut[|head| - 1 - j] == s[|head| - 1] == NEWLINE;
    }
  }

  lemma NoMarkerPastNewline(line: bytes)
    requires !Contains(line, Marker())
    ensures !Contains(line + [NEWLINE], Marker())
  {
    var m := Marker();
    var s := line + [NEWLINE];
    hide Marker;
    forall j | 0 <= j <= |s| - |m|
      ensures !MatchAt(s, j, m)
    {
      var cut := s[j..j + 46];
      if j + 46 <= |line| {
        assert cut == line[j..j + 46];
        assert !MatchAt(line, j, m);
      } else {
        assert cut[45] == s[|line|] == NEWLINE;
      }
    }
  }

  /** What the script prints before the marker. */
  function Head(path: Option<bytes>): bytes {
    (if path.Some? then path.value + [NEWLINE] else []) + [NEWLINE]
  }

  lemma HeadHasNoMarker(path: Option<bytes>)
    requires path.Some? ==> !Contains(path.value, Marker())
    ensures !Contains(Head(path), Marker())
  {
    if path.Some? {
      NoMarkerPastNewline(path.value);
      NoMarkerPastNewline(path.value + [NEWLINE]);
    } else {
      hide Marker;
      assert |Head(path)| == 1;
    }
  }

  lemma HeadResolves(path: Option<bytes>)
    requires path.Some? ==> GoodPath(path.value)
    ensures Resolved(Head(path)) == path
  {
    hide Marker, Trim;
    var tail: bytes := [NEWLINE];
    assert tail == [] + [NEWLINE] + [];
    SplitJoin([], NEWLINE, []);
    SplitNone([], NEWLINE);
    assert Split(tail, NEWLINE) == [[], []];
    TrimNothing();
    if path.Some? {
      SplitJoin(path.value, NEWLINE, tail);
      assert Split(Head(path), NEWLINE) == [path.value] + [[], []];
      assert MatchAt(Marker(), 0, Marker());
    } else {
      assert Head(path) == tail;
      var blank: seq<bytes> := [[]];
      assert Split(tail, NEWLINE)[1..] == blank && blank[1..] == [];
      assert FirstLine(blank) == FirstLine(blank[1..]) == None;
    }
  }

  lemma TrimNothing()
    ensures Trim([]) == []
  {
  }

  lemma BodyFollows(records: seq<Record>, sep: byte)
    ensures EnvBody([NEWLINE] + PrintRecords(records, sep)) == PrintRecords(records, sep)
  {
    var body := PrintRecords(records, sep);
    hide PrintRecords;
    var rest := [NEWLINE] + body;
    assert rest[0] == NEWLINE && rest[..0] == [];
    IndexUnique(rest, NEWLINE, 0);
    assert rest[1..] == body;
  }

  /** The output is taken apart where it was put together. */
  lemma OutputParses(path: Option<bytes>, records: seq<Record>, sep: byte)
    requires path.Some? ==> !Contains(path.value, Marker())
    ensures var body := PrintRecords(records, sep);
            Parse(PrintOutput(path, records, sep)) ==
            Captured(Resolved(Head(path)), EnvOf(body, if NUL in body then NUL else NEWLINE))
  {
    HeadHasNoMarker(path);
    BodyFollows(records, sep);
    hide Marker, Contains, PrintRecords, Resolved, EnvOf, EnvBody, FindSubslice;
    var head, m, body := Head(path), Marker(), PrintRecords(records, sep);
    var rest := [NEWLINE] + body;
    MarkerFound(head, rest);
    var s := head + m + rest;
    assert PrintOutput(path, records, sep) == s by {
      JoinAssoc(head + m, [NEWLINE], body);
    }
    assert s[..|head|] == head && s[|head| + 46..] == rest;
  }

  /** The records are a listing of the environment. */
  ghost predicate Lists(records: seq<Record>, env: Env) {
    && (forall r :: r in records ==> r.key in env && env[r.key] == r.value)
    && (forall k :: k in env ==> Record(k, env[k]) in records)
  }

  lemma {:induction false} ListingIsEnvironment(m: Env, records: seq<Record>, env: Env)
    requires forall r :: r in records ==> r.key in env && env[r.key] == r.value
    requires forall k :: k in m ==> k in env && env[k] == m[k]
    requires forall k :: k in env ==> k in m || Record(k, env[k]) in records
    ensures Environment(m, records) == env
    decreases |records|
  {
    if records != [] {
      var r := records[0];
      assert r in records;
      SplitFirst(records);
      assert forall x :: x in records <==> x == r || x in records[1..];
      ListingIsEnvironment(m[r.key := r.value], records[1..], env);
    }
  }

  /** Parsing gives back the path and the environment that were printed, even if values hold
      newlines, equals signs or the marker. */
  lemma RoundTrip(path: Option<bytes>, records: seq<Record>, env: Env)
    requires path.Some? ==> GoodPath(path.value)
    requires Lists(records, env) && GoodRecords(records, NUL)
    ensures Parse(PrintOutput(path, records, NUL)) == Captured(path, env)
  {
    OutputParses(path, records, NUL);
    HeadResolves(path);
    NulInRecords(records);
    RecordsComeBack(map[], records, NUL);
    RecordsComeBackFromNothing(records);
    ListingIsEnvironment(map[], records, env);
  }

  lemma RecordsComeBackFromNothing(records: seq<Record>)
    ensures records == [] ==> EnvOf(PrintRecords(records, NUL), NEWLINE) == map[]
  {
    SplitNone([], NEWLINE);
    assert ParseRecord([]) == None;
    assert PutAll(Put(map[], []), []) == map[];
  }

  /** The fallback for shells without NUL-ended records: it works as long as no value spans
      lines. */
  lemma FallbackRoundTrip(path: Option<bytes>, records: seq<Record>, env: Env)
    requires path.Some? ==> GoodPath(path.value)
    requires Lists(records, env) && GoodRecords(records, NEWLINE)
    requires forall r :: r in records ==> NUL !in r.key && NUL !in r.value
    ensures Parse(PrintOutput(path, records, NEWLINE)) == Captured(path, env)
  {
    OutputParses(path, records, NEWLINE);
    HeadResolves(path);
    NoNulInLines(records);
    RecordsComeBack(map[], records, NEWLINE);
    ListingIsEnvironment(map[], records, env);
  }

  // ----- whatever was printed -----------------------------------------------

  /** The only error: no marker in the output. */
  lemma MissingMarkerExactly(stdout: bytes)
    ensures Parse(stdout) == MissingMarker <==> !Contains(stdout, Marker())
  {
    hide Marker;
  }

  lemma {:induction false} FirstLineIsTrimmedLine(lines: seq<bytes>) returns (line: bytes)
    requires FirstLine(lines).Some?
    ensures line in lines && FirstLine(lines).value == Trim(line) != []
  {
    hide Trim;
    if Trim(lines[0]) != [] {
      line := lines[0];
    } else {
      line := FirstLineIsTrimmedLine(lines[1..]);
    }
  }

  lemma NotInSlice(s: bytes, a: nat, n: nat, b: byte)
    requires a + n <= |s| && b !in s
    ensures b !in s[a..a + n]
  {
  }

  lemma NoMatchInSlice(s: bytes, a: nat, n: nat, m: bytes)
    requires a + n <= |s| && forall j :: 0 <= j < a + n ==> !MatchAt(s, j, m)
    requires m != []
    ensures !Contains(s[a..a + n], m)
  {
    var t := s[a..a + n];
    forall i | 0 <= i <= |t| - |m|
      ensures !MatchAt(t, i, m)
    {
      SliceOfSlice(s, a, n, i, |m|);
      assert !MatchAt(s, a + i, m);
    }
  }

  /** A path is part of one line of what comes before the marker. */
  lemma ResolvedIsSlice(head: bytes) returns (at: nat)
    requires Resolved(head).Some?
    ensures var p := Resolved(head).value;
            && at + |p| <= |head| && head[at..at + |p|] == p
            && p != [] && Trim(p) == p && NEWLINE !in p
  {
    var line := FirstLineIsTrimmedLine(Split(head, NEWLINE));
    hide Marker, FirstLine, Trim, Split;
    PieceHasNoSeparator(head, NEWLINE, line);
    var a := PieceIsSlice(head, NEWLINE, line);
    var b := TrimIsSlice(line);
    NotInSlice(line, b, |Trim(line)|, NEWLINE);
    SliceOfSlice(head, a, |line|, b, |Trim(line)|);
    at := a + b;
  }

  /** A path that was found is a good one, whatever the output. */
  lemma ResolvedIsGood(stdout: bytes)
    ensures var r := Parse(stdout);
            r.Captured? && r.path.Some? ==> GoodPath(r.path.value)
  {
    var r := Parse(stdout);
    if r.Captured? && r.path.Some? {
      hide Marker, MatchAt, Resolved, Parse, Trim, GoodPath;
      var at := PathStandsBefore(stdout);
      var k := ResolvedIsSlice(stdout[..at]);
      SliceIsGood(stdout, at, k, r.path.value);
    }
  }

  lemma SliceIsGood(stdout: bytes, at: nat, k: nat, p: bytes)
    requires at <= |stdout| && k + |p| <= at && stdout[..at][k..k + |p|] == p
    requires p != [] && Trim(p) == p && NEWLINE !in p
    requires forall j :: 0 <= j < at ==> !MatchAt(stdout, j, Marker())
    ensures GoodPath(p)
  {
    hide Marker, MatchAt, Contains, Trim;
    SliceOfSlice(stdout, 0, at, k, |p|);
    NoMatchInSlice(stdout, k, |p|, Marker());
  }

  lemma PathStandsBefore(stdout: bytes) returns (at: nat)
    requires Parse(stdout).Captured?
    ensures at <= |stdout| && Parse(stdout).path == Resolved(stdout[..at])
    ensures forall j :: 0 <= j < at ==> !MatchAt(stdout, j, Marker())
  {
    hide Marker, Resolved, EnvOf, EnvBody;
    at := FindSubslice(stdout, Marker()).value;
  }

  /** A printed path is read back exactly when it is good: neither blank nor padded, without
      newline and without the marker. */
  lemma PathComesBackExactly(p: bytes, records: seq<Record>, env: Env)
    requires Lists(records, env) && GoodRecords(records, NUL)
    ensures var r := Parse(PrintOutput(Some(p), records, NUL));
            r.Captured? && r.path == Some(p) <==> GoodPath(p)
  {
    ResolvedIsGood(PrintOutput(Some(p), records, NUL));
    if GoodPath(p) {
      RoundTrip(Some(p), records, env);
    }
    hide GoodPath;
  }

  predicate GoodEnv(m: Env, sep: byte) {
    forall k :: k in m ==> GoodRecord(Record(k, m[k]), sep)
  }

  lemma PutIsGood(m: Env, piece: bytes, sep: byte)
    requires GoodEnv(m, sep) && sep !in piece
    ensures GoodEnv(Put(m, piece), sep)
  {
    var e := IndexOf(piece, EQUALS);
    assert sep !in piece[..e];
    if e < |piece| {
      assert sep !in piece[e + 1..];
    }
  }

  lemma {:induction false} PutAllIsGood(m: Env, pieces: seq<bytes>, sep: byte)
    requires GoodEnv(m, sep) && forall p :: p in pieces ==> sep !in p
    ensures GoodEnv(PutAll(m, pieces), sep)
    decreases |pieces|
  {
    hide Put, GoodEnv;
    if pieces != [] {
      PutIsGood(m, pieces[0], sep);
      PutAllIsGood(Put(m, pieces[0]), pieces[1..], sep);
    }
  }

  lemma {:induction false} PiecesHaveNone(s: bytes, sep: byte, b: byte)
    requires b !in s
    ensures forall p :: p in Split(s, sep) ==> b !in p
  {
    forall p | p in Split(s, sep)
      ensures b !in p
    {
      var at := PieceIsSlice(s, sep, p);
    }
  }

  /** An environment that was read can be printed again: no key or value holds a NUL. */
  lemma EnvIsGood(stdout: bytes)
    ensures Parse(stdout).Captured? ==> GoodEnv(Parse(stdout).env, NUL)
  {
    if Parse(stdout).Captured? {
      var body := EnvBody(stdout[FindSubslice(stdout, Marker()).value + |Marker()|..]);
      hide Marker, Split, EnvBody, FindSubslice, GoodEnv;
      assert GoodEnv(map[], NUL) by {
        NothingIsGood(NUL);
      }
      if NUL in body {
        forall p | p in Split(body, NUL)
          ensures NUL !in p
        {
          PieceHasNoSeparator(body, NUL, p);
        }
        PutAllIsGood(map[], Split(body, NUL), NUL);
      } else {
        PiecesHaveNone(body, NEWLINE, NUL);
        PutAllIsGood(map[], Split(body, NEWLINE), NUL);
      }
    }
  }

  lemma NothingIsGood(sep: byte)
    ensures GoodEnv(map[], sep)
  {
  }

  /** So reading is settled after one round: what was read, printed and read again, is the
      same, whatever the first output was. */
  lemma ReadingSettles(stdout: bytes, records: seq<Record>)
    requires Parse(stdout).Captured? && Lists(records, Parse(stdout).env)
    ensures Parse(PrintOutput(Parse(stdout).path, records, NUL)) == Parse(stdout)
  {
    ResolvedIsGood(stdout);
    EnvIsGood(stdout);
    var r := Parse(stdout);
    hide Parse, GoodPath;
    forall x | x in records
      ensures GoodRecord(x, NUL)
    {
      assert x == Record(x.key, r.env[x.key]);
    }
    RoundTrip(r.path, records, r.env);
  }

  // ----- the program --------------------------------------------------------

  /** `trim_ascii_space`. */
  method TrimAsciiSpace(s: bytes) returns (start: nat, end: nat)
    ensures start <= end <= |s| && s[start..end] == Trim(s)
  {
    start, end := 0, |s|;
    assert s[0..] == s;
    while start < end && IsBlank(s[start])
      invariant start <= end == |s|
      invariant TrimLeft(s[start..], IsBlank) == TrimLeft(s, IsBlank)
    {
      assert s[start..][1..] == s[start + 1..];
      start := start + 1;
    }
    ghost var left := s[start..];
    assert TrimLeft(s, IsBlank) == left && s[start..end] == left;
    while end > start && IsBlank(s[end - 1])
      invariant start <= end <= |s|
      invariant TrimRight(s[start..end], IsBlank) == TrimRight(left, IsBlank)
    {
      var t := s[start..end];
      assert t[..|t| - 1] == s[start..end - 1];
      end := end - 1;
    }
  }

  /** `find_subslice`. */
  method FindSubsliceIn(hay: bytes, needle: bytes) returns (at: Option<nat>)
    ensures at == FindSubslice(hay, needle) && (at.Some? ==> at.value + |needle| <= |hay|)
    ensures needle != [] ==> (at.None? <==> !Contains(hay, needle))
  {
    if needle == [] || |needle| > |hay| {
      return None;
    }
    var i := 0;
    while i + |needle| <= |hay|
      invariant FindFrom(hay, needle, i) == FindSubslice(hay, needle)
    {
      if hay[i..i + |needle|] == needle {
        return Some(i);
      }
      i := i + 1;
    }
    at := None;
  }

  method PositionOf(s: bytes, b: byte) returns (i: nat)
    ensures i == IndexOf(s, b)
  {
    i := 0;
    while i < |s| && s[i] != b
      invariant i <= |s| && b !in s[..i]
    {
      i := i + 1;
    }
    IndexUnique(s, b, i);
  }

  /** `parse_env_records`. */
  method ParseEnvRecords(body: bytes, sep: byte) returns (out: Env)
    ensures out == EnvOf(body, sep)
  {
    out := map[];
    var pieces := Split(body, sep);
    assert pieces[0..] == pieces;
    for i := 0 to |pieces|
      invariant PutAll(out, pieces[i..]) == EnvOf(body, sep)
    {
      var record := pieces[i];
      assert pieces[i..][0] == record && pieces[i..][1..] == pieces[i + 1..];
      if record == [] {
        continue;
      }
      var eq := PositionOf(record, EQUALS);
      if eq == |record| || eq == 0 {
        continue;
      }
      out := out[record[..eq] := record[eq + 1..]];
    }
  }

  method ParseLoginShellOutput(stdout: bytes) returns (r: Parsed)
    ensures r == Parse(stdout)
    ensures r.MissingMarker? <==> !Contains(stdout, Marker())
    ensures r.Captured? && r.path.Some? ==> GoodPath(r.path.value)
  {
    hide Marker, GoodPath, Resolved, EnvOf, FindSubslice, Contains, EnvBody;
    var marker := Marker();
    var at := FindSubsliceIn(stdout, marker);
    if at.None? {
      return MissingMarker;
    }
    var body := BodyAfter(stdout[at.value + |marker|..]);
    var env := ParseEnvRecords(body, if NUL in body then NUL else NEWLINE);
    r := Captured(Resolved(stdout[..at.value]), env);
    assert r.path.Some? ==> GoodPath(r.path.value) by {
      ResolvedIsGood(stdout);
    }
  }

  method BodyAfter(rest: bytes) returns (body: bytes)
    ensures body == EnvBody(rest)
  {
    var nl := PositionOf(rest, NEWLINE);
    body := if nl == |rest| then [] else rest[nl + 1..];
  }
}
