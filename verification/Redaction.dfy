/** Scrubbing of secrets from text bound for the screen: a scanner that finds the span of a
    secret at a position, and the loop that replaces every span it meets. */
module Redaction {
  import opened Seqs
  import opened Utf8
  import opened Wrappers

  // ----- byte classes -------------------------------------------------------

  type Test = byte -> bool

  predicate IsUpper(b: byte) { 65 <= b <= 90 }

  predicate IsLower(b: byte) { 97 <= b <= 122 }

  predicate IsDigit(b: byte) { 48 <= b <= 57 }

  predicate IsLetter(b: byte) { IsUpper(b) || IsLower(b) }

  predicate IsAlnum(b: byte) { IsLetter(b) || IsDigit(b) }

  predicate IsPlusSlash(b: byte) { b == 43 || b == 47 }

  /** Space, tab, line feed, form feed, carriage return. */
  predicate IsSpace(b: byte) { b == 32 || b == 9 || b == 10 || b == 12 || b == 13 }

  /** `is_secret_value_byte`: alphanumeric or one of `- _ . + / =`. */
  predicate IsSecret(b: byte) {
    IsAlnum(b) || b == 45 || b == 95 || b == 46 || b == 43 || b == 47 || b == 61
  }

  /** A byte of a long run: alphanumeric or one of `+ / =`. */
  predicate IsRun(b: byte) { IsAlnum(b) || b == 43 || b == 47 || b == 61 }

  predicate IsSeparator(b: byte) { b == 61 || b == 58 }

  function LowerByte(b: byte): byte {
    if IsUpper(b) then b + 32 else b
  }

  /** `hay` is `needle`, which is in lower case, in some mixture of cases. */
  predicate EqIgnoreCase(hay: bytes, needle: bytes) {
    |hay| == |needle| && forall k :: 0 <= k < |hay| ==> LowerByte(hay[k]) == needle[k]
  }

  /** How many of the first bytes pass the test. */
  function SpanLen(t: bytes, p: Test): (n: nat)
    ensures n <= |t|
    ensures forall k :: 0 <= k < n ==> p(t[k])
    ensures n < |t| ==> !p(t[n])
  {
    if t == [] || !p(t[0]) then 0 else 1 + SpanLen(t[1..], p)
  }

  predicate Has(t: bytes, p: Test) {
    exists k :: 0 <= k < |t| && p(t[k])
  }

  // ----- the patterns -------------------------------------------------------

  const BEARER := Ascii("bearer")
  const API := Ascii("api")
  const KEY := Ascii("key")
  const TOKEN := Ascii("token")

  /** The end of optional white space and a non-empty value that start at `k`; 0 if there is
      no value. */
  function ValueEnd(t: bytes, k: nat): nat
    requires k <= |t|
  {
    var j := k + SpanLen(t[k..], IsSpace);
    var e := j + SpanLen(t[j..], IsSecret);
    if e > j then e else 0
  }

  function Bearer(t: bytes): nat {
    if |t| > 6 && EqIgnoreCase(t[..6], BEARER) && IsSpace(t[6]) then ValueEnd(t, 6) else 0
  }

  function ApiKey(t: bytes): nat {
    if |t| >= 6 && EqIgnoreCase(t[..3], API) then
      var k := if t[3] == 95 || t[3] == 45 then 4 else 3;
      if k + 3 < |t| && EqIgnoreCase(t[k..k + 3], KEY) && IsSeparator(t[k + 3])
      then ValueEnd(t, k + 4) else 0
    else 0
  }

  /** `bound`: what comes before is not alphanumeric. */
  function Token(bound: bool, t: bytes): nat {
    if |t| > 5 && EqIgnoreCase(t[..5], TOKEN) && bound && IsSeparator(t[5]) then ValueEnd(t, 6) else 0
  }

  function SkDash(t: bytes): nat {
    if |t| > 3 && LowerByte(t[0]) == 115 && LowerByte(t[1]) == 107 && t[2] == 45
    then var n := SpanLen(t[3..], IsSecret); if n > 0 then 3 + n else 0
    else 0
  }

  predicate Mixed(u: bytes) {
    || Has(u, IsPlusSlash)
    || (Has(u, IsLetter) && Has(u, IsDigit))
    || (Has(u, IsUpper) && Has(u, IsLower) && Has(u, IsDigit))
    || (Has(u, IsUpper) && Has(u, IsLower) && |u| >= 48)
  }

  function LongRun(t: bytes): nat {
    var n := SpanLen(t, IsRun);
    if n >= 40 && Mixed(t[..n]) then n else 0
  }

  /** Length of the secret that starts `t`; 0 if none does. */
  function MatchLen(bound: bool, t: bytes): nat {
    if Bearer(t) > 0 then Bearer(t)
    else if ApiKey(t) > 0 then ApiKey(t)
    else if Token(bound, t) > 0 then Token(bound, t)
    else if SkDash(t) > 0 then SkDash(t)
    else LongRun(t)
  }

  predicate Bound(s: bytes, i: nat)
    requires i <= |s|
  {
    i == 0 || !IsAlnum(s[i - 1])
  }

  /** `match_secret_span`. */
  function MatchSpan(s: bytes, i: nat): Option<nat>
    requires i <= |s|
  {
    From(i, MatchLen(Bound(s, i), s[i..]))
  }

  /** The end of a span of `n` bytes that starts at `i`; none if it is empty. */
  function From(i: nat, n: nat): Option<nat> {
    if n > 0 then Some(i + n) else None
  }

  // ----- the patterns as their comments give them ---------------------------

  predicate IsKeyByte(b: byte) { IsAlnum(b) || b == 45 || b == 95 }

  predicate IsRunUnpadded(b: byte) { IsAlnum(b) || IsPlusSlash(b) }

  predicate IsPad(b: byte) { b == 61 }

  /** The comment's `sk-[A-Za-z0-9_-]+`. */
  function SkDashAsCommented(t: bytes): nat {
    if |t| > 3 && LowerByte(t[0]) == 115 && LowerByte(t[1]) == 107 && t[2] == 45
    then var n := SpanLen(t[3..], IsKeyByte); if n > 0 then 3 + n else 0
    else 0
  }

  /** The comment's run, with padding only at its end. */
  function RunLenAsCommented(t: bytes): (n: nat)
    ensures n <= |t|
  {
    var m := SpanLen(t, IsRunUnpadded);
    m + SpanLen(t[m..], IsPad)
  }

  function LongRunAsCommented(t: bytes): nat {
    var n := RunLenAsCommented(t);
    if n >= 40 && Mixed(t[..n]) then n else 0
  }

  lemma SpanIs(t: bytes, p: Test, n: nat)
    requires n <= |t| && (forall k :: 0 <= k < n ==> p(t[k])) && (n < |t| ==> !p(t[n]))
    ensures SpanLen(t, p) == n
  {
  }

  /** The code takes the same span as the comment exactly when the key bytes of the comment
      are not followed by one of `. + / =`. */
  lemma SkDashVersusComment(t: bytes)
    requires |t| > 3 && LowerByte(t[0]) == 115 && LowerByte(t[1]) == 107 && t[2] == 45
    ensures var e := 3 + SpanLen(t[3..], IsKeyByte);
            SkDash(t) == SkDashAsCommented(t) <==> e == |t| || !IsSecret(t[e])
  {
    var rest := t[3..];
    var n := SpanLen(rest, IsKeyByte);
    assert n < |rest| ==> rest[n] == t[3 + n];
    if n == |rest| || !IsSecret(rest[n]) {
      SpanIs(rest, IsSecret, n);
    }
  }

  /** The code takes the same run as the comment exactly when it takes none, or no run byte
      follows the padding. */
  lemma LongRunVersusComment(t: bytes)
    ensures var n := RunLenAsCommented(t);
            LongRun(t) == LongRunAsCommented(t) <==> LongRun(t) == 0 || n == |t| || !IsRun(t[n])
  {
    var m := SpanLen(t, IsRunUnpadded);
    var n := RunLenAsCommented(t);
    var all := SpanLen(t, IsRun);
    assert forall k :: m <= k < n ==> t[k] == t[m..][k - m];
    if n == |t| || !IsRun(t[n]) {
      SpanIs(t, IsRun, n);
    }
    RunGoesOn(t, n);
    if LongRun(t) == 0 && n >= 40 && Mixed(t[..n]) {
      MixedPrefix(t[..n], t[..all]);
    }
    hide Mixed;
  }

  lemma RunGoesOn(t: bytes, n: nat)
    requires n <= |t| && forall k :: 0 <= k < n ==> IsRun(t[k])
    ensures n <= SpanLen(t, IsRun)
    ensures n < |t| && IsRun(t[n]) ==> n < SpanLen(t, IsRun)
  {
  }

  /** `sk-.` is a secret to the code and not to its comment. */
  lemma SkDashInput()
    ensures SkDash(Ascii("sk-.")) == 4 && SkDashAsCommented(Ascii("sk-.")) == 0
  {
    var t := Ascii("sk-.");
    assert t[3..] == [46];
    SpanIs([46], IsSecret, 1);
    SpanIs([46], IsKeyByte, 0);
  }

  /** So are twenty letters, an equals sign and twenty digits. */
  lemma LongRunInput()
    ensures var t: bytes := seq(20, _ => 97) + [61] + seq(20, _ => 49);
            LongRun(t) == 41 && LongRunAsCommented(t) == 0
  {
    var t: bytes := seq(20, _ => 97) + [61] + seq(20, _ => 49);
    assert |t| == 41 && t[0] == 97 && t[40] == 49;
    SpanIs(t, IsRun, 41);
    assert t[..41] == t;
    assert Has(t, IsLetter) && Has(t, IsDigit);
    SpanIs(t, IsRunUnpadded, 20);
    assert t[20..][0] == 61 && t[20..][1] == 49;
    SpanIs(t[20..], IsPad, 1);
    hide Has, SpanLen;
  }

  // ----- facts about spans --------------------------------------------------

  predicate Plain(b: byte) {
    b < 128 && b != 91
  }

  /** What the loop relies on: a span stays inside the text, has no byte of a multi-byte
      character and no bracket, and is not followed by an alphanumeric byte. */
  predicate GoodSpan(t: bytes, n: nat) {
    && n <= |t|
    && (forall k :: 0 <= k < n ==> Plain(t[k]))
    && (0 < n < |t| ==> !IsAlnum(t[n]))
  }

  predicate PlainUpTo(t: bytes, k: nat) {
    k <= |t| && forall x :: 0 <= x < k ==> Plain(t[x])
  }

  lemma SpanPlain(t: bytes, k: nat, p: Test)
    requires PlainUpTo(t, k) && forall b: byte :: p(b) ==> Plain(b)
    ensures var e := k + SpanLen(t[k..], p);
            PlainUpTo(t, e) && (e < |t| ==> !p(t[e]))
  {
    var rest := t[k..];
    var n := SpanLen(rest, p);
    forall x | k <= x < k + n
      ensures Plain(t[x])
    {
      assert p(rest[x - k]);
    }
    assert n < |rest| ==> rest[n] == t[k + n];
  }

  lemma ValueIsGood(t: bytes, k: nat)
    requires PlainUpTo(t, k)
    ensures GoodSpan(t, ValueEnd(t, k)) && (ValueEnd(t, k) > 0 ==> ValueEnd(t, k) > k)
  {
    SpanPlain(t, k, IsSpace);
    SpanPlain(t, k + SpanLen(t[k..], IsSpace), IsSecret);
    hide SpanLen, Plain;
  }

  lemma KeywordPlain(hay: bytes, needle: bytes)
    requires EqIgnoreCase(hay, needle) && forall k :: 0 <= k < |needle| ==> IsLower(needle[k])
    ensures forall k :: 0 <= k < |hay| ==> Plain(hay[k])
  {
    forall k | 0 <= k < |hay|
      ensures Plain(hay[k])
    {
      assert LowerByte(hay[k]) == needle[k];
    }
  }

  lemma BearerIsGood(t: bytes)
    ensures GoodSpan(t, Bearer(t))
  {
    if Bearer(t) > 0 {
      KeywordPlain(t[..6], BEARER);
      assert forall x :: 0 <= x < 6 ==> t[x] == t[..6][x];
      ValueIsGood(t, 6);
    }
  }

  lemma PlainSlice(t: bytes, k: nat, n: nat)
    requires k + n <= |t| && PlainUpTo(t[k..k + n], n)
    ensures forall x :: k <= x < k + n ==> Plain(t[x])
  {
    var cut := t[k..k + n];
    forall x | k <= x < k + n
      ensures Plain(t[x])
    {
      assert Plain(cut[x - k]);
    }
  }

  lemma ApiKeyIsGood(t: bytes)
    ensures GoodSpan(t, ApiKey(t))
  {
    if ApiKey(t) > 0 {
      var k := if t[3] == 95 || t[3] == 45 then 4 else 3;
      hide ApiKey, ValueEnd;
      KeywordPlain(t[..3], API);
      KeywordPlain(t[k..k + 3], KEY);
      hide EqIgnoreCase;
      PlainSlice(t, 0, 3);
      PlainSlice(t, k, 3);
      assert Plain(t[3]) && Plain(t[k + 3]);
      hide Plain;
      assert PlainUpTo(t, k + 4);
      ValueIsGood(t, k + 4);
    }
  }

  lemma TokenIsGood(bound: bool, t: bytes)
    ensures GoodSpan(t, Token(bound, t))
  {
    if Token(bound, t) > 0 {
      KeywordPlain(t[..5], TOKEN);
      assert forall x :: 0 <= x < 5 ==> t[x] == t[..5][x];
      ValueIsGood(t, 6);
    }
  }

  lemma SkDashIsGood(t: bytes)
    ensures GoodSpan(t, SkDash(t))
  {
    if SkDash(t) > 0 {
      var n := SkDash(t);
      assert forall x :: 3 <= x < n ==> t[x] == t[3..][x - 3];
      assert n < |t| ==> t[n] == t[3..][n - 3];
    }
  }

  lemma MatchIsGood(bound: bool, t: bytes)
    ensures GoodSpan(t, MatchLen(bound, t))
  {
    BearerIsGood(t);
    ApiKeyIsGood(t);
    TokenIsGood(bound, t);
    SkDashIsGood(t);
    hide Bearer, ApiKey, Token, SkDash;
  }

  // ----- a match needs no more than its own span ----------------------------

  /** `u` begins with the first `n` bytes of `t`. */
  predicate SharesSpan(t: bytes, n: nat, u: bytes) {
    n <= |t| && n <= |u| && forall k :: 0 <= k < n ==> u[k] == t[k]
  }

  lemma SameSpan(t: bytes, u: bytes, p: Test, n: nat)
    requires SharesSpan(t, n, u)
    ensures SpanLen(t, p) < n ==> SpanLen(u, p) == SpanLen(t, p)
    ensures SpanLen(t, p) >= n ==> SpanLen(u, p) >= n
  {
  }

  lemma ValueStable(t: bytes, k: nat, u: bytes)
    requires k <= |t| && ValueEnd(t, k) > 0 && SharesSpan(t, ValueEnd(t, k), u)
    ensures k <= |u| && ValueEnd(u, k) > 0
  {
    ValueBeyond(t, k);
    var e := ValueEnd(t, k);
    var w := SpanLen(t[k..], IsSpace);
    var j := k + w;
    assert forall x :: 0 <= x < e - k ==> t[k..][x] == u[k..][x];
    SameSpan(t[k..], u[k..], IsSpace, e - k);
    assert forall x :: 0 <= x < e - j ==> t[j..][x] == u[j..][x];
    SameSpan(t[j..], u[j..], IsSecret, e - j);
  }

  lemma ValueBeyond(t: bytes, k: nat)
    requires k <= |t| && ValueEnd(t, k) > 0
    ensures k < ValueEnd(t, k) <= |t|
  {
  }

  lemma BearerStable(t: bytes, u: bytes)
    requires Bearer(t) > 0 && SharesSpan(t, Bearer(t), u)
    ensures Bearer(u) > 0
  {
    ValueBeyond(t, 6);
    ValueStable(t, 6, u);
    hide ValueEnd;
    assert t[..6] == u[..6];
  }

  lemma ApiKeyStable(t: bytes, u: bytes)
    requires ApiKey(t) > 0 && SharesSpan(t, ApiKey(t), u)
    ensures ApiKey(u) > 0
  {
    var k := if t[3] == 95 || t[3] == 45 then 4 else 3;
    ValueBeyond(t, k + 4);
    ValueStable(t, k + 4, u);
    hide ValueEnd, EqIgnoreCase;
    assert t[..3] == u[..3];
    assert t[k..k + 3] == u[k..k + 3];
  }

  lemma TokenStable(bound: bool, t: bytes, bound': bool, u: bytes)
    requires Token(bound, t) > 0 && SharesSpan(t, Token(bound, t), u)
    requires bound' || !IsAlnum(t[0])
    ensures Token(bound', u) > 0
  {
    ValueBeyond(t, 6);
    ValueStable(t, 6, u);
    hide ValueEnd;
    assert t[..5] == u[..5];
    assert LowerByte(t[..5][0]) == TOKEN[0];
  }

  lemma SkDashStable(t: bytes, u: bytes)
    requires SkDash(t) > 0 && SharesSpan(t, SkDash(t), u)
    ensures SkDash(u) > 0
  {
    var n := SkDash(t);
    assert t[3..][0] == t[3] && u[3..][0] == u[3];
  }

  lemma HasPrefix(t: bytes, u: bytes, p: Test)
    requires |t| <= |u| && SharesSpan(t, |t|, u) && Has(t, p)
    ensures Has(u, p)
  {
    var k :| 0 <= k < |t| && p(t[k]);
    assert p(u[k]);
  }

  lemma MixedPrefix(t: bytes, u: bytes)
    requires |t| <= |u| && SharesSpan(t, |t|, u) && Mixed(t)
    ensures Mixed(u)
  {
    forall p: Test | Has(t, p)
      ensures Has(u, p)
    {
      HasPrefix(t, u, p);
    }
    hide Has;
  }

  lemma LongRunStable(t: bytes, u: bytes)
    requires LongRun(t) > 0 && SharesSpan(t, LongRun(t), u)
    ensures LongRun(u) > 0
  {
    var n := LongRun(t);
    SameSpan(t, u, IsRun, n);
    MixedPrefix(t[..n], u[..SpanLen(u, IsRun)]);
  }

  /** Text that begins with a secret's span has a secret there. */
  lemma MatchStable(bound: bool, t: bytes, bound': bool, u: bytes)
    requires MatchLen(bound, t) > 0 && SharesSpan(t, MatchLen(bound, t), u)
    requires bound ==> bound' || !IsAlnum(t[0])
    ensures MatchLen(bound', u) > 0
  {
    if Bearer(t) > 0 {
      BearerStable(t, u);
    } else if ApiKey(t) > 0 {
      ApiKeyStable(t, u);
    } else if Token(bound, t) > 0 {
      TokenStable(bound, t, bound', u);
    } else if SkDash(t) > 0 {
      SkDashStable(t, u);
    } else {
      LongRunStable(t, u);
    }
  }

  // ----- what the patterns are, in letters ----------------------------------

  predicate AlnumChar(c: char) { 'A' <= c <= 'Z' || 'a' <= c <= 'z' || '0' <= c <= '9' }

  predicate Secret(b: byte) {
    var c := b as char;
    AlnumChar(c) || c in "-_.+/="
  }

  predicate RunChar(b: byte) {
    var c := b as char;
    AlnumChar(c) || c in "+/="
  }

  predicate White(b: byte) {
    b as char in " \t\n\r" || b == 0x0C
  }

  predicate EqualsOrColon(b: byte) { b as char in "=:" }

  lemma LettersMatch(b: byte)
    ensures IsSecret(b) <==> Secret(b)
    ensures IsRun(b) <==> RunChar(b)
    ensures IsSpace(b) <==> White(b)
    ensures IsSeparator(b) <==> EqualsOrColon(b)
    ensures IsAlnum(b) <==> AlnumChar(b as char)
    ensures White(b) ==> !Secret(b)
  {
  }

  /** The bytes of the comments' patterns. */
  lemma CommentLetters(b: byte)
    ensures IsKeyByte(b) <==> AlnumChar(b as char) || b as char in "-_"
    ensures IsRunUnpadded(b) <==> AlnumChar(b as char) || b as char in "+/"
    ensures IsPad(b) <==> b as char == '='
  {
  }

  /** The bytes from `k` to `n` are the word, in any mixture of cases. */
  predicate Spells(t: bytes, k: nat, n: nat, word: string) {
    && k <= n <= |t| && n - k == |word|
    && forall i :: 0 <= i < |word| ==> t[k + i] as int == word[i] as int || t[k + i] as int == word[i] as int - 32
  }

  /** White space up to `j` and then, up to `n`, a value. */
  predicate GapThenValue(t: bytes, k: nat, j: nat, n: nat) {
    && k <= j < n <= |t|
    && (forall x :: k <= x < j ==> White(t[x]))
    && (forall x :: j <= x < n ==> Secret(t[x]))
  }

  predicate ValueFrom(t: bytes, k: nat, n: nat) {
    exists j :: k <= j < n && GapThenValue(t, k, j, n)
  }

  /** `bearer`, white space, a value. */
  predicate BearerForm(t: bytes, n: nat) {
    7 <= n <= |t| && Spells(t, 0, 6, "bearer") && White(t[6]) && ValueFrom(t, 6, n)
  }

  /** `apikey` or `api_key` or `api-key`, an equals sign or colon, a value. */
  predicate ApiKeyForm(t: bytes, n: nat) {
    7 <= n <= |t| && Spells(t, 0, 3, "api")
    && var k := if t[3] as char in "_-" then 4 else 3;
       k + 3 < n && Spells(t, k, k + 3, "key") && EqualsOrColon(t[k + 3]) && ValueFrom(t, k + 4, n)
  }

  /** `token`, an equals sign or colon, a value. */
  predicate TokenForm(t: bytes, n: nat) {
    6 <= n <= |t| && Spells(t, 0, 5, "token") && EqualsOrColon(t[5]) && ValueFrom(t, 6, n)
  }

  /** `sk-` and a value. */
  predicate SkForm(t: bytes, n: nat) {
    4 <= n <= |t| && Spells(t, 0, 2, "sk") && t[2] as char == '-' && forall x :: 3 <= x < n ==> Secret(t[x])
  }

  /** The first `n` bytes are a secret with a keyword; `bound` as for `Token`. */
  predicate Keyworded(bound: bool, t: bytes, n: nat) {
    BearerForm(t, n) || ApiKeyForm(t, n) || (bound && TokenForm(t, n)) || SkForm(t, n)
  }

  predicate ValueEnds(t: bytes, n: nat) {
    n == |t| || (n < |t| && !Secret(t[n]))
  }

  predicate LowerWord(word: string) {
    forall i :: 0 <= i < |word| ==> 'a' <= word[i] <= 'z'
  }

  lemma SpellsExactly(t: bytes, k: nat, n: nat, word: string)
    requires k <= n <= |t| && LowerWord(word)
    ensures EqIgnoreCase(t[k..n], Ascii(word)) <==> Spells(t, k, n, word)
  {
    var cut, low := t[k..n], Ascii(word);
    assert forall i :: 0 <= i < n - k ==> cut[i] == t[k + i];
    if EqIgnoreCase(cut, low) {
      forall i | 0 <= i < |word|
        ensures t[k + i] as int == word[i] as int || t[k + i] as int == word[i] as int - 32
      {
        assert LowerByte(cut[i]) == low[i];
      }
    }
  }

  /** The value found is the longest there is. */
  lemma ValueEndExactly(t: bytes, k: nat, n: nat)
    requires k <= |t| && n > 0
    ensures ValueEnd(t, k) == n <==> ValueFrom(t, k, n) && ValueEnds(t, n)
  {
    if ValueEnd(t, k) == n {
      ValueEndIsValue(t, k);
    }
    if ValueFrom(t, k, n) && ValueEnds(t, n) {
      var j :| k <= j < n && GapThenValue(t, k, j, n);
      ValueIsEnd(t, k, j, n);
    }
  }

  lemma ValueEndIsValue(t: bytes, k: nat)
    requires k <= |t| && ValueEnd(t, k) > 0
    ensures ValueFrom(t, k, ValueEnd(t, k)) && ValueEnds(t, ValueEnd(t, k))
  {
    var n := ValueEnd(t, k);
    var j := k + SpanLen(t[k..], IsSpace);
    var gap, value := t[k..], t[j..];
    assert n == j + SpanLen(value, IsSecret);
    forall b: byte
      ensures IsSecret(b) <==> Secret(b)
      ensures IsSpace(b) <==> White(b)
    {
      LettersMatch(b);
    }
    hide IsSecret, IsSpace, Secret, White, ValueEnd;
    forall x | k <= x < j
      ensures White(t[x])
    {
      assert IsSpace(gap[x - k]);
    }
    forall x | j <= x < n
      ensures Secret(t[x])
    {
      assert IsSecret(value[x - j]);
    }
    assert n < |t| ==> value[n - j] == t[n];
    assert GapThenValue(t, k, j, n);
  }

  lemma ValueIsEnd(t: bytes, k: nat, j: nat, n: nat)
    requires GapThenValue(t, k, j, n) && ValueEnds(t, n)
    ensures ValueEnd(t, k) == n
  {
    forall b: byte
      ensures IsSecret(b) <==> Secret(b)
      ensures IsSpace(b) <==> White(b)
      ensures White(b) ==> !Secret(b)
    {
      LettersMatch(b);
    }
    hide IsSecret, IsSpace, Secret, White;
    var gap, value := t[k..], t[j..];
    assert forall x :: 0 <= x < |gap| ==> gap[x] == t[k + x];
    assert forall x :: 0 <= x < |value| ==> value[x] == t[j + x];
    SpanIs(gap, IsSpace, j - k);
    SpanIs(value, IsSecret, n - j);
  }

  lemma BearerExactly(t: bytes, n: nat)
    requires n > 0
    ensures Bearer(t) == n <==> BearerForm(t, n) && ValueEnds(t, n)
  {
    if |t| > 6 {
      SpellsExactly(t, 0, 6, "bearer");
      assert t[0..6] == t[..6];
      LettersMatch(t[6]);
      ValueEndExactly(t, 6, n);
    }
    hide EqIgnoreCase, Spells, ValueEnd, IsSpace, White, ValueEnds;
    ValueFromBounds(t, 6, n);
  }

  lemma ValueFromBounds(t: bytes, k: nat, n: nat)
    ensures ValueFrom(t, k, n) ==> k < n <= |t|
  {
  }

  lemma ApiKeyExactly(t: bytes, n: nat)
    requires n > 0
    ensures ApiKey(t) == n <==> ApiKeyForm(t, n) && ValueEnds(t, n)
  {
    if |t| >= 6 {
      SpellsExactly(t, 0, 3, "api");
      assert t[0..3] == t[..3];
      var k := if t[3] == 95 || t[3] == 45 then 4 else 3;
      assert k == (if t[3] as char in "_-" then 4 else 3);
      if k + 3 < |t| {
        SpellsExactly(t, k, k + 3, "key");
        LettersMatch(t[k + 3]);
        ValueEndExactly(t, k + 4, n);
        ValueFromBounds(t, k + 4, n);
      }
    }
    hide EqIgnoreCase, Spells, ValueEnd, ValueFrom, IsSeparator, EqualsOrColon, ValueEnds;
  }

  lemma TokenExactly(bound: bool, t: bytes, n: nat)
    requires n > 0
    ensures Token(bound, t) == n <==> bound && TokenForm(t, n) && ValueEnds(t, n)
  {
    if |t| > 5 {
      SpellsExactly(t, 0, 5, "token");
      assert t[0..5] == t[..5];
      LettersMatch(t[5]);
      ValueEndExactly(t, 6, n);
      ValueFromBounds(t, 6, n);
    }
    hide EqIgnoreCase, Spells, ValueEnd, ValueFrom, IsSeparator, EqualsOrColon, ValueEnds;
  }

  lemma SkSpells(t: bytes)
    requires |t| >= 2
    ensures Spells(t, 0, 2, "sk") <==> LowerByte(t[0]) == 115 && LowerByte(t[1]) == 107
  {
    SpellsExactly(t, 0, 2, "sk");
    var cut := t[0..2];
    assert cut[0] == t[0] && cut[1] == t[1];
    assert Ascii("sk") == [115, 107];
    hide Spells, LowerByte;
  }

  lemma SkDashExactly(t: bytes, n: nat)
    requires n > 0
    ensures SkDash(t) == n <==> SkForm(t, n) && ValueEnds(t, n)
  {
    forall b: byte
      ensures IsSecret(b) <==> Secret(b)
    {
      LettersMatch(b);
    }
    if |t| > 3 {
      var rest := t[3..];
      SkSpells(t);
      hide IsSecret, Secret, Spells, LowerByte;
      assert forall x :: 0 <= x < |rest| ==> rest[x] == t[x + 3];
      forall x | 3 <= x < 3 + SpanLen(rest, IsSecret)
        ensures Secret(t[x])
      {
        assert IsSecret(rest[x - 3]);
      }
      if SkForm(t, n) && ValueEnds(t, n) {
        SpanIs(rest, IsSecret, n - 3);
      }
    }
  }

  /** Whatever keyword, the value goes as far as it can, and its end is the end of the match. */
  lemma KeywordedExactly(bound: bool, t: bytes, n: nat)
    requires n > 0
    ensures (Keyworded(bound, t, n) && ValueEnds(t, n)) <==>
            Bearer(t) == n || ApiKey(t) == n || Token(bound, t) == n || SkDash(t) == n
  {
    BearerExactly(t, n);
    ApiKeyExactly(t, n);
    TokenExactly(bound, t, n);
    SkDashExactly(t, n);
    hide Bearer, ApiKey, Token, SkDash, BearerForm, ApiKeyForm, TokenForm, SkForm, ValueEnds;
  }

  /** The four keywords differ in their first letters. */
  lemma OneKeyword(bound: bool, t: bytes)
    ensures Bearer(t) > 0 ==> ApiKey(t) == 0 && Token(bound, t) == 0 && SkDash(t) == 0
    ensures ApiKey(t) > 0 ==> Token(bound, t) == 0 && SkDash(t) == 0
    ensures Token(bound, t) > 0 ==> SkDash(t) == 0
  {
    hide ValueEnd, SpanLen, EqIgnoreCase;
    if |t| > 6 {
      KeywordFirst(t[..6], BEARER, 0);
    }
    if |t| >= 6 {
      KeywordFirst(t[..3], API, 0);
    }
    if |t| > 5 {
      KeywordFirst(t[..5], TOKEN, 0);
    }
  }

  /** A long run: at least forty run characters with a plus or slash, or a letter and a
      digit, or, if there are 48, both cases. */
  predicate RunForm(t: bytes, n: nat) {
    40 <= n <= |t| && (forall x :: 0 <= x < n ==> RunChar(t[x]))
    && (|| HasChar(t, n, '+', '+') || HasChar(t, n, '/', '/')
        || ((HasChar(t, n, 'A', 'Z') || HasChar(t, n, 'a', 'z')) && HasChar(t, n, '0', '9'))
        || (HasChar(t, n, 'A', 'Z') && HasChar(t, n, 'a', 'z') && n >= 48))
  }

  predicate Between(b: byte, lo: char, hi: char) { lo as int <= b as int <= hi as int }

  /** Some byte among the first `n` is a character from `lo` to `hi`. */
  predicate HasChar(t: bytes, n: nat, lo: char, hi: char)
    requires n <= |t|
  {
    exists x :: 0 <= x < n && Between(t[x], lo, hi)
  }

  lemma HasCharIs(t: bytes, n: nat, lo: char, hi: char, p: Test)
    requires n <= |t| && forall b: byte :: p(b) <==> Between(b, lo, hi)
    ensures Has(t[..n], p) <==> HasChar(t, n, lo, hi)
  {
    var u := t[..n];
    assert forall x :: 0 <= x < n ==> u[x] == t[x];
    if HasChar(t, n, lo, hi) {
      var x :| 0 <= x < n && Between(t[x], lo, hi);
      assert p(u[x]);
    }
    if Has(u, p) {
      var x :| 0 <= x < |u| && p(u[x]);
      assert Between(t[x], lo, hi);
    }
  }

  lemma MixedExactly(t: bytes, n: nat)
    requires 40 <= n <= |t| && forall x :: 0 <= x < n ==> RunChar(t[x])
    ensures Mixed(t[..n]) <==> RunForm(t, n)
  {
    var u := t[..n];
    HasCharIs(t, n, 'A', 'Z', IsUpper);
    HasCharIs(t, n, 'a', 'z', IsLower);
    HasCharIs(t, n, '0', '9', IsDigit);
    HasEither(u, IsUpper, IsLower, IsLetter);
    HasCharIs(t, n, '+', '+', IsPlus);
    HasCharIs(t, n, '/', '/', IsSlash);
    HasEither(u, IsPlus, IsSlash, IsPlusSlash);
    hide Has, HasChar, RunChar;
  }

  predicate IsPlus(b: byte) { b == 43 }

  predicate IsSlash(b: byte) { b == 47 }

  lemma HasEither(u: bytes, p: Test, q: Test, r: Test)
    requires forall b: byte :: r(b) <==> p(b) || q(b)
    ensures Has(u, r) <==> Has(u, p) || Has(u, q)
  {
    if Has(u, p) {
      var x :| 0 <= x < |u| && p(u[x]);
      assert r(u[x]);
    }
    if Has(u, q) {
      var x :| 0 <= x < |u| && q(u[x]);
      assert r(u[x]);
    }
  }

  lemma LongRunExactly(t: bytes, n: nat)
    requires n > 0
    ensures LongRun(t) == n <==> RunForm(t, n) && RunEndsAt(t, n)
  {
    forall b: byte
      ensures IsRun(b) <==> RunChar(b)
    {
      LettersMatch(b);
    }
    var m := SpanLen(t, IsRun);
    assert forall x :: 0 <= x < m ==> RunChar(t[x]);
    if 40 <= m {
      MixedExactly(t, m);
    }
    hide Mixed, IsRun, RunChar;
    if RunForm(t, n) && RunEndsAt(t, n) {
      SpanIs(t, IsRun, n);
    }
  }

  /** Exactly which spans are secrets: the keyword and value that start here, up to where the
      value ends; and only where there are none, the long run that starts here. */
  lemma MatchExactly(bound: bool, t: bytes, n: nat)
    requires n > 0
    ensures MatchLen(bound, t) == n <==>
            || (Keyworded(bound, t, n) && ValueEnds(t, n))
            || (RunForm(t, n) && RunEndsAt(t, n)
                && forall m :: 0 < m <= |t| ==> !(Keyworded(bound, t, m) && ValueEnds(t, m)))
  {
    KeywordedExactly(bound, t, n);
    LongRunExactly(t, n);
    OneKeyword(bound, t);
    NoKeyword(bound, t);
    hide Keyworded, ValueEnds, RunForm, RunEndsAt, Bearer, ApiKey, Token, SkDash, LongRun;
  }

  lemma NoKeyword(bound: bool, t: bytes)
    ensures (forall m :: 0 < m <= |t| ==> !(Keyworded(bound, t, m) && ValueEnds(t, m))) <==>
            Bearer(t) == 0 && ApiKey(t) == 0 && Token(bound, t) == 0 && SkDash(t) == 0
  {
    forall m | 0 < m <= |t|
      ensures (Keyworded(bound, t, m) && ValueEnds(t, m)) <==>
              Bearer(t) == m || ApiKey(t) == m || Token(bound, t) == m || SkDash(t) == m
    {
      KeywordedExactly(bound, t, m);
    }
    BearerIsGood(t);
    ApiKeyIsGood(t);
    TokenIsGood(bound, t);
    SkDashIsGood(t);
    hide Keyworded, ValueEnds, Bearer, ApiKey, Token, SkDash;
    if Bearer(t) > 0 {
      KeywordedExactly(bound, t, Bearer(t));
    } else if ApiKey(t) > 0 {
      KeywordedExactly(bound, t, ApiKey(t));
    } else if Token(bound, t) > 0 {
      KeywordedExactly(bound, t, Token(bound, t));
    } else if SkDash(t) > 0 {
      KeywordedExactly(bound, t, SkDash(t));
    }
  }

  /** A secret with a keyword is hidden: if nothing before it starts a secret, the output is
      what precedes it, the mark, and what follows it redacted by itself. */
  lemma SecretIsHidden(s: bytes, i: nat, end: nat)
    requires i < end <= |s|
    requires Keyworded(Bound(s, i), s[i..], end - i) && ValueEnds(s, end)
    requires forall j :: 0 <= j < i ==> MatchSpan(s, j).None?
    ensures Redacted(true, s) == s[..i] + (Ascii("[redacted]") + Redacted(Bound(s, end), s[end..]))
  {
    KeywordedSpan(s, i, end);
    hide Keyworded, ValueEnds, MatchLen, Redacted, MatchSpan, Bound;
    FirstSecretReplaced(s, 0, i);
    TakeIsSlice(s, i);
    assert s[0..] == s;
    BoundExactly(s, 0);
  }

  lemma BoundExactly(s: bytes, i: nat)
    requires i <= |s|
    ensures Bound(s, i) <==> i == 0 || !AlnumChar(s[i - 1] as char)
  {
    if i > 0 {
      LettersMatch(s[i - 1]);
    }
  }

  lemma KeywordedSpan(s: bytes, i: nat, end: nat)
    requires i < end <= |s|
    requires Keyworded(Bound(s, i), s[i..], end - i) && ValueEnds(s, end)
    ensures MatchSpan(s, i) == Some(end)
  {
    hide Keyworded, ValueEnds, MatchLen, Bound;
    EndsInSuffix(s, i, end);
    MatchExactly(Bound(s, i), s[i..], end - i);
  }

  lemma EndsInSuffix(s: bytes, i: nat, end: nat)
    requires i < end <= |s| && ValueEnds(s, end)
    ensures ValueEnds(s[i..], end - i)
  {
    hide Secret;
    assert end < |s| ==> s[i..][end - i] == s[end];
  }

  /** Any value that a keyword stands before is part of a match. */
  lemma KeywordedMatches(bound: bool, t: bytes, n: nat)
    requires n > 0 && Keyworded(bound, t, n)
    ensures MatchLen(bound, t) > 0
  {
    var u := t[..n];
    KeywordedPrefix(bound, t, n);
    MatchExactly(bound, u, n);
    hide Keyworded, MatchLen;
    MatchStable(bound, u, bound, t);
  }

  lemma KeywordedPrefix(bound: bool, t: bytes, n: nat)
    requires n <= |t| && Keyworded(bound, t, n)
    ensures Keyworded(bound, t[..n], n) && ValueEnds(t[..n], n)
  {
    var u := t[..n];
    assert forall x :: 0 <= x < n ==> u[x] == t[x];
    ValuePrefix(t, 6, n);
    ValuePrefix(t, 7, n);
    ValuePrefix(t, 8, n);
    hide Secret, White, EqualsOrColon, ValueFrom;
  }

  lemma ValuePrefix(t: bytes, k: nat, n: nat)
    requires n <= |t|
    ensures ValueFrom(t, k, n) ==> ValueFrom(t[..n], k, n)
  {
    var u := t[..n];
    assert forall x :: 0 <= x < n ==> u[x] == t[x];
    hide Secret, White;
    if ValueFrom(t, k, n) {
      var j :| k <= j < n && GapThenValue(t, k, j, n);
      assert GapThenValue(u, k, j, n);
    }
  }

  /** Nowhere in the output does a keyword stand before a value. */
  lemma NoCredentialLeft(s: bytes, p: nat, n: nat)
    requires p < |Redacted(true, s)| && 0 < n <= |Redacted(true, s)| - p
    ensures !Keyworded(Bound(Redacted(true, s), p), Redacted(true, s)[p..], n)
  {
    var out := Redacted(true, s);
    NothingLeft(s, p);
    hide Redacted, Keyworded, MatchLen, Bound;
    if Keyworded(Bound(out, p), out[p..], n) {
      KeywordedMatches(Bound(out, p), out[p..], n);
    }
  }

  predicate RunEndsAt(t: bytes, n: nat) {
    n == |t| || (n < |t| && !RunChar(t[n]))
  }

  // ----- redaction ----------------------------------------------------------

  const MARK := Ascii("[redacted]")

  /** `t`, which follows a byte that is alphanumeric unless `bound`, with every secret the
      scan from the left meets replaced by the mark. */
  function Redacted(bound: bool, t: bytes): bytes
    decreases |t|
  {
    if t == [] then []
    else
      MatchIsGood(bound, t);
      var n := MatchLen(bound, t);
      if n > 0 then MARK + Redacted(!IsAlnum(t[n - 1]), t[n..])
      else [t[0]] + Redacted(!IsAlnum(t[0]), t[1..])
  }

  /** No secret starts anywhere in `t`. */
  predicate Clean(bound: bool, t: bytes)
    decreases |t|
  {
    t == [] || (MatchLen(bound, t) == 0 && Clean(!IsAlnum(t[0]), t[1..]))
  }

  lemma {:induction false} CleanAt(bound: bool, t: bytes, i: nat)
    requires Clean(bound, t) && i < |t|
    ensures MatchLen(if i == 0 then bound else !IsAlnum(t[i - 1]), t[i..]) == 0
    decreases i
  {
    hide MatchLen;
    if i == 0 {
      assert t[0..] == t;
    } else {
      CleanAt(!IsAlnum(t[0]), t[1..], i - 1);
      assert t[1..][i - 1..] == t[i..];
    }
  }

  lemma MarkComesFirst(bound: bool, t: bytes)
    ensures t != [] && MatchLen(bound, t) > 0 ==> Redacted(bound, t) != [] && Redacted(bound, t)[0] == 91
  {
    hide MatchLen;
    assert MARK[0] == 91;
  }

  /** Up to a bracket the output is the input. */
  lemma {:induction false} CopiedUpToMark(bound: bool, t: bytes, n: nat)
    requires n <= |Redacted(bound, t)|
    requires forall k :: 0 <= k < n ==> Redacted(bound, t)[k] != 91
    ensures SharesSpan(Redacted(bound, t), n, t)
    decreases n
  {
    MarkComesFirst(bound, t);
    hide MatchLen;
    if n > 0 && t != [] && MatchLen(bound, t) == 0 {
      var u := Redacted(bound, t);
      var rest := Redacted(!IsAlnum(t[0]), t[1..]);
      assert u == [t[0]] + rest;
      assert forall k :: 0 <= k < n - 1 ==> rest[k] == u[k + 1];
      CopiedUpToMark(!IsAlnum(t[0]), t[1..], n - 1);
      assert forall k :: 1 <= k < n ==> u[k] == rest[k - 1] && t[k] == t[1..][k - 1];
    }
  }

  /** Nothing matches where the output starts with a copied byte. */
  lemma CopiedIsClean(bound: bool, t: bytes, seen: bool)
    requires t != [] && MatchLen(bound, t) == 0
    requires seen ==> bound || !IsAlnum(t[0])
    ensures MatchLen(seen, Redacted(bound, t)) == 0
  {
    var u := Redacted(bound, t);
    var n := MatchLen(seen, u);
    if n > 0 {
      MatchIsGood(seen, u);
      assert u[0] == t[0];
      hide MatchLen, Redacted;
      CopiedUpToMark(bound, t, n);
      MatchStable(seen, u, bound, t);
    }
  }

  lemma KeywordFirst(hay: bytes, needle: bytes, k: nat)
    requires k < |needle|
    ensures EqIgnoreCase(hay, needle) ==> k < |hay| && LowerByte(hay[k]) == needle[k]
  {
  }

  /** No keyword starts inside the mark. */
  lemma MarkHasNoKeyword(k: nat, v: bytes)
    requires k < 10 && |v| >= 10 - k && v[..10 - k] == MARK[k..]
    ensures Bearer(v) == 0 && ApiKey(v) == 0 && SkDash(v) == 0
    ensures forall bound :: Token(bound, v) == 0
  {
    hide ValueEnd, EqIgnoreCase, SpanLen;
    assert v[0] == v[..10 - k][0] == MARK[k];
    assert k < 9 ==> v[1] == v[..10 - k][1] == MARK[k + 1];
    if |v| > 6 {
      KeywordFirst(v[..6], BEARER, 0);
    }
    if |v| >= 6 {
      KeywordFirst(v[..3], API, 0);
      KeywordFirst(v[..3], API, 1);
    }
    if |v| > 5 {
      KeywordFirst(v[..5], TOKEN, 0);
      KeywordFirst(v[..5], TOKEN, 1);
    }
  }

  lemma MarkIsNoRun(k: nat, v: bytes)
    requires k < 10 && |v| >= 10 - k && v[..10 - k] == MARK[k..]
    ensures LongRun(v) == 0
  {
    assert v[9 - k] == v[..10 - k][9 - k] == MARK[9];
  }

  lemma MarkMatchesNothing(bound: bool, k: nat, v: bytes)
    requires k < 10 && |v| >= 10 - k && v[..10 - k] == MARK[k..]
    ensures MatchLen(bound, v) == 0
  {
    hide Bearer, ApiKey, Token, SkDash, LongRun;
    MarkHasNoKeyword(k, v);
    MarkIsNoRun(k, v);
  }

  lemma MarkEnds(k: nat)
    requires k < 10
    ensures |MARK| == 10 && (k == 9 ==> !IsAlnum(MARK[k..][0]))
  {
  }

  /** The mark matches nothing, whatever follows it. */
  lemma {:induction false} MarkIsClean(bound: bool, k: nat, rest: bytes)
    requires k <= 10 && Clean(true, rest) && (k == 10 ==> bound)
    ensures Clean(bound, MARK[k..] + rest)
    decreases 10 - k
  {
    var u := MARK[k..];
    if k == 10 {
      JoinEmpty(rest);
    } else {
      MarkEnds(k);
      hide MatchLen, Clean, IsAlnum, Ascii;
      PartsOfJoin(u, rest);
      MarkMatchesNothing(bound, k, u + rest);
      var x := u[0];
      SplitFirst(u);
      SuffixOfSuffix(MARK, k, 1);
      JoinAssoc([x], u[1..], rest);
      MarkIsClean(!IsAlnum(x), k + 1, rest);
      CleanCons(bound, x, u[1..] + rest);
    }
  }

  lemma CleanCons(bound: bool, x: byte, rest: bytes)
    requires MatchLen(bound, [x] + rest) == 0 && Clean(!IsAlnum(x), rest)
    ensures Clean(bound, [x] + rest)
  {
    PartsOfJoin([x], rest);
    hide MatchLen;
  }

  lemma {:induction false} OutputIsClean(bound: bool, t: bytes, seen: bool)
    requires t != [] && seen ==> bound || !IsAlnum(t[0])
    ensures Clean(seen, Redacted(bound, t))
    decreases |t|
  {
    if t != [] {
      MatchIsGood(bound, t);
      var n := MatchLen(bound, t);
      if n > 0 {
        assert n < |t| ==> t[n..][0] == t[n];
        OutputIsClean(!IsAlnum(t[n - 1]), t[n..], true);
        MarkIsClean(seen, 0, Redacted(!IsAlnum(t[n - 1]), t[n..]));
        assert MARK[0..] == MARK;
        hide MatchLen, Clean;
      } else {
        CopiedIsClean(bound, t, seen);
        OutputIsClean(!IsAlnum(t[0]), t[1..], !IsAlnum(t[0]));
        var rest := Redacted(!IsAlnum(t[0]), t[1..]);
        assert ([t[0]] + rest)[1..] == rest;
        hide MatchLen;
      }
    }
  }

  /** Redaction is complete on its own output: no position of it starts a secret. */
  lemma NothingLeft(s: bytes, p: nat)
    requires p < |Redacted(true, s)|
    ensures MatchSpan(Redacted(true, s), p) == None
  {
    OutputIsClean(true, s, true);
    CleanAt(true, Redacted(true, s), p);
  }

  /** Text is left as it is exactly when no position of it starts a secret. */
  lemma {:induction false} UnchangedExactly(bound: bool, t: bytes)
    ensures Redacted(bound, t) == t <==> Clean(bound, t)
    decreases |t|
  {
    if t != [] {
      MatchIsGood(bound, t);
      var n := MatchLen(bound, t);
      hide MatchLen;
      if n > 0 {
        var u := Redacted(bound, t);
        assert u[0] == MARK[0];
        assert Plain(t[0]);
      } else {
        UnchangedExactly(!IsAlnum(t[0]), t[1..]);
        SplitFirst(t);
        var rest := Redacted(!IsAlnum(t[0]), t[1..]);
        assert ([t[0]] + rest)[1..] == rest;
      }
    }
  }

  /** A second pass changes nothing. */
  lemma Idempotent(s: bytes)
    ensures Redacted(true, Redacted(true, s)) == Redacted(true, s)
  {
    OutputIsClean(true, s, true);
    UnchangedExactly(true, Redacted(true, s));
  }

  /** Everything before the first secret is kept, the secret itself is replaced, and what
      follows is redacted by itself. */
  lemma {:induction false} FirstSecretReplaced(s: bytes, k: nat, i: nat)
    requires k <= i < |s| && MatchSpan(s, i).Some?
    requires forall j :: k <= j < i ==> MatchSpan(s, j).None?
    ensures var end := MatchSpan(s, i).value;
            && i < end <= |s|
            && Redacted(Bound(s, k), s[k..]) == s[k..i] + (MARK + Redacted(Bound(s, end), s[end..]))
    decreases i - k
  {
    hide MatchLen, Redacted, Bound, MatchSpan;
    var end := MatchSpan(s, i).value;
    SpanAt(s, i);
    var rest := MARK + Redacted(Bound(s, end), s[end..]);
    if k == i {
      assert s[i..i] == [];
      JoinEmpty(rest);
    } else {
      CopyUnfolds(s, k);
      FirstSecretReplaced(s, k + 1, i);
      JoinAssoc([s[k]], s[k + 1..i], rest);
      SliceCons(s, k, i);
    }
  }

  lemma SpanUnfolds(bound: bool, t: bytes)
    requires t != []
    ensures var n := MatchLen(bound, t);
            n <= |t| && (n > 0 ==> Redacted(bound, t) == MARK + Redacted(!IsAlnum(t[n - 1]), t[n..]))
  {
    MatchIsGood(bound, t);
    hide MatchLen;
  }

  lemma SpanAt(s: bytes, i: nat)
    requires i < |s| && MatchSpan(s, i).Some?
    ensures var end := MatchSpan(s, i).value;
            i < end <= |s| && Redacted(Bound(s, i), s[i..]) == MARK + Redacted(Bound(s, end), s[end..])
  {
    hide MatchLen, Redacted;
    var n := MatchLen(Bound(s, i), s[i..]);
    SpanUnfolds(Bound(s, i), s[i..]);
    SuffixOfSuffix(s, i, n);
    assert s[i..][n - 1] == s[i + n - 1];
  }

  lemma CopyUnfolds(s: bytes, k: nat)
    requires k < |s| && MatchSpan(s, k).None?
    ensures Redacted(Bound(s, k), s[k..]) == [s[k]] + Redacted(Bound(s, k + 1), s[k + 1..])
  {
    hide MatchLen;
    SuffixOfSuffix(s, k, 1);
  }

  // ----- characters ---------------------------------------------------------

  lemma NoMatchPastAscii(bound: bool, t: bytes)
    requires t != [] && t[0] >= 128
    ensures MatchLen(bound, t) == 0
  {
    MatchIsGood(bound, t);
  }

  lemma CopiesByte(bound: bool, t: bytes)
    requires t != [] && t[0] >= 128
    ensures Redacted(bound, t) == [t[0]] + Redacted(true, t[1..])
  {
    NoMatchPastAscii(bound, t);
    hide MatchLen;
  }

  /** A character outside ASCII is copied whole. */
  lemma {:induction false} CopiesTail(bound: bool, t: bytes, k: nat)
    requires k <= |t| && forall x :: 0 <= x < k ==> t[x] >= 128
    ensures Redacted(bound, t) == t[..k] + Redacted(k > 0 || bound, t[k..])
    decreases k
  {
    hide MatchLen;
    if k == 0 {
      assert t[0..] == t;
    } else {
      CopiesByte(bound, t);
      hide Redacted;
      var rest := t[1..];
      CopiesTail(true, rest, k - 1);
      SuffixOfSuffix(t, 1, k - 1);
      JoinAssoc([t[0]], rest[..k - 1], Redacted(true, t[k..]));
      HeadThenTake(t, k);
    }
  }

  lemma BytesOfCharacter(t: bytes)
    ensures CharLen(t) > 1 ==> forall k :: 0 <= k < CharLen(t) ==> t[k] >= 128
  {
  }

  /** One turn of the loop over characters copies what the scan over bytes copies. */
  lemma CopiesCharacter(bound: bool, t: bytes)
    requires CharLen(t) > 0 && MatchLen(bound, t) == 0
    ensures Redacted(bound, t) == t[..CharLen(t)] + Redacted(!IsAlnum(t[CharLen(t) - 1]), t[CharLen(t)..])
  {
    BytesOfCharacter(t);
    var c := CharLen(t);
    hide MatchLen, CharLen;
    if c == 1 {
      assert t[..1] == [t[0]];
    } else {
      CopiesTail(bound, t, c);
    }
  }

  /** After a span the text goes on with whole characters. */
  lemma {:induction false} ValidPastPlain(t: bytes, n: nat)
    requires Valid(t) && n <= |t| && forall k :: 0 <= k < n ==> t[k] < 128
    ensures Valid(t[n..])
    decreases n
  {
    if n == 0 {
      assert t[0..] == t;
    } else {
      assert CharLen(t) == 1;
      ValidPastPlain(t[1..], n - 1);
      assert t[1..][n - 1..] == t[n..];
    }
  }

  /** Redaction never splits a character: it keeps text well-formed. */
  lemma {:induction false} OutputIsText(bound: bool, t: bytes)
    requires Valid(t)
    ensures Valid(Redacted(bound, t))
    decreases |t|
  {
    if t != [] {
      MatchIsGood(bound, t);
      var n := MatchLen(bound, t);
      if n > 0 {
        ValidPastPlain(t, n);
        OutputIsText(!IsAlnum(t[n - 1]), t[n..]);
        ValidAscii(MARK);
        ValidJoin(MARK, Redacted(!IsAlnum(t[n - 1]), t[n..]));
      } else {
        var c := CharLen(t);
        CopiesCharacter(bound, t);
        OutputIsText(!IsAlnum(t[c - 1]), t[c..]);
        CharLenPrefix(t, c);
        assert t[..c][c..] == [];
        ValidJoin(t[..c], Redacted(!IsAlnum(t[c - 1]), t[c..]));
      }
    }
  }

  // ----- the program --------------------------------------------------------

  method SkipWhile(s: bytes, from: nat, p: Test) returns (i: nat)
    requires from <= |s|
    ensures i == from + SpanLen(s[from..], p)
  {
    i := from;
    while i < |s| && p(s[i])
      invariant from <= i <= |s|
      invariant i + SpanLen(s[i..], p) == from + SpanLen(s[from..], p)
    {
      assert s[i..][0] == s[i] && s[i..][1..] == s[i + 1..];
      i := i + 1;
    }
    assert i < |s| ==> s[i..][0] == s[i];
  }

  /** The end of the white space and value that start at `i + k`, where a pattern at `i`
      wants them. */
  method FindValue(s: bytes, i: nat, k: nat) returns (end: Option<nat>)
    requires i + k <= |s|
    ensures end == From(i, ValueEnd(s[i..], k))
  {
    hide SpanLen;
    SuffixOfSuffix(s, i, k);
    var j := SkipWhile(s, i + k, IsSpace);
    SuffixOfSuffix(s, i, j - i);
    var valueEnd := SkipWhile(s, j, IsSecret);
    end := if valueEnd > j then Some(valueEnd) else None;
  }

  method FindBearer(s: bytes, i: nat) returns (end: Option<nat>)
    requires i <= |s|
    ensures end == From(i, Bearer(s[i..]))
  {
    hide EqIgnoreCase, ValueEnd;
    end := None;
    if i + 6 < |s| && EqIgnoreCase(s[i..i + 6], BEARER) && IsSpace(s[i + 6]) {
      end := FindValue(s, i, 6);
    }
    assert i + 6 < |s| ==> s[i..][..6] == s[i..i + 6] && s[i..][6] == s[i + 6];
  }

  method FindApiKey(s: bytes, i: nat) returns (end: Option<nat>)
    requires i <= |s|
    ensures end == From(i, ApiKey(s[i..]))
  {
    hide EqIgnoreCase, ValueEnd;
    end := None;
    assert i + 6 <= |s| ==> s[i..][..3] == s[i..i + 3] && s[i..][3] == s[i + 3];
    if i + 6 <= |s| && EqIgnoreCase(s[i..i + 3], API) {
      var keyStart := if s[i + 3] == 95 || s[i + 3] == 45 then i + 4 else i + 3;
      var afterKey := keyStart + 3;
      if afterKey <= |s| {
        SliceInSuffix(s, i, keyStart - i, 3);
      }
      if afterKey <= |s| && EqIgnoreCase(s[keyStart..afterKey], KEY) && afterKey < |s| && IsSeparator(s[afterKey]) {
        end := FindValue(s, i, afterKey + 1 - i);
      }
    }
  }

  method FindToken(s: bytes, i: nat) returns (end: Option<nat>)
    requires i <= |s|
    ensures end == From(i, Token(Bound(s, i), s[i..]))
  {
    hide EqIgnoreCase, ValueEnd;
    end := None;
    assert i + 5 < |s| ==> s[i..][..5] == s[i..i + 5] && s[i..][5] == s[i + 5];
    if i + 5 <= |s| && EqIgnoreCase(s[i..i + 5], TOKEN) && (i == 0 || !IsAlnum(s[i - 1])) {
      if i + 5 < |s| && IsSeparator(s[i + 5]) {
        end := FindValue(s, i, 6);
      }
    }
  }

  method FindSkDash(s: bytes, i: nat) returns (end: Option<nat>)
    requires i <= |s|
    ensures end == From(i, SkDash(s[i..]))
  {
    end := None;
    if i + 3 < |s| && LowerByte(s[i]) == 115 && LowerByte(s[i + 1]) == 107 && s[i + 2] == 45 {
      SuffixOfSuffix(s, i, 3);
      var valueEnd := SkipWhile(s, i + 3, IsSecret);
      end := if valueEnd > i + 3 then Some(valueEnd) else None;
    }
  }

  lemma HasSnoc(s: bytes, i: nat, j: nat, p: Test)
    requires i <= j < |s|
    ensures Has(s[i..j + 1], p) <==> Has(s[i..j], p) || p(s[j])
  {
    var u, v := s[i..j], s[i..j + 1];
    assert v[j - i] == s[j];
    assert forall k :: 0 <= k < |u| ==> v[k] == u[k];
    if Has(u, p) {
      var k :| 0 <= k < |u| && p(u[k]);
      assert p(v[k]);
    }
  }

  lemma FlagsSnoc(s: bytes, i: nat, j: nat)
    requires i <= j < |s|
    ensures forall p: Test :: Has(s[i..j + 1], p) <==> Has(s[i..j], p) || p(s[j])
  {
    forall p: Test
      ensures Has(s[i..j + 1], p) <==> Has(s[i..j], p) || p(s[j])
    {
      HasSnoc(s, i, j, p);
    }
  }

  method FindLongRun(s: bytes, i: nat) returns (end: Option<nat>)
    requires i <= |s|
    ensures end == From(i, LongRun(s[i..]))
  {
    hide Has, LongRun, Mixed, SpanLen;
    var j := i;
    var hasPlusSlash, hasLetter, hasDigit, hasUpper, hasLower := false, false, false, false, false;
    HasNone();
    assert s[i..i] == [];
    while j < |s| && IsRun(s[j])
      invariant i <= j <= |s|
      invariant forall k :: i <= k < j ==> IsRun(s[k])
      invariant hasPlusSlash == Has(s[i..j], IsPlusSlash)
      invariant hasLetter == Has(s[i..j], IsLetter)
      invariant hasDigit == Has(s[i..j], IsDigit)
      invariant hasUpper == Has(s[i..j], IsUpper)
      invariant hasLower == Has(s[i..j], IsLower)
    {
      var b := s[j];
      FlagsSnoc(s, i, j);
      if IsUpper(b) {
        hasLetter, hasUpper := true, true;
      } else if IsLower(b) {
        hasLetter, hasLower := true, true;
      } else if IsDigit(b) {
        hasDigit := true;
      } else if IsPlusSlash(b) {
        hasPlusSlash := true;
      }
      j := j + 1;
    }
    RunEnds(s, i, j);
    RunVerdict(s[i..]);
    var len := j - i;
    var mixed := || hasPlusSlash || (hasLetter && hasDigit) || (hasUpper && hasLower && hasDigit)
                 || (hasUpper && hasLower && len >= 48);
    end := if len >= 40 && mixed then Some(j) else None;
  }

  lemma RunVerdict(t: bytes)
    ensures var n := SpanLen(t, IsRun);
            var u := t[..n];
            LongRun(t) == if n >= 40
                             && (Has(u, IsPlusSlash) || (Has(u, IsLetter) && Has(u, IsDigit))
                                 || (Has(u, IsUpper) && Has(u, IsLower) && Has(u, IsDigit))
                                 || (Has(u, IsUpper) && Has(u, IsLower) && n >= 48))
                          then n else 0
  {
    hide Has;
  }

  lemma HasNone()
    ensures forall p: Test :: !Has([], p)
  {
  }

  lemma RunEnds(s: bytes, i: nat, j: nat)
    requires i <= j <= |s| && (forall k :: i <= k < j ==> IsRun(s[k])) && (j < |s| ==> !IsRun(s[j]))
    ensures SpanLen(s[i..], IsRun) == j - i && s[i..][..j - i] == s[i..j]
  {
    var n := SpanLen(s[i..], IsRun);
    assert forall k :: 0 <= k < |s| - i ==> s[i..][k] == s[i + k];
  }

  method MatchSecretSpan(s: bytes, i: nat) returns (end: Option<nat>)
    requires i < |s|
    ensures end == MatchSpan(s, i)
  {
    hide Bearer, ApiKey, Token, SkDash, LongRun;
    end := FindBearer(s, i);
    if end.None? {
      end := FindApiKey(s, i);
    }
    if end.None? {
      end := FindToken(s, i);
    }
    if end.None? {
      end := FindSkDash(s, i);
    }
    if end.None? {
      end := FindLongRun(s, i);
    }
  }

  /** `redact_secrets_for_display`. */
  method RedactSecretsForDisplay(s: bytes) returns (out: bytes)
    requires Valid(s)
    ensures out == Redacted(true, s)
  {
    hide MatchLen, MatchSpan, Redacted, Valid, CharLen;
    out := [];
    var i := 0;
    assert s[0..] == s;
    while i < |s|
      invariant i <= |s| && Valid(s[i..])
      invariant out + Redacted(Bound(s, i), s[i..]) == Redacted(true, s)
    {
      var end := MatchSecretSpan(s, i);
      if end.Some? {
        SpanStep(s, i);
        JoinAssoc(out, MARK, Redacted(Bound(s, end.value), s[end.value..]));
        out, i := out + MARK, end.value;
      } else {
        CharacterStep(s, i);
        var n := CharLen(s[i..]);
        JoinAssoc(out, s[i..i + n], Redacted(Bound(s, i + n), s[i + n..]));
        out, i := out + s[i..i + n], i + n;
      }
    }
    assert s[i..] == [];
    NothingToRedact();
    JoinEmpty(out);
  }

  lemma NothingToRedact()
    ensures forall bound :: Redacted(bound, []) == []
  {
  }

  lemma SpanStep(s: bytes, i: nat)
    requires i < |s| && Valid(s[i..]) && MatchSpan(s, i).Some?
    ensures var end := MatchSpan(s, i).value;
            && i < end <= |s| && Valid(s[end..])
            && Redacted(Bound(s, i), s[i..]) == MARK + Redacted(Bound(s, end), s[end..])
  {
    hide MatchLen, Valid, Redacted, Bound;
    SpanAt(s, i);
    var n := MatchLen(Bound(s, i), s[i..]);
    ValidPastSpan(Bound(s, i), s[i..]);
    SuffixOfSuffix(s, i, n);
  }

  lemma ValidPastSpan(bound: bool, t: bytes)
    requires Valid(t)
    ensures MatchLen(bound, t) <= |t| && Valid(t[MatchLen(bound, t)..])
  {
    hide MatchLen, Valid, GoodSpan;
    var n := MatchLen(bound, t);
    MatchIsGood(bound, t);
    GoodIsAscii(t, n);
    ValidPastPlain(t, n);
  }

  lemma GoodIsAscii(t: bytes, n: nat)
    requires GoodSpan(t, n)
    ensures n <= |t| && forall k :: 0 <= k < n ==> t[k] < 128
  {
  }

  lemma CharacterStep(s: bytes, i: nat)
    requires i < |s| && Valid(s[i..]) && MatchSpan(s, i).None?
    ensures var n := CharLen(s[i..]);
            && 0 < n <= |s| - i && Valid(s[i + n..])
            && Redacted(Bound(s, i), s[i..]) == s[i..i + n] + Redacted(Bound(s, i + n), s[i + n..])
  {
    hide MatchLen, CharLen, Valid, Redacted, IsAlnum;
    var t := s[i..];
    var n := CharLen(t);
    assert MatchLen(Bound(s, i), t) == 0;
    PastCharacter(Bound(s, i), t);
    SuffixOfSuffix(s, i, n);
    SliceOfSuffix(s, i, n);
    BoundAt(s, i, n);
  }

  lemma BoundAt(s: bytes, i: nat, n: nat)
    requires 0 < n <= |s| - i
    ensures Bound(s, i + n) == !IsAlnum(s[i..][n - 1])
  {
    hide IsAlnum;
    assert s[i..][n - 1] == s[i + n - 1];
  }

  lemma PastCharacter(bound: bool, t: bytes)
    requires t != [] && Valid(t) && MatchLen(bound, t) == 0
    ensures var n := CharLen(t);
            && 0 < n && Valid(t[n..])
            && Redacted(bound, t) == t[..n] + Redacted(!IsAlnum(t[n - 1]), t[n..])
  {
    hide MatchLen, CharLen;
    CopiesCharacter(bound, t);
  }
}
