/** Facts about slices and concatenations, for use where extensionality is costly. */
module Seqs {

  lemma SplitLast<T>(s: seq<T>)
    requires s != []
    ensures s[..|s| - 1] + [s[|s| - 1]] == s
  {
  }

  lemma SplitFirst<T>(s: seq<T>)
    requires s != []
    ensures [s[0]] + s[1..] == s
  {
  }

  lemma SplitAt<T>(s: seq<T>, k: nat)
    requires k <= |s|
    ensures s[..k] + s[k..] == s
  {
  }

  lemma TakeSnoc<T>(s: seq<T>, k: nat)
    requires k < |s|
    ensures s[..k] + [s[k]] == s[..k + 1]
  {
  }

  lemma SplitAround<T>(s: seq<T>, k: nat)
    requires k < |s|
    ensures s[..k] + [s[k]] + s[k + 1..] == s
  {
  }

  lemma SliceCons<T>(s: seq<T>, i: nat, j: nat)
    requires i < j <= |s|
    ensures [s[i]] + s[i + 1..j] == s[i..j]
  {
  }

  lemma JoinAssoc<T>(a: seq<T>, b: seq<T>, c: seq<T>)
    ensures a + b + c == a + (b + c)
  {
  }

  lemma JoinEmpty<T>(a: seq<T>)
    ensures a + [] == a && [] + a == a
  {
  }

  /** Both parts can be read off a concatenation. */
  lemma PartsOfJoin<T>(a: seq<T>, b: seq<T>)
    ensures (a + b)[..|a|] == a && (a + b)[|a|..] == b
  {
  }

  lemma SliceOfJoin<T>(a: seq<T>, b: seq<T>, k: nat)
    requires k <= |b|
    ensures (a + b)[|a| + k..] == b[k..]
    ensures (a + b)[..|a| + k] == a + b[..k]
  {
  }

  lemma DropOfJoin<T>(a: seq<T>, b: seq<T>, k: nat)
    requires k <= |a|
    ensures (a + b)[k..] == a[k..] + b
    ensures (a + b)[..k] == a[..k]
  {
  }

  lemma SliceTwoWays<T>(s: seq<T>, i: nat, j: nat)
    requires i <= j <= |s|
    ensures s[..j][i..] == s[i..][..j - i]
  {
  }

  lemma TakeIsSlice<T>(s: seq<T>, k: nat)
    requires k <= |s|
    ensures s[0..k] == s[..k] && s[..|s|] == s
  {
  }

  lemma PrefixOfPrefix<T>(s: seq<T>, k: nat, j: nat)
    requires j <= k <= |s|
    ensures s[..k][..j] == s[..j]
  {
  }

  lemma SuffixOfSuffix<T>(s: seq<T>, k: nat, j: nat)
    requires k + j <= |s|
    ensures s[k..][j..] == s[k + j..]
  {
  }

  lemma HeadThenTake<T>(s: seq<T>, k: nat)
    requires 0 < k <= |s|
    ensures [s[0]] + s[1..][..k - 1] == s[..k]
  {
  }

  lemma SliceOfSuffix<T>(s: seq<T>, i: nat, n: nat)
    requires i + n <= |s|
    ensures s[i..][..n] == s[i..i + n]
  {
  }

  lemma SliceOfSlice<T>(s: seq<T>, a: nat, n: nat, b: nat, k: nat)
    requires a + n <= |s| && b + k <= n
    ensures s[a..a + n][b..b + k] == s[a + b..a + b + k]
  {
    var t := s[a..a + n];
    var c := t[b..b + k];
    assert forall x :: 0 <= x < k ==> c[x] == s[a + b + x];
  }

  lemma SliceInSuffix<T>(s: seq<T>, i: nat, k: nat, n: nat)
    requires i + k + n <= |s|
    ensures s[i..][k..k + n] == s[i + k..i + k + n]
  {
    var c := s[i..][k..k + n];
    assert forall x :: 0 <= x < n ==> c[x] == s[i + k + x];
  }

  // ----- parts of a sequence ------------------------------------------------

  function Concat<T>(parts: seq<seq<T>>): seq<T> {
    if parts == [] then [] else parts[0] + Concat(parts[1..])
  }

  lemma {:induction false} ConcatSnoc<T>(parts: seq<seq<T>>, last: seq<T>)
    ensures Concat(parts + [last]) == Concat(parts) + last
  {
    if parts == [] {
      assert [last][1..] == [];
      JoinEmpty(last);
    } else {
      ConcatSnoc(parts[1..], last);
      assert (parts + [last])[1..] == parts[1..] + [last];
      JoinAssoc(parts[0], Concat(parts[1..]), last);
    }
  }

  predicate MatchAt<T(==)>(hay: seq<T>, i: int, needle: seq<T>) {
    0 <= i <= |hay| - |needle| && hay[i..i + |needle|] == needle
  }

  predicate Contains<T(==)>(hay: seq<T>, needle: seq<T>) {
    exists i :: 0 <= i <= |hay| - |needle| && MatchAt(hay, i, needle)
  }

  /** The elements with another key, in order. */
  function Without<T, K(==)>(s: seq<T>, key: T -> K, k: K): seq<T> {
    if s == [] then [] else (if key(s[0]) == k then [] else [s[0]]) + Without(s[1..], key, k)
  }

  lemma {:induction false} WithoutMembers<T, K>(s: seq<T>, key: T -> K, k: K, y: T)
    ensures y in Without(s, key, k) <==> y in s && key(y) != k
  {
    if s != [] {
      WithoutMembers(s[1..], key, k, y);
      assert y in s <==> y == s[0] || y in s[1..];
    }
  }

  lemma {:induction false} WithoutSnoc<T, K>(s: seq<T>, x: T, key: T -> K, k: K)
    ensures Without(s + [x], key, k) == Without(s, key, k) + (if key(x) == k then [] else [x])
  {
    if s != [] {
      WithoutSnoc(s[1..], x, key, k);
      assert (s + [x])[1..] == s[1..] + [x];
    }
  }

  /** `Vec::retain`, keeping the elements with another key. */
  method RetainOthers<T, K(==)>(s: seq<T>, key: T -> K, k: K) returns (kept: seq<T>)
    ensures kept == Without(s, key, k)
  {
    kept := [];
    for i := 0 to |s|
      invariant kept == Without(s[..i], key, k)
    {
      WithoutSnoc(s[..i], s[i], key, k);
      assert s[..i] + [s[i]] == s[..i + 1];
      if key(s[i]) != k {
        kept := kept + [s[i]];
      }
    }
    assert s[..|s|] == s;
  }

  // ----- trimming -----------------------------------------------------------

  function TrimLeft<T>(s: seq<T>, blank: T -> bool): seq<T> {
    if s != [] && blank(s[0]) then TrimLeft(s[1..], blank) else s
  }

  function TrimRight<T>(s: seq<T>, blank: T -> bool): seq<T> {
    if s != [] && blank(s[|s| - 1]) then TrimRight(s[..|s| - 1], blank) else s
  }

  lemma {:induction false} TrimLeftIsSlice<T>(s: seq<T>, blank: T -> bool) returns (k: nat)
    ensures k <= |s| && TrimLeft(s, blank) == s[k..]
    ensures TrimLeft(s, blank) != [] ==> !blank(TrimLeft(s, blank)[0])
  {
    k := 0;
    if s != [] && blank(s[0]) {
      var j := TrimLeftIsSlice(s[1..], blank);
      k := j + 1;
    }
  }

  lemma {:induction false} TrimRightIsSlice<T>(s: seq<T>, blank: T -> bool) returns (k: nat)
    ensures k <= |s| && TrimRight(s, blank) == s[..k]
    ensures TrimRight(s, blank) != [] ==> !blank(TrimRight(s, blank)[k - 1])
  {
    k := |s|;
    if s != [] && blank(s[|s| - 1]) {
      k := TrimRightIsSlice(s[..|s| - 1], blank);
    }
  }

  /** Blanks, a text that is empty or starts with none, and the text is left. */
  lemma {:induction false} TrimLeftDrops<T>(pre: seq<T>, rest: seq<T>, blank: T -> bool)
    requires (forall i :: 0 <= i < |pre| ==> blank(pre[i])) && (rest == [] || !blank(rest[0]))
    ensures TrimLeft(pre + rest, blank) == rest
    decreases |pre|
  {
    if pre == [] {
      JoinEmpty(rest);
    } else {
      assert (pre + rest)[1..] == pre[1..] + rest;
      TrimLeftDrops(pre[1..], rest, blank);
    }
  }

  lemma {:induction false} TrimRightDrops<T>(rest: seq<T>, post: seq<T>, blank: T -> bool)
    requires (forall i :: 0 <= i < |post| ==> blank(post[i])) && (rest == [] || !blank(rest[|rest| - 1]))
    ensures TrimRight(rest + post, blank) == rest
    decreases |post|
  {
    if post == [] {
      JoinEmpty(rest);
    } else {
      var n := |post| - 1;
      assert (rest + post)[..|rest + post| - 1] == rest + post[..n];
      assert (rest + post)[|rest + post| - 1] == post[n];
      TrimRightDrops(rest, post[..n], blank);
    }
  }
}
