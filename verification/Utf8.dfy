/** Byte strings, and UTF-8 as the contents of a Rust `str`: well-formedness
    (the table in section 4 of RFC 3629) and char boundaries. */
module Utf8 {
  import opened Seqs

  type byte = x: int | 0 <= x < 256

  type bytes = seq<byte>

  /** The bytes of an ASCII literal. */
  function Ascii(s: string): bytes
    requires forall i :: 0 <= i < |s| ==> s[i] as int < 128
  {
    seq(|s|, i requires 0 <= i < |s| => s[i] as int)
  }

  /** A continuation byte, `10xxxxxx`. */
  predicate IsCont(b: byte) {
    0x80 <= b < 0xC0
  }

  predicate IsLead3(b0: byte, b1: byte) {
    || (b0 == 0xE0 && 0xA0 <= b1 <= 0xBF)
    || (0xE1 <= b0 <= 0xEC && IsCont(b1))
    || (b0 == 0xED && 0x80 <= b1 <= 0x9F)
    || (0xEE <= b0 <= 0xEF && IsCont(b1))
  }

  predicate IsLead4(b0: byte, b1: byte) {
    || (b0 == 0xF0 && 0x90 <= b1 <= 0xBF)
    || (0xF1 <= b0 <= 0xF3 && IsCont(b1))
    || (b0 == 0xF4 && 0x80 <= b1 <= 0x8F)
  }

  /** Byte length of the well-formed character that starts `s`; 0 if none does. */
  function CharLen(s: bytes): (n: nat)
    ensures n <= 4 && n <= |s|
    ensures n > 0 ==> !IsCont(s[0]) && forall k :: 1 <= k < n ==> IsCont(s[k])
  {
    if |s| >= 1 && s[0] < 0x80 then 1
    else if |s| >= 2 && 0xC2 <= s[0] <= 0xDF && IsCont(s[1]) then 2
    else if |s| >= 3 && IsLead3(s[0], s[1]) && IsCont(s[2]) then 3
    else if |s| >= 4 && IsLead4(s[0], s[1]) && IsCont(s[2]) && IsCont(s[3]) then 4
    else 0
  }

  // ----- the table of section 3 of RFC 3629 ---------------------------------

  /** A code point that a character can have: no surrogate. */
  predicate Scalar(n: int) {
    0 <= n <= 0xD7FF || 0xE000 <= n <= 0x10FFFF
  }

  /** The bytes of a character: as many leading bits as its size asks for, six bits a byte. */
  function EncodeChar(n: int): (s: bytes)
    requires Scalar(n)
  {
    if n < 0x80 then [n]
    else if n < 0x800 then [0xC0 + n / 64, 0x80 + n % 64]
    else if n < 0x1_0000 then [0xE0 + n / 4096, 0x80 + n / 64 % 64, 0x80 + n % 64]
    else [0xF0 + n / 262144, 0x80 + n / 4096 % 64, 0x80 + n / 64 % 64, 0x80 + n % 64]
  }

  /** The code point of the character that starts the text. */
  function CodePoint(s: bytes): int
    requires CharLen(s) > 0
  {
    var b0: int := s[0];
    match CharLen(s)
    case 1 => b0
    case 2 => (b0 - 0xC0) * 64 + Low(s[1])
    case 3 => (b0 - 0xE0) * 4096 + Low(s[1]) * 64 + Low(s[2])
    case _ => (b0 - 0xF0) * 262144 + Low(s[1]) * 4096 + Low(s[2]) * 64 + Low(s[3])
  }

  function Low(b: byte): int {
    b as int - 0x80
  }

  /** What is read as a character is the encoding of a code point. */
  lemma CharIsEncoding(s: bytes)
    requires CharLen(s) > 0
    ensures Scalar(CodePoint(s)) && s[..CharLen(s)] == EncodeChar(CodePoint(s))
  {
    if CharLen(s) <= 2 {
      ShortCharIsEncoding(s);
    } else if CharLen(s) == 3 {
      ThreeBytesAreEncoding(s);
    } else {
      FourBytesAreEncoding(s);
    }
  }

  lemma ShortCharIsEncoding(s: bytes)
    requires 1 <= CharLen(s) <= 2
    ensures Scalar(CodePoint(s)) && s[..CharLen(s)] == EncodeChar(CodePoint(s))
  {
    assert CharLen(s) == 1 ==> s[..1] == [s[0]];
    assert CharLen(s) == 2 ==> s[..2] == [s[0], s[1]];
  }

  lemma ThreeBytesAreEncoding(s: bytes)
    requires CharLen(s) == 3
    ensures Scalar(CodePoint(s)) && s[..3] == EncodeChar(CodePoint(s))
  {
    var x, y, z := s[0] as int - 0xE0, Low(s[1]), Low(s[2]);
    var n := CodePoint(s);
    assert s[..3] == [s[0], s[1], s[2]];
    assert 0 <= x < 16 && 0 <= y < 64 && 0 <= z < 64 && n == x * 4096 + y * 64 + z;
    assert 0x800 <= n < 0x1_0000 && Scalar(n);
    hide CharLen, CodePoint;
    DigitsBack(0, x, y, z);
  }

  lemma FourBytesAreEncoding(s: bytes)
    requires CharLen(s) == 4
    ensures Scalar(CodePoint(s)) && s[..4] == EncodeChar(CodePoint(s))
  {
    var x, y, z, w := s[0] as int - 0xF0, Low(s[1]), Low(s[2]), Low(s[3]);
    var n := CodePoint(s);
    assert s[..4] == [s[0], s[1], s[2], s[3]];
    assert 0 <= x < 8 && 0 <= y < 64 && 0 <= z < 64 && 0 <= w < 64 && n == x * 262144 + y * 4096 + z * 64 + w;
    assert 0x1_0000 <= n <= 0x10FFFF;
    hide CharLen, CodePoint;
    DigitsBack(x, y, z, w);
  }

  /** The digits of a number written to the base 64. */
  lemma DigitsBack(x: nat, y: nat, z: nat, w: nat)
    requires y < 64 && z < 64 && w < 64
    ensures var n := x * 262144 + y * 4096 + z * 64 + w;
            n / 262144 == x && n / 4096 % 64 == y && n / 64 % 64 == z && n % 64 == w
  {
    var n := x * 262144 + y * 4096 + z * 64 + w;
    assert n / 64 == x * 4096 + y * 64 + z;
    assert n / 4096 == x * 64 + y;
  }

  /** And every encoding is read as a character, whatever follows. */
  lemma EncodingIsChar(n: int, rest: bytes)
    requires Scalar(n)
    ensures CharLen(EncodeChar(n) + rest) == |EncodeChar(n)|
  {
    var c := EncodeChar(n);
    EncodedBytes(n);
    hide EncodeChar, Scalar;
    assert forall k :: 0 <= k < |c| ==> (c + rest)[k] == c[k];
  }

  /** The bytes that an encoding can have (section 4 of RFC 3629). */
  lemma EncodedBytes(n: int)
    requires Scalar(n)
    ensures var c := EncodeChar(n);
            match |c|
            case 1 => c[0] < 0x80
            case 2 => 0xC2 <= c[0] <= 0xDF && IsCont(c[1])
            case 3 => IsLead3(c[0], c[1]) && IsCont(c[2])
            case 4 => IsLead4(c[0], c[1]) && IsCont(c[2]) && IsCont(c[3])
            case _ => false
  {
    if n >= 0x1_0000 {
      FourByteParts(n);
    } else if n >= 0x800 {
      ThreeByteParts(n);
    }
  }

  lemma ThreeByteParts(n: nat)
    requires 0x800 <= n < 0x1_0000
    ensures var x, y := n / 4096, n / 64 % 64;
            x < 16 && (x == 0 ==> y >= 32) && (x == 13 && n < 0xD800 ==> y < 32) && (n >= 0xE000 ==> x >= 14)
  {
    assert n / 64 == n / 4096 * 64 + n / 64 % 64;
  }

  lemma FourByteParts(n: nat)
    requires 0x1_0000 <= n <= 0x10FFFF
    ensures var x, y := n / 262144, n / 4096 % 64;
            x <= 4 && (x == 0 ==> y >= 16) && (x == 4 ==> y < 16)
  {
    assert n / 4096 == n / 262144 * 64 + n / 4096 % 64;
  }

  /** `s` is a concatenation of well-formed characters. */
  predicate Valid(s: bytes) {
    s == [] || (CharLen(s) > 0 && Valid(s[CharLen(s)..]))
  }

  /** `str::is_char_boundary`. */
  predicate IsBoundary(s: bytes, i: int) {
    i == 0 || i == |s| || (0 < i < |s| && !IsCont(s[i]))
  }

  /** The least boundary at or after `i`, clamped to the length. */
  function Ceil(s: bytes, i: nat): (r: nat)
    ensures i <= |s| ==> i <= r
    ensures r <= |s| && IsBoundary(s, r)
    ensures forall j :: i <= j < r ==> !IsBoundary(s, j)
    decreases |s| - i
  {
    if i >= |s| then |s|
    else if IsBoundary(s, i) then i
    else Ceil(s, i + 1)
  }

  /** The greatest boundary at or before `i`, clamped to the length. */
  function Floor(s: bytes, i: nat): (r: nat)
    ensures r <= i && r <= |s| && IsBoundary(s, r)
    ensures forall j :: r < j <= i && j <= |s| ==> !IsBoundary(s, j)
  {
    if i >= |s| then |s|
    else if IsBoundary(s, i) then i
    else Floor(s, i - 1)
  }

  method FloorCharBoundary(s: bytes, index: nat) returns (idx: nat)
    ensures idx == Floor(s, index)
  {
    if index >= |s| {
      return |s|;
    }
    idx := index;
    while idx > 0 && !IsBoundary(s, idx)
      invariant idx <= index
      invariant Floor(s, idx) == Floor(s, index)
    {
      idx := idx - 1;
    }
  }

  method CeilCharBoundary(s: bytes, index: nat) returns (idx: nat)
    ensures idx == Ceil(s, index)
  {
    if index >= |s| {
      return |s|;
    }
    idx := index;
    while idx < |s| && !IsBoundary(s, idx)
      invariant idx <= |s|
      invariant Ceil(s, idx) == Ceil(s, index)
    {
      idx := idx + 1;
    }
  }

  // ----- cutting and joining -----------------------------------------------

  /** Reading one character looks no further than its own bytes. */
  lemma CharLenPrefix(s: bytes, n: nat)
    requires CharLen(s) > 0 && CharLen(s) <= n <= |s|
    ensures CharLen(s[..n]) == CharLen(s)
  {
  }

  lemma CharLenJoin(a: bytes, b: bytes)
    requires CharLen(a) > 0
    ensures CharLen(a + b) == CharLen(a)
  {
  }

  lemma ValidStart(s: bytes)
    requires Valid(s) && s != []
    ensures !IsCont(s[0])
  {
  }

  lemma BoundaryDrop(s: bytes, n: nat, i: nat)
    requires n <= i <= |s| && IsBoundary(s, i)
    ensures IsBoundary(s[n..], i - n)
  {
  }

  lemma NoBoundaryInside(s: bytes, i: nat)
    requires 0 < i < CharLen(s)
    ensures !IsBoundary(s, i)
  {
  }

  lemma ValidCons(s: bytes)
    requires CharLen(s) > 0 && Valid(s[CharLen(s)..])
    ensures Valid(s)
  {
    hide CharLen;
  }

  /** Past its first character, a boundary of well-formed text is one of the rest. */
  lemma CutStep(s: bytes, i: nat)
    requires Valid(s) && 0 < i <= |s| && IsBoundary(s, i)
    ensures var n := CharLen(s);
            && 0 < n <= i && Valid(s[n..]) && IsBoundary(s[n..], i - n)
            && CharLen(s[..i]) == n
            && s[..i][n..] == s[n..][..i - n] && s[n..][i - n..] == s[i..]
  {
    var n := CharLen(s);
    assert n > 0;
    hide Valid, CharLen, IsBoundary;
    if i < n {
      NoBoundaryInside(s, i);
    }
    BoundaryDrop(s, n, i);
    CharLenPrefix(s, i);
    SuffixOfSuffix(s, n, i - n);
    SliceTwoWays(s, n, i);
  }

  /** Cutting well-formed text at a boundary leaves two well-formed texts. */
  lemma {:induction false} ValidCut(s: bytes, i: nat)
    requires Valid(s) && i <= |s| && IsBoundary(s, i)
    ensures Valid(s[..i]) && Valid(s[i..])
    decreases |s|
  {
    if i == 0 {
      assert s[0..] == s && s[..0] == [];
    } else {
      CutStep(s, i);
      hide Valid, CharLen, IsBoundary;
      ValidCut(s[CharLen(s)..], i - CharLen(s));
      ValidCons(s[..i]);
    }
  }

  /** Well-formed texts concatenate to a well-formed text. */
  lemma {:induction false} ValidJoin(a: bytes, b: bytes)
    requires Valid(a) && Valid(b)
    ensures Valid(a + b)
    decreases |a|
  {
    hide CharLen;
    if a == [] {
      assert a + b == b;
    } else {
      var n := CharLen(a);
      ValidJoin(a[n..], b);
      assert (a + b)[n..] == a[n..] + b;
      CharLenJoin(a, b);
    }
  }

  lemma {:induction false} ValidAscii(s: bytes)
    requires forall i :: 0 <= i < |s| ==> s[i] < 0x80
    ensures Valid(s)
    decreases |s|
  {
    if s != [] {
      ValidAscii(s[1..]);
    }
  }

  /** The boundaries of a concatenation are the boundaries of its parts. */
  lemma BoundaryJoin(a: bytes, b: bytes, i: nat)
    requires Valid(a) && Valid(b) && i <= |a| + |b|
    ensures i <= |a| ==> (IsBoundary(a + b, i) <==> IsBoundary(a, i))
    ensures i >= |a| ==> (IsBoundary(a + b, i) <==> IsBoundary(b, i - |a|))
  {
    hide Valid;
    if i < |a| {
      assert (a + b)[i] == a[i];
    } else if i < |a + b| {
      assert (a + b)[i] == b[i - |a|];
      ValidStart(b);
    }
    if i == 0 && a != [] {
      ValidStart(a);
    }
  }

  /** A boundary is never more than three bytes away. */
  lemma {:induction false} CeilNear(s: bytes, i: nat)
    requires Valid(s) && i <= |s|
    ensures Ceil(s, i) <= i + 3
    decreases |s|
  {
    var n := CharLen(s);
    if i == |s| || i == 0 {
    } else if i < n {
      ValidStartAfter(s, n);
      assert IsBoundary(s, n);
    } else {
      CeilNear(s[n..], i - n);
      CeilDrop(s, n, i);
    }
  }

  lemma {:induction false} FloorNear(s: bytes, i: nat)
    requires Valid(s) && i <= |s|
    ensures Floor(s, i) + 3 >= i
    decreases |s|
  {
    var n := CharLen(s);
    if n <= i && s != [] {
      var q := Floor(s[n..], i - n);
      FloorNear(s[n..], i - n);
      assert IsBoundary(s, n + q) by {
        ValidStartAfter(s, n);
      }
    }
  }

  /** After one character the text ends or the next one starts. */
  lemma ValidStartAfter(s: bytes, n: nat)
    requires Valid(s) && s != [] && n == CharLen(s)
    ensures n < |s| ==> !IsCont(s[n])
  {
    if n < |s| {
      ValidStart(s[n..]);
      assert s[n..][0] == s[n];
    }
  }

  /** Rounding up is the same seen from any earlier boundary. */
  lemma CeilDrop(s: bytes, p: nat, i: nat)
    requires p <= i <= |s|
    requires IsBoundary(s, p)
    ensures Ceil(s, i) == p + Ceil(s[p..], i - p)
  {
    assert p == 0 ==> s[p..] == s;
    var r, q := Ceil(s, i), Ceil(s[p..], i - p);
    forall j | p <= j <= |s|
      ensures IsBoundary(s, j) <==> IsBoundary(s[p..], j - p)
    {
      if p < j < |s| {
        assert s[p..][j - p] == s[j];
      }
    }
    assert IsBoundary(s, p + q);
    assert IsBoundary(s[p..], r - p);
  }

  /** Rounding up is monotone. */
  lemma CeilMonotone(s: bytes, i: nat, j: nat)
    requires i <= j <= |s|
    ensures Ceil(s, i) <= Ceil(s, j)
  {
  }
}
