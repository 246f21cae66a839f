/** The standard base64 alphabet with padding (sections 3.5 and 4 of RFC 4648), as the chunk
    payload check uses it. */
module Base64 {
  import opened Seqs
  import opened Utf8
  import opened Wire
  import opened Wrappers

  const PAD: byte := 61

  /** `is_b64_char`. */
  predicate IsB64(b: byte) {
    65 <= b <= 90 || 97 <= b <= 122 || 48 <= b <= 57 || b == 43 || b == 47
  }

  type sextet = x: int | 0 <= x < 64

  function ToChar(x: sextet): (b: byte)
    ensures IsB64(b) && FromChar(b) == x
  {
    if x < 26 then 65 + x
    else if x < 52 then 97 + x - 26
    else if x < 62 then 48 + x - 52
    else if x == 62 then 43 else 47
  }

  function FromChar(b: byte): (x: sextet)
    requires IsB64(b)
  {
    if b >= 97 then b - 97 + 26
    else if b >= 65 then b - 65
    else if b == 43 then 62
    else if b == 47 then 63
    else b - 48 + 52
  }

  /** The alphabet, in the order of table 1 of RFC 4648. */
  lemma Alphabet(x: sextet)
    ensures 0 <= x < 26 ==> ToChar(x) as char == "ABCDEFGHIJKLMNOPQRSTUVWXYZ"[x]
    ensures 26 <= x < 52 ==> ToChar(x) as char == "abcdefghijklmnopqrstuvwxyz"[x - 26]
    ensures 52 <= x < 62 ==> ToChar(x) as char == "0123456789"[x - 52]
    ensures x == 62 ==> ToChar(x) as char == '+'
    ensures x == 63 ==> ToChar(x) as char == '/'
  {
  }

  /** Every character of the check is one of the alphabet. */
  lemma CharactersAreAlphabet(b: byte)
    requires IsB64(b)
    ensures ToChar(FromChar(b)) == b
  {
  }

  /** The examples in section 10 of RFC 4648, `f` to `foo` and `foobar`. */
  lemma PaddedExamples()
    ensures EncodeGroup([102]) == Ascii("Zg==")
    ensures EncodeGroup([102, 111]) == Ascii("Zm8=")
  {
  }

  lemma ShortExamples()
    ensures EncodeGroup([102, 111, 111]) == Ascii("Zm9v")
    ensures EncodeGroup([98, 97, 114]) == Ascii("YmFy")
  {
  }

  lemma LongExample()
    ensures Encode([102, 111, 111, 98, 97, 114]) == Ascii("Zm9v") + Ascii("YmFy")
  {
    var s: bytes := [102, 111, 111, 98, 97, 114];
    assert s[..3] == [102, 111, 111] && s[3..] == [98, 97, 114];
    ShortExamples();
    hide EncodeGroup, Ascii;
  }

  predicate AllB64(s: bytes) {
    forall i :: 0 <= i < |s| ==> IsB64(s[i])
  }

  // ----- encoding and decoding ----------------------------------------------

  /** The four characters of up to three bytes. */
  function EncodeGroup(g: bytes): (q: bytes)
    requires 1 <= |g| <= 3
    ensures |q| == 4
  {
    match |g|
    case 1 => [ToChar(g[0] / 4), ToChar(g[0] % 4 * 16), PAD, PAD]
    case 2 => [ToChar(g[0] / 4), ToChar(g[0] % 4 * 16 + g[1] / 16), ToChar(g[1] % 16 * 4), PAD]
    case _ => [ToChar(g[0] / 4), ToChar(g[0] % 4 * 16 + g[1] / 16),
               ToChar(g[1] % 16 * 4 + g[2] / 64), ToChar(g[2] % 64)]
  }

  /** The characters of a group are the digits, to the base 64, of the number whose digits to the
      base 256 are its bytes; a short group is filled up with zero bits (section 4 of RFC 4648). */
  lemma GroupIsNumber(g: bytes)
    requires 1 <= |g| <= 3
    ensures var q := EncodeGroup(g);
            match |g|
            case 1 =>
              && q[2] as char == '=' && q[3] as char == '='
              && FromChar(q[0]) * 64 + FromChar(q[1]) == g[0] as int * 16
            case 2 =>
              && q[3] as char == '='
              && FromChar(q[0]) * 4096 + FromChar(q[1]) * 64 + FromChar(q[2]) == (g[0] as int * 256 + g[1] as int) * 4
            case _ =>
              FromChar(q[0]) * 262144 + FromChar(q[1]) * 4096 + FromChar(q[2]) * 64 + FromChar(q[3])
              == g[0] as int * 65536 + g[1] as int * 256 + g[2] as int
  {
    hide FromChar;
  }

  function Encode(b: bytes): bytes {
    if b == [] then []
    else if |b| <= 3 then EncodeGroup(b)
    else EncodeGroup(b[..3]) + Encode(b[3..])
  }

  /** The bytes of four characters; unused low bits are ignored. `last` allows padding. */
  function DecodeGroup(q: bytes, last: bool): Option<bytes>
    requires |q| == 4
  {
    if !IsB64(q[0]) || !IsB64(q[1]) then None
    else
      var b0 := FromChar(q[0]) * 4 + FromChar(q[1]) / 16;
      if last && q[2] == PAD && q[3] == PAD then Some([b0])
      else if !IsB64(q[2]) then None
      else
        var b1 := FromChar(q[1]) % 16 * 16 + FromChar(q[2]) / 4;
        if last && q[3] == PAD then Some([b0, b1])
        else if !IsB64(q[3]) then None
        else Some([b0, b1, FromChar(q[2]) % 4 * 64 + FromChar(q[3])])
  }

  /** The library decoder. It is taken to be lenient about unused bits; the caller compares
      with a fresh encoding, so a stricter one accepts the same payloads. */
  function Decode(s: bytes): Option<bytes> {
    if s == [] then Some([])
    else if |s| < 4 then None
    else
      match DecodeGroup(s[..4], |s| == 4)
      case None => None
      case Some(g) =>
        match Decode(s[4..])
        case None => None
        case Some(rest) => Some(g + rest)
  }

  lemma GroupRoundTrip(g: bytes, last: bool)
    requires 1 <= |g| <= 3 && (last || |g| == 3)
    ensures DecodeGroup(EncodeGroup(g), last) == Some(g)
  {
    hide ToChar, FromChar, IsB64;
    var q := EncodeGroup(g);
    assert !IsB64(PAD) by { PadIsNotB64(); }
    match |g| {
      case 1 => assert g == [g[0]];
      case 2 => assert g == [g[0], g[1]];
      case _ => assert g == [g[0], g[1], g[2]];
    }
  }

  lemma PadIsNotB64()
    ensures !IsB64(PAD)
  {
  }

  /** Decoding undoes encoding. */
  lemma {:induction false} RoundTrip(b: bytes)
    ensures Decode(Encode(b)) == Some(b)
    decreases |b|
  {
    hide EncodeGroup, DecodeGroup;
    if b == [] {
    } else if |b| <= 3 {
      GroupRoundTrip(b, true);
      var s := EncodeGroup(b);
      assert s[..4] == s && s[4..] == [] && b + [] == b;
    } else {
      GroupRoundTrip(b[..3], false);
      RoundTrip(b[3..]);
      var q, s := EncodeGroup(b[..3]), Encode(b);
      EncodeNonempty(b[3..]);
      assert s[..4] == q && s[4..] == Encode(b[3..]) && b[..3] + b[3..] == b;
    }
  }

  lemma EncodeNonempty(b: bytes)
    ensures b != [] ==> |Encode(b)| >= 4
  {
  }

  /** Two payloads never share an encoding. */
  lemma EncodeInjective(a: bytes, b: bytes)
    requires Encode(a) == Encode(b)
    ensures a == b
  {
    RoundTrip(a);
    RoundTrip(b);
  }

  // ----- the syntax check ---------------------------------------------------

  /** `is_canonical_base64`. */
  predicate IsCanonicalBase64(s: bytes) {
    && s != []
    && |s| % 4 == 0
    && var cut := if s[|s| - 1] == PAD then |s| - 4 else |s|;
       var tail := s[cut..];
       && AllB64(s[..cut])
       && (|tail| == 4 ==>
             if tail[2] == PAD && tail[3] == PAD then IsB64(tail[0]) && IsB64(tail[1])
             else if tail[3] == PAD then IsB64(tail[0]) && IsB64(tail[1]) && IsB64(tail[2])
             else AllB64(tail))
  }

  /** The language of `(?:[A-Za-z0-9+/]{4})*(?:[A-Za-z0-9+/]{2}==|[A-Za-z0-9+/]{3}=)?`. */
  predicate InRegex(s: bytes) {
    || s == []
    || (|s| == 4 && AllB64(s[..2]) && s[2] == PAD && s[3] == PAD)
    || (|s| == 4 && AllB64(s[..3]) && s[3] == PAD)
    || (|s| >= 4 && AllB64(s[..4]) && InRegex(s[4..]))
  }

  lemma CanonicalStep(s: bytes)
    requires |s| > 4
    ensures IsCanonicalBase64(s) <==> AllB64(s[..4]) && IsCanonicalBase64(s[4..])
  {
    var t := s[4..];
    assert t[|t| - 1] == s[|s| - 1];
    var cut := if s[|s| - 1] == PAD then |s| - 4 else |s|;
    if |s| % 4 == 0 {
      assert cut >= 4;
      hide IsB64, AllB64;
      SuffixOfSuffix(s, 4, cut - 4);
      SliceTwoWays(s, 4, cut);
      PrefixOfPrefix(s, cut, 4);
      SplitAt(s[..cut], 4);
      JoinB64(s[..4], t[..cut - 4]);
    }
  }

  lemma JoinB64(a: bytes, b: bytes)
    ensures AllB64(a + b) <==> AllB64(a) && AllB64(b)
  {
    assert forall i :: 0 <= i < |a| ==> a[i] == (a + b)[i];
    assert forall i :: 0 <= i < |b| ==> b[i] == (a + b)[|a| + i];
  }

  /** The byte-level check decides the regular expression. */
  lemma {:induction false} CanonicalIsRegex(s: bytes)
    requires s != []
    ensures IsCanonicalBase64(s) <==> InRegex(s)
    decreases |s|
  {
    if |s| > 4 {
      hide IsCanonicalBase64;
      CanonicalStep(s);
      CanonicalIsRegex(s[4..]);
    } else if |s| == 4 {
      CanonicalQuad(s);
    }
  }

  lemma CanonicalQuad(s: bytes)
    requires |s| == 4
    ensures IsCanonicalBase64(s) <==> InRegex(s)
  {
    PadIsNotB64();
    hide IsB64;
    assert InRegex(s[4..]);
    assert s[..0] == [] && s[0..] == s && s[..4] == s;
    assert AllB64(s[..2]) <==> IsB64(s[0]) && IsB64(s[1]);
    assert AllB64(s[..3]) <==> IsB64(s[0]) && IsB64(s[1]) && IsB64(s[2]);
  }

  lemma {:induction false} EncodeInRegex(b: bytes)
    ensures InRegex(Encode(b))
    decreases |b|
  {
    if |b| > 3 {
      EncodeInRegex(b[3..]);
      var q, s := EncodeGroup(b[..3]), Encode(b);
      assert s[..4] == q && s[4..] == Encode(b[3..]);
    }
  }

  // ----- the payload of a chunk ---------------------------------------------

  datatype Result<+T> = Ok(value: T) | Err(error: RpcError)

  /** `decode_chunk_payload`, for a `data` field that is a string. */
  function DecodePayload(data: bytes): Result<bytes> {
    if data == [] || !IsCanonicalBase64(data) then Err(ProtocolViolation)
    else
      match Decode(data)
      case None => Err(ProtocolViolation)
      case Some(b) =>
        if Encode(b) != data then Err(ProtocolViolation)
        else if |b| > RPC_CHUNK_PAYLOAD_BYTES then Err(FrameTooLarge(|b|, RPC_CHUNK_PAYLOAD_BYTES))
        else Ok(b)
  }

  /** Accepted are exactly the canonical encodings of 1 to 262144 bytes, and the result is
      what they encode; longer payloads are told from malformed ones. */
  lemma PayloadExact(data: bytes, b: bytes)
    ensures DecodePayload(data) == Ok(b) <==> Encode(b) == data && 1 <= |b| <= RPC_CHUNK_PAYLOAD_BYTES
    ensures DecodePayload(data) == Err(FrameTooLarge(|b|, RPC_CHUNK_PAYLOAD_BYTES))
            <== Encode(b) == data && |b| > RPC_CHUNK_PAYLOAD_BYTES
    ensures DecodePayload(data) == Err(ProtocolViolation) ==> b == [] || Encode(b) != data
  {
    hide IsCanonicalBase64, Encode, Decode;
    assert Encode([]) == [] by { EmptyEncoding(); }
    if Encode(b) == data {
      RoundTrip(b);
      EncodeInRegex(b);
      if data != [] {
        CanonicalIsRegex(data);
      } else {
        assert b == [] by { EncodeNonempty(b); }
      }
    }
  }

  /** Apart from those that are too long, all others are protocol violations. */
  lemma PayloadErrors(data: bytes)
    ensures match DecodePayload(data)
            case Err(e) => e == ProtocolViolation || (e.FrameTooLarge? && e.size > 262_144)
            case Ok(_) => true
  {
    hide Decode, Encode, IsCanonicalBase64;
  }

  lemma EmptyEncoding()
    ensures Encode([]) == []
  {
  }

  /** A rejected payload that is not too long encodes nothing. */
  lemma RejectedEncodesNothing(data: bytes)
    requires DecodePayload(data) == Err(ProtocolViolation) && data != []
    ensures forall b :: Encode(b) != data
  {
    forall b
      ensures Encode(b) != data
    {
      PayloadExact(data, b);
      EmptyEncoding();
    }
  }
}
