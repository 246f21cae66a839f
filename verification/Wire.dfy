/** Values and errors shared by the wire decoders. */
module Wire {
  import opened Utf8
  import opened Wrappers

  /** A parsed JSON value, as far as the decoders look into it. Arrays, fractions, negative
      numbers, booleans and null are `Raw`. */
  datatype Json =
    | Object(fields: map<string, Json>)
    | Str(text: bytes)
    | UInt(n: nat)
    | Raw(text: bytes)

  /** `serde_json::from_str`: any fixed function from text to a value. */
  type Parser = bytes -> Option<Json>

  datatype RpcError =
    | ProtocolViolation
    | FrameTooLarge(size: nat, limit: nat)
    | JsonError

  datatype ErrorClass = Violation | TooLarge | BadJson

  function Class(e: RpcError): ErrorClass {
    match e
    case ProtocolViolation => Violation
    case FrameTooLarge(_, _) => TooLarge
    case JsonError => BadJson
  }

  const MAX_RPC_FRAME_BYTES: nat := 1024 * 1024
  const MAX_RPC_REASSEMBLED_BYTES: nat := 64 * 1024 * 1024
  const RPC_CHUNK_PAYLOAD_BYTES: nat := 256 * 1024
  const RPC_CHUNK_MAX_COUNT: nat := MAX_RPC_REASSEMBLED_BYTES / RPC_CHUNK_PAYLOAD_BYTES
  const RPC_CHUNK_ID_MAX_UTF16: nat := 128
  const JS_SAFE_INTEGER_MAX: nat := 0x1F_FFFF_FFFF_FFFF

  /** Text must be well-formed UTF-8, parse, and be an object. */
  function ParseObject(parse: Parser, payload: bytes): (r: Option<Json>)
    ensures r.Some? ==> r.value.Object? && Valid(payload)
  {
    if !Valid(payload) then None
    else
      match parse(payload)
      case Some(v) => if v.Object? then Some(v) else None
      case None => None
  }

  /** The limits: 1 MiB a physical frame, 64 MiB a logical one, 256 KiB a chunk, hence 256
      chunks, and integers below 2 to the power 53. */
  lemma Limits()
    ensures MAX_RPC_FRAME_BYTES == 1_048_576 && MAX_RPC_REASSEMBLED_BYTES == 67_108_864
    ensures RPC_CHUNK_PAYLOAD_BYTES == 262_144 && RPC_CHUNK_MAX_COUNT == 256
    ensures RPC_CHUNK_ID_MAX_UTF16 == 128 && JS_SAFE_INTEGER_MAX == 9_007_199_254_740_991
  {
  }
}
