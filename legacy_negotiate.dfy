/**
 * The first-generation negotiate codec (`src/body/negotiate.rs`): a request
 * parser without negotiate contexts and a response serialiser with a fixed
 * security-buffer offset. It shares the dialect registry and the dialect
 * loop with the current codec; its own `SMBDialect` enum has the same six
 * variants with the same codes (and no ordering), so `Dialect` stands for
 * it. It also declares the negotiate-context type codes.
 */
module LegacyNegotiate {
  import opened Wrappers
  import opened Bytes
  import opened BodyTypes
  import opened CommonTypes
  import opened DialectScan
  import Negotiate

  // ---------------------------------------------------------------------
  // Negotiate-context type codes
  // ---------------------------------------------------------------------

  /** The `NegotiateContext` enum of this module: the context types of MS-SMB2 section 2.2.3.1. */
  datatype ContextType =
    | PreAuthIntegrityCapabilities
    | EncryptionCapabilities
    | CompressionCapabilities
    | NetnameNegotiateContextId
    | TransportCapabilities
    | RdmaTransformCapabilities
    | SigningCapabilities

  /** The `#[repr(u16)]` discriminants: 1, 2, 3, then 5 onwards (4 is not assigned). */
  function ContextTypeCode(t: ContextType): (r: U16)
    ensures 1 <= r <= 8 && r != 4
  {
    match t
    case PreAuthIntegrityCapabilities => 0x01
    case EncryptionCapabilities => 0x02
    case CompressionCapabilities => 0x03
    case NetnameNegotiateContextId => 0x05
    case TransportCapabilities => 0x06
    case RdmaTransformCapabilities => 0x07
    case SigningCapabilities => 0x08
  }

  /** The derived `TryFromPrimitive`: the variant whose discriminant is `code`, if any. */
  function ContextTypeFromCode(code: U16): (r: Option<ContextType>)
    ensures r.Some? ==> ContextTypeCode(r.value) == code
  {
    if code == 0x01 then Some(PreAuthIntegrityCapabilities)
    else if code == 0x02 then Some(EncryptionCapabilities)
    else if code == 0x03 then Some(CompressionCapabilities)
    else if code == 0x05 then Some(NetnameNegotiateContextId)
    else if code == 0x06 then Some(TransportCapabilities)
    else if code == 0x07 then Some(RdmaTransformCapabilities)
    else if code == 0x08 then Some(SigningCapabilities)
    else None
  }

  /** Decoding an encoded context type gives it back. */
  lemma ContextTypeRoundTrip(t: ContextType)
    ensures ContextTypeFromCode(ContextTypeCode(t)) == Some(t)
  {
  }

  /** A code that decodes is the code of what it decodes to, so no two types share a code. */
  lemma ContextTypeDecodeSound(code: U16, t: ContextType)
    requires ContextTypeFromCode(code) == Some(t)
    ensures ContextTypeCode(t) == code
  {
  }

  /** Exactly the codes 1, 2, 3, 5, 6, 7 and 8 decode; 0, 4 and everything above 8 do not. */
  lemma ContextTypeCodes(code: U16)
    ensures ContextTypeFromCode(code).Some? <==> 1 <= code <= 8 && code != 4
  {
  }

  // ---------------------------------------------------------------------
  // Request parsing
  // ---------------------------------------------------------------------

  /** `SMBNegotiationRequestBody`: no negotiate contexts. */
  datatype LegacyRequest = LegacyRequest(
    securityMode: Byte,
    capabilities: Byte,
    clientGuid: Guid,
    dialects: seq<Dialect>)

  /** The dialect loop, from byte 36, for the count at bytes 2..4. */
  function LegacyDialectScan(bytes: seq<Byte>): Option<Scan<Dialect>>
    requires |bytes| >= 37
  {
    ScanDialects(bytes, ReadU16(bytes, 2), [], 36, DialectFromCode)
  }

  /** `from_bytes` runs without a panic: the dialect codes it reads lie inside the buffer. */
  predicate LegacyRequestParses(bytes: seq<Byte>)
  {
    |bytes| < 37 || LegacyDialectScan(bytes).Some?
  }

  /**
   * What `SMBNegotiationRequestBody::from_bytes` returns: the body and the
   * bytes after the dialect list.
   */
  function LegacyRequestFromBytes(bytes: seq<Byte>): (r: Option<(LegacyRequest, seq<Byte>)>)
    requires LegacyRequestParses(bytes)
    ensures r.None? <==> |bytes| < 37
  {
    if |bytes| < 37 then None
    else
      var scan := LegacyDialectScan(bytes).value;
      Some((LegacyRequest(SecurityModeFromBits(bytes[4]), CapabilitiesFromBits(bytes[8]), bytes[12..28],
                          scan.dialects),
            bytes[scan.next..]))
  }

  /**
   * `SMBNegotiationRequestBody::from_bytes`. When 3.1.1 is offered the Rust
   * code reads the context offset and count and discards them; that has no
   * effect on the result and is not repeated here.
   */
  method ParseLegacyRequest(bytes: seq<Byte>) returns (r: Option<(LegacyRequest, seq<Byte>)>)
    requires LegacyRequestParses(bytes)
    ensures r == LegacyRequestFromBytes(bytes)
  {
    if |bytes| < 37 {
      return None;
    }
    var dialectCount := ReadU16(bytes, 2);
    var securityMode := SecurityModeFromBits(bytes[4]);
    var capabilities := CapabilitiesFromBits(bytes[8]);
    var clientGuid: Guid := bytes[12..28];
    var dialects, dialectIdx := ReadDialects(bytes, 36, dialectCount, DialectFromCode);
    return Some((LegacyRequest(securityMode, capabilities, clientGuid, dialects), bytes[dialectIdx..]));
  }

  /**
   * The parsed request: the flag bytes truncated, the client GUID copied,
   * exactly `dialect_count` dialects which are the recognised codes among
   * the ones read, in wire order, and the rest right after the last code
   * read.
   */
  lemma LegacyParsedRequestShape(bytes: seq<Byte>)
    requires LegacyRequestParses(bytes) && |bytes| >= 37
    ensures var scan := LegacyDialectScan(bytes).value;
            var codesRead := (scan.next - 36) / 2;
            var request := LegacyRequestFromBytes(bytes).value.0;
            && scan.next == 36 + 2 * codesRead <= |bytes|
            && request.securityMode == SecurityModeFromBits(bytes[4])
            && request.capabilities == CapabilitiesFromBits(bytes[8])
            && request.clientGuid == bytes[12..28]
            && |request.dialects| == ReadU16(bytes, 2)
            && request.dialects == Recognised(CodesAt(bytes, 36, codesRead), DialectFromCode)
            && (ReadU16(bytes, 2) == 0 ==> codesRead == 0)
            && (ReadU16(bytes, 2) > 0 ==> codesRead > 0 && DialectFromCode(ReadU16(bytes, 34 + 2 * codesRead)).Some?)
            && LegacyRequestFromBytes(bytes).value.1 == bytes[36 + 2 * codesRead..]
  {
    ScanReadsCodes(bytes, ReadU16(bytes, 2), [], 36, DialectFromCode);
  }

  /**
   * The two parsers agree: wherever the current parser runs, the legacy one
   * runs too and reads the same flags, GUID and dialects; without 3.1.1 on
   * offer they also leave the same rest and the current one finds no
   * contexts.
   */
  lemma LegacyAgreesWithCurrent<C>(bytes: seq<Byte>, parse: seq<Byte> -> Option<C>)
    requires Negotiate.RequestParses(bytes, parse)
    ensures LegacyRequestParses(bytes)
    ensures LegacyRequestFromBytes(bytes).Some? == Negotiate.RequestFromBytes(bytes, parse).Some?
    ensures LegacyRequestFromBytes(bytes).Some? ==>
      var legacy := LegacyRequestFromBytes(bytes).value;
      var current := Negotiate.RequestFromBytes(bytes, parse).value;
      && legacy.0.securityMode == current.0.securityMode
      && legacy.0.capabilities == current.0.capabilities
      && legacy.0.clientGuid == current.0.clientGuid
      && legacy.0.dialects == current.0.dialects
      && (V3_1_1 !in legacy.0.dialects ==> legacy.1 == current.1 && current.0.negotiateContexts == [])
  {
  }

  // ---------------------------------------------------------------------
  // Response
  // ---------------------------------------------------------------------

  /** `SMBNegotiationResponseBody`: no negotiate contexts. */
  datatype LegacyResponse = LegacyResponse(
    securityMode: Byte,
    dialect: Dialect,
    guid: Guid,
    capabilities: Byte,
    maxTransactSize: U32,
    maxReadSize: U32,
    maxWriteSize: U32,
    systemTime: FileTime,
    serverStartTime: FileTime,
    buffer: seq<Byte>)

  /**
   * `SMBNegotiationResponseBody::new`, with the fresh GUID and the current
   * time passed in: every argument is stored as given.
   */
  function NewLegacyResponse(securityMode: Byte, dialect: Dialect, capabilities: Byte,
                             maxTransactSize: U32, maxReadSize: U32, maxWriteSize: U32,
                             serverStartTime: FileTime, buffer: seq<Byte>,
                             guid: Guid, systemTime: FileTime): (r: LegacyResponse)
    ensures r.securityMode == securityMode && r.dialect == dialect && r.capabilities == capabilities
    ensures r.maxTransactSize == maxTransactSize && r.maxReadSize == maxReadSize && r.maxWriteSize == maxWriteSize
    ensures r.serverStartTime == serverStartTime && r.buffer == buffer
    ensures r.guid == guid && r.systemTime == systemTime
  {
    LegacyResponse(securityMode, dialect, guid, capabilities, maxTransactSize, maxReadSize, maxWriteSize,
                   systemTime, serverStartTime, buffer)
  }

  /** Bytes 0..22: structure size, security mode, dialect, then the GUID (no context-count field). */
  function LegacyHeadFields(resp: LegacyResponse): (r: seq<Byte>)
    ensures |r| == 22
  {
    [65, 0] + [resp.securityMode, 0] + LE16(Code(resp.dialect)) + resp.guid
  }

  /** Bytes 54..62: the constant offset 64, the truncated buffer length, four zero bytes. */
  function LegacyOffsetFields(resp: LegacyResponse): (r: seq<Byte>)
    ensures |r| == 8
  {
    [64, 0] + LE16(|resp.buffer| % 0x1_0000) + [0, 0, 0, 0]
  }

  /** The 62 fixed bytes. */
  function LegacyFixedBlock(resp: LegacyResponse): (r: seq<Byte>)
    ensures |r| == 62
  {
    LegacyHeadFields(resp) + Negotiate.SizeFields(resp.capabilities, resp.maxTransactSize, resp.maxReadSize, resp.maxWriteSize) + Negotiate.TimeFields(resp.systemTime, resp.serverStartTime) + LegacyOffsetFields(resp)
  }

  /** What `SMBNegotiationResponseBody::as_bytes` returns: the fixed bytes, then the buffer. */
  function LegacyResponseWire(resp: LegacyResponse): (r: seq<Byte>)
    ensures |r| == 62 + |resp.buffer| && r[62..] == resp.buffer
  {
    LegacyFixedBlock(resp) + resp.buffer
  }

  /** The fixed block is its four field groups, each at its place. */
  lemma LegacyFixedBlockGroups(resp: LegacyResponse)
    ensures var f := LegacyFixedBlock(resp);
            && f[..22] == LegacyHeadFields(resp)
            && f[22..38] == Negotiate.SizeFields(resp.capabilities, resp.maxTransactSize, resp.maxReadSize, resp.maxWriteSize)
            && f[38..54] == Negotiate.TimeFields(resp.systemTime, resp.serverStartTime)
            && f[54..] == LegacyOffsetFields(resp)
  {
    var f := LegacyFixedBlock(resp);
    var (h, z, t, o) := (LegacyHeadFields(resp), Negotiate.SizeFields(resp.capabilities, resp.maxTransactSize, resp.maxReadSize, resp.maxWriteSize), Negotiate.TimeFields(resp.systemTime, resp.serverStartTime),
                         LegacyOffsetFields(resp));
    SplitSlice(f, 0, h + z + t, o);
    SplitSlice(f, 0, h + z, t);
    SplitSlice(f, 0, h, z);
  }

  /**
   * Where a reader of the legacy body finds each field: everything after
   * the dialect sits two bytes before its MS-SMB2 place, the security
   * buffer offset field always says 64, and the buffer follows the 62 fixed
   * bytes.
   */
  lemma LegacyWireLayout(resp: LegacyResponse)
    ensures var w := LegacyResponseWire(resp);
            && |w| == 62 + |resp.buffer|
            && w[0] == 65 && w[1] == 0 && w[2] == resp.securityMode && w[3] == 0
            && ReadU16(w, 4) == Code(resp.dialect)
            && w[6..22] == resp.guid
            && ReadU32(w, 22) == resp.capabilities
            && ReadU32(w, 26) == resp.maxTransactSize
            && ReadU32(w, 30) == resp.maxReadSize
            && ReadU32(w, 34) == resp.maxWriteSize
            && w[38..46] == FileTimeBytes(resp.systemTime)
            && w[46..54] == FileTimeBytes(resp.serverStartTime)
            && ReadU16(w, 54) == 64
            && ReadU16(w, 56) == |resp.buffer| % 0x1_0000
            && w[58..62] == [0, 0, 0, 0]
            && w[62..] == resp.buffer
  {
    var w := LegacyResponseWire(resp);
    var f := LegacyFixedBlock(resp);
    SplitSlice(w, 0, f, resp.buffer);
    LegacyFixedBlockGroups(resp);
    LegacyHeadLayout(resp, w);
    assert w[22..38] == f[22..38];
    Negotiate.SizeLayout(w, 22, resp.capabilities, resp.maxTransactSize, resp.maxReadSize, resp.maxWriteSize);
    LegacyOffsetLayout(resp, w);
    var t := Negotiate.TimeFields(resp.systemTime, resp.serverStartTime);
    assert w[38..54] == f[38..54] == t;
    SplitSlice(w, 38, FileTimeBytes(resp.systemTime), FileTimeBytes(resp.serverStartTime));
  }

  lemma LegacyHeadLayout(resp: LegacyResponse, w: seq<Byte>)
    requires |w| >= 62 && w[..22] == LegacyHeadFields(resp)
    ensures w[0] == 65 && w[1] == 0 && w[2] == resp.securityMode && w[3] == 0
    ensures ReadU16(w, 4) == Code(resp.dialect)
    ensures w[6..22] == resp.guid
  {
    var h := LegacyHeadFields(resp);
    assert w[4..6] == h[4..6] == LE16(Code(resp.dialect));
    ReadLE16(w, 4, Code(resp.dialect));
    assert w[6..22] == h[6..22];
  }

  lemma LegacyOffsetLayout(resp: LegacyResponse, w: seq<Byte>)
    requires |w| >= 62 && w[54..62] == LegacyOffsetFields(resp)
    ensures ReadU16(w, 54) == 64
    ensures ReadU16(w, 56) == |resp.buffer| % 0x1_0000
    ensures w[58..62] == [0, 0, 0, 0]
  {
    var (a, b, c) := ([64 as Byte, 0], LE16(|resp.buffer| % 0x1_0000), [0 as Byte, 0, 0, 0]);
    SplitSlice(w, 54, a + b, c);
    SplitSlice(w, 54, a, b);
    ReadLE16(w, 54, 64);
    ReadLE16(w, 56, |resp.buffer| % 0x1_0000);
  }

  /**
   * The declared security-buffer offset misses the buffer: it is relative to
   * the 64-byte SMB2 header, so it names body index 0, the structure-size
   * field, while the buffer starts at body index 62 (header-relative 126).
   */
  lemma LegacyBufferOffsetMisses(resp: LegacyResponse)
    requires |resp.buffer| > 0
    ensures var w := LegacyResponseWire(resp);
            && ReadU16(w, 54) - Negotiate.HEADER_SIZE == 0
            && w[62] == resp.buffer[0]
            && ReadU16(w, 54) != Negotiate.HEADER_SIZE + 62
  {
    LegacyWireLayout(resp);
    var w := LegacyResponseWire(resp);
    assert w[62] == w[62..][0];
  }

  /**
   * A concrete response that shows it: with a one-byte token 0xAA the body
   * is 63 bytes, the offset field says 64, and the byte a reader finds at
   * the declared place is the structure size 65, not the token.
   */
  lemma LegacyBufferOffsetExample()
    ensures var resp := LegacyResponse(0, V2_1_0, seq(16, _ => 0), 0, 65535, 65535, 65535,
                                       FileTime(0), FileTime(0), [0xAA]);
            var w := LegacyResponseWire(resp);
            && |w| == 63
            && ReadU16(w, 54) == 64
            && w[ReadU16(w, 54) - Negotiate.HEADER_SIZE] == 65
            && w[62] == 0xAA
  {
    var resp := LegacyResponse(0, V2_1_0, seq(16, _ => 0), 0, 65535, 65535, 65535,
                               FileTime(0), FileTime(0), [0xAA]);
    LegacyWireLayout(resp);
  }
}
