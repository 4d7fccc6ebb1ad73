/**
 * The current SMB2/3 NEGOTIATE codec (MS-SMB2 sections 2.2.3, 2.2.3.1 and
 * 2.2.4): the request parser, the construction of a response from a
 * request, and the response serialiser with its self-referential offsets.
 *
 * The negotiate-context type and its codec are not part of this model. The
 * operations are generic in the context type `C` and take the context
 * codec as parameters: `parse` for `NegotiateContext::from_bytes`, `encode`
 * for `NegotiateContext::as_bytes` and `respond` for
 * `NegotiateContext::response_from_existing`.
 */
module Negotiate {
  import opened Wrappers
  import opened Bytes
  import opened BodyTypes
  import opened CommonTypes
  import opened DialectScan

  /** `SMBNegotiateRequestBody`. */
  datatype Request<C> = Request(
    securityMode: Byte,
    capabilities: Byte,
    clientGuid: Guid,
    dialects: seq<Dialect>,
    negotiateContexts: seq<C>)

  /** `SMBNegotiateResponseBody`. */
  datatype Response<C> = Response(
    securityMode: Byte,
    dialect: Dialect,
    guid: Guid,
    capabilities: Byte,
    maxTransactSize: U32,
    maxReadSize: U32,
    maxWriteSize: U32,
    systemTime: FileTime,
    serverStartTime: FileTime,
    buffer: seq<Byte>,
    negotiateContexts: seq<C>)

  /** The width of the SMB2 header that precedes every body. */
  const HEADER_SIZE: nat := 64

  // ---------------------------------------------------------------------
  // Request parsing
  // ---------------------------------------------------------------------

  datatype ContextWalk<C> = ContextWalk(contexts: seq<C>, next: nat)

  /**
   * The negotiate-context loop with `contexts` collected so far and the
   * cursor at `start`, run until `count` contexts are collected. Every
   * record advances the cursor by 8 plus its declared length, whether or not
   * it parsed; padding `Pad8` follows unless the record just completed the
   * count. A record header that runs past the buffer makes the Rust code
   * panic; that is `None` here.
   */
  function WalkContexts<C>(bytes: seq<Byte>, parse: seq<Byte> -> Option<C>, count: nat,
                           contexts: seq<C>, start: nat): (r: Option<ContextWalk<C>>)
    ensures r.Some? && |contexts| <= count ==> |r.value.contexts| == count
    ensures r.Some? ==> start <= r.value.next
    decreases if start <= |bytes| then |bytes| - start else 0
  {
    if |contexts| >= count then Some(ContextWalk(contexts, start))
    else if |bytes| < start + 4 then None
    else
      var context := parse(bytes[start..]);
      var contexts' := if context.Some? then contexts + [context.value] else contexts;
      var next := start + ReadU16(bytes, start + 2) + 8;
      var next' := if |contexts'| != count then next + Pad8(next) else next;
      WalkContexts(bytes, parse, count, contexts', next')
  }

  /** The dialect loop of the request parser, from byte 36, for the count at bytes 2..4. */
  function RequestDialectScan(bytes: seq<Byte>): Option<Scan<Dialect>>
    requires |bytes| >= 37
  {
    ScanDialects(bytes, ReadU16(bytes, 2), [], 36, DialectFromCode)
  }

  /** The context loop of the request parser, from the offset at 28..32 less the header, for the count at 32..34. */
  function RequestContextWalk<C>(bytes: seq<Byte>, parse: seq<Byte> -> Option<C>): Option<ContextWalk<C>>
    requires |bytes| >= 37 && ReadU32(bytes, 28) >= HEADER_SIZE
  {
    WalkContexts(bytes, parse, ReadU16(bytes, 32), [], ReadU32(bytes, 28) - HEADER_SIZE)
  }

  /**
   * `from_bytes` runs without a panic: the dialect codes and, when 3.1.1 is
   * offered, the context offset and the context records lie inside the
   * buffer.
   */
  predicate RequestParses<C>(bytes: seq<Byte>, parse: seq<Byte> -> Option<C>)
  {
    |bytes| < 37 ||
    (RequestDialectScan(bytes).Some? &&
     (V3_1_1 in RequestDialectScan(bytes).value.dialects ==>
        ReadU32(bytes, 28) >= HEADER_SIZE && RequestContextWalk(bytes, parse).Some?))
  }

  /** What `SMBNegotiateRequestBody::from_bytes` returns: the body and the unconsumed rest. */
  function RequestFromBytes<C>(bytes: seq<Byte>, parse: seq<Byte> -> Option<C>)
    : (r: Option<(Request<C>, seq<Byte>)>)
    requires RequestParses(bytes, parse)
    ensures r.None? <==> |bytes| < 37
  {
    if |bytes| < 37 then None
    else
      var scan := RequestDialectScan(bytes).value;
      var request := Request(SecurityModeFromBits(bytes[4]), CapabilitiesFromBits(bytes[8]),
                             bytes[12..28], scan.dialects, []);
      if V3_1_1 !in scan.dialects then Some((request, bytes[scan.next..]))
      else
        var walk := RequestContextWalk(bytes, parse).value;
        Some((request.(negotiateContexts := walk.contexts),
              if walk.next < |bytes| then bytes[walk.next..] else []))
  }

  /**
   * The `while negotiate_contexts.len() < negotiate_ctx_cnt` loop of
   * `from_bytes`: it parses a record at the cursor, keeps it if it parsed,
   * steps over it by its declared length and pads unless the count is
   * complete.
   */
  method ReadContexts<C>(bytes: seq<Byte>, parse: seq<Byte> -> Option<C>, first: nat, count: nat)
    returns (contexts: seq<C>, start: nat)
    requires WalkContexts(bytes, parse, count, [], first).Some?
    ensures WalkContexts(bytes, parse, count, [], first) == Some(ContextWalk(contexts, start))
  {
    contexts, start := [], first;
    while |contexts| < count
      invariant WalkContexts(bytes, parse, count, contexts, start) == WalkContexts(bytes, parse, count, [], first)
      decreases if start <= |bytes| then |bytes| - start else 0
    {
      var context := parse(bytes[start..]);
      if context.Some? {
        contexts := contexts + [context.value];
      }
      var contextLen := ReadU16(bytes, start + 2);
      start := start + contextLen;
      start := start + 8;
      if |contexts| != count {
        start := start + Pad8(start);
      }
    }
  }

  /** `SMBNegotiateRequestBody::from_bytes`. */
  method ParseRequest<C>(bytes: seq<Byte>, parse: seq<Byte> -> Option<C>)
    returns (r: Option<(Request<C>, seq<Byte>)>)
    requires RequestParses(bytes, parse)
    ensures r == RequestFromBytes(bytes, parse)
  {
    if |bytes| < 37 {
      return None;
    }
    var dialectCount := ReadU16(bytes, 2);
    var securityMode := SecurityModeFromBits(bytes[4]);
    var capabilities := CapabilitiesFromBits(bytes[8]);
    var clientGuid: Guid := bytes[12..28];
    var dialects, dialectIdx := ReadDialects(bytes, 36, dialectCount, DialectFromCode);
    var carryover := bytes[dialectIdx..];
    var negotiateContexts: seq<C> := [];
    if V3_1_1 in dialects {
      var negotiateCtxIdx := ReadU32(bytes, 28) - HEADER_SIZE;
      var negotiateCtxCnt := ReadU16(bytes, 32);
      var start;
      negotiateContexts, start := ReadContexts(bytes, parse, negotiateCtxIdx, negotiateCtxCnt);
      if start < |bytes| {
        carryover := bytes[start..];
      } else {
        carryover := [];
      }
    }
    return Some((Request(securityMode, capabilities, clientGuid, dialects, negotiateContexts), carryover));
  }

  /**
   * The parsed request, field by field: the flag bytes truncated, the client
   * GUID copied, exactly `dialect_count` dialects which are the recognised
   * codes among the ones read, in wire order, and the remainder right after
   * the dialect list when 3.1.1 is not offered (no contexts then), or after
   * the context walk when it is.
   */
  lemma ParsedRequestShape<C>(bytes: seq<Byte>, parse: seq<Byte> -> Option<C>)
    requires RequestParses(bytes, parse) && |bytes| >= 37
    ensures var scan := RequestDialectScan(bytes).value;
            var codesRead := (scan.next - 36) / 2;
            var request := RequestFromBytes(bytes, parse).value.0;
            var rest := RequestFromBytes(bytes, parse).value.1;
            && scan.next == 36 + 2 * codesRead <= |bytes|
            && request.securityMode == SecurityModeFromBits(bytes[4])
            && request.capabilities == CapabilitiesFromBits(bytes[8])
            && request.clientGuid == bytes[12..28]
            && |request.dialects| == ReadU16(bytes, 2)
            && request.dialects == Recognised(CodesAt(bytes, 36, codesRead), DialectFromCode)
            && (ReadU16(bytes, 2) == 0 ==> codesRead == 0)
            && (ReadU16(bytes, 2) > 0 ==> codesRead > 0 && DialectFromCode(ReadU16(bytes, 34 + 2 * codesRead)).Some?)
            && (V3_1_1 !in request.dialects ==>
                  request.negotiateContexts == [] && rest == bytes[36 + 2 * codesRead..])
            && (V3_1_1 in request.dialects ==>
                  var walk := RequestContextWalk(bytes, parse).value;
                  && |request.negotiateContexts| == ReadU16(bytes, 32)
                  && request.negotiateContexts == walk.contexts
                  && rest == (if walk.next < |bytes| then bytes[walk.next..] else []))
  {
    ScanReadsCodes(bytes, ReadU16(bytes, 2), [], 36, DialectFromCode);
  }

  // ---------------------------------------------------------------------
  // Response construction
  // ---------------------------------------------------------------------

  /**
   * `SMBNegotiateResponseBody::new`, with the fresh GUID and the current
   * time passed in: every argument is stored as given and the context list
   * starts empty.
   */
  function NewResponse<C>(securityMode: Byte, dialect: Dialect, capabilities: Byte,
                          maxTransactSize: U32, maxReadSize: U32, maxWriteSize: U32,
                          serverStartTime: FileTime, buffer: seq<Byte>,
                          guid: Guid, systemTime: FileTime): (r: Response<C>)
    ensures r.securityMode == securityMode && r.dialect == dialect && r.capabilities == capabilities
    ensures r.maxTransactSize == maxTransactSize && r.maxReadSize == maxReadSize && r.maxWriteSize == maxWriteSize
    ensures r.serverStartTime == serverStartTime && r.buffer == buffer
    ensures r.guid == guid && r.systemTime == systemTime
    ensures r.negotiateContexts == []
  {
    Response(securityMode, dialect, guid, capabilities, maxTransactSize, maxReadSize, maxWriteSize,
             systemTime, serverStartTime, buffer, [])
  }

  predicate SortedDialects(s: seq<Dialect>)
  {
    forall i, j :: 0 <= i < j < |s| ==> DialectLe(s[i], s[j])
  }

  /** `dialects.sort()`: in place, ascending by the derived order. */
  method SortDialects(a: array<Dialect>)
    modifies a
    ensures SortedDialects(a[..])
    ensures multiset(a[..]) == multiset(old(a[..]))
  {
    var i := 0;
    while i < a.Length
      invariant 0 <= i <= a.Length
      invariant forall k, l :: 0 <= k < l < i ==> DialectLe(a[k], a[l])
      invariant multiset(a[..]) == multiset(old(a[..]))
    {
      var j := i;
      while j > 0 && DialectLt(a[j], a[j - 1])
        invariant 0 <= j <= i
        invariant forall k, l :: 0 <= k < l <= i && l != j ==> DialectLe(a[k], a[l])
        invariant multiset(a[..]) == multiset(old(a[..]))
      {
        a[j - 1], a[j] := a[j], a[j - 1];
        j := j - 1;
      }
      i := i + 1;
    }
  }

  /** The last element of a sorted copy is the maximum of the original. */
  lemma SortedLastIsMax(sorted: seq<Dialect>, original: seq<Dialect>)
    requires |sorted| > 0 && SortedDialects(sorted) && multiset(sorted) == multiset(original)
    ensures |original| > 0 && sorted[|sorted| - 1] == MaxDialect(original)
  {
    MaxDialectUnique(sorted, sorted[|sorted| - 1]);
    MaxDialectOrderFree(sorted, original);
  }

  /**
   * The `for neg_ctx in request.negotiate_contexts` loop: each context's
   * response, in order, or `None` as soon as one context has none (the `?`).
   */
  method RespondToContexts<C>(cs: seq<C>, respond: C -> Option<C>) returns (r: Option<seq<C>>)
    ensures r.None? <==> exists i :: 0 <= i < |cs| && respond(cs[i]).None?
    ensures r.Some? ==> |r.value| == |cs| && forall i :: 0 <= i < |cs| ==> respond(cs[i]) == Some(r.value[i])
  {
    var responses: seq<C> := [];
    var i := 0;
    while i < |cs|
      invariant 0 <= i <= |cs| && |responses| == i
      invariant forall k :: 0 <= k < i ==> respond(cs[k]) == Some(responses[k])
    {
      var ctx := respond(cs[i]);
      if ctx.None? {
        return None;
      }
      responses := responses + [ctx.value];
      i := i + 1;
    }
    r := Some(responses);
  }

  /**
   * `SMBNegotiateResponseBody::from_request`, with the fresh GUID and the
   * current time passed in.
   */
  method ResponseFromRequest<C>(request: Request<C>, token: seq<Byte>, guid: Guid, systemTime: FileTime,
                                respond: C -> Option<C>)
    returns (r: Option<Response<C>>)
    ensures |request.dialects| == 0 ==> r.None?
    ensures |request.dialects| > 0 ==>
      var dialect := MaxDialect(request.dialects);
      var cs := request.negotiateContexts;
      && (r.None? <==> dialect == V3_1_1 && exists i :: 0 <= i < |cs| && respond(cs[i]).None?)
      && (r.Some? ==>
            && r.value.dialect == dialect
            && r.value.securityMode == WithSigningRequired(request.securityMode)
            && r.value.guid == guid
            && r.value.capabilities == request.capabilities
            && r.value.maxTransactSize == 65535
            && r.value.maxReadSize == 65535
            && r.value.maxWriteSize == 65535
            && r.value.systemTime == systemTime
            && r.value.serverStartTime == FileTimeFromUnix(0)
            && r.value.buffer == token
            && (dialect == V3_1_1 ==>
                  && |r.value.negotiateContexts| == |cs|
                  && forall i :: 0 <= i < |cs| ==> respond(cs[i]) == Some(r.value.negotiateContexts[i]))
            && (dialect != V3_1_1 ==> r.value.negotiateContexts == []))
  {
    var n := |request.dialects|;
    var dialects := new Dialect[n](i requires 0 <= i < n => request.dialects[i]);
    assert dialects[..] == request.dialects;
    SortDialects(dialects);
    if n == 0 {
      return None;
    }
    var dialect := dialects[n - 1];
    SortedLastIsMax(dialects[..], request.dialects);
    var negotiateContexts: seq<C> := [];
    if dialect == V3_1_1 {
      var responded := RespondToContexts(request.negotiateContexts, respond);
      if responded.None? {
        return None;
      }
      negotiateContexts := responded.value;
    }
    r := Some(Response(WithSigningRequired(request.securityMode), dialect, guid, request.capabilities,
                       65535, 65535, 65535, systemTime, FileTimeFromUnix(0), token, negotiateContexts));
  }

  /** The negotiated dialect does not depend on the order in which the client offered its dialects. */
  lemma SelectionIgnoresOfferOrder(offer: seq<Dialect>, shuffled: seq<Dialect>)
    requires |offer| > 0 && multiset(offer) == multiset(shuffled)
    ensures |shuffled| > 0 && MaxDialect(offer) == MaxDialect(shuffled)
    ensures V3_1_1 in offer ==> MaxDialect(shuffled) == V3_1_1
  {
    MaxDialectOrderFree(offer, shuffled);
    if V3_1_1 in offer {
      MaxWithV311(offer);
    }
  }

  // ---------------------------------------------------------------------
  // Response serialisation
  // ---------------------------------------------------------------------

  /** Context `i` of the list as `as_bytes` emits it: zero-padded by `8 - len % 8` unless it is the last. */
  function PaddedContext<C>(cs: seq<C>, i: nat, encode: C -> seq<Byte>): seq<Byte>
    requires i < |cs|
  {
    var bytes := encode(cs[i]);
    if i != |cs| - 1 then bytes + Zeros(Pad8(|bytes|)) else bytes
  }

  /** The encoded context list from context `i` on. */
  function ContextList<C>(cs: seq<C>, i: nat, encode: C -> seq<Byte>): seq<Byte>
    requires i <= |cs|
    decreases |cs| - i
  {
    if i == |cs| then [] else PaddedContext(cs, i, encode) + ContextList(cs, i + 1, encode)
  }

  /** The security-buffer offset field: 0 for an empty buffer, else 128 (header plus fixed block). */
  function SecurityBufferOffset(bufferLen: nat): seq<Byte>
  {
    if bufferLen == 0 then [0, 0] else [128, 0]
  }

  /** `padding_len`: the zeros after the security buffer. */
  function ResponsePadding<C>(resp: Response<C>): nat
  {
    Pad8(128 + |resp.buffer|)
  }

  /** `negotiate_offset`: header-relative position after the buffer and its padding, for 3.1.1 only. */
  function ContextOffset<C>(resp: Response<C>): nat
  {
    if resp.dialect == V3_1_1 then 128 + |resp.buffer| + ResponsePadding(resp) else 0
  }

  /** Bytes 0..24 of the body: structure size, security mode, dialect, context count, server GUID. */
  function HeadFields<C>(resp: Response<C>): (r: seq<Byte>)
    ensures |r| == 24
  {
    [65, 0] + [resp.securityMode, 0] + LE16(Code(resp.dialect)) + LE16(|resp.negotiateContexts| % 0x1_0000)
    + resp.guid
  }

  /**
   * Capabilities and the three size limits, as both negotiate serialisers
   * write them (bytes 24..40 here, 22..38 in the first-generation codec).
   */
  function SizeFields(capabilities: Byte, maxTransactSize: U32, maxReadSize: U32, maxWriteSize: U32)
    : (r: seq<Byte>)
    ensures |r| == 16
  {
    LE32(capabilities) + LE32(maxTransactSize) + LE32(maxReadSize) + LE32(maxWriteSize)
  }

  /** System time and server start time, as both negotiate serialisers write them. */
  function TimeFields(systemTime: FileTime, serverStartTime: FileTime): (r: seq<Byte>)
    ensures |r| == 16
  {
    FileTimeBytes(systemTime) + FileTimeBytes(serverStartTime)
  }

  /** Bytes 56..64: security-buffer offset and length, then the context offset, with the `as u16`/`as u32` truncations. */
  function OffsetFields<C>(resp: Response<C>): (r: seq<Byte>)
    ensures |r| == 8
  {
    SecurityBufferOffset(|resp.buffer|) + LE16(|resp.buffer| % 0x1_0000) + LE32(ContextOffset(resp) % 0x1_0000_0000)
  }

  /** The 64 fixed bytes that open the response body. */
  function FixedBlock<C>(resp: Response<C>): (r: seq<Byte>)
    ensures |r| == 64
  {
    HeadFields(resp) + SizeFields(resp.capabilities, resp.maxTransactSize, resp.maxReadSize, resp.maxWriteSize) + TimeFields(resp.systemTime, resp.serverStartTime) + OffsetFields(resp)
  }

  /** The encoded contexts, present for 3.1.1 only. */
  function ContextSection<C>(resp: Response<C>, encode: C -> seq<Byte>): seq<Byte>
  {
    if resp.dialect == V3_1_1 then ContextList(resp.negotiateContexts, 0, encode) else []
  }

  /** What `SMBNegotiateResponseBody::as_bytes` returns. */
  function ResponseWire<C>(resp: Response<C>, encode: C -> seq<Byte>): seq<Byte>
  {
    FixedBlock(resp) + resp.buffer + Zeros(ResponsePadding(resp)) + ContextSection(resp, encode)
  }

  /** The encoded list from `i` on is context `i`, padded, then the rest. */
  lemma ContextListUnfold<C>(cs: seq<C>, i: nat, encode: C -> seq<Byte>)
    requires i < |cs|
    ensures ContextList(cs, i, encode) == PaddedContext(cs, i, encode) + ContextList(cs, i + 1, encode)
  {
  }

  /** `SMBNegotiateResponseBody::as_bytes`. */
  method ResponseBytes<C>(resp: Response<C>, encode: C -> seq<Byte>) returns (out: seq<Byte>)
    ensures out == ResponseWire(resp, encode)
  {
    var lenWithBuffer := 128 + |resp.buffer|;
    var paddingLen := Pad8(lenWithBuffer);
    var padding := Zeros(paddingLen);
    var negotiateOffset := 0;
    var negotiateCtxVec: seq<Byte> := [];
    var cs := resp.negotiateContexts;
    if resp.dialect == V3_1_1 {
      negotiateOffset := lenWithBuffer + paddingLen;
      var idx := 0;
      while idx < |cs|
        invariant 0 <= idx <= |cs|
        invariant negotiateCtxVec + ContextList(cs, idx, encode) == ContextList(cs, 0, encode)
      {
        var bytes := encode(cs[idx]);
        if idx != |cs| - 1 {
          bytes := bytes + Zeros(Pad8(|bytes|));
        }
        ContextListUnfold(cs, idx, encode);
        AppendAssoc(negotiateCtxVec, bytes, ContextList(cs, idx + 1, encode));
        negotiateCtxVec := negotiateCtxVec + bytes;
        idx := idx + 1;
      }
    }
    var securityOffset := if |resp.buffer| == 0 then [0, 0] else [128, 0];
    assert negotiateOffset == ContextOffset(resp) && negotiateCtxVec == ContextSection(resp, encode);
    var head := [65, 0] + [resp.securityMode, 0] + LE16(Code(resp.dialect)) + LE16(|cs| % 0x1_0000) + resp.guid;
    var sizes := LE32(resp.capabilities) + LE32(resp.maxTransactSize) + LE32(resp.maxReadSize)
      + LE32(resp.maxWriteSize);
    var times := FileTimeBytes(resp.systemTime) + FileTimeBytes(resp.serverStartTime);
    var offsets := securityOffset + LE16(|resp.buffer| % 0x1_0000) + LE32(negotiateOffset % 0x1_0000_0000);
    assert offsets == OffsetFields(resp);
    out := head + sizes + times + offsets + resp.buffer + padding + negotiateCtxVec;
  }

  /** Where the fixed block's four groups of fields sit. */
  lemma FixedBlockGroups<C>(resp: Response<C>)
    ensures var f := FixedBlock(resp);
            && f[..24] == HeadFields(resp) && f[24..40] == SizeFields(resp.capabilities, resp.maxTransactSize, resp.maxReadSize, resp.maxWriteSize)
            && f[40..56] == TimeFields(resp.systemTime, resp.serverStartTime) && f[56..] == OffsetFields(resp)
  {
    var f := FixedBlock(resp);
    var h, z, t := HeadFields(resp), SizeFields(resp.capabilities, resp.maxTransactSize, resp.maxReadSize, resp.maxWriteSize), TimeFields(resp.systemTime, resp.serverStartTime);
    assert f == ((h + z) + t) + OffsetFields(resp);
    assert f[..56] == (h + z) + t;
    assert f[..40] == h + z;
  }

  /** The fields of the fixed block, each where a reader of the 64 bytes finds it. */
  lemma FixedBlockLayout<C>(resp: Response<C>)
    ensures var f := FixedBlock(resp);
            && f[0] == 65 && f[1] == 0 && f[2] == resp.securityMode && f[3] == 0
            && ReadU16(f, 4) == Code(resp.dialect)
            && ReadU16(f, 6) == |resp.negotiateContexts| % 0x1_0000
            && f[8..24] == resp.guid
            && ReadU32(f, 24) == resp.capabilities
            && ReadU32(f, 28) == resp.maxTransactSize
            && ReadU32(f, 32) == resp.maxReadSize
            && ReadU32(f, 36) == resp.maxWriteSize
            && f[40..48] == FileTimeBytes(resp.systemTime)
            && f[48..56] == FileTimeBytes(resp.serverStartTime)
            && f[56..58] == SecurityBufferOffset(|resp.buffer|)
            && ReadU16(f, 58) == |resp.buffer| % 0x1_0000
            && ReadU32(f, 60) == ContextOffset(resp) % 0x1_0000_0000
  {
    var f := FixedBlock(resp);
    FixedBlockGroups(resp);
    HeadLayout(resp, f);
    SizeLayout(f, 24, resp.capabilities, resp.maxTransactSize, resp.maxReadSize, resp.maxWriteSize);
    OffsetLayout(resp, f);
    var t := TimeFields(resp.systemTime, resp.serverStartTime);
    assert f[40..48] == t[..8] && f[48..56] == t[8..];
  }

  lemma HeadLayout<C>(resp: Response<C>, f: seq<Byte>)
    requires |f| == 64 && f[..24] == HeadFields(resp)
    ensures f[0] == 65 && f[1] == 0 && f[2] == resp.securityMode && f[3] == 0
    ensures ReadU16(f, 4) == Code(resp.dialect)
    ensures ReadU16(f, 6) == |resp.negotiateContexts| % 0x1_0000
    ensures f[8..24] == resp.guid
  {
    var h := HeadFields(resp);
    assert f[4..6] == h[4..6] == LE16(Code(resp.dialect));
    assert f[6..8] == h[6..8] == LE16(|resp.negotiateContexts| % 0x1_0000);
    ReadLE16(f, 4, Code(resp.dialect));
    ReadLE16(f, 6, |resp.negotiateContexts| % 0x1_0000);
    assert f[8..24] == h[8..24];
  }

  /** The four 32-bit fields of a size group, read back wherever the group sits. */
  lemma SizeLayout(f: seq<Byte>, p: nat, capabilities: Byte, maxTransactSize: U32, maxReadSize: U32,
                   maxWriteSize: U32)
    requires p + 16 <= |f| && f[p..p + 16] == SizeFields(capabilities, maxTransactSize, maxReadSize, maxWriteSize)
    ensures ReadU32(f, p) == capabilities
    ensures ReadU32(f, p + 4) == maxTransactSize
    ensures ReadU32(f, p + 8) == maxReadSize
    ensures ReadU32(f, p + 12) == maxWriteSize
  {
    var (a, b, c, d) := (LE32(capabilities), LE32(maxTransactSize), LE32(maxReadSize), LE32(maxWriteSize));
    SplitSlice(f, p, a + b + c, d);
    SplitSlice(f, p, a + b, c);
    SplitSlice(f, p, a, b);
    ReadLE32(f, p, capabilities);
    ReadLE32(f, p + 4, maxTransactSize);
    ReadLE32(f, p + 8, maxReadSize);
    ReadLE32(f, p + 12, maxWriteSize);
  }

  lemma OffsetLayout<C>(resp: Response<C>, f: seq<Byte>)
    requires |f| == 64 && f[56..] == OffsetFields(resp)
    ensures f[56..58] == SecurityBufferOffset(|resp.buffer|)
    ensures ReadU16(f, 58) == |resp.buffer| % 0x1_0000
    ensures ReadU32(f, 60) == ContextOffset(resp) % 0x1_0000_0000
  {
    var o := OffsetFields(resp);
    assert f[56..58] == o[..2];
    assert f[58..60] == o[2..4] == LE16(|resp.buffer| % 0x1_0000);
    assert f[60..64] == o[4..] == LE32(ContextOffset(resp) % 0x1_0000_0000);
    ReadLE16(f, 58, |resp.buffer| % 0x1_0000);
    ReadLE32(f, 60, ContextOffset(resp) % 0x1_0000_0000);
  }

  /**
   * A context codec whose records are self-describing: each encoding has an
   * 8-byte header whose length field (bytes 2..4) counts the payload after
   * it, and parsing anything that starts with an encoding gives back the
   * context.
   */
  ghost predicate RecordCodec<C(!new)>(parse: seq<Byte> -> Option<C>, encode: C -> seq<Byte>)
  {
    && (forall c :: 8 <= |encode(c)| && ReadU16(encode(c), 2) == |encode(c)| - 8)
    && (forall c, s :: StartsWith(s, encode(c)) ==> parse(s) == Some(c))
  }

  predicate StartsWith(s: seq<Byte>, prefix: seq<Byte>)
  {
    prefix <= s
  }

  /** Where an encoded record sits in the buffer, it parses and its length field is its payload size. */
  lemma RecordAtCursor<C(!new)>(bytes: seq<Byte>, parse: seq<Byte> -> Option<C>, encode: C -> seq<Byte>,
                                c: C, p: nat)
    requires RecordCodec(parse, encode)
    requires p + |encode(c)| <= |bytes| && bytes[p..p + |encode(c)|] == encode(c)
    ensures parse(bytes[p..]) == Some(c)
    ensures ReadU16(bytes, p + 2) == |encode(c)| - 8
  {
    var e := encode(c);
    assert StartsWith(bytes[p..], e);
    assert bytes[p + 2] == e[2] && bytes[p + 3] == e[3];
  }

  /** One turn of the context loop over a record that parses. */
  lemma WalkStep<C>(bytes: seq<Byte>, parse: seq<Byte> -> Option<C>, count: nat, acc: seq<C>,
                    p: nat, c: C, next: nat)
    requires |acc| < count && p + 4 <= |bytes| && parse(bytes[p..]) == Some(c)
    requires next == p + ReadU16(bytes, p + 2) + 8 + (if |acc| + 1 != count then Pad8(p + ReadU16(bytes, p + 2) + 8) else 0)
    ensures WalkContexts(bytes, parse, count, acc, p) == WalkContexts(bytes, parse, count, acc + [c], next)
  {
  }

  /**
   * One turn of the context loop over a record that does not parse: nothing
   * is collected, the cursor still moves past the record's declared length,
   * and the padding always follows, since the count cannot have been reached.
   */
  lemma WalkSkip<C>(bytes: seq<Byte>, parse: seq<Byte> -> Option<C>, count: nat, acc: seq<C>,
                    p: nat, next: nat)
    requires |acc| < count && p + 4 <= |bytes| && parse(bytes[p..]).None?
    requires next == p + ReadU16(bytes, p + 2) + 8 + Pad8(p + ReadU16(bytes, p + 2) + 8)
    ensures WalkContexts(bytes, parse, count, acc, p) == WalkContexts(bytes, parse, count, acc, next)
  {
  }

  /** A parser that accepts only records of context type 1. */
  function ParseTypeOne(s: seq<Byte>): (r: Option<Byte>)
    ensures r.Some? <==> |s| >= 8 && s[0] == 1
  {
    if |s| >= 8 && s[0] == 1 then Some(1) else None
  }

  /**
   * Two empty records as the encoder lays them out, in a 24-byte buffer: one
   * of type 9 at 0, its eight padding bytes, then one of type 1 at 16.
   */
  predicate SkipLayout(b: seq<Byte>)
  {
    |b| == 24 && b[0] == 9 && ReadU16(b, 2) == 0 && b[16] == 1 && ReadU16(b, 18) == 0
  }

  /** The encoder's bytes for that list meet the layout. */
  lemma SkipLayoutExample()
    ensures SkipLayout([9, 0, 0, 0, 0, 0, 0, 0] + [0, 0, 0, 0, 0, 0, 0, 0] + [1, 0, 0, 0, 0, 0, 0, 0])
  {
  }

  /**
   * The loop counts parsed contexts only. A declared count of 2 that
   * includes the unparsed type-9 record walks past the end of the list: the
   * cursor reaches 32 in the 24-byte buffer, where the slice panics. Only the
   * count of parsed records, 1, stops the loop at the end of the list.
   */
  lemma UnparsedRecordOverruns(b: seq<Byte>)
    requires SkipLayout(b)
    ensures WalkContexts(b, ParseTypeOne, 2, [], 0).None?
    ensures WalkContexts(b, ParseTypeOne, 1, [], 0) == Some(ContextWalk([1], 24))
  {
    assert ParseTypeOne(b[0..]).None? && ParseTypeOne(b[16..]) == Some(1);
    WalkSkip(b, ParseTypeOne, 2, [], 0, 16);
    WalkStep(b, ParseTypeOne, 2, [], 16, 1, 32);
    WalkSkip(b, ParseTypeOne, 1, [], 0, 16);
    WalkStep(b, ParseTypeOne, 1, [], 16, 1, 24);
    assert [] + [1 as Byte] == [1];
  }

  /** An encoded list in place is its first padded record followed by the encoded rest. */
  lemma ContextListSplit<C>(bytes: seq<Byte>, encode: C -> seq<Byte>, cs: seq<C>, i: nat, j: nat, p: nat, q: nat)
    requires i < |cs| && j == i + 1 && q == p + |PaddedContext(cs, i, encode)|
    requires p + |ContextList(cs, i, encode)| <= |bytes|
    requires bytes[p..p + |ContextList(cs, i, encode)|] == ContextList(cs, i, encode)
    ensures |ContextList(cs, i, encode)| == |PaddedContext(cs, i, encode)| + |ContextList(cs, j, encode)|
    ensures bytes[p..q] == PaddedContext(cs, i, encode)
    ensures q + |ContextList(cs, j, encode)| <= |bytes|
    ensures bytes[q..q + |ContextList(cs, j, encode)|] == ContextList(cs, j, encode)
  {
    var padded := PaddedContext(cs, i, encode);
    var tail := ContextList(cs, j, encode);
    assert ContextList(cs, i, encode) == padded + tail;
    SplitSlice(bytes, p, padded, tail);
  }

  /**
   * One record of an encoded list, as the walk meets it: it parses, and the
   * walk continues where the encoder put the next record, on an 8-byte
   * boundary again unless it was the last.
   */
  lemma RecordTurn<C(!new)>(bytes: seq<Byte>, parse: seq<Byte> -> Option<C>, encode: C -> seq<Byte>,
                            cs: seq<C>, i: nat, j: nat, p: nat, q: nat, count: nat, acc: seq<C>)
    requires RecordCodec(parse, encode)
    requires i < |cs| && j == i + 1 && p % 8 == 0 && |acc| + |cs| == count + i
    requires q == p + |PaddedContext(cs, i, encode)| <= |bytes|
    requires bytes[p..q] == PaddedContext(cs, i, encode)
    ensures j < |cs| ==> q % 8 == 0
    ensures WalkContexts(bytes, parse, count, acc, p) == WalkContexts(bytes, parse, count, acc + [cs[i]], q)
  {
    if j < |cs| {
      InnerRecordAt(bytes, parse, encode, cs, i, j, p, q);
    } else {
      LastRecordAt(bytes, parse, encode, cs, i, j, p, q);
    }
    WalkStep(bytes, parse, count, acc, p, cs[i], q);
  }

  /** A record other than the last parses, and its `8 - len % 8` zeros bring the cursor to the next boundary. */
  lemma InnerRecordAt<C(!new)>(bytes: seq<Byte>, parse: seq<Byte> -> Option<C>, encode: C -> seq<Byte>,
                               cs: seq<C>, i: nat, j: nat, p: nat, q: nat)
    requires RecordCodec(parse, encode)
    requires i < |cs| && j == i + 1 && p % 8 == 0
    requires q == p + |PaddedContext(cs, i, encode)| <= |bytes|
    requires bytes[p..q] == PaddedContext(cs, i, encode)
    requires j < |cs|
    ensures p + 4 <= |bytes| && parse(bytes[p..]) == Some(cs[i])
    ensures q == p + ReadU16(bytes, p + 2) + 8 + Pad8(p + ReadU16(bytes, p + 2) + 8)
    ensures q % 8 == 0
  {
    var e := encode(cs[i]);
    SplitSlice(bytes, p, e, Zeros(Pad8(|e|)));
    RecordAtCursor(bytes, parse, encode, cs[i], p);
    Pad8Shift(p, |e|);
  }

  /** The last record parses and is not padded. */
  lemma LastRecordAt<C(!new)>(bytes: seq<Byte>, parse: seq<Byte> -> Option<C>, encode: C -> seq<Byte>,
                               cs: seq<C>, i: nat, j: nat, p: nat, q: nat)
    requires RecordCodec(parse, encode)
    requires i < |cs| && j == i + 1 && p % 8 == 0
    requires q == p + |PaddedContext(cs, i, encode)| <= |bytes|
    requires bytes[p..q] == PaddedContext(cs, i, encode)
    requires j == |cs|
    ensures p + 4 <= |bytes| && parse(bytes[p..]) == Some(cs[i])
    ensures q == p + ReadU16(bytes, p + 2) + 8
  {
    RecordAtCursor(bytes, parse, encode, cs[i], p);
  }

  lemma AppendSuffix<T>(acc: seq<T>, s: seq<T>, i: nat, j: nat)
    requires i < |s| && j == i + 1
    ensures (acc + [s[i]]) + s[j..] == acc + s[i..]
  {
    assert s[i..] == [s[i]] + s[j..];
  }

  /**
   * The request parser's context walk, started on an 8-byte boundary where
   * `as_bytes` placed a context list, visits exactly the records the list
   * holds and stops at its end: the padding rules of the two sides agree.
   * `acc` holds the contexts collected before record `i`.
   */
  lemma {:induction false} WalkReadsContextList<C(!new)>(bytes: seq<Byte>, parse: seq<Byte> -> Option<C>,
                                                         encode: C -> seq<Byte>, cs: seq<C>, i: nat, p: nat,
                                                         count: nat, acc: seq<C>)
    requires RecordCodec(parse, encode)
    requires i <= |cs| && p % 8 == 0 && |acc| + |cs| == count + i
    requires p + |ContextList(cs, i, encode)| <= |bytes|
    requires bytes[p..p + |ContextList(cs, i, encode)|] == ContextList(cs, i, encode)
    ensures WalkContexts(bytes, parse, count, acc, p).Some?
    ensures WalkContexts(bytes, parse, count, acc, p).value.contexts == acc + cs[i..]
    ensures WalkContexts(bytes, parse, count, acc, p).value.next == p + |ContextList(cs, i, encode)|
    decreases |cs| - i
  {
    if i < |cs| {
      var j := i + 1;
      var q := p + |PaddedContext(cs, i, encode)|;
      var rest := acc + [cs[i]];
      ContextListSplit(bytes, encode, cs, i, j, p, q);
      RecordTurn(bytes, parse, encode, cs, i, j, p, q, count, acc);
      if j < |cs| {
        WalkReadsContextList(bytes, parse, encode, cs, j, q, count, rest);
      } else {
        assert ContextList(cs, j, encode) == [] && cs[j..] == [];
        assert rest + cs[j..] == rest;
      }
      AppendSuffix(acc, cs, i, j);
    } else {
      assert acc + cs[i..] == acc;
    }
  }

  // ---------------------------------------------------------------------
  // The declared offsets against the serialised layout
  // ---------------------------------------------------------------------

  /**
   * Where `as_bytes` puts each section of the body: the 64 fixed bytes, the
   * security buffer, its zero padding, then the contexts, which start on an
   * 8-byte boundary of the whole message (header included).
   */
  lemma ResponseWireLayout<C>(resp: Response<C>, encode: C -> seq<Byte>)
    ensures var w := ResponseWire(resp, encode);
            var b := |resp.buffer|;
            var pad := ResponsePadding(resp);
            && |w| == 64 + b + pad + |ContextSection(resp, encode)|
            && w[..64] == FixedBlock(resp)
            && w[64..64 + b] == resp.buffer
            && (forall k :: 64 + b <= k < 64 + b + pad ==> w[k] == 0)
            && w[64 + b + pad..] == ContextSection(resp, encode)
            && (HEADER_SIZE + 64 + b + pad) % 8 == 0
  {
    var w := ResponseWire(resp, encode);
    var (f, buf, z, cs) := (FixedBlock(resp), resp.buffer, Zeros(ResponsePadding(resp)), ContextSection(resp, encode));
    assert w == ((f + buf) + z) + cs;
    SplitSlice(w, 0, (f + buf) + z, cs);
    SplitSlice(w, 0, f + buf, z);
    SplitSlice(w, 0, f, buf);
    assert w[..64] == w[0..64];
  }

  /** A read inside a prefix reads the prefix. */
  lemma ReadInPrefix(w: seq<Byte>, f: seq<Byte>, i: nat)
    requires |f| <= |w| && w[..|f|] == f && i + 4 <= |f|
    ensures ReadU16(w, i) == ReadU16(f, i) && ReadU16(w, i + 2) == ReadU16(f, i + 2)
    ensures ReadU32(w, i) == ReadU32(f, i)
  {
    assert w[i] == f[i] && w[i + 1] == f[i + 1] && w[i + 2] == f[i + 2] && w[i + 3] == f[i + 3];
  }

  /** The count, length and offset fields as a reader of the whole body finds them. */
  lemma WireFieldReads<C>(resp: Response<C>, encode: C -> seq<Byte>)
    ensures var w := ResponseWire(resp, encode);
            && |w| == 64 + |resp.buffer| + ResponsePadding(resp) + |ContextSection(resp, encode)|
            && ReadU16(w, 6) == |resp.negotiateContexts| % 0x1_0000
            && ReadU16(w, 56) == (if |resp.buffer| == 0 then 0 else 128)
            && ReadU16(w, 58) == |resp.buffer| % 0x1_0000
            && ReadU32(w, 60) == ContextOffset(resp) % 0x1_0000_0000
  {
    var w := ResponseWire(resp, encode);
    var f := FixedBlock(resp);
    assert w[..64] == f;
    FixedBlockLayout(resp);
    ReadInPrefix(w, f, 4);
    ReadInPrefix(w, f, 56);
    ReadInPrefix(w, f, 60);
    assert f[56] == f[56..58][0] && f[57] == f[56..58][1];
  }

  /**
   * The security-buffer fields: for a buffer that fits the 16-bit length
   * field, the length field is its length, and the header-relative offset
   * is 0 for an empty buffer and otherwise the header plus 64, the body
   * index where `ResponseWireLayout` puts the buffer.
   */
  lemma DeclaredBufferFields<C>(resp: Response<C>, encode: C -> seq<Byte>, w: seq<Byte>)
    requires w == ResponseWire(resp, encode) && |resp.buffer| < 0x1_0000
    ensures |w| >= 64 + |resp.buffer|
    ensures ReadU16(w, 58) == |resp.buffer|
    ensures ReadU16(w, 56) == if |resp.buffer| == 0 then 0 else HEADER_SIZE + 64
  {
    WireFieldReads(resp, encode);
  }

  /**
   * The context fields: when the offset and the count fit their fields, the
   * declared count is the number of contexts; for 3.1.1 the declared
   * offset minus the header is the body index `p` right after the padded
   * buffer, an 8-byte boundary; other dialects declare offset 0 and the
   * body ends at `p`.
   */
  lemma DeclaredContextFields<C>(resp: Response<C>, encode: C -> seq<Byte>, w: seq<Byte>, p: nat)
    requires w == ResponseWire(resp, encode) && p == 64 + |resp.buffer| + ResponsePadding(resp)
    requires ContextOffset(resp) < 0x1_0000_0000 && |resp.negotiateContexts| < 0x1_0000
    ensures && |w| >= 64
            && ReadU16(w, 6) == |resp.negotiateContexts|
            && (resp.dialect != V3_1_1 ==> ReadU32(w, 60) == 0 && |w| == p)
            && (resp.dialect == V3_1_1 ==> ReadU32(w, 60) == HEADER_SIZE + p && p % 8 == 0)
  {
    WireFieldReads(resp, encode);
    Mod8Drop(HEADER_SIZE, p);
  }

  /**
   * For 3.1.1, the request-side context loop, started at the body index the
   * context offset declares and run for the declared count, reads back
   * exactly the contexts and stops at the end of the message.
   */
  lemma ContextLoopReadsResponse<C(!new)>(resp: Response<C>, parse: seq<Byte> -> Option<C>,
                                          encode: C -> seq<Byte>, w: seq<Byte>, p: nat)
    requires RecordCodec(parse, encode) && w == ResponseWire(resp, encode) && resp.dialect == V3_1_1
    requires p == 64 + |resp.buffer| + ResponsePadding(resp)
    ensures var walk := WalkContexts(w, parse, |resp.negotiateContexts|, [], p);
            && walk.Some?
            && walk.value.contexts == resp.negotiateContexts
            && walk.value.next == |w|
  {
    ContextSectionAt(resp, encode, w, p);
    WalkAtAligned(w, parse, encode, resp.negotiateContexts, p);
  }

  /** The contexts of a 3.1.1 response are the tail of its body from an 8-byte boundary of the message on. */
  lemma ContextSectionAt<C>(resp: Response<C>, encode: C -> seq<Byte>, w: seq<Byte>, p: nat)
    requires w == ResponseWire(resp, encode) && resp.dialect == V3_1_1
    requires p == 64 + |resp.buffer| + ResponsePadding(resp)
    ensures p % 8 == 0 && p <= |w| && w[p..] == ContextList(resp.negotiateContexts, 0, encode)
  {
    ResponseWireLayout(resp, encode);
    assert w[p..] == ContextSection(resp, encode);
    assert (HEADER_SIZE + p) % 8 == 0;
    Mod8Drop(HEADER_SIZE, p);
  }

  /** An encoded context list that ends the buffer at an aligned `p` is walked to its end from `p`. */
  lemma WalkAtAligned<C(!new)>(w: seq<Byte>, parse: seq<Byte> -> Option<C>, encode: C -> seq<Byte>,
                               cs: seq<C>, p: nat)
    requires RecordCodec(parse, encode)
    requires p % 8 == 0 && p <= |w| && w[p..] == ContextList(cs, 0, encode)
    ensures WalkContexts(w, parse, |cs|, [], p).Some?
    ensures WalkContexts(w, parse, |cs|, [], p).value.contexts == cs
    ensures WalkContexts(w, parse, |cs|, [], p).value.next == |w|
  {
    assert w[p..p + |ContextList(cs, 0, encode)|] == w[p..];
    WalkReadsContextList(w, parse, encode, cs, 0, p, |cs|, []);
    assert [] + cs[0..] == cs;
  }
}
