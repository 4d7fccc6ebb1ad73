# SMB2/3 negotiation codecs, modelled in Dafny

This project models the negotiation stage of the `smb_reader` SMB server.
That stage has five parts:

- **The SMB2/3 NEGOTIATE codec** (`negotiate.dfy`, module `Negotiate`). This is the request parser `from_bytes`, the response constructors `new` and `from_request`, and the response serialiser `as_bytes`.
- **The dialect registry** (`common_types.dfy`, module `CommonTypes`). This is the `SMBDialect` enum with its wire codes, its partial decoder and its derived order. The greatest dialect of a list is defined here too.
- **The first-generation negotiate codec** (`legacy_negotiate.dfy`, module `LegacyNegotiate`). It has no negotiate contexts and a fixed security-buffer offset. Its negotiate-context type enum is modelled as well.
- **The NTLM CHALLENGE_MESSAGE serialiser** (`ntlm_challenge.dfy`, module `NtlmChallenge`), following MS-NLMP section 2.2.1.2.
- **The SMB1 command-code sniffer** (`command_code.dfy`, module `CommandCode`). This is the 71-variant `SMBCommandCode` table and `parse`.

Supporting modules:

- `Bytes`: the little-endian `byte_helper` conversions and the `8 - x % 8` padding rule.
- `BodyTypes`: the flag bytes, FILETIME and GUID wire values.
- `DialectScan`: the dialect loop, which both request parsers share.
- `Wrappers`: `Option`.

The code is modelled in the form the Rust code takes:

- Loops in the Rust code are `method`s with `while` loops. Each one is proved equal to an accumulator-style specification function. The loops are the dialect loop, the context loop, the `from_request` context loop, the `as_bytes` context loop and the NTLM name loop.
- `dialects.sort()` is an in-place insertion sort on an `array`. It has sortedness and permutation postconditions.
- `ParseRequest`, `ParseLegacyRequest`, `ResponseFromRequest` and `ChallengeBytes` have no loop of their own. They are methods because they call the loop methods or the sort. The parsers and `ChallengeBytes` are proved equal to their specification functions. `ResponseFromRequest` states every field of its result in terms of the request.
- Everything else is a function.

The negotiate-context codec (`NegotiateContext::from_bytes`, `as_bytes` and `response_from_existing`) lives in the Rust module `crate::protocol::body::negotiate`, outside `negotiate.rs`, and this model does not cover it. The operations are therefore generic in the context type `C` and take that codec as function parameters.

The main results:

- **Request parsing.** The parsed request is characterised field by field: exactly `dialect_count` recognised dialects, in wire order, and the exact remainder (`ParsedRequestShape`). On every input the current parser accepts, the legacy parser agrees with it on the flags, the GUID and the dialects, and on the remainder when 3.1.1 is not offered (`LegacyAgreesWithCurrent`). When 3.1.1 is offered the two remainders can differ: the current parser resumes where the context walk stops, the legacy one right after the dialect list.
- **Dialect selection.** The chosen dialect is the maximum by wire code. It does not depend on the order the client offered its dialects in (`SelectionIgnoresOfferOrder`).
- **Self-referential offsets.** In `as_bytes`, the declared security-buffer offset and the context offset name the places where the buffer and the context list actually land. The context list starts on an 8-byte boundary (`ResponseWireLayout`, `DeclaredBufferFields`, `DeclaredContextFields`).
- **Context round trip.** The request parser's context loop, run from the declared offset for the declared count, reads back exactly the contexts `as_bytes` wrote and stops at the end of the message (`ContextLoopReadsResponse`). This requires a context codec whose records carry their own length.
- **NTLM declared fields.** In the NTLM message, the TargetName and TargetInfo length/offset pairs select the name and the AV-pair list (`DeclaredFieldsLocatePayload`).
- **Command-code table.** The table round-trips, and `parse` looks only at the first `'S'` byte.

The model follows the code as written, including where it departs from MS-SMB2 and MS-NLMP:

- **Padding.** Every padding rule is `8 - x % 8`, which inserts 8 bytes when `x` is already aligned. A round-up to the next boundary would insert none.
- **Truncated input.** Stepping past the end of the buffer makes the Rust code panic; nothing reports it as an error. Such inputs are excluded by preconditions (`RequestParses`, `LegacyRequestParses`, `ParseInBounds`). The inputs that `from_bytes` rejects with `None` (shorter than 37 bytes) are modelled as `None`.
- **The NTLM name.** The NTLM message always carries the name "fakeserver". It ignores `target_name`.

## Model

| member | source | states |
|---|---|---|
| Bytes.Pad8 | src/protocol/body/negotiate/negotiate.rs:123 | the padding `8 - x % 8` is between 1 and 8, makes `x` plus it a multiple of 8, and is 8 exactly when `x` is already aligned |
| CommonTypes.Code | src/protocol/body/common_types.rs:4-13 | every `as u16` discriminant is an SMB 2.x or 3.x code: its high byte is 2 or 3 |
| CommonTypes.DialectFromCode | src/protocol/body/common_types.rs:4-13 | `try_from` returns a variant only for that variant's own discriminant |
| CommonTypes.DecodesExactlyRegistered | src/protocol/body/common_types.rs:6-13 | `try_from` succeeds for exactly 0x202, 0x210, 0x300, 0x302, 0x311 and 0x2FF |
| CommonTypes.EncodeThenDecode | src/protocol/body/common_types.rs:4-13 | every variant's `as u16` decodes back to that variant |
| CommonTypes.DecodeThenEncode | src/protocol/body/common_types.rs:4-13 | a code that decodes is the `as u16` of the variant it decodes to |
| CommonTypes.CodeInjective | src/protocol/body/common_types.rs:6-13 | distinct variants have distinct wire codes |
| CommonTypes.OrderByWireCode | src/protocol/body/common_types.rs:5-12 | the derived order is 2.0.2 < 2.1.0 < 2.x.x < 3.0.0 < 3.0.2 < 3.1.1, which is wire-code order and not declaration order |
| CommonTypes.OrderIsTotal | src/protocol/body/common_types.rs:5 | `<=` is reflexive, antisymmetric, transitive and total, and `<` is its strict part |
| CommonTypes.V311IsGreatest | src/protocol/body/common_types.rs:11 | every dialect is at most 3.1.1 |
| CommonTypes.MaxDialect | src/protocol/body/negotiate/negotiate.rs:95-98 | the maximum of a non-empty list is an element of it and is at least every element |
| CommonTypes.MaxDialectUnique | src/protocol/body/negotiate/negotiate.rs:95-98 | any element that is at least every element is the maximum |
| CommonTypes.MaxWithV311 | src/protocol/body/common_types.rs:11 | a list that contains 3.1.1 has 3.1.1 as its maximum |
| CommonTypes.MaxDialectOrderFree | src/protocol/body/negotiate/negotiate.rs:95-98 | two lists with the same multiset of dialects have the same maximum |
| BodyTypes.SecurityModeFromBits | src/protocol/body/negotiate/negotiate.rs:20 | `from_bits_truncate` keeps the two defined security-mode bits and drops the rest |
| BodyTypes.CapabilitiesFromBits | src/protocol/body/negotiate/negotiate.rs:21 | `from_bits_truncate` keeps the seven defined capability bits and drops the rest |
| BodyTypes.FileTimeFromUnix | src/protocol/body/negotiate/negotiate.rs:113 | `from_unix` gives a whole number of seconds, from which the Unix seconds read back |
| BodyTypes.UnixEpochFileTime | src/protocol/body/negotiate/negotiate.rs:113 | `from_unix(0)`, the server start time, is FILETIME 116444736000000000 |
| BodyTypes.WithSigningRequired | src/protocol/body/negotiate/negotiate.rs:105 | OR-ing in NEGOTIATE_SIGNING_REQUIRED sets bit 1 and changes nothing else |
| DialectScan.ScanDialects | src/protocol/body/negotiate/negotiate.rs:23-32 | a scan that finishes holds exactly `count` dialects, and its cursor ends inside the buffer |
| DialectScan.ScanReadsCodes | src/protocol/body/negotiate/negotiate.rs:23-32 | the loop consumes 2 bytes per code read; it keeps exactly the recognised codes in wire order and drops the rest; it stops right after a recognised code, or reads nothing when no dialect is needed (`dialect_count` 0) |
| DialectScan.ReadDialects | src/protocol/body/negotiate/negotiate.rs:24-32 | the `while` loop returns the dialects and the cursor that the scan specification gives |
| Negotiate.WalkContexts | src/protocol/body/negotiate/negotiate.rs:39-50 | a finished walk holds exactly the declared count of parsed contexts, and its cursor never moves back |
| Negotiate.ReadContexts | src/protocol/body/negotiate/negotiate.rs:38-50 | the context loop steps 8 plus the record length per record and pads with `8 - start % 8` unless the count is complete; it returns what the walk specification gives |
| Negotiate.RequestFromBytes | src/protocol/body/negotiate/negotiate.rs:17-59 | `from_bytes` gives `None` exactly for inputs shorter than 37 bytes |
| Negotiate.ParseRequest | src/protocol/body/negotiate/negotiate.rs:17-59 | the imperative parser returns what the specification `RequestFromBytes` gives |
| Negotiate.ParsedRequestShape | src/protocol/body/negotiate/negotiate.rs:19-58 | flags are truncated and the GUID is bytes 12..28; there are `dialect_count` dialects, the recognised codes in wire order; no code is read when `dialect_count` is 0, and otherwise the last code read is recognised; without 3.1.1 there are no contexts and the rest starts at `36 + 2 * codes_read`; with 3.1.1 the contexts are the walk's and the rest starts where the walk stopped, or is empty past the end |
| Negotiate.NewResponse | src/protocol/body/negotiate/negotiate.rs:78-92 | `new` stores every argument unchanged (the GUID and system time are passed in) and starts with no contexts |
| Negotiate.SortDialects | src/protocol/body/negotiate/negotiate.rs:95-96 | the in-place sort leaves the array sorted by the derived order and a permutation of what it was |
| Negotiate.SortedLastIsMax | src/protocol/body/negotiate/negotiate.rs:96-98 | the last element of a sorted permutation is the maximum of the original list |
| Negotiate.RespondToContexts | src/protocol/body/negotiate/negotiate.rs:99-103 | the loop fails exactly when some context has no response, and otherwise yields one response per context, in order |
| Negotiate.ResponseFromRequest | src/protocol/body/negotiate/negotiate.rs:94-117 | `None` for no dialects; otherwise the dialect is the maximum, the mode gets signing-required, capabilities and token are copied, the sizes are 65535 and the start time is `from_unix(0)`; for 3.1.1 the contexts are the responses in order (`None` if any fails), and other dialects get none |
| Negotiate.SelectionIgnoresOfferOrder | src/protocol/body/negotiate/negotiate.rs:95-98 | reordering the offered dialects does not change the selected one, and offering 3.1.1 selects 3.1.1 |
| Negotiate.ResponseBytes | src/protocol/body/negotiate/negotiate.rs:121-163 | the imperative serialiser, including its context loop, returns the specified wire image `ResponseWire` |
| Negotiate.FixedBlockGroups | src/protocol/body/negotiate/negotiate.rs:144-158 | the 64 fixed bytes are the head, size, time and offset groups at 0, 24, 40 and 56 |
| Negotiate.FixedBlockLayout | src/protocol/body/negotiate/negotiate.rs:144-158 | each fixed field reads back at its MS-SMB2 position: structure size 65, mode, dialect code, context count mod 2^16, GUID, capabilities, the three sizes, both times, the buffer offset, the buffer length mod 2^16 and the context offset mod 2^32 |
| Negotiate.ResponseWireLayout | src/protocol/body/negotiate/negotiate.rs:122-162 | the body is the fixed block, the buffer, `padding_len` zeros, then the contexts, and header plus fixed block, buffer and padding is a multiple of 8 |
| Negotiate.WireFieldReads | src/protocol/body/negotiate/negotiate.rs:138-158 | in the whole body, the count, buffer offset (0 or 128), buffer length and context offset fields read back their values |
| Negotiate.DeclaredBufferFields | src/protocol/body/negotiate/negotiate.rs:138-157 | the declared buffer length is the buffer's length; the declared offset is 0 for an empty buffer and otherwise header plus 64, the body index where the buffer sits |
| Negotiate.DeclaredContextFields | src/protocol/body/negotiate/negotiate.rs:125-158 | the declared count is the number of contexts; for 3.1.1 the declared offset is the header plus the body index after the padded buffer, which is 8-byte aligned; for other dialects it is 0 and the body ends there |
| Negotiate.ContextSectionAt | src/protocol/body/negotiate/negotiate.rs:127-136 | the 3.1.1 context list is the tail of the body from an aligned index on |
| Negotiate.WalkSkip | src/protocol/body/negotiate/negotiate.rs:39-49 | a turn over a record that does not parse collects nothing, moves past the record's declared length plus 8, and always pads |
| Negotiate.UnparsedRecordOverruns | src/protocol/body/negotiate/negotiate.rs:39-48 | with an unparsed type-9 record before a type-1 record, a declared count of 2 walks past the 24-byte list and panics; a count of 1 stops at its end |
| Negotiate.WalkReadsContextList | src/protocol/body/negotiate/negotiate.rs:129-136 | from an aligned start, the parser's context loop visits exactly the records the encoder wrote, which has padded every record except the last, and stops at the end of the list |
| Negotiate.ContextLoopReadsResponse | src/protocol/body/negotiate/negotiate.rs:39-50 | run from the declared body index for the declared count over a 3.1.1 response, the context loop reads back exactly the response's contexts and ends at the end of the message |
| LegacyNegotiate.ContextTypeCode | src/body/negotiate.rs:106-116 | every context type's discriminant is one of 1..8 other than 4 |
| LegacyNegotiate.ContextTypeFromCode | src/body/negotiate.rs:106-116 | `try_from` returns a context type only for that type's own discriminant |
| LegacyNegotiate.ContextTypeRoundTrip | src/body/negotiate.rs:106-116 | every negotiate-context type's code decodes back to it |
| LegacyNegotiate.ContextTypeDecodeSound | src/body/negotiate.rs:106-116 | a code that decodes is the code of what it decodes to |
| LegacyNegotiate.ContextTypeCodes | src/body/negotiate.rs:108-116 | exactly the codes 1, 2, 3, 5, 6, 7 and 8 decode |
| LegacyNegotiate.LegacyRequestFromBytes | src/body/negotiate.rs:18-39 | the legacy `from_bytes` gives `None` exactly for inputs shorter than 37 bytes |
| LegacyNegotiate.ParseLegacyRequest | src/body/negotiate.rs:18-39 | the imperative legacy parser returns what `LegacyRequestFromBytes` gives |
| LegacyNegotiate.LegacyParsedRequestShape | src/body/negotiate.rs:20-38 | truncated flags, the GUID, and `dialect_count` recognised dialects in wire order; no code is read when `dialect_count` is 0, and otherwise the last code read is recognised; the rest always starts right after the last code read, even with 3.1.1 |
| LegacyNegotiate.LegacyAgreesWithCurrent | src/body/negotiate.rs:18-39 | where the current parser runs, the legacy one does too and gives the same flags, GUID and dialects; without 3.1.1 it also gives the same rest |
| LegacyNegotiate.NewLegacyResponse | src/body/negotiate.rs:57-70 | `new` stores every argument unchanged |
| LegacyNegotiate.LegacyFixedBlockGroups | src/body/negotiate.rs:75-88 | the 62 fixed bytes are the head, size, time and offset groups at 0, 22, 38 and 54 |
| LegacyNegotiate.LegacyResponseWire | src/body/negotiate.rs:74-92 | `as_bytes` writes 62 fixed bytes and then the security buffer unchanged |
| LegacyNegotiate.LegacyWireLayout | src/body/negotiate.rs:74-92 | the output is `62 + len(buffer)` bytes with no padding; the fields follow in order with no context-count field; the offset field is always 64, the length field is the length mod 2^16, four zero bytes follow, then the buffer |
| LegacyNegotiate.LegacyBufferOffsetMisses | src/body/negotiate.rs:86 | for a non-empty buffer, the declared offset minus the header names body index 0, while the buffer starts at body index 62 |
| LegacyNegotiate.LegacyBufferOffsetExample | src/body/negotiate.rs:86-89 | with a one-byte token, the byte at the declared offset is the structure size 65, not the token |
| NtlmChallenge.SignatureSpellsNtlmssp | src/util/auth/ntlm/ntlm_challenge_message.rs:20 | the signature bytes are the ASCII codes of "NTLMSSP\0" |
| NtlmChallenge.NewChallenge | src/util/auth/ntlm/ntlm_challenge_message.rs:16-25 | `new` sets the 8-byte signature and stores the name, flags and challenge unchanged (the RNG output is passed in) |
| NtlmChallenge.ChallengeFromBytes | src/util/auth/ntlm/ntlm_challenge_message.rs:27-29 | `from_bytes` always gives `None` |
| NtlmChallenge.BmpUnits | src/util/auth/ntlm/ntlm_challenge_message.rs:33 | `encode_utf16` of a BMP-only string is one code unit per character, the character's value |
| NtlmChallenge.Utf16LeBytes | src/util/auth/ntlm/ntlm_challenge_message.rs:34-38 | byte `2k` of the pushed bytes is the low byte of code unit `k`, and byte `2k+1` is its high byte |
| NtlmChallenge.Utf16LeReadsBack | src/util/auth/ntlm/ntlm_challenge_message.rs:34-38 | reading word `k` of the pushed bytes gives code unit `k` |
| NtlmChallenge.AsciiUtf16Le | src/util/auth/ntlm/ntlm_challenge_message.rs:33-38 | an ASCII string becomes two bytes per character: its code, then zero |
| NtlmChallenge.FakeServerNameBytes | src/util/auth/ntlm/ntlm_challenge_message.rs:33-38 | the name bytes are 20 long and spell "fakeserver" low byte first |
| NtlmChallenge.EncodeUtf16Le | src/util/auth/ntlm/ntlm_challenge_message.rs:34-38 | the push loop produces the UTF-16LE encoding of the code units |
| NtlmChallenge.ChallengeBytes | src/util/auth/ntlm/ntlm_challenge_message.rs:31-61 | `as_bytes` returns the specified wire image for the "fakeserver" name |
| NtlmChallenge.ChallengeSections | src/util/auth/ntlm/ntlm_challenge_message.rs:39-60 | with the 8-byte signature and a 20-byte name, the message is 128 bytes and its sections sit at 0, 8, 24, 32, 40, 56 and 76 |
| NtlmChallenge.TypeAndNameLayout | src/util/auth/ntlm/ntlm_challenge_message.rs:41-44 | message type 2, TargetName length and max length 20, offset 56, then the flags |
| NtlmChallenge.InfoAndVersionLayout | src/util/auth/ntlm/ntlm_challenge_message.rs:47-51 | TargetInfo lengths 52 and offset 76, then the version block `[5, 2, 0xCE, 0x0E, 0, 0, 0, 15]` |
| NtlmChallenge.AvPairsLayout | src/util/auth/ntlm/ntlm_challenge_message.rs:53-59 | the AV pairs are id 1, length 20, the name, then id 2, length 20, the name, then four zero bytes |
| NtlmChallenge.ChallengeLayout | src/util/auth/ntlm/ntlm_challenge_message.rs:39-60 | the whole 128-byte message, field by field, with bytes 32..40 zero |
| NtlmChallenge.DeclaredFieldsLocatePayload | src/util/auth/ntlm/ntlm_challenge_message.rs:42-59 | the TargetName offset and length select the name; the TargetInfo offset and length select the AV-pair list, which ends the message (76 + 52 = 128) |
| NtlmChallenge.TargetNameSpellsAscii | src/util/auth/ntlm/ntlm_challenge_message.rs:33-52 | for a ten-character ASCII name, character `k` sits at byte `56 + 2k` with a zero byte after it |
| NtlmChallenge.ChallengeIgnoresTargetName | src/util/auth/ntlm/ntlm_challenge_message.rs:31-61 | the output does not depend on `target_name` |
| CommandCode.CodeRoundTrip | src/header/command_code.rs:1-75 | every variant's discriminant decodes back to it |
| CommandCode.FromCodeSound | src/header/command_code.rs:1-75 | a byte that decodes is the discriminant of the variant it decodes to |
| CommandCode.Code | src/header/command_code.rs:3-75 | every variant's discriminant lies in one of the seven assigned runs |
| CommandCode.FromCode | src/header/command_code.rs:3-75 | a byte decodes exactly when it lies in one of the seven runs 0x00..0x14, 0x1A..0x35, 0x70..0x75, 0x80..0x84, 0xA0..0xA4, 0xC0..0xC3, 0xD9..0xDA |
| CommandCode.CodeInjective | src/header/command_code.rs:1-75 | distinct variants have distinct discriminants |
| CommandCode.GapsDecodeToNone | src/header/command_code.rs:3-75 | every byte between the runs (0x15..0x19, 0x36..0x6F, ..., 0xDB..0xFF) decodes to nothing |
| CommandCode.NegotiateCode | src/header/command_code.rs:55 | `Negotiate` is 0x72 |
| CommandCode.FirstS | src/header/command_code.rs:80 | `position` gives the index of the first `'S'`, or `None` exactly when there is none |
| CommandCode.ParseWithoutS | src/header/command_code.rs:80-86 | without an `'S'` byte, `parse` gives `None` |
| CommandCode.OnlyFirstSCounts | src/header/command_code.rs:80-86 | if the bytes from the first `'S'` are not "SMB", the result is `None`, whatever follows |
| CommandCode.ParseCommand | src/header/command_code.rs:78-87 | `parse` returns a command only when "SMB" starts at the first `'S'` byte |
| CommandCode.ParseReadsCode | src/header/command_code.rs:80-83 | if the first `'S'` starts "SMB", the result is the decoded byte after the tag |
| CommandCode.ParseTaggedHeader | src/header/command_code.rs:78-87 | bytes without `'S'`, then "SMB" and a code byte, parse to that code's command, whatever follows |
| CommandCode.ParseSmb1Negotiate | src/header/command_code.rs:78-87 | an SMB1 header `0xFF 'S' 'M' 'B' 0x72` parses to `Negotiate` |
| CommandCode.StraySHidesTag | src/header/command_code.rs:80-81 | "S", 0, "SMB", 0x72 parses to `None`: the later tag is never examined |

## Left out

- The negotiate-context codec (`NegotiateContext`, in the Rust module `crate::protocol::body::negotiate`) is not covered by this model. It enters as the function parameters `parse`, `encode` and `respond`. The context round trip holds for any codec that satisfies `RecordCodec`: each record carries its payload length at bytes 2..4, and parsing anything that starts with a record gives that record back.
- Randomness and clocks are parameters: the GUID of `Uuid::new_v4`, the system time of `FileTime::now`, and the server challenge that `ThreadRng::fill_bytes` writes.
- `FileTime` is modelled by its 64-bit tick count and 8-byte little-endian form. `FileTime::from_unix` (used at `from_unix(0)`) is modelled by its tick formula. Its own source is not part of this model.
- `Uuid` is modelled by its 16 bytes (`as_bytes` and `from_slice`). `from_slice` on the 16-byte slice `12..28` always succeeds, so the `?` after it is never taken.
- `SecurityMode` and `Capabilities` are defined in the Rust module `crate::protocol::body` (and `crate::body` for the first-generation codec), which this model does not cover. Their defined bits are taken from section 2.2.3 of MS-SMB2: 0x03 for the security mode, and 0x01 through 0x40 for the capabilities.
- `NTLMNegotiateFlags` is defined in `src/util/auth/ntlm/ntlm_message.rs`, which this model does not cover. It is modelled by its 32-bit `bits()` value.
- Negotiate.WalkContexts: the round trip (`WalkReadsContextList`, `ContextLoopReadsResponse`) covers only context lists that `parse` accepts in full. The Rust loop compares only the parsed contexts with NegotiateContextCount and pads after every unparsed record. A count that includes an unrecognised record therefore walks past the end of the list (`UnparsedRecordOverruns`), so a promise to skip unrecognised contexts among recognised ones does not hold. `WalkSkip` states the turn over an unparsed record.
- Rust panics are preconditions (`RequestParses`, `LegacyRequestParses`, `ParseInBounds`), not behaviour. They are out-of-range slicing in the dialect and context loops, the u32 subtraction `offset - 64`, and `data[pos + 3]`. The subtraction panics only in a build with overflow checks (a debug build). In a release build it wraps, and with a context count of 0 `from_bytes` then returns the body with an empty rest. The model follows the debug build here.
- `as u16` and `as u32` truncations are written out as `% 0x1_0000` and `% 0x1_0000_0000`. The lemmas about declared count, length and offset (`DeclaredBufferFields`, `DeclaredContextFields`) assume the values fit.
- The legacy module's own `SMBDialect` enum has the same six variants and codes as the current one, but no order. It is represented by the shared `Dialect` type.
- The legacy parser reads the context offset and count when 3.1.1 is offered, then discards them. It is modelled without those two reads, since they do not affect the result.
- `println!` calls in `parse`, and the serde derives, are left out.
- `src/message.rs`, `src/protocol/header/flags2.rs`, `src/util/auth/user.rs` and `src/parameters/parameters.rs` are not part of this model. They are dispatch plumbing, library-generated flag code or plain data holders.
- Context parsing is modelled from the byte slice `bytes[start..]` passed to `parse`. The record contents are not inspected beyond the length field.
- NtlmChallenge.ChallengeLayout, DeclaredFieldsLocatePayload and TargetNameSpellsAscii are stated for any 20-byte name (or any ten-character ASCII name), not for "fakeserver" literally. `ChallengeBytes` and `FakeServerNameBytes` connect them to the name `as_bytes` writes. Unfolding the literal inside the layout proofs is too costly for the verifier.

## Findings

| source | as written | input that shows it | evidently intended | confidence | as-written member | corrected member |
|---|---|---|---|---|---|---|
| src/body/negotiate.rs:86 | the legacy serialiser always declares security-buffer offset 64. Its fixed block is 62 bytes (there is no context-count field), so the buffer starts at header-relative offset 126, and offset 64 names the structure-size field | any response with a one-byte token 0xAA: the byte at header-relative offset 64 is 65, and the token is at 126 | the offset names the buffer: the current serialiser writes the 2-byte context count, and its offset field is 128 (header plus the 64 fixed bytes), where the buffer sits | not executed | LegacyNegotiate.LegacyBufferOffsetMisses | Negotiate.DeclaredBufferFields |
