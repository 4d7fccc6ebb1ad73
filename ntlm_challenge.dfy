/**
 * The NTLM CHALLENGE_MESSAGE the server sends after negotiation (MS-NLMP
 * section 2.2.1.2, with the AV_PAIR list of section 2.2.2.1 and the VERSION
 * block of section 2.2.2.10). The serialiser writes a fixed table of
 * length/offset pairs followed by the name fields those pairs point at.
 *
 * The random server challenge is a parameter of the constructor. The
 * `NTLMNegotiateFlags` type is defined outside the modelled files; it is
 * modelled by its 32-bit wire value. The signature string is kept as its
 * UTF-8 bytes, which is what `as_bytes` writes.
 */
module NtlmChallenge {
  import opened Wrappers
  import opened Bytes

  /** An 8-byte server challenge. */
  type Challenge = s: seq<Byte> | |s| == 8 witness seq(8, _ => 0)

  /** `NTLMChallengeMessageBody`. */
  datatype ChallengeMessage = ChallengeMessage(
    signature: seq<Byte>,
    targetName: string,
    negotiateFlags: U32,
    serverChallenge: Challenge)

  /** The UTF-8 bytes of "NTLMSSP\0". */
  const NTLMSSP_SIGNATURE: seq<Byte> := [0x4E, 0x54, 0x4C, 0x4D, 0x53, 0x53, 0x50, 0x00]

  /** The name every challenge advertises, whatever `target_name` holds. */
  const FAKE_SERVER: string := "fakeserver"

  /** The signature constant is the ASCII text "NTLMSSP" and a NUL, byte for character. */
  lemma SignatureSpellsNtlmssp()
    ensures |NTLMSSP_SIGNATURE| == 8 == |"NTLMSSP\0"|
    ensures forall i :: 0 <= i < 8 ==> NTLMSSP_SIGNATURE[i] == "NTLMSSP\0"[i] as int
  {
  }

  /**
   * `NTLMChallengeMessageBody::new`, with the bytes the RNG would have
   * written passed in: the signature is "NTLMSSP\0" and the name, flags and
   * challenge are stored as given.
   */
  function NewChallenge(targetName: string, negotiateFlags: U32, serverChallenge: Challenge)
    : (m: ChallengeMessage)
    ensures m.signature == NTLMSSP_SIGNATURE && |m.signature| == 8
    ensures m.targetName == targetName && m.negotiateFlags == negotiateFlags
    ensures m.serverChallenge == serverChallenge
  {
    ChallengeMessage(NTLMSSP_SIGNATURE, targetName, negotiateFlags, serverChallenge)
  }

  /** `NTLMChallengeMessageBody::from_bytes`: parsing is not implemented, every input gives `None`. */
  function ChallengeFromBytes(bytes: seq<Byte>): (r: Option<ChallengeMessage>)
    ensures r.None?
  {
    None
  }

  // ---------------------------------------------------------------------
  // UTF-16LE names
  // ---------------------------------------------------------------------

  /** `str::encode_utf16`: one code unit per BMP character, a surrogate pair above it. */
  function Utf16Units(s: string): (r: seq<U16>)
    ensures |r| >= |s|
  {
    if |s| == 0 then []
    else
      var c := s[0] as int;
      (if c < 0x1_0000 then [c] else [0xD800 + (c - 0x1_0000) / 0x400, 0xDC00 + (c - 0x1_0000) % 0x400])
      + Utf16Units(s[1..])
  }

  /** The code units, each written low byte first. */
  function Utf16Le(units: seq<U16>): (r: seq<Byte>)
    ensures |r| == 2 * |units|
  {
    if |units| == 0 then [] else LE16(units[0]) + Utf16Le(units[1..])
  }

  /** A string of BMP characters has one code unit per character, the character's own value. */
  lemma {:induction false} BmpUnits(s: string)
    requires forall i :: 0 <= i < |s| ==> (s[i] as int) < 0x1_0000
    ensures |Utf16Units(s)| == |s|
    ensures forall k :: 0 <= k < |s| ==> Utf16Units(s)[k] == s[k] as int
  {
    if |s| > 0 {
      BmpUnits(s[1..]);
      assert forall k :: 1 <= k < |s| ==> s[k] == s[1..][k - 1];
    }
  }

  /** Appending a code unit appends its two bytes. */
  lemma {:induction false} Utf16LeSnoc(units: seq<U16>, x: U16)
    ensures Utf16Le(units + [x]) == Utf16Le(units) + LE16(x)
  {
    if |units| > 0 {
      assert (units + [x])[1..] == units[1..] + [x];
      Utf16LeSnoc(units[1..], x);
      AppendAssoc(LE16(units[0]), Utf16Le(units[1..]), LE16(x));
    } else {
      assert units + [x] == [x];
    }
  }

  /** One more code unit of a prefix: two more bytes of its encoding. */
  lemma EncodeStep(units: seq<U16>, i: nat)
    requires i < |units|
    ensures Utf16Le(units[..i + 1]) == Utf16Le(units[..i]) + LE16(units[i])
  {
    assert units[..i + 1] == units[..i] + [units[i]];
    Utf16LeSnoc(units[..i], units[i]);
  }

  lemma EncodeAll(units: seq<U16>)
    ensures Utf16Le(units[..|units|]) == Utf16Le(units)
  {
    assert units[..|units|] == units;
  }

  /** Byte `2k` of the encoding is the low byte of code unit `k`, byte `2k + 1` its high byte. */
  lemma {:induction false} Utf16LeBytes(units: seq<U16>, k: nat)
    requires k < |units|
    ensures Utf16Le(units)[2 * k] == units[k] % 0x100
    ensures Utf16Le(units)[2 * k + 1] == units[k] / 0x100
  {
    if k > 0 {
      Utf16LeBytes(units[1..], k - 1);
    }
  }

  /** Reading the `k`-th 2-byte word of the encoding gives the `k`-th code unit back. */
  lemma Utf16LeReadsBack(units: seq<U16>, k: nat)
    requires k < |units|
    ensures ReadU16(Utf16Le(units), 2 * k) == units[k]
  {
    Utf16LeBytes(units, k);
  }

  /** The name `as_bytes` writes, three times. */
  function FakeServerName(): seq<Byte>
  {
    Utf16Le(Utf16Units(FAKE_SERVER))
  }

  /** Code units below 0x100 are written as themselves, then a zero byte. */
  lemma NarrowUnitsLe(units: seq<U16>, k: nat)
    requires k < |units| && units[k] < 0x100
    ensures Utf16Le(units)[2 * k] == units[k] && Utf16Le(units)[2 * k + 1] == 0
  {
    Utf16LeBytes(units, k);
    NarrowUnit(units[k]);
  }

  lemma NarrowUnit(u: U16)
    requires u < 0x100
    ensures u % 0x100 == u && u / 0x100 == 0
  {
  }

  /**
   * An ASCII string becomes two bytes per character in UTF-16LE: the
   * character's code, then a zero byte.
   */
  lemma AsciiUtf16Le(s: string)
    requires forall i :: 0 <= i < |s| ==> (s[i] as int) < 0x80
    ensures |Utf16Le(Utf16Units(s))| == 2 * |s|
    ensures forall k :: 0 <= k < |s| ==> Utf16Le(Utf16Units(s))[2 * k] == s[k] as int
    ensures forall k :: 0 <= k < |s| ==> Utf16Le(Utf16Units(s))[2 * k + 1] == 0
  {
    BmpUnits(s);
    var units := Utf16Units(s);
    forall k | 0 <= k < |s|
      ensures Utf16Le(units)[2 * k] == s[k] as int && Utf16Le(units)[2 * k + 1] == 0
    {
      NarrowUnitsLe(units, k);
    }
  }

  /** "fakeserver" is ten ASCII characters, so its UTF-16LE form is 20 bytes. */
  lemma FakeServerNameBytes()
    ensures |FakeServerName()| == 20
    ensures forall k :: 0 <= k < 10 ==> FakeServerName()[2 * k] == FAKE_SERVER[k] as int
    ensures forall k :: 0 <= k < 10 ==> FakeServerName()[2 * k + 1] == 0
  {
    AsciiUtf16Le(FAKE_SERVER);
  }

  // ---------------------------------------------------------------------
  // Serialisation
  // ---------------------------------------------------------------------

  /** Bytes 8..24 after the signature: message type 2, the TargetName length pair and offset, the flags. */
  function TypeAndNameFields(m: ChallengeMessage): (r: seq<Byte>)
    ensures |r| == 16
  {
    LE32(0x02) + LE16(20) + LE16(20) + LE32(56) + LE32(m.negotiateFlags)
  }

  /** Bytes 40..56: the TargetInfo length pair and offset, then the version block. */
  function InfoAndVersionFields(): (r: seq<Byte>)
    ensures |r| == 16
  {
    LE16(52) + LE16(52) + LE32(76) + [5, 2] + LE16(3790) + [0, 0, 0, 15]
  }

  /** The TargetInfo AV pairs: NetBIOS computer name (1), NetBIOS domain name (2), then the end marker. */
  function AvPairs(name: seq<Byte>): seq<Byte>
  {
    LE16(1) + LE16(20) + name + LE16(2) + LE16(20) + name + [0, 0, 0, 0]
  }

  /** What `as_bytes` returns for the name bytes `name`. */
  function ChallengeWire(m: ChallengeMessage, name: seq<Byte>): seq<Byte>
  {
    m.signature + TypeAndNameFields(m) + m.serverChallenge + Zeros(8) + InfoAndVersionFields()
    + name + AvPairs(name)
  }

  /**
   * The `for i in fakeserver.iter()` loop of `as_bytes`: each code unit is
   * pushed as its low byte, then its high byte.
   */
  method EncodeUtf16Le(units: seq<U16>) returns (name: seq<Byte>)
    ensures name == Utf16Le(units)
  {
    name := [];
    var i := 0;
    while i < |units|
      invariant 0 <= i <= |units|
      invariant name == Utf16Le(units[..i])
    {
      var bytes := LE16(units[i]);
      EncodeStep(units, i);
      name := name + [bytes[0]];
      name := name + [bytes[1]];
      assert name == Utf16Le(units[..i]) + bytes;
      i := i + 1;
    }
    EncodeAll(units);
  }

  /** `NTLMChallengeMessageBody::as_bytes`: the encoded name, then the concatenation. */
  method ChallengeBytes(m: ChallengeMessage) returns (out: seq<Byte>)
    ensures out == ChallengeWire(m, FakeServerName())
  {
    var fakeserver := Utf16Units(FAKE_SERVER);
    var name := EncodeUtf16Le(fakeserver);
    out := m.signature + TypeAndNameFields(m) + m.serverChallenge + Zeros(8) + InfoAndVersionFields()
           + name + AvPairs(name);
  }

  /**
   * Where each part of the message lands, for the 8-byte signature `new`
   * sets and a 20-byte name (`FakeServerNameBytes`).
   */
  lemma ChallengeSections(m: ChallengeMessage, name: seq<Byte>)
    requires |m.signature| == 8 && |name| == 20
    ensures var w := ChallengeWire(m, name);
            && |w| == 128
            && w[..8] == m.signature
            && w[8..24] == TypeAndNameFields(m)
            && w[24..32] == m.serverChallenge
            && w[32..40] == Zeros(8)
            && w[40..56] == InfoAndVersionFields()
            && w[56..76] == name
            && w[76..] == AvPairs(name)
  {
    var w := ChallengeWire(m, name);
    var (s, t, c, z, v, a) := (m.signature, TypeAndNameFields(m), m.serverChallenge, Zeros(8),
                               InfoAndVersionFields(), AvPairs(name));
    assert |a| == 52;
    assert w == (s + t + c + z + v + name) + a;
    SplitSlice(w, 0, s + t + c + z + v + name, a);
    SplitSlice(w, 0, s + t + c + z + v, name);
    SplitSlice(w, 0, s + t + c + z, v);
    SplitSlice(w, 0, s + t + c, z);
    SplitSlice(w, 0, s + t, c);
    SplitSlice(w, 0, s, t);
  }

  /** Bytes 8..24: message type 2, TargetName length 20 twice and offset 56, then the flags. */
  lemma TypeAndNameLayout(m: ChallengeMessage, w: seq<Byte>)
    requires |w| >= 24 && w[8..24] == TypeAndNameFields(m)
    ensures ReadU32(w, 8) == 2
    ensures ReadU16(w, 12) == 20 && ReadU16(w, 14) == 20 && ReadU32(w, 16) == 56
    ensures ReadU32(w, 20) == m.negotiateFlags
  {
    var (a, b, c, d, e) := (LE32(0x02), LE16(20), LE16(20), LE32(56), LE32(m.negotiateFlags));
    SplitSlice(w, 8, a + b + c + d, e);
    SplitSlice(w, 8, a + b + c, d);
    SplitSlice(w, 8, a + b, c);
    SplitSlice(w, 8, a, b);
    ReadLE32(w, 8, 0x02);
    ReadLE16(w, 12, 20);
    ReadLE16(w, 14, 20);
    ReadLE32(w, 16, 56);
    ReadLE32(w, 20, m.negotiateFlags);
  }

  /** Bytes 40..56: TargetInfo length 52 twice and offset 76, then version 5.2 build 3790 revision 15. */
  lemma InfoAndVersionLayout(w: seq<Byte>)
    requires |w| >= 56 && w[40..56] == InfoAndVersionFields()
    ensures ReadU16(w, 40) == 52 && ReadU16(w, 42) == 52 && ReadU32(w, 44) == 76
    ensures w[48..56] == [5, 2, 0xCE, 0x0E, 0, 0, 0, 15]
  {
    var v := InfoAndVersionFields();
    assert v == [52, 0, 52, 0, 76, 0, 0, 0, 5, 2, 0xCE, 0x0E, 0, 0, 0, 15];
    assert w[40] == v[0] && w[41] == v[1] && w[42] == v[2] && w[43] == v[3];
    assert w[44] == v[4] && w[45] == v[5] && w[46] == v[6] && w[47] == v[7];
    assert w[48..56] == v[8..];
  }

  /** The AV-pair list: id 1 and length 20, the name, id 2 and length 20, the name, four zero bytes. */
  lemma AvPairsLayout(name: seq<Byte>, w: seq<Byte>, p: nat)
    requires |name| == 20 && p + 52 <= |w| && w[p..p + 52] == AvPairs(name)
    ensures ReadU16(w, p) == 1 && ReadU16(w, p + 2) == 20 && w[p + 4..p + 24] == name
    ensures ReadU16(w, p + 24) == 2 && ReadU16(w, p + 26) == 20 && w[p + 28..p + 48] == name
    ensures w[p + 48..p + 52] == [0, 0, 0, 0]
  {
    var (a, b, c, d) := (LE16(1), LE16(20), LE16(2), LE16(20));
    var z: seq<Byte> := [0, 0, 0, 0];
    assert AvPairs(name) == (a + b + name + c + d + name) + z;
    SplitSlice(w, p, a + b + name + c + d + name, z);
    SplitSlice(w, p, a + b + name + c + d, name);
    SplitSlice(w, p, a + b + name + c, d);
    SplitSlice(w, p, a + b + name, c);
    SplitSlice(w, p, a + b, name);
    SplitSlice(w, p, a, b);
    ReadLE16(w, p, 1);
    ReadLE16(w, p + 2, 20);
    ReadLE16(w, p + 24, 2);
    ReadLE16(w, p + 26, 20);
  }

  /**
   * The 128-byte message field by field, as a reader of MS-NLMP section
   * 2.2.1.2 finds it.
   */
  lemma ChallengeLayout(m: ChallengeMessage, name: seq<Byte>)
    requires |m.signature| == 8 && |name| == 20
    ensures var w := ChallengeWire(m, name);
            && |w| == 128
            && w[..8] == m.signature
            && ReadU32(w, 8) == 2
            && ReadU16(w, 12) == 20 && ReadU16(w, 14) == 20 && ReadU32(w, 16) == 56
            && ReadU32(w, 20) == m.negotiateFlags
            && w[24..32] == m.serverChallenge
            && (forall k :: 32 <= k < 40 ==> w[k] == 0)
            && ReadU16(w, 40) == 52 && ReadU16(w, 42) == 52 && ReadU32(w, 44) == 76
            && w[48..56] == [5, 2, 0xCE, 0x0E, 0, 0, 0, 15]
            && w[56..76] == name
            && ReadU16(w, 76) == 1 && ReadU16(w, 78) == 20 && w[80..100] == name
            && ReadU16(w, 100) == 2 && ReadU16(w, 102) == 20 && w[104..124] == name
            && w[124..128] == [0, 0, 0, 0]
  {
    var w := ChallengeWire(m, name);
    ChallengeSections(m, name);
    TypeAndNameLayout(m, w);
    InfoAndVersionLayout(w);
    assert w[76..128] == w[76..];
    AvPairsLayout(name, w, 76);
    assert forall k :: 32 <= k < 40 ==> w[k] == w[32..40][k - 32];
  }

  /**
   * The declared length/offset pairs agree with the bytes: TargetName's
   * offset and length select the encoded name, and TargetInfo's offset and
   * length select the AV-pair list, which ends the message.
   */
  lemma DeclaredFieldsLocatePayload(m: ChallengeMessage, name: seq<Byte>)
    requires |m.signature| == 8 && |name| == 20
    ensures var w := ChallengeWire(m, name);
            && ReadU32(w, 16) + ReadU16(w, 12) <= |w|
            && w[ReadU32(w, 16)..ReadU32(w, 16) + ReadU16(w, 12)] == name
            && ReadU32(w, 44) + ReadU16(w, 40) == |w|
            && w[ReadU32(w, 44)..] == AvPairs(name)
  {
    ChallengeLayout(m, name);
    ChallengeSections(m, name);
  }

  /**
   * For a ten-character ASCII name, the TargetName field's offset and length
   * select the name in UTF-16LE: character `k` at byte `56 + 2k`, a zero
   * byte after it.
   */
  lemma TargetNameSpellsAscii(m: ChallengeMessage, s: string, w: seq<Byte>)
    requires |m.signature| == 8 && |s| == 10
    requires forall i :: 0 <= i < |s| ==> (s[i] as int) < 0x80
    requires w == ChallengeWire(m, Utf16Le(Utf16Units(s)))
    ensures |w| == 128 && ReadU32(w, 16) == 56 && ReadU16(w, 12) == 2 * |s|
    ensures forall k :: 0 <= k < |s| ==> w[56 + 2 * k] == s[k] as int && w[57 + 2 * k] == 0
  {
    var name := Utf16Le(Utf16Units(s));
    AsciiUtf16Le(s);
    ChallengeLayout(m, name);
    forall k | 0 <= k < |s|
      ensures w[56 + 2 * k] == s[k] as int && w[57 + 2 * k] == 0
    {
      assert w[56 + 2 * k] == w[56..76][2 * k];
      assert w[57 + 2 * k] == w[56..76][2 * k + 1];
    }
  }

  /** The output does not depend on `target_name`. */
  lemma ChallengeIgnoresTargetName(m: ChallengeMessage, targetName: string, name: seq<Byte>)
    ensures ChallengeWire(m.(targetName := targetName), name) == ChallengeWire(m, name)
  {
  }
}
