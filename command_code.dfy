/**
 * The SMB1 command-code sniffer: the `SMBCommandCode` enumeration, whose
 * one-byte discriminants are the command codes of the CIFS header
 * (section 2.2.2.1 of MS-CIFS), and `parse`, which looks for the "SMB"
 * protocol tag and decodes the byte after it.
 *
 * The enum's discriminants come in seven runs: each run starts at an
 * explicit value (none for the first, which starts at 0) and every later
 * variant of the run is one more than the one before. The model keeps that
 * shape: run `k` has a membership test `InRunk`, its discriminants
 * `RunkCode` and its decoder `RunkCommand`, and `Code` and `FromCode`
 * dispatch on the run.
 */
module CommandCode {
  import opened Wrappers
  import opened Bytes

  /** `SMBCommandCode`, one constructor per variant, in declaration order. */
  datatype Command =
      CreateDirectory
    | DeleteDirectory
    | Open
    | Create
    | Close
    | Flush
    | Delete
    | Rename
    | QueryInformation
    | SetInformation
    | Read
    | Write
    | LockByteRange
    | UnlockByteRange
    | CreateTemporary
    | CreateNew
    | CheckDirectory
    | ProcessExit
    | Seek
    | LockAndRead
    | WriteAndUnlock
    | ReadRaw
    | ReadMPX
    | ReadMPXSecondary
    | WriteRaw
    | WriteMPX
    | WriteMPXSecondary
    | WriteComplete
    | QueryServer
    | SetInformation2
    | QueryInformation2
    | LockingANDX
    | Transaction
    | TransactionSecondary
    | IOCTL
    | IOCTLSecondary
    | Copy
    | Move
    | Echo
    | WriteAndClose
    | OpenANDX
    | ReadANDX
    | WriteANDX
    | NewFileSize
    | CloseAndTreeDisc
    | Transaction2
    | Transaction2Secondary
    | FindClose2
    | FindNotifyClose
    | TreeConnect
    | TreeDisconnect
    | Negotiate
    | SessionSetupANDX
    | LogoffANDX
    | TreeConnectANDX
    | QueryInformationDisk
    | Search
    | Find
    | FindUnique
    | FindClose
    | NTTransact
    | NTTransactSecondary
    | NTCreateANDX
    | NTCancel
    | NTRename
    | OpenPrintFile
    | WritePrintFile
    | ClosePrintFile
    | GetPrintQueue
    | ReadBulk
    | WriteBulkData

  // Run 0: CreateDirectory..WriteAndUnlock, 0x00..0x14.

  predicate InRun0(c: Command)
  {
    c.CreateDirectory? || c.DeleteDirectory? || c.Open? || c.Create?
    || c.Close? || c.Flush? || c.Delete? || c.Rename?
    || c.QueryInformation? || c.SetInformation? || c.Read? || c.Write?
    || c.LockByteRange? || c.UnlockByteRange? || c.CreateTemporary? || c.CreateNew?
    || c.CheckDirectory? || c.ProcessExit? || c.Seek? || c.LockAndRead?
    || c.WriteAndUnlock?
  }

  function Run0Code(c: Command): (r: Byte)
    requires InRun0(c)
    ensures 0x00 <= r <= 0x14
  {
    match c
      case CreateDirectory => 0x00
      case DeleteDirectory => 0x01
      case Open => 0x02
      case Create => 0x03
      case Close => 0x04
      case Flush => 0x05
      case Delete => 0x06
      case Rename => 0x07
      case QueryInformation => 0x08
      case SetInformation => 0x09
      case Read => 0x0A
      case Write => 0x0B
      case LockByteRange => 0x0C
      case UnlockByteRange => 0x0D
      case CreateTemporary => 0x0E
      case CreateNew => 0x0F
      case CheckDirectory => 0x10
      case ProcessExit => 0x11
      case Seek => 0x12
      case LockAndRead => 0x13
      case WriteAndUnlock => 0x14
  }

  function Run0Command(b: Byte): Command
    requires 0x00 <= b <= 0x14
  {
    match b
      case 0x00 => CreateDirectory
      case 0x01 => DeleteDirectory
      case 0x02 => Open
      case 0x03 => Create
      case 0x04 => Close
      case 0x05 => Flush
      case 0x06 => Delete
      case 0x07 => Rename
      case 0x08 => QueryInformation
      case 0x09 => SetInformation
      case 0x0A => Read
      case 0x0B => Write
      case 0x0C => LockByteRange
      case 0x0D => UnlockByteRange
      case 0x0E => CreateTemporary
      case 0x0F => CreateNew
      case 0x10 => CheckDirectory
      case 0x11 => ProcessExit
      case 0x12 => Seek
      case 0x13 => LockAndRead
      case 0x14 => WriteAndUnlock
  }

  lemma Run0RoundTrip(c: Command)
    requires InRun0(c)
    ensures 0x00 <= Run0Code(c) <= 0x14 && Run0Command(Run0Code(c)) == c
  {
  }

  lemma Run0Sound(b: Byte)
    requires 0x00 <= b <= 0x14
    ensures InRun0(Run0Command(b)) && Run0Code(Run0Command(b)) == b
  {
  }

  // Run 1: ReadRaw..FindNotifyClose, 0x1A..0x35.

  predicate InRun1(c: Command)
  {
    c.ReadRaw? || c.ReadMPX? || c.ReadMPXSecondary? || c.WriteRaw?
    || c.WriteMPX? || c.WriteMPXSecondary? || c.WriteComplete? || c.QueryServer?
    || c.SetInformation2? || c.QueryInformation2? || c.LockingANDX? || c.Transaction?
    || c.TransactionSecondary? || c.IOCTL? || c.IOCTLSecondary? || c.Copy?
    || c.Move? || c.Echo? || c.WriteAndClose? || c.OpenANDX?
    || c.ReadANDX? || c.WriteANDX? || c.NewFileSize? || c.CloseAndTreeDisc?
    || c.Transaction2? || c.Transaction2Secondary? || c.FindClose2? || c.FindNotifyClose?
  }

  function Run1Code(c: Command): (r: Byte)
    requires InRun1(c)
    ensures 0x1A <= r <= 0x35
  {
    match c
      case ReadRaw => 0x1A
      case ReadMPX => 0x1B
      case ReadMPXSecondary => 0x1C
      case WriteRaw => 0x1D
      case WriteMPX => 0x1E
      case WriteMPXSecondary => 0x1F
      case WriteComplete => 0x20
      case QueryServer => 0x21
      case SetInformation2 => 0x22
      case QueryInformation2 => 0x23
      case LockingANDX => 0x24
      case Transaction => 0x25
      case TransactionSecondary => 0x26
      case IOCTL => 0x27
      case IOCTLSecondary => 0x28
      case Copy => 0x29
      case Move => 0x2A
      case Echo => 0x2B
      case WriteAndClose => 0x2C
      case OpenANDX => 0x2D
      case ReadANDX => 0x2E
      case WriteANDX => 0x2F
      case NewFileSize => 0x30
      case CloseAndTreeDisc => 0x31
      case Transaction2 => 0x32
      case Transaction2Secondary => 0x33
      case FindClose2 => 0x34
      case FindNotifyClose => 0x35
  }

  function Run1Command(b: Byte): Command
    requires 0x1A <= b <= 0x35
  {
    match b
      case 0x1A => ReadRaw
      case 0x1B => ReadMPX
      case 0x1C => ReadMPXSecondary
      case 0x1D => WriteRaw
      case 0x1E => WriteMPX
      case 0x1F => WriteMPXSecondary
      case 0x20 => WriteComplete
      case 0x21 => QueryServer
      case 0x22 => SetInformation2
      case 0x23 => QueryInformation2
      case 0x24 => LockingANDX
      case 0x25 => Transaction
      case 0x26 => TransactionSecondary
      case 0x27 => IOCTL
      case 0x28 => IOCTLSecondary
      case 0x29 => Copy
      case 0x2A => Move
      case 0x2B => Echo
      case 0x2C => WriteAndClose
      case 0x2D => OpenANDX
      case 0x2E => ReadANDX
      case 0x2F => WriteANDX
      case 0x30 => NewFileSize
      case 0x31 => CloseAndTreeDisc
      case 0x32 => Transaction2
      case 0x33 => Transaction2Secondary
      case 0x34 => FindClose2
      case 0x35 => FindNotifyClose
  }

  lemma Run1RoundTrip(c: Command)
    requires InRun1(c)
    ensures 0x1A <= Run1Code(c) <= 0x35 && Run1Command(Run1Code(c)) == c
  {
  }

  lemma Run1Sound(b: Byte)
    requires 0x1A <= b <= 0x35
    ensures InRun1(Run1Command(b)) && Run1Code(Run1Command(b)) == b
  {
  }

  // Run 2: TreeConnect..TreeConnectANDX, 0x70..0x75.

  predicate InRun2(c: Command)
  {
    c.TreeConnect? || c.TreeDisconnect? || c.Negotiate? || c.SessionSetupANDX?
    || c.LogoffANDX? || c.TreeConnectANDX?
  }

  function Run2Code(c: Command): (r: Byte)
    requires InRun2(c)
    ensures 0x70 <= r <= 0x75
  {
    match c
      case TreeConnect => 0x70
      case TreeDisconnect => 0x71
      case Negotiate => 0x72
      case SessionSetupANDX => 0x73
      case LogoffANDX => 0x74
      case TreeConnectANDX => 0x75
  }

  function Run2Command(b: Byte): Command
    requires 0x70 <= b <= 0x75
  {
    match b
      case 0x70 => TreeConnect
      case 0x71 => TreeDisconnect
      case 0x72 => Negotiate
      case 0x73 => SessionSetupANDX
      case 0x74 => LogoffANDX
      case 0x75 => TreeConnectANDX
  }

  lemma Run2RoundTrip(c: Command)
    requires InRun2(c)
    ensures 0x70 <= Run2Code(c) <= 0x75 && Run2Command(Run2Code(c)) == c
  {
  }

  lemma Run2Sound(b: Byte)
    requires 0x70 <= b <= 0x75
    ensures InRun2(Run2Command(b)) && Run2Code(Run2Command(b)) == b
  {
  }

  // Run 3: QueryInformationDisk..FindClose, 0x80..0x84.

  predicate InRun3(c: Command)
  {
    c.QueryInformationDisk? || c.Search? || c.Find? || c.FindUnique?
    || c.FindClose?
  }

  function Run3Code(c: Command): (r: Byte)
    requires InRun3(c)
    ensures 0x80 <= r <= 0x84
  {
    match c
      case QueryInformationDisk => 0x80
      case Search => 0x81
      case Find => 0x82
      case FindUnique => 0x83
      case FindClose => 0x84
  }

  function Run3Command(b: Byte): Command
    requires 0x80 <= b <= 0x84
  {
    match b
      case 0x80 => QueryInformationDisk
      case 0x81 => Search
      case 0x82 => Find
      case 0x83 => FindUnique
      case 0x84 => FindClose
  }

  lemma Run3RoundTrip(c: Command)
    requires InRun3(c)
    ensures 0x80 <= Run3Code(c) <= 0x84 && Run3Command(Run3Code(c)) == c
  {
  }

  lemma Run3Sound(b: Byte)
    requires 0x80 <= b <= 0x84
    ensures InRun3(Run3Command(b)) && Run3Code(Run3Command(b)) == b
  {
  }

  // Run 4: NTTransact..NTRename, 0xA0..0xA4.

  predicate InRun4(c: Command)
  {
    c.NTTransact? || c.NTTransactSecondary? || c.NTCreateANDX? || c.NTCancel?
    || c.NTRename?
  }

  function Run4Code(c: Command): (r: Byte)
    requires InRun4(c)
    ensures 0xA0 <= r <= 0xA4
  {
    match c
      case NTTransact => 0xA0
      case NTTransactSecondary => 0xA1
      case NTCreateANDX => 0xA2
      case NTCancel => 0xA3
      case NTRename => 0xA4
  }

  function Run4Command(b: Byte): Command
    requires 0xA0 <= b <= 0xA4
  {
    match b
      case 0xA0 => NTTransact
      case 0xA1 => NTTransactSecondary
      case 0xA2 => NTCreateANDX
      case 0xA3 => NTCancel
      case 0xA4 => NTRename
  }

  lemma Run4RoundTrip(c: Command)
    requires InRun4(c)
    ensures 0xA0 <= Run4Code(c) <= 0xA4 && Run4Command(Run4Code(c)) == c
  {
  }

  lemma Run4Sound(b: Byte)
    requires 0xA0 <= b <= 0xA4
    ensures InRun4(Run4Command(b)) && Run4Code(Run4Command(b)) == b
  {
  }

  // Run 5: OpenPrintFile..GetPrintQueue, 0xC0..0xC3.

  predicate InRun5(c: Command)
  {
    c.OpenPrintFile? || c.WritePrintFile? || c.ClosePrintFile? || c.GetPrintQueue?
  }

  function Run5Code(c: Command): (r: Byte)
    requires InRun5(c)
    ensures 0xC0 <= r <= 0xC3
  {
    match c
      case OpenPrintFile => 0xC0
      case WritePrintFile => 0xC1
      case ClosePrintFile => 0xC2
      case GetPrintQueue => 0xC3
  }

  function Run5Command(b: Byte): Command
    requires 0xC0 <= b <= 0xC3
  {
    match b
      case 0xC0 => OpenPrintFile
      case 0xC1 => WritePrintFile
      case 0xC2 => ClosePrintFile
      case 0xC3 => GetPrintQueue
  }

  lemma Run5RoundTrip(c: Command)
    requires InRun5(c)
    ensures 0xC0 <= Run5Code(c) <= 0xC3 && Run5Command(Run5Code(c)) == c
  {
  }

  lemma Run5Sound(b: Byte)
    requires 0xC0 <= b <= 0xC3
    ensures InRun5(Run5Command(b)) && Run5Code(Run5Command(b)) == b
  {
  }

  // Run 6: ReadBulk..WriteBulkData, 0xD9..0xDA.

  predicate InRun6(c: Command)
  {
    c.ReadBulk? || c.WriteBulkData?
  }

  function Run6Code(c: Command): (r: Byte)
    requires InRun6(c)
    ensures 0xD9 <= r <= 0xDA
  {
    match c
      case ReadBulk => 0xD9
      case WriteBulkData => 0xDA
  }

  function Run6Command(b: Byte): Command
    requires 0xD9 <= b <= 0xDA
  {
    match b
      case 0xD9 => ReadBulk
      case 0xDA => WriteBulkData
  }

  lemma Run6RoundTrip(c: Command)
    requires InRun6(c)
    ensures 0xD9 <= Run6Code(c) <= 0xDA && Run6Command(Run6Code(c)) == c
  {
  }

  lemma Run6Sound(b: Byte)
    requires 0xD9 <= b <= 0xDA
    ensures InRun6(Run6Command(b)) && Run6Code(Run6Command(b)) == b
  {
  }

  /** The `#[repr(u8)]` discriminant of a variant, `c as u8`. */
  function Code(c: Command): (r: Byte)
    ensures Assigned(r)
  {
    if InRun0(c) then Run0Code(c)
    else if InRun1(c) then Run1Code(c)
    else if InRun2(c) then Run2Code(c)
    else if InRun3(c) then Run3Code(c)
    else if InRun4(c) then Run4Code(c)
    else if InRun5(c) then Run5Code(c)
    else Run6Code(c)
  }

  /** `SMBCommandCode::try_from(u8)`: the variant with that discriminant, `None` for an unassigned byte. */
  function FromCode(b: Byte): (r: Option<Command>)
    ensures r.Some? <==> Assigned(b)
  {
    if 0x00 <= b <= 0x14 then Some(Run0Command(b))
    else if 0x1A <= b <= 0x35 then Some(Run1Command(b))
    else if 0x70 <= b <= 0x75 then Some(Run2Command(b))
    else if 0x80 <= b <= 0x84 then Some(Run3Command(b))
    else if 0xA0 <= b <= 0xA4 then Some(Run4Command(b))
    else if 0xC0 <= b <= 0xC3 then Some(Run5Command(b))
    else if 0xD9 <= b <= 0xDA then Some(Run6Command(b))
    else None
  }

  /** The assigned codes: the seven runs. */
  predicate Assigned(b: Byte)
  {
    || b <= 0x14
    || 0x1A <= b <= 0x35
    || 0x70 <= b <= 0x75
    || 0x80 <= b <= 0x84
    || 0xA0 <= b <= 0xA4
    || 0xC0 <= b <= 0xC3
    || 0xD9 <= b <= 0xDA
  }

  lemma CodeInRun0(c: Command)
    requires InRun0(c)
    ensures Code(c) == Run0Code(c)
  {
  }

  lemma CodeInRun1(c: Command)
    requires InRun1(c)
    ensures Code(c) == Run1Code(c)
  {
  }

  lemma CodeInRun2(c: Command)
    requires InRun2(c)
    ensures Code(c) == Run2Code(c)
  {
  }

  lemma CodeInRun3(c: Command)
    requires InRun3(c)
    ensures Code(c) == Run3Code(c)
  {
  }

  lemma CodeInRun4(c: Command)
    requires InRun4(c)
    ensures Code(c) == Run4Code(c)
  {
  }

  lemma CodeInRun5(c: Command)
    requires InRun5(c)
    ensures Code(c) == Run5Code(c)
  {
  }

  lemma CodeInRun6(c: Command)
    requires InRun6(c)
    ensures Code(c) == Run6Code(c)
  {
  }

  /** Every variant's discriminant decodes back to that variant. */
  lemma CodeRoundTrip(c: Command)
    ensures FromCode(Code(c)) == Some(c)
  {
    if InRun0(c) {
      Run0RoundTrip(c);
      CodeInRun0(c);
    } else if InRun1(c) {
      Run1RoundTrip(c);
      CodeInRun1(c);
    } else if InRun2(c) {
      Run2RoundTrip(c);
      CodeInRun2(c);
    } else if InRun3(c) {
      Run3RoundTrip(c);
      CodeInRun3(c);
    } else if InRun4(c) {
      Run4RoundTrip(c);
      CodeInRun4(c);
    } else if InRun5(c) {
      Run5RoundTrip(c);
      CodeInRun5(c);
    } else {
      Run6RoundTrip(c);
      CodeInRun6(c);
    }
  }

  /** A byte that decodes is the discriminant of the variant it decodes to. */
  lemma FromCodeSound(b: Byte)
    ensures FromCode(b).Some? ==> Code(FromCode(b).value) == b
  {
    if 0x00 <= b <= 0x14 {
      Run0Sound(b);
      CodeInRun0(Run0Command(b));
    } else if 0x1A <= b <= 0x35 {
      Run1Sound(b);
      CodeInRun1(Run1Command(b));
    } else if 0x70 <= b <= 0x75 {
      Run2Sound(b);
      CodeInRun2(Run2Command(b));
    } else if 0x80 <= b <= 0x84 {
      Run3Sound(b);
      CodeInRun3(Run3Command(b));
    } else if 0xA0 <= b <= 0xA4 {
      Run4Sound(b);
      CodeInRun4(Run4Command(b));
    } else if 0xC0 <= b <= 0xC3 {
      Run5Sound(b);
      CodeInRun5(Run5Command(b));
    } else if 0xD9 <= b <= 0xDA {
      Run6Sound(b);
      CodeInRun6(Run6Command(b));
    }
  }

  /** Distinct variants have distinct discriminants. */
  lemma CodeInjective(c: Command, d: Command)
    ensures Code(c) == Code(d) ==> c == d
  {
    CodeRoundTrip(c);
    CodeRoundTrip(d);
  }

  /** The bytes in the gaps between the runs decode to nothing. */
  lemma GapsDecodeToNone(b: Byte)
    requires || 0x15 <= b <= 0x19 || 0x36 <= b <= 0x6F || 0x76 <= b <= 0x7F || 0x85 <= b <= 0x9F
             || 0xA5 <= b <= 0xBF || 0xC4 <= b <= 0xD8 || 0xDB <= b
    ensures FromCode(b).None?
  {
  }

  /** SMB_COM_NEGOTIATE sits at 0x72, the code an SMB1 client opens with. */
  lemma NegotiateCode()
    ensures Code(Negotiate) == 0x72 && FromCode(0x72) == Some(Negotiate)
  {
  }

  // parse
  // ---------------------------------------------------------------------

  /** The byte `'S' as u8`. */
  const S: Byte := 0x53

  /** The protocol tag `b"SMB"`. */
  const SMB_TAG: seq<Byte> := [0x53, 0x4D, 0x42]

  /** `data.iter().position(|x| *x == 'S' as u8)`: the index of the first `'S'`, if any. */
  function FirstS(data: seq<Byte>): (r: Option<nat>)
    ensures r.None? <==> forall i :: 0 <= i < |data| ==> data[i] != S
    ensures r.Some? ==> r.value < |data| && data[r.value] == S
                        && forall j :: 0 <= j < r.value ==> data[j] != S
  {
    if |data| == 0 then None
    else if data[0] == S then Some(0)
    else
      match FirstS(data[1..])
      case None => None
      case Some(p) => Some(p + 1)
  }

  /** `data[pos..].starts_with(b"SMB")`. */
  predicate SmbAt(data: seq<Byte>, pos: nat)
    requires pos <= |data|
  {
    |data| - pos >= 3 && data[pos..pos + 3] == SMB_TAG
  }

  /** `data[pos + 3]` exists whenever `parse` reaches it; otherwise the Rust code panics. */
  predicate ParseInBounds(data: seq<Byte>)
  {
    var p := FirstS(data);
    p.Some? && SmbAt(data, p.value) ==> p.value + 3 < |data|
  }

  /** `SMBCommandCode::parse`. */
  function ParseCommand(data: seq<Byte>): (r: Option<Command>)
    requires ParseInBounds(data)
    ensures r.Some? ==> FirstS(data).Some? && SmbAt(data, FirstS(data).value)
  {
    match FirstS(data)
    case Some(pos) =>
      if SmbAt(data, pos) then FromCode(data[pos + 3]) else None
    case None => None
  }

  /** Without an `'S'` byte there is nothing to parse. */
  lemma ParseWithoutS(data: seq<Byte>)
    requires forall i :: 0 <= i < |data| ==> data[i] != S
    ensures ParseInBounds(data) && ParseCommand(data).None?
  {
  }

  /**
   * Only the first `'S'` is examined: when the bytes from it are not "SMB",
   * the result is `None`, whatever follows.
   */
  lemma OnlyFirstSCounts(data: seq<Byte>, pos: nat)
    requires pos < |data| && data[pos] == S
    requires forall j :: 0 <= j < pos ==> data[j] != S
    requires !SmbAt(data, pos)
    ensures ParseInBounds(data) && ParseCommand(data).None?
  {
    FirstSIs(data, pos);
  }

  /** When the first `'S'` starts "SMB", the result is the decoded byte after the tag. */
  lemma ParseReadsCode(data: seq<Byte>, pos: nat)
    requires pos + 3 < |data| && data[pos..pos + 3] == SMB_TAG
    requires forall j :: 0 <= j < pos ==> data[j] != S
    ensures ParseInBounds(data) && ParseCommand(data) == FromCode(data[pos + 3])
  {
    assert data[pos] == data[pos..pos + 3][0] == S;
    FirstSIs(data, pos);
  }

  /** The first `'S'` is unique: any index before which no `'S'` occurs and which holds one is it. */
  lemma FirstSIs(data: seq<Byte>, pos: nat)
    requires pos < |data| && data[pos] == S
    requires forall j :: 0 <= j < pos ==> data[j] != S
    ensures FirstS(data) == Some(pos)
  {
  }

  /**
   * A header that starts with bytes other than `'S'`, then "SMB" and a code
   * byte, parses to that code's command, whatever comes after it.
   */
  lemma ParseTaggedHeader(prefix: seq<Byte>, code: Byte, rest: seq<Byte>)
    requires forall j :: 0 <= j < |prefix| ==> prefix[j] != S
    ensures var data := prefix + SMB_TAG + [code] + rest;
            ParseInBounds(data) && ParseCommand(data) == FromCode(code)
  {
    var data := prefix + SMB_TAG + [code] + rest;
    var p := |prefix|;
    assert data[p..p + 3] == SMB_TAG;
    assert data[p + 3] == code;
    assert forall j :: 0 <= j < p ==> data[j] == prefix[j];
    ParseReadsCode(data, p);
  }

  /** An SMB1 NEGOTIATE header (0xFF, "SMB", 0x72) is recognised as `Negotiate`. */
  lemma ParseSmb1Negotiate(rest: seq<Byte>)
    ensures var data := [0xFF] + SMB_TAG + [0x72] + rest;
            ParseInBounds(data) && ParseCommand(data) == Some(Negotiate)
  {
    ParseTaggedHeader([0xFF], 0x72, rest);
  }

  /** A stray `'S'` before the tag hides it: "S", 0, "SMB", 0x72 gives `None`. */
  lemma StraySHidesTag()
    ensures var data: seq<Byte> := [0x53, 0x00, 0x53, 0x4D, 0x42, 0x72];
            ParseInBounds(data) && ParseCommand(data).None?
  {
    var data: seq<Byte> := [0x53, 0x00, 0x53, 0x4D, 0x42, 0x72];
    assert data[0..3] != SMB_TAG by { assert data[0..3][1] == 0x00; }
    OnlyFirstSCounts(data, 0);
  }
}
