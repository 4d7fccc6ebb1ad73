/**
 * The value types the negotiate bodies are built from. Their definitions
 * (`SecurityMode`, `Capabilities`, `FileTime`, `Uuid`) live outside the
 * modelled files; each is modelled by its wire value.
 *
 * The flag sets are 8-bit `bitflags` types: `from_bits_truncate` keeps the
 * defined bits and drops the rest, `bits()` gives the kept value back. The
 * defined bits are taken from MS-SMB2 section 2.2.3: signing enabled (0x01)
 * and signing required (0x02) for the security mode, and the seven
 * capability bits 0x01 through 0x40.
 */
module BodyTypes {
  import opened Bytes

  /** Bit 1 of a flag byte (0x02). */
  function Bit1(x: Byte): nat
  {
    (x / 2) % 2
  }

  /**
   * `SecurityMode::from_bits_truncate(raw).bits()`: the defined bits 0x03
   * are the two low bits.
   */
  function SecurityModeFromBits(raw: Byte): (m: Byte)
    ensures m < 4 && (raw - m) % 4 == 0
  {
    raw % 4
  }

  /**
   * `Capabilities::from_bits_truncate(raw).bits()`: the defined bits 0x7F
   * are the seven low bits.
   */
  function CapabilitiesFromBits(raw: Byte): (c: Byte)
    ensures c < 0x80 && (raw - c) % 0x80 == 0
  {
    raw % 0x80
  }

  /**
   * `mode | SecurityMode::NEGOTIATE_SIGNING_REQUIRED`: bit 1 is set and every
   * other bit is left as it was.
   */
  function WithSigningRequired(mode: Byte): (m: Byte)
    ensures Bit1(m) == 1
    ensures m == mode + 2 * (1 - Bit1(mode))
  {
    if Bit1(mode) == 1 then mode else mode + 2
  }

  /** A 128-bit identifier in its 16-byte wire form (`Uuid::as_bytes`). */
  type Guid = s: seq<Byte> | |s| == 16 witness seq(16, _ => 0)

  /**
   * A FILETIME: a count of 100-nanosecond intervals since 1601-01-01,
   * written as 8 little-endian bytes.
   */
  datatype FileTime = FileTime(ticks: U64)

  /** Seconds between 1601-01-01 and 1970-01-01. */
  const UNIX_EPOCH_SECONDS: nat := 11_644_473_600

  /** `FileTime::from_unix(seconds)`. */
  function FileTimeFromUnix(seconds: nat): (t: FileTime)
    requires (seconds + UNIX_EPOCH_SECONDS) * 10_000_000 < 0x1_0000_0000_0000_0000
    ensures t.ticks % 10_000_000 == 0 && t.ticks / 10_000_000 - UNIX_EPOCH_SECONDS == seconds
  {
    FileTime((seconds + UNIX_EPOCH_SECONDS) * 10_000_000)
  }

  /** The Unix epoch, as `from_unix(0)` gives it, is FILETIME 116444736000000000. */
  lemma UnixEpochFileTime()
    ensures FileTimeFromUnix(0).ticks == 116_444_736_000_000_000
  {
  }

  /** `FileTime::as_bytes`. */
  function FileTimeBytes(t: FileTime): (r: seq<Byte>)
    ensures |r| == 8
  {
    LE64(t.ticks)
  }
}
