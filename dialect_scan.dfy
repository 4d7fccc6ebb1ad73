/**
 * The dialect loop shared by both negotiate request parsers: starting at a
 * byte index, read 2-byte codes one after another, keep the ones the
 * dialect enum recognises, skip the others, and stop once `need`
 * recognised dialects have been kept. The loop never looks at the buffer
 * end, so a buffer that runs out first makes the Rust code panic; that is
 * `None` here.
 */
module DialectScan {
  import opened Wrappers
  import opened Bytes

  datatype Scan<D> = Scan(dialects: seq<D>, next: nat)

  /**
   * The result of the dialect loop with `dialects` collected so far and
   * the cursor at `idx`, run until `count` dialects are collected.
   */
  function ScanDialects<D>(bytes: seq<Byte>, count: nat, dialects: seq<D>, idx: nat,
                           decode: U16 -> Option<D>): (r: Option<Scan<D>>)
    decreases |bytes| - idx
    ensures r.Some? && |dialects| <= count ==> |r.value.dialects| == count
    ensures r.Some? ==> idx <= r.value.next
    ensures r.Some? && idx <= |bytes| ==> r.value.next <= |bytes|
  {
    if |dialects| >= count then Some(Scan(dialects, idx))
    else if |bytes| < idx + 2 then None
    else
      var d := decode(ReadU16(bytes, idx));
      ScanDialects(bytes, count, if d.Some? then dialects + [d.value] else dialects, idx + 2, decode)
  }

  /** The `k` codes that start at `idx`, in wire order. */
  function CodesAt(bytes: seq<Byte>, idx: nat, k: nat): (r: seq<U16>)
    requires idx + 2 * k <= |bytes|
    ensures |r| == k
    decreases k
  {
    if k == 0 then [] else [ReadU16(bytes, idx)] + CodesAt(bytes, idx + 2, k - 1)
  }

  /** The codes that decode, decoded, in the order they came. */
  function Recognised<D>(codes: seq<U16>, decode: U16 -> Option<D>): seq<D>
  {
    if |codes| == 0 then []
    else
      var d := decode(codes[0]);
      (if d.Some? then [d.value] else []) + Recognised(codes[1..], decode)
  }

  /** The codes from `idx` on are the code at `idx`, then the codes from `idx + 2`; so are their recognised dialects. */
  lemma RecognisedStep<D>(bytes: seq<Byte>, idx: nat, k: nat, decode: U16 -> Option<D>)
    requires k > 0 && idx + 2 * k <= |bytes|
    ensures var d := decode(ReadU16(bytes, idx));
            Recognised(CodesAt(bytes, idx, k), decode) ==
            (if d.Some? then [d.value] else []) + Recognised(CodesAt(bytes, idx + 2, k - 1), decode)
  {
    assert CodesAt(bytes, idx, k)[1..] == CodesAt(bytes, idx + 2, k - 1);
  }

  /**
   * What the loop consumed: an even number of bytes, all inside the buffer;
   * what it kept: exactly the recognised codes among them, in wire order,
   * after the ones collected before; and when it stopped: right after a
   * code that counted, or where it started when no dialect was needed.
   */
  lemma {:induction false} ScanReadsCodes<D>(bytes: seq<Byte>, count: nat, acc: seq<D>, idx: nat,
                                             decode: U16 -> Option<D>)
    requires idx <= |bytes|
    requires ScanDialects(bytes, count, acc, idx, decode).Some?
    ensures var s := ScanDialects(bytes, count, acc, idx, decode).value;
            && s.next <= |bytes| && (s.next - idx) % 2 == 0
            && s.dialects == acc + Recognised(CodesAt(bytes, idx, (s.next - idx) / 2), decode)
            && (|acc| < count ==> s.next >= idx + 2 && decode(ReadU16(bytes, s.next - 2)).Some?)
            && (|acc| >= count ==> s.next == idx)
    decreases |bytes| - idx
  {
    if |acc| < count {
      var d := decode(ReadU16(bytes, idx));
      var taken := if d.Some? then [d.value] else [];
      var acc' := if d.Some? then acc + [d.value] else acc;
      assert acc' == acc + taken;
      assert ScanDialects(bytes, count, acc, idx, decode) == ScanDialects(bytes, count, acc', idx + 2, decode);
      ScanReadsCodes(bytes, count, acc', idx + 2, decode);
      var s := ScanDialects(bytes, count, acc, idx, decode).value;
      var k := (s.next - idx) / 2;
      RecognisedStep(bytes, idx, k, decode);
      AppendAssoc(acc, taken, Recognised(CodesAt(bytes, idx + 2, k - 1), decode));
    } else {
      assert acc + Recognised(CodesAt(bytes, idx, 0), decode) == acc;
    }
  }

  /**
   * The `while dialects.len() < dialect_count` loop itself: it advances the
   * cursor by 2 per code and pushes the codes that decode.
   */
  method ReadDialects<D>(bytes: seq<Byte>, idx: nat, count: nat, decode: U16 -> Option<D>)
    returns (dialects: seq<D>, next: nat)
    requires idx <= |bytes|
    requires ScanDialects(bytes, count, [], idx, decode).Some?
    ensures ScanDialects(bytes, count, [], idx, decode) == Some(Scan(dialects, next))
  {
    dialects, next := [], idx;
    while |dialects| < count
      invariant idx <= next <= |bytes|
      invariant ScanDialects(bytes, count, dialects, next, decode) == ScanDialects(bytes, count, [], idx, decode)
      decreases |bytes| - next
    {
      var dialect := decode(ReadU16(bytes, next));
      if dialect.Some? {
        dialects := dialects + [dialect.value];
      }
      next := next + 2;
    }
  }
}
