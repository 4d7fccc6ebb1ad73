/**
 * The dialect registry of the current codec: the closed `SMBDialect` enum,
 * its wire codes (`as u16`), the partial decoder derived by
 * `TryFromPrimitive`, and the order derived by `Ord`, which follows the wire
 * codes (the discriminants), not the order of declaration.
 */
module CommonTypes {
  import opened Wrappers
  import opened Bytes

  datatype Dialect = V2_0_2 | V2_1_0 | V3_0_0 | V3_0_2 | V3_1_1 | V2_X_X

  /** `dialect as u16`. */
  function Code(d: Dialect): (r: U16)
    ensures r / 0x100 == 2 || r / 0x100 == 3
  {
    match d
    case V2_0_2 => 0x202
    case V2_1_0 => 0x210
    case V3_0_0 => 0x300
    case V3_0_2 => 0x302
    case V3_1_1 => 0x311
    case V2_X_X => 0x2FF
  }

  /** `SMBDialect::try_from(code)`, with `Err` as `None`. */
  function DialectFromCode(code: U16): (r: Option<Dialect>)
    ensures r.Some? ==> Code(r.value) == code
  {
    if code == 0x202 then Some(V2_0_2)
    else if code == 0x210 then Some(V2_1_0)
    else if code == 0x300 then Some(V3_0_0)
    else if code == 0x302 then Some(V3_0_2)
    else if code == 0x311 then Some(V3_1_1)
    else if code == 0x2FF then Some(V2_X_X)
    else None
  }

  /** The derived `<=`: comparison of the discriminants. */
  predicate DialectLe(a: Dialect, b: Dialect)
  {
    Code(a) <= Code(b)
  }

  /** The derived `<`. */
  predicate DialectLt(a: Dialect, b: Dialect)
  {
    Code(a) < Code(b)
  }

  /** Decoding succeeds for exactly the six registered codes. */
  lemma DecodesExactlyRegistered(code: U16)
    ensures DialectFromCode(code).Some? <==>
            code == 0x202 || code == 0x210 || code == 0x300 ||
            code == 0x302 || code == 0x311 || code == 0x2FF
  {
  }

  /** Each variant's code decodes back to that variant. */
  lemma EncodeThenDecode(d: Dialect)
    ensures DialectFromCode(Code(d)) == Some(d)
  {
  }

  /** A decoded code is the code of the variant it decodes to. */
  lemma DecodeThenEncode(code: U16)
    requires DialectFromCode(code).Some?
    ensures Code(DialectFromCode(code).value) == code
  {
  }

  /** Distinct variants have distinct codes. */
  lemma CodeInjective(a: Dialect, b: Dialect)
    ensures Code(a) == Code(b) ==> a == b
  {
  }

  /** The derived order, variant by variant: 2.0.2 < 2.1.0 < 2.x.x < 3.0.0 < 3.0.2 < 3.1.1. */
  lemma OrderByWireCode()
    ensures DialectLt(V2_0_2, V2_1_0) && DialectLt(V2_1_0, V2_X_X) && DialectLt(V2_X_X, V3_0_0)
    ensures DialectLt(V3_0_0, V3_0_2) && DialectLt(V3_0_2, V3_1_1)
  {
  }

  /** `<=` is a total order consistent with equality, and `<` is its strict part. */
  lemma OrderIsTotal(a: Dialect, b: Dialect, c: Dialect)
    ensures DialectLe(a, a)
    ensures DialectLe(a, b) && DialectLe(b, a) ==> a == b
    ensures DialectLe(a, b) && DialectLe(b, c) ==> DialectLe(a, c)
    ensures DialectLe(a, b) || DialectLe(b, a)
    ensures DialectLt(a, b) <==> DialectLe(a, b) && a != b
  {
    CodeInjective(a, b);
  }

  /** 3.1.1 is the greatest variant. */
  lemma V311IsGreatest(d: Dialect)
    ensures DialectLe(d, V3_1_1)
  {
  }

  /** The greatest dialect of a non-empty list, as the derived order sees it. */
  function MaxDialect(s: seq<Dialect>): (m: Dialect)
    requires |s| > 0
    ensures m in s
    ensures forall i :: 0 <= i < |s| ==> DialectLe(s[i], m)
  {
    if |s| == 1 then s[0]
    else
      var rest := MaxDialect(s[1..]);
      if DialectLe(s[0], rest) then rest else s[0]
  }

  /** The maximum is the only element above every element of the list. */
  lemma MaxDialectUnique(s: seq<Dialect>, m: Dialect)
    requires m in s
    requires forall i :: 0 <= i < |s| ==> DialectLe(s[i], m)
    ensures MaxDialect(s) == m
  {
    var k :| 0 <= k < |s| && s[k] == MaxDialect(s);
    assert DialectLe(MaxDialect(s), m);
    var j :| 0 <= j < |s| && s[j] == m;
    assert DialectLe(m, MaxDialect(s));
    CodeInjective(m, MaxDialect(s));
  }

  /** A list that offers 3.1.1 has 3.1.1 as its maximum. */
  lemma MaxWithV311(s: seq<Dialect>)
    requires V3_1_1 in s
    ensures MaxDialect(s) == V3_1_1
  {
    forall i | 0 <= i < |s| ensures DialectLe(s[i], V3_1_1) {
      V311IsGreatest(s[i]);
    }
    MaxDialectUnique(s, V3_1_1);
  }

  /** The maximum depends only on which dialects are offered, not on their order. */
  lemma MaxDialectOrderFree(s: seq<Dialect>, t: seq<Dialect>)
    requires |s| > 0 && multiset(s) == multiset(t)
    ensures |t| > 0 && MaxDialect(s) == MaxDialect(t)
  {
    assert |t| == |multiset(t)| == |multiset(s)| == |s|;
    var m := MaxDialect(s);
    assert m in multiset(t);
    forall i | 0 <= i < |t| ensures DialectLe(t[i], m) {
      assert t[i] in multiset(s);
      var j :| 0 <= j < |s| && s[j] == t[i];
    }
    MaxDialectUnique(t, m);
  }
}
