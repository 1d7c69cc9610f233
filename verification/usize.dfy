/**
 * The size field of an object header: Rust's `str::parse::<usize>` on a
 * 64-bit target, and the canonical decimal text that writers put there.
 */
module Usize {
  import opened Bytes
  import opened Wrappers

  /** The largest `usize` on a 64-bit target. */
  const USIZE_MAX: nat := 0xFFFF_FFFF_FFFF_FFFF

  predicate AllDigits(s: seq<byte>) { forall i :: 0 <= i < |s| ==> IsDigit(s[i]) }

  /** The value of a run of decimal digits, most significant digit first. */
  function DigitsValue(s: seq<byte>): nat
    requires AllDigits(s)
    decreases |s|
  {
    if |s| == 0 then 0 else 10 * DigitsValue(s[..|s| - 1]) + (s[|s| - 1] as int - 0x30)
  }

  /**
   * `usize::from_str`: an optional leading '+', then one or more ASCII digits
   * whose value fits in a `usize`. No sign other than '+', no whitespace, no
   * empty text; leading zeros are allowed.
   */
  function ParseUsize(t: seq<byte>): (r: Option<nat>)
    ensures r.Some? ==> r.value <= USIZE_MAX
    ensures r.Some? ==> 0 < |t| && forall i :: 0 <= i < |t| ==> IsDigit(t[i]) || (i == 0 && t[i] == PLUS)
  {
    var digits := if 0 < |t| && t[0] == PLUS then t[1..] else t;
    if |digits| == 0 || !AllDigits(digits) then None
    else if DigitsValue(digits) <= USIZE_MAX then Some(DigitsValue(digits))
    else None
  }

  /** The canonical decimal text of `n`: no sign, no leading zero. */
  function Decimal(n: nat): (r: seq<byte>)
    ensures 0 < |r| && AllDigits(r)
    ensures 1 < |r| ==> r[0] != ZERO
    decreases n
  {
    if n < 10 then [(0x30 + n) as byte] else Decimal(n / 10) + [(0x30 + n % 10) as byte]
  }

  lemma {:induction false} DecimalValue(n: nat)
    ensures DigitsValue(Decimal(n)) == n
    decreases n
  {
    if n >= 10 {
      var d := Decimal(n);
      assert d[..|d| - 1] == Decimal(n / 10);
      DecimalValue(n / 10);
    }
  }

  /** Parsing gives back every `usize` from its canonical text. */
  lemma ParseDecimal(n: nat)
    requires n <= USIZE_MAX
    ensures ParseUsize(Decimal(n)) == Some(n)
  {
    DecimalValue(n);
  }

  lemma {:induction false} ZerosValue(z: seq<byte>)
    requires forall i :: 0 <= i < |z| ==> z[i] == ZERO
    ensures AllDigits(z) && DigitsValue(z) == 0
    decreases |z|
  {
    if |z| > 0 {
      ZerosValue(z[..|z| - 1]);
    }
  }

  /** Zeros in front of a run of digits do not change its value. */
  lemma {:induction false} LeadingZerosValue(z: seq<byte>, d: seq<byte>)
    requires forall i :: 0 <= i < |z| ==> z[i] == ZERO
    requires AllDigits(d)
    ensures AllDigits(z + d) && DigitsValue(z + d) == DigitsValue(d)
    decreases |d|
  {
    if |d| == 0 {
      assert z + d == z;
      ZerosValue(z);
    } else {
      assert (z + d)[..|z + d| - 1] == z + d[..|d| - 1];
      LeadingZerosValue(z, d[..|d| - 1]);
    }
  }

  /** A run of digits of `usize` range parses, with or without a '+' in front. */
  lemma ParseDigits(d: seq<byte>)
    requires 0 < |d| && AllDigits(d) && DigitsValue(d) <= USIZE_MAX
    ensures ParseUsize(d) == Some(DigitsValue(d))
    ensures ParseUsize([PLUS] + d) == Some(DigitsValue(d))
  {
    assert d[0] != PLUS;
    assert ([PLUS] + d)[1..] == d;
  }

  /** `ParseDigits` for a text that starts with a sign part, empty or '+'. */
  lemma ParseSigned(sign: seq<byte>, d: seq<byte>)
    requires sign == [] || sign == [PLUS]
    requires 0 < |d| && AllDigits(d) && DigitsValue(d) <= USIZE_MAX
    ensures ParseUsize(sign + d) == Some(DigitsValue(d))
  {
    ParseDigits(d);
    if sign == [] {
      assert sign + d == d;
    }
  }

  /**
   * `t` spells the size `v`: an optional '+', then a non-empty run of digits
   * whose value is `v`, and `v` fits in a `usize`.
   */
  ghost predicate Denotes(t: seq<byte>, v: nat)
  {
    exists sign, d :: (sign == [] || sign == [PLUS]) && t == sign + d
      && 0 < |d| && AllDigits(d) && DigitsValue(d) == v && v <= USIZE_MAX
  }

  /** A text that parses is an optional '+' and digits whose value is the result. */
  lemma ParseSound(t: seq<byte>) returns (sign: seq<byte>, d: seq<byte>)
    requires ParseUsize(t).Some?
    ensures sign == [] || sign == [PLUS]
    ensures t == sign + d && 0 < |d| && AllDigits(d) && DigitsValue(d) == ParseUsize(t).value
  {
    if 0 < |t| && t[0] == PLUS {
      sign, d := [PLUS], t[1..];
    } else {
      sign, d := [], t;
    }
  }

  /**
   * `parse::<usize>` in both directions: it yields `v` exactly when the text
   * is an optional '+' and digits of value `v`, and `v` fits in a `usize`.
   */
  lemma ParseUsizeIff(t: seq<byte>, v: nat)
    ensures ParseUsize(t) == Some(v) <==> Denotes(t, v)
  {
    if ParseUsize(t) == Some(v) {
      var sign, d := ParseSound(t);
      assert (sign == [] || sign == [PLUS]) && t == sign + d
        && 0 < |d| && AllDigits(d) && DigitsValue(d) == v && v <= USIZE_MAX;
    }
    if Denotes(t, v) {
      var sign, d :| (sign == [] || sign == [PLUS]) && t == sign + d
        && 0 < |d| && AllDigits(d) && DigitsValue(d) == v && v <= USIZE_MAX;
      ParseSigned(sign, d);
    }
  }

  /** A lone '+' is not a size: there must be at least one digit. */
  lemma PlusAloneRejected()
    ensures ParseUsize([PLUS]) == None
  {
    assert [PLUS][1..] == [];
  }

  /** Digits whose value exceeds 2^64-1 are rejected, with or without a '+' in front. */
  lemma OverflowRejected(sign: seq<byte>, d: seq<byte>)
    requires sign == [] || sign == [PLUS]
    requires 0 < |d| && AllDigits(d) && DigitsValue(d) > USIZE_MAX
    ensures ParseUsize(sign + d) == None
  {
    assert d[0] != PLUS;
    if sign == [] {
      assert sign + d == d;
    } else {
      assert (sign + d)[1..] == d;
    }
  }

  /**
   * The parser accepts more than the canonical text: any number of leading
   * zeros, optionally after a '+', still denote the same size.
   */
  lemma ParseAcceptsPlusAndZeros(sign: seq<byte>, z: seq<byte>, n: nat)
    requires sign == [] || sign == [PLUS]
    requires forall i :: 0 <= i < |z| ==> z[i] == ZERO
    requires n <= USIZE_MAX
    ensures ParseUsize(sign + z + Decimal(n)) == Some(n)
  {
    var d := Decimal(n);
    DecimalValue(n);
    LeadingZerosValue(z, d);
    assert sign + z + d == sign + (z + d);
    ParseSigned(sign, z + d);
  }
}
