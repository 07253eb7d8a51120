/**
 * Bytes and the decimal numerals used on the RESP wire: the byte type, the
 * line terminator, the base-10 formatting of lengths (Go's strconv.Itoa on a
 * non-negative int) and the base-10 parser (Go's strconv.Atoi over unbounded
 * integers).
 */
module Wire {

  newtype byte = b: int | 0 <= b < 256
  type Bytes = seq<byte>

  datatype Option<T> = None | Some(value: T)

  const CR: byte := 13
  const LF: byte := 10
  const CRLF: Bytes := [CR, LF]
  const PLUS_SIGN: byte := 43   // '+'
  const MINUS_SIGN: byte := 45  // '-'

  predicate IsDigit(b: byte) {
    48 <= b <= 57
  }

  predicate AllDigits(t: Bytes) {
    forall k :: 0 <= k < |t| ==> IsDigit(t[k])
  }

  function DigitByte(d: nat): (b: byte)
    requires d < 10
    ensures IsDigit(b)
  {
    (48 + d) as byte
  }

  /** Value of a run of decimal digits, most significant first. */
  function DigitsValue(t: Bytes): nat
    requires AllDigits(t)
  {
    if |t| == 0 then 0
    else DigitsValue(t[..|t| - 1]) * 10 + (t[|t| - 1] as int - 48)
  }

  /** Decimal numeral of a non-negative integer, without leading zeros. */
  function Decimal(n: nat): Bytes {
    if n < 10 then [DigitByte(n)]
    else Decimal(n / 10) + [DigitByte(n % 10)]
  }

  /** The numeral is a non-empty run of digits. */
  lemma {:induction false} DecimalDigits(n: nat)
    ensures |Decimal(n)| >= 1 && AllDigits(Decimal(n))
  {
    if n >= 10 {
      DecimalDigits(n / 10);
    }
  }

  /** Go's strconv.Atoi: an optional sign followed by at least one digit. */
  function ParseInt(t: Bytes): Option<int> {
    if |t| == 0 then None
    else if t[0] == PLUS_SIGN || t[0] == MINUS_SIGN then
      var digits := t[1..];
      if |digits| == 0 || !AllDigits(digits) then None
      else Some(if t[0] == MINUS_SIGN then -(DigitsValue(digits) as int) else DigitsValue(digits))
    else if !AllDigits(t) then None
    else Some(DigitsValue(t))
  }

  /** Decimal and DigitsValue are inverse: the numeral written for n reads back as n. */
  lemma {:induction false} DigitsValueDecimal(n: nat)
    ensures AllDigits(Decimal(n)) && DigitsValue(Decimal(n)) == n
  {
    DecimalDigits(n);
    if n >= 10 {
      var d := Decimal(n / 10);
      var r := d + [DigitByte(n % 10)];
      assert r[..|r| - 1] == d;
      DigitsValueDecimal(n / 10);
    }
  }

  /** strconv.Atoi(strconv.Itoa(n)) == n, and a leading minus sign negates. */
  lemma ParseIntDecimal(n: nat)
    ensures AllDigits(Decimal(n))
    ensures ParseInt(Decimal(n)) == Some(n)
    ensures ParseInt([MINUS_SIGN] + Decimal(n)) == Some(-(n as int))
  {
    DigitsValueDecimal(n);
    var d := Decimal(n);
    assert ([MINUS_SIGN] + d)[1..] == d;
  }

  /**
   * The index just past the first LF at or after position i, if any: reading
   * "the line up to and including LF".
   */
  function LineEnd(s: Bytes, i: nat): (r: Option<nat>)
    requires i <= |s|
    ensures r.Some? ==> i < r.value <= |s| && s[r.value - 1] == LF && LF !in s[i..r.value - 1]
    ensures r.None? ==> LF !in s[i..]
    decreases |s| - i
  {
    if i == |s| then None
    else if s[i] == LF then Some(i + 1)
    else
      var r := LineEnd(s, i + 1);
      assert s[i..] == [s[i]] + s[i + 1..];
      if r.Some? then
        assert s[i..r.value - 1] == [s[i]] + s[i + 1..r.value - 1];
        r
      else r
  }
}
