/** Text handling that the command processors rely on: the scan for a name's
    zero terminator, the conversion of 7-bit payload bytes to text, and the
    standard library's base-16 parse of an `i64` and its decimal rendering. */
module Text {
  import opened Midi

  /** `String::from_utf8_lossy` on 7-bit bytes: every byte is ASCII, hence
      valid UTF-8, and becomes the character with the same code. */
  function AsText(s: seq<U7>): (t: string)
    ensures |t| == |s|
    ensures forall i :: 0 <= i < |s| ==> t[i] as int == s[i] as int
  {
    seq(|s|, i requires 0 <= i < |s| => (s[i] as int) as char)
  }

  /** The index of the first zero byte among data[from..limit], or `limit`
      when there is none. */
  function FirstZero(data: seq<bv8>, from: nat, limit: nat): (end: nat)
    requires limit <= |data|
    ensures end <= limit
    ensures end == limit || (from <= end && data[end] == 0)
    ensures forall i :: from <= i < end ==> data[i] != 0
    decreases limit - from
  {
    if from >= limit then limit
    else if data[from] == 0 then from
    else FirstZero(data, from + 1, limit)
  }

  /** The name scan of both command processors: starting at `from`, look for
      the first zero byte before `limit`; without one the name ends at `limit`. */
  method FindTerminator(data: seq<bv8>, from: nat, limit: nat) returns (end: nat)
    requires limit <= |data|
    ensures end == FirstZero(data, from, limit)
  {
    end := limit;
    var i := from;
    while i < limit
      invariant from <= i && (i <= limit || i == from)
      invariant forall k :: from <= k < i ==> data[k] != 0
    {
      if data[i] == 0 {
        end := i;
        break;
      }
      i := i + 1;
    }
  }

  /** `char::to_digit(16)`: the value of a hexadecimal digit of either case. */
  function HexDigit(c: char): Option<nat>
  {
    if '0' <= c <= '9' then Some(c as int - '0' as int)
    else if 'a' <= c <= 'f' then Some(c as int - 'a' as int + 10)
    else if 'A' <= c <= 'F' then Some(c as int - 'A' as int + 10)
    else None
  }

  predicate AllHexDigits(s: string)
  {
    forall i :: 0 <= i < |s| ==> HexDigit(s[i]).Some?
  }

  /** The number a non-empty run of hexadecimal digits denotes, most
      significant digit first. */
  function HexValue(s: string): (v: nat)
    requires AllHexDigits(s)
    ensures |s| == 1 ==> v == HexDigit(s[0]).value
  {
    if s == [] then 0 else HexValue(s[..|s| - 1]) * 16 + HexDigit(s[|s| - 1]).value
  }

  const I64Min: int := -0x8000_0000_0000_0000
  const I64Max: int := 0x7FFF_FFFF_FFFF_FFFF

  /** `i64::from_str_radix(s, 16)`: an optional sign, then at least one
      hexadecimal digit, and a value within the range of an `i64`. The
      standard library checks each multiply-add for overflow; since the
      partial values only grow in magnitude, that is the same as checking
      the final value. */
  function ParseHexI64(s: string): (r: Option<int>)
    ensures r.Some? ==> I64Min <= r.value <= I64Max
    ensures s == "" || s == "+" || s == "-" ==> r == None
    ensures r.Some? && r.value < 0 ==> s[0] == '-'
  {
    if s == [] then None
    else
      var signed := s[0] == '+' || s[0] == '-';
      var digits := if signed then s[1..] else s;
      if digits == [] || !AllHexDigits(digits) then None
      else
        var magnitude: int := HexValue(digits);
        var v := if s[0] == '-' then -magnitude else magnitude;
        if I64Min <= v <= I64Max then Some(v) else None
  }

  function DigitChar(d: nat): (c: char)
    requires d < 16
    ensures HexDigit(c) == Some(d)
  {
    if d < 10 then ('0' as int + d) as char else ('a' as int + d - 10) as char
  }

  /** `format!("{:x}", n)` for a non-negative number: lower-case hexadecimal
      digits without a prefix, the form the host sends configuration values in. */
  function LowerHex(n: nat): (s: string)
    ensures |s| >= 1 && AllHexDigits(s)
  {
    if n < 16 then [DigitChar(n)] else LowerHex(n / 16) + [DigitChar(n % 16)]
  }

  lemma {:induction false} HexValueOfLowerHex(n: nat)
    ensures HexValue(LowerHex(n)) == n
  {
    if n >= 16 {
      var s := LowerHex(n);
      assert s[..|s| - 1] == LowerHex(n / 16);
      HexValueOfLowerHex(n / 16);
    }
  }

  /** A configuration value the host formats is read back unchanged. */
  lemma ParseHexOfLowerHex(n: nat)
    requires n <= I64Max
    ensures ParseHexI64(LowerHex(n)) == Some(n)
  {
    var s := LowerHex(n);
    assert HexDigit(s[0]).Some?;
    assert s[0] != '+' && s[0] != '-';
    HexValueOfLowerHex(n);
  }

  /** Decimal digits of a natural number, most significant first. */
  function DecimalDigits(n: nat): (s: string)
    ensures |s| >= 1
    ensures forall i :: 0 <= i < |s| ==> '0' <= s[i] <= '9'
  {
    if n < 10 then [('0' as int + n) as char]
    else DecimalDigits(n / 10) + [('0' as int + n % 10) as char]
  }

  /** The number a run of decimal digits denotes. */
  function DecimalValue(s: string): nat
    requires forall i :: 0 <= i < |s| ==> '0' <= s[i] <= '9'
  {
    if s == [] then 0 else DecimalValue(s[..|s| - 1]) * 10 + (s[|s| - 1] as int - '0' as int)
  }

  lemma {:induction false} DecimalValueOfDigits(n: nat)
    ensures DecimalValue(DecimalDigits(n)) == n
  {
    if n >= 10 {
      var s := DecimalDigits(n);
      assert s[..|s| - 1] == DecimalDigits(n / 10);
      DecimalValueOfDigits(n / 10);
    }
  }

  /** `i64::to_string`: a minus sign for negative numbers, then the decimal
      digits of the magnitude. */
  function DecimalString(n: int): (s: string)
    ensures |s| >= 1
    ensures (s[0] == '-') <==> n < 0
  {
    if n < 0 then "-" + DecimalDigits(-n) else DecimalDigits(n)
  }

  /** The decimal rendering of a non-negative number is its digits, which
      denote it. */
  lemma DecimalStringOfNatural(n: nat)
    ensures DecimalString(n) == DecimalDigits(n)
    ensures DecimalValue(DecimalString(n)) == n
  {
    DecimalValueOfDigits(n);
  }

  /** The rendering of a negative number is a minus sign followed by digits
      denoting its magnitude. */
  lemma DecimalStringOfNegative(n: int)
    requires n < 0
    ensures DecimalString(n)[0] == '-'
    ensures DecimalString(n)[1..] == DecimalDigits(-n)
    ensures DecimalValue(DecimalDigits(-n)) == -n
  {
    assert DecimalString(n) == "-" + DecimalDigits(-n);
    DecimalValueOfDigits(-n);
  }
}
