/** Java int arithmetic the probes rely on: Integer.parseInt and the decimal
    rendering used by string concatenation. */
module JavaInt {
  import opened Results

  const MinInt: int := -0x8000_0000
  const MaxInt: int := 0x7fff_ffff

  predicate IsInt32(n: int) {
    MinInt <= n <= MaxInt
  }

  /** A Java `int`. */
  type Int32 = n: int | MinInt <= n <= MaxInt

  /** Decimal digits, restricted to ASCII '0'..'9'. */
  predicate IsDigit(c: char) {
    '0' <= c <= '9'
  }

  predicate IsDigits(s: string) {
    forall k :: 0 <= k < |s| ==> IsDigit(s[k])
  }

  function DigitValue(c: char): (d: nat)
    requires IsDigit(c)
    ensures d < 10
  {
    c as int - '0' as int
  }

  function DigitChar(d: nat): (c: char)
    requires d < 10
    ensures IsDigit(c) && DigitValue(c) == d
  {
    ('0' as int + d) as char
  }

  /** The value of a run of decimal digits, most significant first. */
  function DigitsValue(s: string): nat
    requires IsDigits(s)
    decreases |s|
  {
    if |s| == 0 then 0 else DigitsValue(s[..|s| - 1]) * 10 + DigitValue(s[|s| - 1])
  }

  /** The value a sign and a magnitude name. */
  function Signed(negative: bool, magnitude: nat): int
  {
    if negative then 0 - magnitude else magnitude
  }

  /** Integer.parseInt(s) in radix 10: an optional '+' or '-', then at least
      one digit, and a value inside the int range. None is the
      NumberFormatException. */
  function ParseInt(s: string): (r: Option<int>)
    ensures |s| == 0 ==> r.None?
    ensures r.Some? ==> IsInt32(r.value)
    ensures r.Some? ==> |s| > 0 && IsDigits(s[1..]) && (IsDigit(s[0]) || s[0] == '+' || s[0] == '-')
    ensures r.Some? && r.value < 0 ==> s[0] == '-'
    ensures var d := if |s| > 0 && (s[0] == '+' || s[0] == '-') then s[1..] else s;
      r.Some? <==> |d| > 0 && IsDigits(d) && IsInt32(Signed(s[0] == '-', DigitsValue(d)))
    ensures r.Some? ==>
      var d := if s[0] == '+' || s[0] == '-' then s[1..] else s;
      IsDigits(d) && r.value == Signed(s[0] == '-', DigitsValue(d))
  {
    if |s| == 0 then None
    else
      var digits := if s[0] == '-' || s[0] == '+' then s[1..] else s;
      if |digits| == 0 || !IsDigits(digits) then None
      else
        var magnitude: int := DigitsValue(digits);
        var v := if s[0] == '-' then -magnitude else magnitude;
        if IsInt32(v) then Some(v) else None
  }

  /** Integer.toString(n) for n >= 0: the shortest decimal digits naming n. */
  function NatToString(n: nat): (s: string)
    ensures |s| > 0 && IsDigits(s)
    ensures DigitsValue(s) == n
    ensures |s| > 1 ==> s[0] != '0'
    decreases n
  {
    if n < 10 then [DigitChar(n)]
    else
      var front := NatToString(n / 10);
      var s := front + [DigitChar(n % 10)];
      assert s[..|s| - 1] == front;
      s
  }

  /** Integer.toString(n), which is what `"..." + n` appends. */
  function IntToString(n: int): (s: string)
    ensures |s| > 0 && (s[0] == '-' <==> n < 0)
    ensures var digits := if n < 0 then s[1..] else s;
      && |digits| > 0 && IsDigits(digits)
      && DigitsValue(digits) == (if n < 0 then -n else n)
      && (|digits| > 1 ==> digits[0] != '0')
  {
    if n < 0 then
      var t := NatToString(-n);
      assert ("-" + t)[1..] == t;
      "-" + t
    else NatToString(n)
  }

  /** Integer.parseInt reads back every int that Integer.toString writes. */
  lemma ParseIntToString(n: Int32)
    ensures ParseInt(IntToString(n)) == Some(n as int)
  {
    if n < 0 {
      var t := NatToString(-(n as int));
      assert ("-" + t)[1..] == t;
    }
  }
}
