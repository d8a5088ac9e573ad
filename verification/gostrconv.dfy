/** Decimal integer parsing and formatting as Go's `strconv.Atoi` and `fmt`'s `%d` do them. */
module GoStrconv {
  import opened Results

  /** Error returned by Atoi, carrying the rejected input. */
  datatype NumError = NumError(input: string)

  /** Bounds of Go's 64-bit `int`. */
  const MinInt: int := -0x8000_0000_0000_0000
  const MaxInt: int := 0x7FFF_FFFF_FFFF_FFFF

  predicate IsDigit(c: char) {
    '0' <= c <= '9'
  }

  predicate AllDigits(s: string) {
    forall i :: 0 <= i < |s| ==> IsDigit(s[i])
  }

  predicate IsSign(c: char) {
    c == '+' || c == '-'
  }

  function DigitValue(c: char): (d: nat)
    requires IsDigit(c)
    ensures d < 10
  {
    c as int - '0' as int
  }

  function DigitChar(d: nat): (c: char)
    requires d < 10
    ensures IsDigit(c) && DigitValue(c) == d
  {
    ('0' as int + d) as char
  }

  /** Value of a string of decimal digits, most significant first. */
  function DecimalValue(s: string): nat
    requires AllDigits(s)
  {
    if |s| == 0 then 0 else 10 * DecimalValue(s[..|s| - 1]) + DigitValue(s[|s| - 1])
  }

  /** An optional sign followed by at least one decimal digit. */
  predicate Numeral(s: string) {
    |Unsigned(s)| > 0 && AllDigits(Unsigned(s))
  }

  /** The digits that follow an optional leading sign. */
  function Unsigned(s: string): string {
    if |s| > 0 && IsSign(s[0]) then s[1..] else s
  }

  /** The value a numeral denotes: its digits' value, negated after a minus sign. */
  function NumeralValue(s: string): int
    requires Numeral(s)
  {
    var magnitude: int := DecimalValue(Unsigned(s));
    if s[0] == '-' then -magnitude else magnitude
  }

  /**
   * strconv.Atoi: an optional sign followed by at least one ASCII digit,
   * whose value must fit a 64-bit int. Anything else is an error.
   */
  function Atoi(s: string): (r: Result<int, NumError>)
    ensures r.Ok? <==> Numeral(s) && MinInt <= NumeralValue(s) <= MaxInt
    ensures r.Ok? ==> r.value == NumeralValue(s)
    ensures r.Ok? ==> (r.value < 0 ==> s[0] == '-')
    ensures r.Err? ==> r.error == NumError(s)
  {
    var digits := Unsigned(s);
    if |digits| == 0 || !AllDigits(digits) then
      Err(NumError(s))
    else
      var magnitude: int := DecimalValue(digits);
      var v: int := if s[0] == '-' then -magnitude else magnitude;
      if MinInt <= v <= MaxInt then Ok(v) else Err(NumError(s))
  }

  /** Decimal digits of a natural number, without leading zeros. */
  function FormatNat(n: nat): (r: string)
    ensures |r| > 0 && AllDigits(r)
    ensures DecimalValue(r) == n
    ensures r[0] == '0' ==> n == 0
  {
    if n < 10 then [DigitChar(n)]
    else
      var prefix := FormatNat(n / 10);
      var r := prefix + [DigitChar(n % 10)];
      assert r[..|r| - 1] == prefix;
      r
  }

  /** `%d` formatting of an int: a minus sign for negatives, then the digits. */
  function FormatInt(n: int): (r: string)
    ensures |r| > 0
    ensures r[0] == '-' <==> n < 0
    ensures forall i :: 0 <= i < |r| ==> IsDigit(r[i]) || (i == 0 && r[i] == '-')
  {
    if n < 0 then "-" + FormatNat(-n) else FormatNat(n)
  }

  /** Parsing a formatted int gives it back. */
  lemma AtoiFormatInt(n: int)
    requires MinInt <= n <= MaxInt
    ensures Atoi(FormatInt(n)) == Ok(n)
  {
    var s := FormatInt(n);
    if n < 0 {
      assert Unsigned(s) == FormatNat(-n);
    } else {
      assert Unsigned(s) == FormatNat(n);
    }
  }

  /** A one-character string parses exactly when it is an ASCII digit, to that digit's value. */
  lemma AtoiSingleChar(c: char)
    ensures Atoi([c]).Ok? <==> IsDigit(c)
    ensures IsDigit(c) ==> Atoi([c]) == Ok(DigitValue(c))
  {
    var s := [c];
    if IsDigit(c) {
      assert Unsigned(s) == s;
      assert s[..0] == [];
      assert DecimalValue(s) == DigitValue(c);
    }
  }

  /** A leading zero does not change the value of a string of digits. */
  lemma {:induction false} DecimalLeadingZero(d: string)
    requires AllDigits(d)
    ensures AllDigits("0" + d) && DecimalValue("0" + d) == DecimalValue(d)
    decreases |d|
  {
    var z := "0" + d;
    if |d| > 0 {
      assert z[..|z| - 1] == "0" + d[..|d| - 1];
      DecimalLeadingZero(d[..|d| - 1]);
    }
  }

  /** A `+` sign and leading zeros do not change what a string of digits parses to: Atoi("+5"), Atoi("007") and Atoi("5") agree. */
  lemma AtoiPlusAndZero(d: string)
    requires |d| > 0 && AllDigits(d)
    ensures Atoi("+" + d) == (if Atoi(d).Ok? then Atoi(d) else Err(NumError("+" + d)))
    ensures Atoi("0" + d) == (if Atoi(d).Ok? then Atoi(d) else Err(NumError("0" + d)))
  {
    assert Unsigned("+" + d) == d;
    assert Unsigned(d) == d;
    assert Unsigned("0" + d) == "0" + d;
    DecimalLeadingZero(d);
  }

  /** Minus zero parses to zero. */
  lemma AtoiMinusZero()
    ensures Atoi("-0") == Ok(0)
  {
    assert Unsigned("-0") == "0";
    assert "0"[..0] == "";
  }
}
