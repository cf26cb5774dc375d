/** The two conversions between a user id and its text that the credential
    service relies on: `int.ToString()` (the id returned by registration and
    written into the token's subject) and `int.Parse` (the id given to
    deletion), under the invariant culture with NumberStyles.Integer. */
module Numbers {
  import opened Common

  const Int32Min: int := -0x8000_0000
  const Int32Max: int := 0x7fff_ffff

  predicate IsInt32(n: int) {
    Int32Min <= n <= Int32Max
  }

  predicate IsDigit(c: char) {
    '0' <= c <= '9'
  }

  predicate AllDigits(s: string) {
    forall i :: 0 <= i < |s| ==> IsDigit(s[i])
  }

  function DigitChar(d: int): (c: char)
    requires 0 <= d < 10
    ensures IsDigit(c) && c as int - '0' as int == d
  {
    ('0' as int + d) as char
  }

  /** The shortest decimal numeral of `n`, most significant digit first. */
  function Numeral(n: nat): (s: string)
    ensures |s| >= 1 && AllDigits(s)
    ensures n >= 10 ==> s[0] != '0'
    decreases n
  {
    if n < 10 then [DigitChar(n)] else Numeral(n / 10) + [DigitChar(n % 10)]
  }

  /** The value of a string of decimal digits. */
  function NumeralValue(s: string): nat
    requires AllDigits(s)
  {
    if s == [] then 0
    else NumeralValue(s[..|s| - 1]) * 10 + (s[|s| - 1] as int - '0' as int)
  }

  /** `Int32.ToString()`: a minus sign for negative values, then the numeral. */
  function IntToString(n: int): (s: string)
    ensures |s| >= 1
    ensures n >= 0 <==> IsDigit(s[0])
    ensures n < 0 <==> s[0] == '-'
    ensures IsDigit(s[|s| - 1])
  {
    if n < 0 then "-" + Numeral(-n) else Numeral(n)
  }

  /** The white space that NumberStyles.AllowLeadingWhite and
      AllowTrailingWhite skip: U+0009 to U+000D and U+0020. */
  predicate IsParseWhite(c: char) {
    c == ' ' || '\t' <= c <= '\r'
  }

  function TrimStart(s: string): (r: string)
    ensures |r| <= |s| && r == s[|s| - |r|..]
    ensures r != [] ==> !IsParseWhite(r[0])
    ensures s != [] && !IsParseWhite(s[0]) ==> r == s
    ensures forall i :: 0 <= i < |s| - |r| ==> IsParseWhite(s[i])
  {
    if s != [] && IsParseWhite(s[0]) then
      var r := TrimStart(s[1..]);
      assert forall i :: 1 <= i < |s| ==> s[i] == s[1..][i - 1];
      r
    else s
  }

  function TrimEnd(s: string): (r: string)
    ensures |r| <= |s| && r == s[..|r|]
    ensures r != [] ==> !IsParseWhite(r[|r| - 1])
    ensures s != [] && !IsParseWhite(s[|s| - 1]) ==> r == s
    ensures forall i :: |r| <= i < |s| ==> IsParseWhite(s[i])
  {
    if s != [] && IsParseWhite(s[|s| - 1]) then
      var r := TrimEnd(s[..|s| - 1]);
      assert forall i :: 0 <= i < |s| - 1 ==> s[i] == s[..|s| - 1][i];
      r
    else s
  }

  /** The text `int.Parse` accepts once the white space is trimmed: an
      optional '-' or '+', then at least one ASCII digit. */
  predicate SignedDigits(t: string) {
    if |t| > 0 && (t[0] == '-' || t[0] == '+') then |t| > 1 && AllDigits(t[1..])
    else |t| > 0 && AllDigits(t)
  }

  /** The value such text denotes. */
  function SignedValue(t: string): int
    requires SignedDigits(t)
  {
    if t[0] == '-' then -(NumeralValue(t[1..]) as int)
    else if t[0] == '+' then NumeralValue(t[1..])
    else NumeralValue(t)
  }

  /** `int.Parse(s)`: optional white space, an optional sign, at least one
      ASCII digit, optional white space; anything else is a FormatException,
      and a well-formed value outside the int range an OverflowException. */
  function ParseInt32(s: string): (r: Outcome<int>)
    ensures r.Returned? ==> IsInt32(r.value)
    ensures r.Threw? ==> r.exception == FormatException || r.exception == OverflowException
    ensures r.Threw? && r.exception == FormatException ==> !AllDigits(s) || s == []
    ensures s != [] && AllDigits(s) ==>
      && (r.Returned? <==> NumeralValue(s) <= Int32Max)
      && (r.Returned? ==> r.value == NumeralValue(s))
      && (r.Threw? ==> r.exception == OverflowException)
    ensures r == Threw(FormatException) <==> !SignedDigits(TrimEnd(TrimStart(s)))
    ensures SignedDigits(TrimEnd(TrimStart(s))) ==>
      && (r.Returned? <==> IsInt32(SignedValue(TrimEnd(TrimStart(s)))))
      && (r.Returned? ==> r.value == SignedValue(TrimEnd(TrimStart(s))))
  {
    TrimKeepsDigits(s);
    ParseSigned(TrimEnd(TrimStart(s)))
  }

  /** Text that is all digits has no white space to trim. */
  lemma TrimKeepsDigits(s: string)
    ensures s != [] && AllDigits(s) ==> TrimEnd(TrimStart(s)) == s
  {
    if s != [] && AllDigits(s) {
      assert TrimStart(s) == s;
    }
  }

  /** The trimmed text: an optional sign, then the digits. */
  function ParseSigned(t: string): (r: Outcome<int>)
    ensures r.Returned? ==> IsInt32(r.value)
    ensures r.Threw? ==> r.exception == FormatException || r.exception == OverflowException
    ensures r.Threw? && r.exception == FormatException ==> !AllDigits(t) || t == []
    ensures t != [] && AllDigits(t) ==>
      && (r.Returned? <==> NumeralValue(t) <= Int32Max)
      && (r.Returned? ==> r.value == NumeralValue(t))
    ensures |t| > 1 && t[0] == '-' && AllDigits(t[1..]) ==>
      && (r.Returned? <==> NumeralValue(t[1..]) <= -Int32Min)
      && (r.Returned? ==> r.value == -(NumeralValue(t[1..]) as int))
    ensures r == Threw(FormatException) <==> !SignedDigits(t)
    ensures SignedDigits(t) ==>
      && (r.Returned? <==> IsInt32(SignedValue(t)))
      && (r.Returned? ==> r.value == SignedValue(t))
  {
    if |t| > 0 && t[0] == '-' then ParseMagnitude(true, t[1..])
    else if |t| > 0 && t[0] == '+' then ParseMagnitude(false, t[1..])
    else ParseMagnitude(false, t)
  }

  /** The digits after the sign, read in decimal and range-checked. */
  function ParseMagnitude(negative: bool, digits: string): (r: Outcome<int>)
    ensures r.Returned? ==> IsInt32(r.value)
    ensures r.Threw? ==> r.exception == FormatException || r.exception == OverflowException
    ensures r.Threw? && r.exception == FormatException <==> digits == [] || !AllDigits(digits)
    ensures r.Returned? ==>
      digits != [] && AllDigits(digits) && NumeralValue(digits) == (if negative then -r.value else r.value)
    ensures r == Threw(OverflowException) <==>
      digits != [] && AllDigits(digits) && !IsInt32(if negative then -(NumeralValue(digits) as int) else NumeralValue(digits))
  {
    if digits == [] || !AllDigits(digits) then
      Threw(FormatException)
    else
      var magnitude: int := NumeralValue(digits);
      var v := if negative then -magnitude else magnitude;
      if IsInt32(v) then Returned(v) else Threw(OverflowException)
  }

  lemma {:induction false} NumeralValueOfNumeral(n: nat)
    ensures NumeralValue(Numeral(n)) == n
    decreases n
  {
    if n >= 10 {
      var s := Numeral(n);
      assert s[..|s| - 1] == Numeral(n / 10);
      NumeralValueOfNumeral(n / 10);
    }
  }

  /** Every int id survives being written out by ToString and read back by
      int.Parse. */
  lemma ParseIntToString(n: int)
    requires IsInt32(n)
    ensures ParseInt32(IntToString(n)) == Returned(n)
  {
    IntToStringIsTrimmed(n);
    IntToStringDenotes(n);
  }

  /** The text of an int has no white space to trim. */
  lemma IntToStringIsTrimmed(n: int)
    ensures TrimEnd(TrimStart(IntToString(n))) == IntToString(n)
  {
    var s := IntToString(n);
    assert !IsParseWhite(s[0]) && !IsParseWhite(s[|s| - 1]);
    assert TrimStart(s) == s;
  }

  /** The text of an int is signed digits denoting that int. */
  lemma IntToStringDenotes(n: int)
    ensures SignedDigits(IntToString(n)) && SignedValue(IntToString(n)) == n
  {
    var s := IntToString(n);
    if n < 0 {
      assert s[0] == '-' && s[1..] == Numeral(-n);
      NumeralValueOfNumeral(-n);
    } else {
      assert s == Numeral(n);
      NumeralValueOfNumeral(n);
    }
  }
}
