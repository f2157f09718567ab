/** The C string operations the parser relies on: reading bytes as `char`s,
    NUL termination (`strcpy`, `strcmp`, `strlen`) and `atoi`. */
module CText {
  import opened Format

  /** The bytes of the file read as characters. */
  function Chars(b: seq<byte>): (s: string)
    ensures |s| == |b|
    ensures forall k :: 0 <= k < |b| ==> s[k] as int == b[k]
  {
    seq(|b|, k requires 0 <= k < |b| => b[k] as char)
  }

  /** The C string held by a character buffer: everything before the first NUL.
      What `strcpy` copies and what `strcmp` and `strlen` look at. */
  function CStr(s: string): (r: string)
    ensures r <= s
    ensures '\0' !in r
    ensures |r| < |s| ==> s[|r|] == '\0'
  {
    if s == [] || s[0] == '\0' then [] else [s[0]] + CStr(s[1..])
  }

  lemma CStrOfPlain(s: string)
    requires '\0' !in s
    ensures CStr(s) == s
  {
  }

  predicate IsDigit(c: char)
  {
    '0' <= c <= '9'
  }

  predicate IsDigits(s: string)
  {
    forall k :: 0 <= k < |s| ==> IsDigit(s[k])
  }

  function DigitValue(c: char): nat
    requires IsDigit(c)
  {
    c as int - '0' as int
  }

  /** The number a string of decimal digits denotes, most significant first. */
  function DecimalValue(d: string): nat
    requires IsDigits(d)
  {
    if d == [] then 0 else 10 * DecimalValue(d[..|d| - 1]) + DigitValue(d[|d| - 1])
  }

  /** The longest prefix of s made of decimal digits. */
  function LeadingDigits(s: string): (d: string)
    ensures d <= s && IsDigits(d)
    ensures |d| < |s| ==> !IsDigit(s[|d|])
  {
    if s == [] || !IsDigit(s[0]) then [] else [s[0]] + LeadingDigits(s[1..])
  }

  /** `atoi` restricted to unsigned decimal text: the value of the leading digits. */
  function Atoi(s: string): (n: nat)
    ensures IsDigits(s) ==> n == DecimalValue(s)
  {
    var d := LeadingDigits(s);
    assert IsDigits(s) ==> d == s;
    DecimalValue(d)
  }

  /** The decimal numeral of n, as numpy writes a dimension. */
  function Decimal(n: nat): (d: string)
    ensures IsDigits(d) && |d| > 0
  {
    if n < 10 then [('0' as int + n) as char] else Decimal(n / 10) + [('0' as int + n % 10) as char]
  }

  lemma {:induction false} DecimalRoundTrip(n: nat)
    ensures Atoi(Decimal(n)) == n
  {
    if n >= 10 {
      DecimalRoundTrip(n / 10);
      var d := Decimal(n);
      assert d[..|d| - 1] == Decimal(n / 10);
      assert DigitValue(d[|d| - 1]) == n % 10;
      assert DecimalValue(d) == 10 * (n / 10) + n % 10;
    }
  }
}
