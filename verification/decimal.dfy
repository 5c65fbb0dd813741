/** Base-10 integers as text: JavaScript's `parseInt(s, 10)` and the
    rendering of a non-negative integer in a template string. */
module Decimal {
  import opened Common
  import Text

  predicate IsDigit(c: char) {
    '0' <= c <= '9'
  }

  predicate AllDigits(s: string) {
    forall i :: 0 <= i < |s| ==> IsDigit(s[i])
  }

  function DigitValue(c: char): nat
    requires IsDigit(c)
  {
    c as int - '0' as int
  }

  function DigitChar(d: nat): (c: char)
    requires d < 10
    ensures IsDigit(c) && DigitValue(c) == d
  {
    ('0' as int + d) as char
  }

  /** The number a string of digits denotes in base 10. */
  function Value(ds: string): nat
    requires AllDigits(ds)
  {
    if |ds| == 0 then 0 else Value(ds[..|ds| - 1]) * 10 + DigitValue(ds[|ds| - 1])
  }

  /** Length of the longest all-digit prefix. */
  function LeadingDigits(s: string): (k: nat)
    ensures k <= |s|
    ensures AllDigits(s[..k])
    ensures k < |s| ==> !IsDigit(s[k])
    decreases |s|
  {
    if |s| > 0 && IsDigit(s[0]) then
      var k := 1 + LeadingDigits(s[1..]);
      assert s[..k] == [s[0]] + s[1..][..k - 1];
      k
    else 0
  }

  /** What `parseInt` reads after leading whitespace: an optional sign. */
  function Unsigned(t: string): string {
    if |t| > 0 && (t[0] == '+' || t[0] == '-') then t[1..] else t
  }

  /** `parseInt(s, 10)`: skip leading whitespace, read an optional sign and
      then the longest run of decimal digits; no digit there gives `NaN`
      (here `None`). Characters after the digits are ignored. */
  function ParseInt(s: string): (r: Option<int>)
    ensures r.Some? <==> |Unsigned(Text.TrimStart(s))| > 0 && IsDigit(Unsigned(Text.TrimStart(s))[0])
    ensures r.Some? ==>
      var t := Text.TrimStart(s);
      var ds := Unsigned(t)[..LeadingDigits(Unsigned(t))];
      r.value == (if t[0] == '-' then 0 - Value(ds) else Value(ds) as int)
  {
    var t := Text.TrimStart(s);
    var body := Unsigned(t);
    var k := LeadingDigits(body);
    if k == 0 then None
    else
      var v: int := Value(body[..k]);
      Some(if t[0] == '-' then -v else v)
  }

  /** The decimal rendering of `n`, as `${n}` produces it. */
  function ToDecimal(n: nat): (r: string)
    ensures |r| > 0 && AllDigits(r)
    ensures Value(r) == n
    ensures |r| > 1 ==> r[0] != '0'
  {
    if n < 10 then [DigitChar(n)]
    else
      var prefix := ToDecimal(n / 10);
      var r := prefix + [DigitChar(n % 10)];
      assert r[..|r| - 1] == prefix;
      r
  }

  /** A maximal all-digit prefix is the one `LeadingDigits` measures. */
  lemma {:induction false} LeadingDigitsOfDigits(s: string, m: nat)
    requires m <= |s| && AllDigits(s[..m])
    requires m < |s| ==> !IsDigit(s[m])
    ensures LeadingDigits(s) == m
    decreases m
  {
    if m > 0 {
      assert IsDigit(s[..m][0]);
      assert s[1..][..m - 1] == s[..m][1..];
      LeadingDigitsOfDigits(s[1..], m - 1);
    }
  }

  /** Reading back a rendered number gives the number, whatever non-digit
      text follows it. */
  lemma {:induction false} ParseToDecimal(n: nat, rest: string)
    requires |rest| == 0 || !IsDigit(rest[0])
    ensures ParseInt(ToDecimal(n) + rest) == Some(n)
  {
    var d := ToDecimal(n);
    var s := d + rest;
    assert s[0] == d[0];
    assert Text.LeadingSpace(s) == 0;
    assert Text.TrimStart(s) == s;
    assert Unsigned(s) == s;
    assert s[..|d|] == d;
    LeadingDigitsOfDigits(s, |d|);
  }

  /** A minus sign in front negates the value read. */
  lemma NegativeToDecimal(n: nat)
    ensures ParseInt("-" + ToDecimal(n)) == Some(-(n as int))
  {
    var d := ToDecimal(n);
    var s := "-" + d;
    assert Text.LeadingSpace(s) == 0;
    assert Text.TrimStart(s) == s;
    assert Unsigned(s) == d;
    assert d[..|d|] == d;
    LeadingDigitsOfDigits(d, |d|);
  }
}
