/** Python's `str(n)` and `int(s)` for integers in base ten. */
module Decimal {
  import opened Wrappers
  import opened ByteStrings

  predicate IsDigit(c: char)
  {
    '0' <= c <= '9'
  }

  predicate AllDigits(s: seq<char>)
  {
    forall i :: 0 <= i < |s| ==> IsDigit(s[i])
  }

  /** The character for the decimal digit `d`. */
  function DigitChar(d: int): (c: ByteChar)
    requires 0 <= d < 10
    ensures IsDigit(c)
  {
    (48 + d) as char
  }

  /** The numeric value of a digit character. */
  function DigitValue(c: char): (d: int)
    requires IsDigit(c)
    ensures 0 <= d < 10 && DigitChar(d) == c
  {
    c as int - 48
  }

  /** The value of a string of decimal digits, most significant first. */
  function DigitsValue(s: seq<char>): (n: nat)
    requires AllDigits(s)
    decreases |s|
  {
    if |s| == 0 then 0 else DigitsValue(s[..|s| - 1]) * 10 + DigitValue(s[|s| - 1])
  }

  /** `str(n)` for `n >= 0`: the shortest decimal numeral of `n`, which has
      no leading zero unless it is "0". */
  function NatToDigits(n: nat): (r: Bytes)
    ensures |r| >= 1 && AllDigits(r)
    ensures DigitsValue(r) == n
    ensures r[0] == '0' ==> n == 0 && r == "0"
    decreases n
  {
    if n < 10 then [DigitChar(n)]
    else
      var r := NatToDigits(n / 10) + [DigitChar(n % 10)];
      assert r[..|r| - 1] == NatToDigits(n / 10);
      r
  }

  /** `str(n)`: a minus sign for negative numbers, then the digits of `|n|`. */
  function IntToString(n: int): (r: Bytes)
    ensures |r| >= 1 && (r[0] == '-' || IsDigit(r[0])) && IsDigit(r[|r| - 1])
    ensures !IsSpace(r[0]) && !IsSpace(r[|r| - 1])
    ensures ':' !in r
    ensures n >= 0 <==> AllDigits(r)
  {
    if n < 0 then "-" + NatToDigits(-n) else NatToDigits(n)
  }

  /** `int(s)` in base ten: optional surrounding whitespace, an optional
      sign, then one or more ASCII digits; anything else is a `ValueError`,
      modelled as `None`. */
  function ParseInt(s: Bytes): (r: Option<int>)
    ensures (forall i :: 0 <= i < |s| ==> !IsDigit(s[i])) ==> r.None?
    ensures AllDigits(s) && |s| > 0 ==> r == Some(DigitsValue(s))
  {
    var t := Strip(s);
    var negative := |t| > 0 && t[0] == '-';
    var digits := if |t| > 0 && (t[0] == '-' || t[0] == '+') then t[1..] else t;
    if |digits| > 0 && AllDigits(digits) then
      var value: int := DigitsValue(digits);
      Some(if negative then -value else value)
    else
      None
  }

  predicate IsSign(c: char)
  {
    c == '+' || c == '-'
  }

  /** An optional sign followed by one or more digits. */
  predicate IsSignedDigits(u: seq<char>)
  {
    |u| > 0 && (if IsSign(u[0]) then |u| > 1 && AllDigits(u[1..]) else AllDigits(u))
  }

  /** The texts `int` accepts: a signed numeral with whitespace on either
      side. */
  predicate IsIntLiteral(s: Bytes)
  {
    exists a, b :: 0 <= a <= b <= |s| && AllSpace(s[..a]) && IsSignedDigits(s[a..b]) && AllSpace(s[b..])
  }

  /** `int` succeeds on exactly the texts that are an optional sign and
      digits, with whitespace around them. */
  lemma ParseIntAccepts(s: Bytes)
    ensures ParseInt(s).Some? <==> IsIntLiteral(s)
  {
    ParseIntShape(s);
    if IsIntLiteral(s) {
      var a, b :| 0 <= a <= b <= |s| && AllSpace(s[..a]) && IsSignedDigits(s[a..b]) && AllSpace(s[b..]);
      StripOfPadded(s, a, b);
    }
  }

  /** What `int` accepts is a signed numeral with whitespace around it. */
  lemma ParseIntShape(s: Bytes)
    ensures ParseInt(s).Some? ==> IsIntLiteral(s)
  {
    if ParseInt(s).Some? {
      var t := Strip(s);
      var lead := LeadingSpaces(s);
      var b := lead + |t|;
      assert AllSpace(s[..lead]) by {
        assert forall i :: 0 <= i < lead ==> s[..lead][i] == s[i];
      }
      assert AllSpace(s[b..]) by {
        assert forall i :: 0 <= i < |s| - b ==> s[b..][i] == s[b + i];
      }
      assert IsSignedDigits(s[lead..b]);
    }
  }

  /** The value `int` gives a signed numeral with whitespace around it: the
      digits' value, negated after a '-', so `int(" +05 ")` is 5. */
  lemma ParseIntValue(s: Bytes, a: nat, b: nat)
    requires a <= b <= |s|
    requires AllSpace(s[..a]) && IsSignedDigits(s[a..b]) && AllSpace(s[b..])
    ensures IsSign(s[a]) ==> a + 1 < b && AllDigits(s[a + 1..b])
    ensures !IsSign(s[a]) ==> AllDigits(s[a..b])
    ensures ParseInt(s) == Some(if s[a] == '-' then -(DigitsValue(s[a + 1..b]) as int)
                                else if s[a] == '+' then DigitsValue(s[a + 1..b])
                                else DigitsValue(s[a..b]))
  {
    StripOfPadded(s, a, b);
    assert s[a..b][0] == s[a];
    assert s[a..b][1..] == s[a + 1..b];
  }

  /** A text that is whitespace, then a signed numeral, then whitespace
      strips to the numeral. */
  lemma StripOfPadded(s: Bytes, a: nat, b: nat)
    requires a <= b <= |s|
    requires AllSpace(s[..a]) && IsSignedDigits(s[a..b]) && AllSpace(s[b..])
    ensures Strip(s) == s[a..b]
  {
    var lead := LeadingSpaces(s);
    var t := Strip(s);
    assert forall i :: 0 <= i < a ==> s[..a][i] == s[i];
    assert forall i :: b <= i < |s| ==> s[b..][i - b] == s[i];
    assert s[a..b][0] == s[a] && s[a..b][b - 1 - a] == s[b - 1];
    assert !IsSpace(s[a]) && !IsSpace(s[b - 1]);
    assert lead == a;
    assert t[|t| - 1] == s[a + |t| - 1];
  }

  /** The port survives being written with `str` and read back with `int`,
      whatever its sign. */
  lemma ParseIntOfIntToString(n: int)
    ensures ParseInt(IntToString(n)) == Some(n)
  {
    var s := IntToString(n);
    StripIdentity(s);
    if n < 0 {
      assert s[1..] == NatToDigits(-n);
    }
  }

  /** `str` is one-to-one on integers. */
  lemma IntToStringInjective(m: int, n: int)
    requires IntToString(m) == IntToString(n)
    ensures m == n
  {
    ParseIntOfIntToString(m);
    ParseIntOfIntToString(n);
  }
}
