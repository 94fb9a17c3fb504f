/** Integer ids as text: `Number.prototype.toString` on an integer, and the
    lenient base-10 `parseInt` the share link is read with. */
module Numbers {
  import opened Wrappers
  import opened Strings

  predicate IsDigit(c: char) {
    '0' <= c <= '9'
  }

  predicate AllDigits(s: string) {
    forall i :: 0 <= i < |s| ==> IsDigit(s[i])
  }

  function DigitChar(d: nat): (c: char)
    requires d < 10
    ensures IsDigit(c) && c as int - '0' as int == d
  {
    ('0' as int + d) as char
  }

  /** The number a string of decimal digits denotes, most significant first. */
  function DigitsValue(ds: string): nat
    requires AllDigits(ds)
  {
    if |ds| == 0 then 0 else DigitsValue(ds[..|ds| - 1]) * 10 + (ds[|ds| - 1] as int - '0' as int)
  }

  /** Decimal numeral of a natural number, without leading zeros. */
  function NatToString(n: nat): (r: string)
    ensures |r| > 0 && AllDigits(r)
    ensures |r| > 1 ==> r[0] != '0'
  {
    if n < 10 then [DigitChar(n)] else NatToString(n / 10) + [DigitChar(n % 10)]
  }

  /** Reading a numeral back gives the number it was written from. */
  lemma {:induction false} NatToStringValue(n: nat)
    ensures DigitsValue(NatToString(n)) == n
    decreases n
  {
    if n >= 10 {
      var r := NatToString(n);
      assert r[..|r| - 1] == NatToString(n / 10);
      NatToStringValue(n / 10);
    }
  }

  /** `String(id)` for an integer id: a minus sign for negatives, then the
      numeral of the magnitude. Never empty, never contains a comma or
      whitespace. */
  function IntToString(i: int): (r: string)
    ensures |r| > 0 && !IsWhitespace(r[0])
    ensures forall k :: 0 <= k < |r| ==> r[k] != ',' && !IsWhitespace(r[k])
    ensures i >= 0 ==> AllDigits(r)
    ensures i < 0 ==> r[0] == '-' && AllDigits(r[1..])
  {
    if i < 0 then "-" + NatToString(-i) else NatToString(i)
  }

  /** The longest prefix of `s` made only of decimal digits. */
  function LeadingDigits(s: string): (r: string)
    ensures r <= s && AllDigits(r)
    ensures |r| < |s| ==> !IsDigit(s[|r|])
  {
    if |s| > 0 && IsDigit(s[0]) then [s[0]] + LeadingDigits(s[1..]) else ""
  }

  /** What follows an optional leading sign. */
  function Unsigned(s: string): (r: string)
    ensures |r| <= |s|
  {
    if |s| > 0 && (s[0] == '-' || s[0] == '+') then s[1..] else s
  }

  /** `parseInt(s, 10)`: leading whitespace is skipped, one optional sign is
      read, then the longest run of decimal digits; anything after the digits
      is ignored. Without a single digit the result is NaN, here `None`. */
  function ParseInt(s: string): (r: Option<int>)
    ensures r.None? <==> |Unsigned(TrimStart(s))| == 0 || !IsDigit(Unsigned(TrimStart(s))[0])
    ensures r.Some? && r.value < 0 ==> TrimStart(s)[0] == '-'
  {
    ReadSigned(TrimStart(s))
  }

  /** An optional sign and the run of digits after it, read from the start
      of `t`; `None` when no digit follows the sign. */
  function ReadSigned(t: string): (r: Option<int>)
    ensures r.None? <==> |Unsigned(t)| == 0 || !IsDigit(Unsigned(t)[0])
    ensures r.Some? && r.value < 0 ==> t[0] == '-'
  {
    var digits := LeadingDigits(Unsigned(t));
    if |digits| == 0 then None
    else if |t| > 0 && t[0] == '-' then Some(-(DigitsValue(digits) as int))
    else Some(DigitsValue(digits))
  }

  /** Every integer survives being written out and parsed back. */
  lemma ParseIntRoundTrip(i: int)
    ensures ParseInt(IntToString(i)) == Some(i)
  {
    ParseIntIgnoresTail(i, "");
    assert IntToString(i) + "" == IntToString(i);
  }

  /** A string of digits is its own leading run of digits. */
  lemma {:induction false} LeadingDigitsAll(s: string)
    requires AllDigits(s)
    ensures LeadingDigits(s) == s
    decreases |s|
  {
    if |s| > 0 {
      assert AllDigits(s[1..]);
      LeadingDigitsAll(s[1..]);
      assert s == [s[0]] + s[1..];
    }
  }

  /** The digit run stops where the digits stop. */
  lemma {:induction false} LeadingDigitsStop(u: string, w: string)
    requires AllDigits(u)
    requires w == "" || !IsDigit(w[0])
    ensures LeadingDigits(u + w) == u
    decreases |u|
  {
    if |u| == 0 {
      assert u + w == w;
    } else {
      assert AllDigits(u[1..]);
      LeadingDigitsStop(u[1..], w);
      assert (u + w)[1..] == u[1..] + w;
      assert u == [u[0]] + u[1..];
    }
  }

  /** `parseInt` reads an integer's text and ignores whatever follows it,
      provided it does not continue the digits: `"12abc"` reads as 12. */
  lemma ParseIntIgnoresTail(i: int, w: string)
    requires w == "" || !IsDigit(w[0])
    ensures ParseInt(IntToString(i) + w) == Some(i)
  {
    var s := IntToString(i);
    assert (s + w)[0] == s[0];
    TrimStartVisible(s + w);
    ReadSignedTail(i, w);
  }

  lemma ReadSignedTail(i: int, w: string)
    requires w == "" || !IsDigit(w[0])
    ensures ReadSigned(IntToString(i) + w) == Some(i)
  {
    var s := IntToString(i);
    var n := if i < 0 then -i else i;
    var u := NatToString(n);
    if i < 0 {
      assert s == "-" + u;
      assert (s + w)[1..] == u + w;
    }
    assert Unsigned(s + w) == u + w;
    LeadingDigitsStop(u, w);
    NatToStringValue(n);
  }

  /** Leading whitespace is skipped. */
  lemma ParseIntSkipsWhitespace(ws: string, s: string)
    requires forall k :: 0 <= k < |ws| ==> IsWhitespace(ws[k])
    ensures ParseInt(ws + s) == ParseInt(s)
  {
    TrimStartSkips(ws, s);
  }

  /** A plus sign in front of a number changes nothing: `"+5"` reads as 5. */
  lemma ParseIntPlus(s: string)
    requires |s| > 0 ==> !IsWhitespace(s[0]) && s[0] != '-' && s[0] != '+'
    ensures ParseInt("+" + s) == ParseInt(s)
  {
    var p := "+" + s;
    assert p[0] == '+' && p[1..] == s;
    TrimStartVisible(p);
    if |s| > 0 {
      TrimStartVisible(s);
    }
    assert Unsigned(p) == s && Unsigned(s) == s;
  }

  /** A minus sign in front of digits negates their value: `"-007"` reads
      as -7 and `"-00"` as 0. */
  lemma ParseIntMinus(s: string)
    requires |s| > 0 && IsDigit(s[0])
    ensures ParseInt(s).Some? && ParseInt("-" + s) == Some(-ParseInt(s).value)
  {
    var p := "-" + s;
    assert p[0] == '-' && p[1..] == s;
    TrimStartVisible(s);
    TrimStartVisible(p);
    assert Unsigned(p) == s && Unsigned(s) == s;
  }

  /** A leading zero in front of a digit changes nothing: `"007"` reads as 7. */
  lemma ParseIntLeadingZero(s: string)
    requires |s| > 0 && IsDigit(s[0])
    ensures ParseInt("0" + s) == ParseInt(s)
  {
    var p := "0" + s;
    assert p[0] == '0';
    TrimStartVisible(p);
    TrimStartVisible(s);
    ReadSignedLeadingZero(s);
  }

  lemma ReadSignedLeadingZero(s: string)
    requires |s| > 0 && IsDigit(s[0])
    ensures ReadSigned("0" + s) == ReadSigned(s)
  {
    var p := "0" + s;
    assert Unsigned(p) == p && Unsigned(s) == s;
    var d := LeadingDigits(s);
    LeadingDigitsCons('0', s);
    DigitsValueLeadingZero(d);
  }

  lemma LeadingDigitsCons(c: char, s: string)
    requires IsDigit(c)
    ensures LeadingDigits([c] + s) == [c] + LeadingDigits(s)
  {
    assert ([c] + s)[1..] == s;
  }

  /** A leading zero adds nothing to a numeral's value. */
  lemma {:induction false} DigitsValueLeadingZero(d: string)
    requires AllDigits(d)
    ensures DigitsValue("0" + d) == DigitsValue(d)
    decreases |d|
  {
    if |d| > 0 {
      var p := "0" + d;
      assert p[..|p| - 1] == "0" + d[..|d| - 1];
      assert p[|p| - 1] == d[|d| - 1];
      DigitsValueLeadingZero(d[..|d| - 1]);
    } else {
      assert "0" + d == "0";
    }
  }
}
