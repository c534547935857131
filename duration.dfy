/** The duration formatter of the video controller: a whole number of seconds
    becomes the text "M:SS" (minutes, a colon, two digits of seconds), and the
    reading of that text back into seconds. */
module Duration {

  import opened Wrappers

  predicate IsDigit(c: char) {
    '0' <= c <= '9'
  }

  predicate AllDigits(s: string) {
    forall i :: 0 <= i < |s| ==> IsDigit(s[i])
  }

  /** A decimal numeral as JavaScript prints a whole number: at least one
      digit and no leading zero unless the number is zero. */
  predicate Canonical(s: string) {
    |s| >= 1 && AllDigits(s) && (s[0] != '0' || |s| == 1)
  }

  function DigitChar(d: nat): (c: char)
    requires d < 10
    ensures IsDigit(c)
    ensures c == '0' <==> d == 0
  {
    (('0' as int) + d) as char
  }

  function DigitValue(c: char): (d: nat)
    requires IsDigit(c)
    ensures d < 10
    ensures DigitChar(d) == c
  {
    (c as int) - ('0' as int)
  }

  /** The decimal text of a whole number, as `${n}` gives it. */
  function NatToString(n: nat): (r: string)
    ensures Canonical(r)
    ensures |r| == 1 <==> n < 10
    ensures r[0] == '0' <==> n == 0
  {
    if n < 10 then [DigitChar(n)] else NatToString(n / 10) + [DigitChar(n % 10)]
  }

  /** The value of a string of decimal digits. */
  function ParseNat(s: string): nat
    requires AllDigits(s)
  {
    if s == [] then 0 else 10 * ParseNat(s[..|s| - 1]) + DigitValue(s[|s| - 1])
  }

  lemma {:induction false} ParseNatToString(n: nat)
    ensures ParseNat(NatToString(n)) == n
  {
    if n >= 10 {
      var r := NatToString(n);
      assert r[..|r| - 1] == NatToString(n / 10);
      ParseNatToString(n / 10);
    }
  }

  lemma {:induction false} ParseNatPositive(s: string)
    requires Canonical(s) && s[0] != '0'
    ensures ParseNat(s) > 0
  {
    if |s| > 1 {
      var p := s[..|s| - 1];
      assert p[0] == s[0];
      ParseNatPositive(p);
    }
  }

  lemma {:induction false} ToStringParseNat(s: string)
    requires Canonical(s)
    ensures NatToString(ParseNat(s)) == s
  {
    if |s| > 1 {
      var p := s[..|s| - 1];
      assert p[0] == s[0];
      ParseNatPositive(p);
      ToStringParseNat(p);
      var n := ParseNat(s);
      assert n / 10 == ParseNat(p) && n % 10 == DigitValue(s[|s| - 1]);
      assert s == p + [s[|s| - 1]];
    }
  }

  /** The seconds part: a '0' in front of single-digit seconds. */
  function PadSeconds(s: nat): string {
    (if s < 10 then "0" else "") + NatToString(s)
  }

  /** convertDuration: minutes are the whole number of minutes (never carried
      into hours), then a colon, then the remaining seconds padded to two
      digits. */
  function ConvertDuration(seconds: nat): string {
    NatToString(seconds / 60) + ":" + PadSeconds(seconds % 60)
  }

  /** The inverse reading: a canonical numeral of minutes, a colon, and exactly
      two digits of seconds below 60. Anything else is not a duration text. */
  function ParseDuration(s: string): Option<nat> {
    if |s| >= 4 && s[|s| - 3] == ':' && Canonical(s[..|s| - 3])
       && AllDigits(s[|s| - 2..]) && ParseNat(s[|s| - 2..]) < 60
    then Some(60 * ParseNat(s[..|s| - 3]) + ParseNat(s[|s| - 2..]))
    else None
  }

  lemma PadSecondsShape(s: nat)
    requires s < 60
    ensures |PadSeconds(s)| == 2 && AllDigits(PadSeconds(s))
    ensures ParseNat(PadSeconds(s)) == s
    ensures PadSeconds(s)[0] == '0' <==> s < 10
  {
    var p := PadSeconds(s);
    ParseNatToString(s);
    if s < 10 {
      assert p == ['0', DigitChar(s)];
      assert p[..1] == ['0'];
    } else {
      assert NatToString(s) == NatToString(s / 10) + [DigitChar(s % 10)];
    }
  }

  /** The shape of the text: the part before the colon is the decimal number
      of whole minutes, the part after it is two digits whose value is the
      remaining seconds, below 60, with a leading '0' exactly when they are
      fewer than ten. */
  lemma ConvertDurationShape(n: nat)
    ensures var r := ConvertDuration(n);
      && |r| >= 4 && r[|r| - 3] == ':'
      && r[..|r| - 3] == NatToString(n / 60)
      && AllDigits(r[|r| - 2..]) && ParseNat(r[|r| - 2..]) == n % 60 < 60
      && (r[|r| - 2] == '0' <==> n % 60 < 10)
  {
    var r := ConvertDuration(n);
    var m := NatToString(n / 60);
    var p := PadSeconds(n % 60);
    PadSecondsShape(n % 60);
    assert r == m + ":" + p;
    assert r[..|r| - 3] == m;
    assert r[|r| - 2..] == p;
  }

  /** Reading the text back gives minutes * 60 + seconds == n. */
  lemma DurationRoundTrip(n: nat)
    ensures ParseDuration(ConvertDuration(n)) == Some(n)
  {
    var r := ConvertDuration(n);
    ConvertDurationShape(n);
    ParseNatToString(n / 60);
  }

  /** Every duration text comes from exactly one number of seconds. */
  lemma DurationParseInverse(s: string, n: nat)
    requires ParseDuration(s) == Some(n)
    ensures ConvertDuration(n) == s
  {
    var m := s[..|s| - 3];
    var ss := s[|s| - 2..];
    var sec := ParseNat(ss);
    assert n / 60 == ParseNat(m) && n % 60 == sec;
    ToStringParseNat(m);
    assert ParseNat(ss) == 10 * DigitValue(ss[0]) + DigitValue(ss[1]) by {
      assert ss[..1][..0] == [];
      assert ss[..1] == [ss[0]];
    }
    if ss[0] == '0' {
      assert ss == "0" + [DigitChar(sec)];
    } else {
      assert Canonical(ss);
      ToStringParseNat(ss);
    }
    assert s == m + ":" + ss;
  }

  lemma DurationExamples()
    ensures ConvertDuration(75) == "1:15"
    ensures ConvertDuration(5) == "0:05"
    ensures ConvertDuration(3600) == "60:00"
  {
  }

}
