/** The new session labels: "ses-" followed by the rank in decimal, zero-padded to at least
    two digits (Python's `{idx:02d}`, which widens past 99 instead of truncating). */
module SessionLabels {

  predicate IsDigit(c: char)
  {
    '0' <= c <= '9'
  }

  function DigitChar(d: nat): char
    requires d < 10
  {
    ('0' as int + d) as char
  }

  /** The decimal digits of `n`, without leading zeros. */
  function Decimal(n: nat): (digits: string)
    ensures 1 <= |digits|
    ensures forall i :: 0 <= i < |digits| ==> IsDigit(digits[i])
    ensures n < 10 <==> |digits| == 1
    ensures n >= 100 ==> |digits| >= 3
    ensures n > 0 ==> digits[0] != '0'
  {
    if n < 10 then [DigitChar(n)] else Decimal(n / 10) + [DigitChar(n % 10)]
  }

  /** `format(n, '02d')` for a non-negative `n`: at least two digits, exactly two up to 99. */
  function ZeroPad2(n: nat): (field: string)
    ensures 2 <= |field|
    ensures forall i :: 0 <= i < |field| ==> IsDigit(field[i])
    ensures n <= 99 <==> |field| == 2
  {
    var digits := Decimal(n);
    if |digits| < 2 then "0" + digits
    else
      assert 10 <= n <= 99 ==> Decimal(n / 10) == [DigitChar(n / 10)];
      digits
  }

  /** The new session label `f'ses-{idx:02d}'`: "ses-" followed by the padded rank, which
      reads back as the rank. */
  function SessionLabel(rank: nat): (tag: string)
    ensures 6 <= |tag| && tag[..4] == "ses-"
    ensures forall i :: 4 <= i < |tag| ==> IsDigit(tag[i])
    ensures ParseDecimal(tag[4..]) == rank
    ensures rank <= 99 <==> |tag| == 6
    ensures rank >= 10 ==> tag[4] != '0'
  {
    ZeroPad2Properties(rank);
    var tag := "ses-" + ZeroPad2(rank);
    assert tag[4..] == ZeroPad2(rank);
    tag
  }

  /** The value of a string of decimal digits. */
  function ParseDecimal(s: string): nat
    requires forall i :: 0 <= i < |s| ==> IsDigit(s[i])
  {
    if s == [] then 0
    else
      assert IsDigit(s[|s| - 1]);
      ParseDecimal(s[..|s| - 1]) * 10 + (s[|s| - 1] as int - '0' as int)
  }

  lemma {:induction false} ParseDecimalRoundTrip(n: nat)
    ensures ParseDecimal(Decimal(n)) == n
  {
    if n >= 10 {
      var digits := Decimal(n);
      assert digits[..|digits| - 1] == Decimal(n / 10);
      ParseDecimalRoundTrip(n / 10);
    }
  }

  /** A leading zero does not change the value. */
  lemma {:induction false} ParseDecimalLeadingZero(s: string)
    requires forall i :: 0 <= i < |s| ==> IsDigit(s[i])
    ensures ParseDecimal("0" + s) == ParseDecimal(s)
  {
    if s != [] {
      assert ("0" + s)[..|s|] == "0" + s[..|s| - 1];
      ParseDecimalLeadingZero(s[..|s| - 1]);
    }
  }

  /** The padded field reads back as the rank, has exactly two digits up to 99 and widens
      beyond that. */
  lemma ZeroPad2Properties(n: nat)
    ensures forall i :: 0 <= i < |ZeroPad2(n)| ==> IsDigit(ZeroPad2(n)[i])
    ensures ParseDecimal(ZeroPad2(n)) == n
    ensures n <= 99 ==> |ZeroPad2(n)| == 2
    ensures n >= 100 ==> |ZeroPad2(n)| >= 3 && ZeroPad2(n) == Decimal(n)
  {
    ParseDecimalRoundTrip(n);
    if n < 10 {
      ParseDecimalLeadingZero(Decimal(n));
    } else if n <= 99 {
      assert Decimal(n / 10) == [DigitChar(n / 10)];
    }
  }

  /** Different ranks get different labels: labels never collide, past 99 included. */
  lemma SessionLabelInjective(a: nat, b: nat)
    requires a != b
    ensures SessionLabel(a) != SessionLabel(b)
  {
    assert ZeroPad2(a) == SessionLabel(a)[4..];
    assert ZeroPad2(b) == SessionLabel(b)[4..];
    ZeroPad2Properties(a);
    ZeroPad2Properties(b);
  }

  lemma SessionLabelExamples()
    ensures SessionLabel(1) == "ses-01"
    ensures SessionLabel(12) == "ses-12"
    ensures SessionLabel(100) == "ses-100"
  {
    assert Decimal(12) == Decimal(1) + [DigitChar(2)];
    assert Decimal(100) == Decimal(10) + [DigitChar(0)];
    assert Decimal(10) == Decimal(1) + [DigitChar(0)];
  }
}
