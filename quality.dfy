/**
 * The driver's small decimal reader (`ParseQuality` in tools/bro.cc). It is
 * used for every numeric flag: quality, repeat count, window and mode.
 */
module QualityParser {
  import opened CStrings

  predicate IsDigit(c: char) {
    '0' <= c <= '9'
  }

  function DigitValue(c: char): (d: nat)
    requires IsDigit(c)
    ensures d <= 9
  {
    c as int - '0' as int
  }

  function DigitChar(d: nat): (c: char)
    requires d <= 9
    ensures IsDigit(c) && DigitValue(c) == d
  {
    ('0' as int + d) as char
  }

  predicate AllDigits(t: string) {
    forall i :: 0 <= i < |t| ==> IsDigit(t[i])
  }

  /** The tokens the reader accepts: one or two ASCII digits, nothing else. */
  predicate IsSmallDecimal(t: string) {
    1 <= |t| <= 2 && AllDigits(t)
  }

  /** The value of a string of decimal digits, most significant first. */
  function DecimalValue(t: string): nat
    requires AllDigits(t)
  {
    if t == [] then 0 else 10 * DecimalValue(t[..|t| - 1]) + DigitValue(t[|t| - 1])
  }

  /** One or two digits are worth at most 99. */
  lemma SmallDecimalBound(t: string)
    requires IsSmallDecimal(t)
    ensures DecimalValue(t) <= 99
  {
    if |t| == 1 {
      assert t[..0] == [];
    } else {
      assert t[..1][..0] == [];
      assert DecimalValue(t[..1]) == DigitValue(t[0]);
    }
  }

  /** The canonical spelling of a number below one hundred: no leading zero. */
  function Decimal(n: nat): (s: string)
    requires n <= 99
    ensures IsSmallDecimal(s) && NulFree(s)
    ensures DecimalValue(s) == n
  {
    if n < 10 then [DigitChar(n)]
    else
      var s := [DigitChar(n / 10), DigitChar(n % 10)];
      assert s[..1][..0] == [];
      assert DecimalValue(s[..1]) == n / 10;
      s
  }

  /** The longest run of digits, at most `n` of them, at the start of the C string `s`. */
  function LeadingDigits(s: string, n: nat): (t: string)
    ensures |t| <= n && AllDigits(t)
  {
    if n == 0 || !IsDigit(At(s, 0)) then [] else [s[0]] + LeadingDigits(s[1..], n - 1)
  }

  /**
   * The outcome of a call: whether the token was accepted, and what the
   * caller's integer holds afterwards (the C code writes it through a pointer,
   * and does so before it knows whether the token is well formed).
   */
  datatype QualityParse = QualityParse(ok: bool, value: int)

  function ParseQuality(s: string, prior: int): (r: QualityParse)
    ensures !IsDigit(At(s, 0)) ==> r == QualityParse(false, prior)
    ensures r.ok ==> 0 <= r.value <= 99
  {
    if IsDigit(At(s, 0)) then
      var first := DigitValue(At(s, 0));
      if IsDigit(At(s, 1)) then
        QualityParse(At(s, 2) == NUL, first * 10 + DigitValue(At(s, 1)))
      else
        QualityParse(At(s, 1) == NUL, first)
    else
      QualityParse(false, prior)
  }

  /** The reader accepts exactly the C strings of one or two digits, and then stores their value. */
  lemma ParseQualityAcceptsExactly(s: string, prior: int)
    ensures ParseQuality(s, prior).ok <==> IsSmallDecimal(CStr(s))
    ensures ParseQuality(s, prior).ok ==> ParseQuality(s, prior).value == DecimalValue(CStr(s))
  {
    var t := CStr(s);
    if IsDigit(At(s, 0)) {
      if IsDigit(At(s, 1)) {
        if At(s, 2) == NUL {
          CStrLength(s, 2);
          assert t[..1] == [t[0]];
        } else {
          assert At(s, 0) != NUL && At(s, 1) != NUL && At(s, 2) != NUL;
          assert |t| > 2;
        }
      } else if At(s, 1) == NUL {
        CStrLength(s, 1);
      } else {
        assert At(s, 0) != NUL && At(s, 1) != NUL;
        assert |t| >= 2;
        assert !IsDigit(t[1]);
      }
    } else if At(s, 0) != NUL {
      assert |t| >= 1;
      assert !IsDigit(t[0]);
    }
  }

  /**
   * When the token starts with a digit the caller's integer is overwritten,
   * even if the token is then refused ("1x" leaves 1, "12x" leaves 12).
   */
  lemma ParseQualityWritesLeadingDigits(s: string, prior: int)
    requires IsDigit(At(s, 0))
    ensures ParseQuality(s, prior).value == DecimalValue(LeadingDigits(s, 2))
  {
    var t := LeadingDigits(s, 2);
    var rest := LeadingDigits(s[1..], 1);
    assert t == [s[0]] + rest;
    assert At(s[1..], 0) == At(s, 1);
    if IsDigit(At(s, 1)) {
      assert rest == [s[1]] + LeadingDigits(s[1..][1..], 0);
      assert t == [s[0], s[1]];
      assert t[..1] == [s[0]];
      assert t[..1][..0] == [];
      assert DecimalValue(t[..1]) == DigitValue(s[0]);
      assert At(s, 1) == s[1];
    } else {
      assert rest == [];
      assert t[..0] == [];
    }
  }

  /** Every number the reader can produce is read back from its canonical spelling. */
  lemma ParseQualityReadsDecimal(n: nat, prior: int)
    requires n <= 99
    ensures ParseQuality(Decimal(n), prior) == QualityParse(true, n)
  {
    var s := Decimal(n);
    CStrOfNulFree(s);
    ParseQualityAcceptsExactly(s, prior);
  }

  /** Conversely, an accepted token is the canonical spelling of its value, possibly after one leading zero. */
  lemma ParseQualityOnlyDecimals(s: string, prior: int)
    requires ParseQuality(s, prior).ok
    ensures var v := ParseQuality(s, prior).value;
      CStr(s) == Decimal(v) || CStr(s) == ['0'] + Decimal(v)
  {
    ParseQualityAcceptsExactly(s, prior);
    var t := CStr(s);
    var v := ParseQuality(s, prior).value;
    if |t| == 1 {
      assert t[..0] == [];
      assert DigitChar(v) == t[0];
    } else {
      assert t[..1] == [t[0]];
      var a, b := DigitValue(t[0]), DigitValue(t[1]);
      assert v == 10 * a + b;
      if a == 0 {
        assert DigitChar(b) == t[1];
        assert t == ['0'] + [t[1]];
      } else {
        assert v / 10 == a && v % 10 == b;
        assert DigitChar(a) == t[0] && DigitChar(b) == t[1];
      }
    }
  }
}
