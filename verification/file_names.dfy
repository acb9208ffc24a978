/**
 * The name under which the k-th downloaded image is saved: the Python
 * format `f"{k:04d}.jpg"`, i.e. the decimal digits of `k` left-padded with
 * zeros to at least four characters, followed by the extension `.jpg`.
 * Python's `04d` pads but never truncates, so indices of 10000 and above
 * get five or more digits.
 */
module FileNames {

  const Extension: string := ".jpg"
  const Width: nat := 4

  predicate IsDigit(c: char) {
    '0' <= c <= '9'
  }

  predicate AllDigits(s: string) {
    forall i :: 0 <= i < |s| ==> IsDigit(s[i])
  }

  function DigitChar(d: nat): (c: char)
    requires d < 10
    ensures IsDigit(c)
    ensures (c as int) - ('0' as int) == d
  {
    (('0' as int) + d) as char
  }

  /** The shortest decimal spelling of `n` ("0" for zero). */
  function Decimal(n: nat): (s: string)
    ensures 1 <= |s|
    ensures AllDigits(s)
    ensures n < 10 ==> |s| == 1
    ensures s[0] != '0' || n == 0
  {
    if n < 10 then [DigitChar(n)] else Decimal(n / 10) + [DigitChar(n % 10)]
  }

  /** Reads a run of decimal digits back into a number; leading zeros are harmless. */
  function ValueOf(s: string): nat
    requires AllDigits(s)
  {
    if |s| == 0 then 0
    else ValueOf(s[..|s| - 1]) * 10 + ((s[|s| - 1] as int) - ('0' as int))
  }

  function Zeros(k: nat): (z: string)
    ensures |z| == k
    ensures forall i :: 0 <= i < k ==> z[i] == '0'
  {
    if k == 0 then [] else Zeros(k - 1) + ['0']
  }

  /** `s` left-padded with '0' to at least `width` characters. */
  function PadLeft(s: string, width: nat): (p: string)
    ensures |p| == if |s| >= width then |s| else width
    ensures p[|p| - |s|..] == s
    ensures forall i :: 0 <= i < |p| - |s| ==> p[i] == '0'
  {
    if |s| >= width then s else Zeros(width - |s|) + s
  }

  /** The file name of the image saved when `k` images had been saved before it (main.py:149). */
  function FileName(k: nat): string
  {
    PadLeft(Decimal(k), Width) + Extension
  }

  /** The index part of a file name: everything before the extension. */
  function Stem(name: string): string
    requires |name| >= |Extension|
  {
    name[..|name| - |Extension|]
  }

  lemma {:induction false} DecimalValue(n: nat)
    ensures ValueOf(Decimal(n)) == n
  {
    if n >= 10 {
      var s := Decimal(n);
      assert s[..|s| - 1] == Decimal(n / 10);
      DecimalValue(n / 10);
    }
  }

  lemma {:induction false} LeadingZerosValue(k: nat, s: string)
    requires AllDigits(s)
    ensures AllDigits(Zeros(k) + s)
    ensures ValueOf(Zeros(k) + s) == ValueOf(s)
    decreases |s|
  {
    var z := Zeros(k) + s;
    if |s| == 0 {
      ZerosValue(k);
      assert z == Zeros(k);
    } else {
      assert z[..|z| - 1] == Zeros(k) + s[..|s| - 1];
      LeadingZerosValue(k, s[..|s| - 1]);
    }
  }

  lemma {:induction false} ZerosValue(k: nat)
    ensures AllDigits(Zeros(k))
    ensures ValueOf(Zeros(k)) == 0
  {
    if k > 0 {
      assert Zeros(k)[..k - 1] == Zeros(k - 1);
      ZerosValue(k - 1);
    }
  }

  /** The decimal spelling has at most four digits exactly when `n` is below 10000. */
  lemma {:induction false} DecimalLength(n: nat)
    ensures |Decimal(n)| <= Width <==> n < 10000
  {
    DecimalLengthBound(n, 10000, Width);
  }

  /** Generalisation of DecimalLength to any power of ten. */
  lemma {:induction false} DecimalLengthBound(n: nat, p: nat, e: nat)
    requires e >= 1 && p == Pow10(e)
    ensures |Decimal(n)| <= e <==> n < p
    decreases e
  {
    if n < 10 {
      assert 10 <= p by { Pow10AtLeastTen(e); }
    } else if e == 1 {
    } else {
      DecimalLengthBound(n / 10, p / 10, e - 1);
    }
  }

  function Pow10(e: nat): (p: nat)
    ensures p >= 1
  {
    if e == 0 then 1 else 10 * Pow10(e - 1)
  }

  lemma Pow10AtLeastTen(e: nat)
    requires e >= 1
    ensures Pow10(e) >= 10
  {
  }

  /**
   * The stem of FileName(k) is a run of digits spelling `k`: the name can
   * be read back into the index it was made from.
   */
  lemma FileNameRoundTrip(k: nat)
    ensures |FileName(k)| >= |Extension|
    ensures FileName(k)[|FileName(k)| - |Extension|..] == Extension
    ensures AllDigits(Stem(FileName(k)))
    ensures ValueOf(Stem(FileName(k))) == k
  {
    var d := Decimal(k);
    var p := PadLeft(d, Width);
    assert Stem(FileName(k)) == p;
    if |d| < Width {
      LeadingZerosValue(Width - |d|, d);
    }
    DecimalValue(k);
  }

  /** Different indices give different file names, so no saved image overwrites another. */
  lemma FileNameInjective(a: nat, b: nat)
    requires a != b
    ensures FileName(a) != FileName(b)
  {
    FileNameRoundTrip(a);
    FileNameRoundTrip(b);
  }

  /** Below 10000 the name is four digits plus ".jpg"; from 10000 on it is longer. */
  lemma FileNameLength(k: nat)
    ensures k < 10000 ==> |FileName(k)| == Width + |Extension|
    ensures k >= 10000 ==> |FileName(k)| > Width + |Extension|
  {
    DecimalLength(k);
  }

  lemma FileNameExamples()
    ensures FileName(0) == "0000.jpg"
    ensures FileName(4) == "0004.jpg"
    ensures FileName(999) == "0999.jpg"
    ensures FileName(12345) == "12345.jpg"
  {
    assert Decimal(4) == "4";
    assert Decimal(9) == "9";
    assert Decimal(99) == "99";
    assert Decimal(999) == "999";
    assert Zeros(1) == "0";
    assert Zeros(3) == "000";
    assert Decimal(1) == "1";
    assert Decimal(12) == "12";
    assert Decimal(123) == "123";
    assert Decimal(1234) == "1234";
    assert Decimal(12345) == "12345";
  }
}
