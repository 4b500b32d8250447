/** Decimal text of integers: the behaviour of `Integer.toString`,
    `Integer.parseInt` and the `%0wd` conversion of `String.format` that the
    column formatter relies on, with the round trips between them. */
module DecimalText {
  import opened JavaArith

  predicate IsDigit(c: char) {
    '0' <= c <= '9'
  }

  predicate AllDigits(s: string) {
    forall i :: 0 <= i < |s| ==> IsDigit(s[i])
  }

  function DigitChar(d: int): (c: char)
    requires 0 <= d <= 9
    ensures IsDigit(c)
  {
    (48 + d) as char
  }

  function DigitValue(c: char): (d: int)
    requires IsDigit(c)
    ensures 0 <= d <= 9 && DigitChar(d) == c
  {
    c as int - 48
  }

  /** The decimal digits of `n`, most significant first, without leading
      zeros ("0" for zero). */
  function Digits(n: nat): (s: string)
    ensures |s| >= 1 && AllDigits(s)
  {
    if n < 10 then [DigitChar(n)] else Digits(n / 10) + [DigitChar(n % 10)]
  }

  /** `Integer.toString(n)`: an optional minus sign, then the digits of |n|. */
  function IntToString(n: int): (s: string)
    ensures IsDecimal(s)
    ensures n >= 0 ==> s == Digits(n)
    ensures n < 0 ==> s[0] == '-' && s[1..] == Digits(-n)
  {
    if n < 0 then "-" + Digits(-n) else Digits(n)
  }

  /** The text `Integer.parseInt` accepts as it is produced here: an
      optional minus sign followed by at least one digit. */
  predicate IsDecimal(s: string) {
    (|s| >= 1 && AllDigits(s)) || (|s| >= 2 && s[0] == '-' && AllDigits(s[1..]))
  }

  /** The value of a digit string, read most significant digit first. */
  function ParseDigits(s: string): (n: nat)
    requires AllDigits(s)
  {
    if s == [] then 0 else 10 * ParseDigits(s[..|s| - 1]) + DigitValue(s[|s| - 1])
  }

  /** `Integer.parseInt(s)` on well-formed decimal text. */
  function ParseInt(s: string): (n: int)
    requires IsDecimal(s)
    ensures s[0] == '-' ==> n <= 0
    ensures s[0] != '-' ==> n >= 0
  {
    if s[0] == '-' then -(ParseDigits(s[1..]) as int) else ParseDigits(s)
  }

  /** `k` copies of the character '0' (none when `k` is not positive). */
  function Zeros(k: int): (s: string)
    ensures |s| == if k <= 0 then 0 else k
    ensures forall i :: 0 <= i < |s| ==> s[i] == '0'
  {
    if k <= 0 then [] else Zeros(k - 1) + ['0']
  }

  /** `String.format("%0" + w + "d", x)`: the digits of |x| padded on the left
      with zeros so that, with the sign of a negative `x`, the text is at
      least `w` characters wide. */
  function FormatZeroPadded(x: int, w: int): (s: string) {
    if x < 0 then "-" + PadLeft(Digits(-x), w - 1) else PadLeft(Digits(x), w)
  }

  function PadLeft(s: string, w: int): (padded: string) {
    Zeros(w - |s|) + s
  }

  /** A digit string of length n has a value below 10^n. */
  lemma {:induction false} ParseDigitsBound(s: string)
    requires AllDigits(s)
    ensures ParseDigits(s) < Pow10(|s|)
  {
    if s != [] {
      ParseDigitsBound(s[..|s| - 1]);
    }
  }

  lemma ParseIntBound(s: string)
    requires IsDecimal(s)
    ensures -(Pow10(|s| - 1) as int) < ParseInt(s) < Pow10(|s|)
  {
    if s[0] == '-' {
      ParseDigitsBound(s[1..]);
    } else {
      ParseDigitsBound(s);
      assert Pow10(|s| - 1) >= 1;
    }
  }

  lemma ZerosAreDigits(k: int)
    ensures AllDigits(Zeros(k))
  {
  }

  /** Appending one digit multiplies the value by ten and adds that digit. */
  lemma ParseDigitsSnoc(s: string, c: char)
    requires AllDigits(s) && IsDigit(c)
    ensures AllDigits(s + [c])
    ensures ParseDigits(s + [c]) == 10 * ParseDigits(s) + DigitValue(c)
  {
    assert (s + [c])[..|s|] == s;
  }

  /** Reading back the digits of `n` gives `n`. */
  lemma {:induction false} ParseDigitsOfDigits(n: nat)
    ensures ParseDigits(Digits(n)) == n
  {
    if n >= 10 {
      ParseDigitsOfDigits(n / 10);
      ParseDigitsSnoc(Digits(n / 10), DigitChar(n % 10));
    }
  }

  /** Reading back `Integer.toString(n)` gives `n`. */
  lemma ParseIntOfIntToString(n: int)
    ensures ParseInt(IntToString(n)) == n
  {
    if n < 0 {
      ParseDigitsOfDigits(-n);
    } else {
      ParseDigitsOfDigits(n);
    }
  }

  /** Right-padding a digit string with `k` zeros multiplies its value by 10^k. */
  lemma {:induction false} ParseDigitsAppendZeros(s: string, k: nat)
    requires AllDigits(s)
    ensures AllDigits(s + Zeros(k))
    ensures ParseDigits(s + Zeros(k)) == ParseDigits(s) * Pow10(k)
  {
    if k == 0 {
      assert s + Zeros(k) == s;
    } else {
      ParseDigitsAppendZeros(s, k - 1);
      ParseDigitsAppendZerosStep(s, k);
    }
  }

  /** One more zero: the step of the induction above. */
  lemma ParseDigitsAppendZerosStep(s: string, k: nat)
    requires AllDigits(s) && k >= 1
    requires AllDigits(s + Zeros(k - 1))
    requires ParseDigits(s + Zeros(k - 1)) == ParseDigits(s) * Pow10(k - 1)
    ensures AllDigits(s + Zeros(k))
    ensures ParseDigits(s + Zeros(k)) == ParseDigits(s) * Pow10(k)
  {
    var t := s + Zeros(k - 1);
    var v, p := ParseDigits(s), Pow10(k - 1);
    assert s + Zeros(k) == t + ['0'] by {
      assert Zeros(k) == Zeros(k - 1) + ['0'];
    }
    ParseDigitsSnoc(t, '0');
    assert ParseDigits(t + ['0']) == 10 * (v * p);
    MulTen(v, p);
  }

  /** Left-padding a digit string with zeros leaves its value unchanged. */
  lemma {:induction false} ParseDigitsLeadingZeros(k: int, s: string)
    requires AllDigits(s)
    ensures AllDigits(Zeros(k) + s)
    ensures ParseDigits(Zeros(k) + s) == ParseDigits(s)
    decreases |s|
  {
    ZerosAreDigits(k);
    if s != [] {
      var init, last := s[..|s| - 1], s[|s| - 1];
      assert s == init + [last];
      ParseDigitsLeadingZeros(k, init);
      assert Zeros(k) + s == (Zeros(k) + init) + [last];
      ParseDigitsSnoc(Zeros(k) + init, last);
    } else {
      assert Zeros(k) + s == Zeros(k);
      if k > 0 {
        ZerosValue(k);
      }
    }
  }

  lemma {:induction false} ZerosValue(k: int)
    ensures AllDigits(Zeros(k)) && ParseDigits(Zeros(k)) == 0
  {
    ZerosAreDigits(k);
    if k > 0 {
      var z := Zeros(k - 1);
      assert Zeros(k) == z + ['0'];
      ZerosValue(k - 1);
      ParseDigitsSnoc(z, '0');
      assert ParseDigits(z + ['0']) == 0;
    }
  }

  /** `Digits(n)` has exactly `d` characters when 10^(d-1) <= n < 10^d (or
      n < 10 and d == 1). */
  lemma {:induction false} DigitsLength(n: nat, d: nat)
    requires 1 <= d && n < Pow10(d) && (d == 1 || Pow10(d - 1) <= n)
    ensures |Digits(n)| == d
  {
    if n >= 10 {
      assert d >= 2;
      DigitsLength(n / 10, d - 1);
    }
  }

  /** A number below 10^w has at most `w` digits. */
  lemma {:induction false} DigitsAtMost(n: nat, w: nat)
    requires 1 <= w && n < Pow10(w)
    ensures |Digits(n)| <= w
  {
    if n >= 10 {
      assert w >= 2;
      DigitsAtMost(n / 10, w - 1);
    }
  }

  /** A number at least 10^(w-1) has at least `w` digits. */
  lemma {:induction false} DigitsAtLeast(n: nat, w: nat)
    requires 1 <= w && Pow10(w - 1) <= n
    ensures |Digits(n)| >= w
  {
    if w >= 2 {
      assert n >= 10;
      DigitsAtLeast(n / 10, w - 1);
    }
  }

  /** A non-negative number below 10^w prints under `%0wd` as exactly `w`
      digits that read back as the number. */
  lemma FormatZeroPaddedRoundTrip(x: int, w: nat)
    requires 1 <= w && 0 <= x < Pow10(w)
    ensures |FormatZeroPadded(x, w)| == w && AllDigits(FormatZeroPadded(x, w))
    ensures ParseDigits(FormatZeroPadded(x, w)) == x
  {
    var d := Digits(x);
    DigitsAtMost(x, w);
    var s := FormatZeroPadded(x, w);
    assert s == Zeros(w - |d|) + d;
    ParseDigitsLeadingZeros(w - |d|, d);
    ParseDigitsOfDigits(x);
    assert ParseDigits(s) == ParseDigits(d);
  }

  /** What `%0wd` writes for every x and w: for x >= 0, digits reading back
      as x; for x < 0, '-' and then digits reading back as -x. The '-'
      counts toward the width, and the text is never shorter than the
      digits of |x| need. */
  lemma FormatZeroPaddedMeaning(x: int, w: int)
    ensures x >= 0 ==> var s := FormatZeroPadded(x, w);
      AllDigits(s) && ParseDigits(s) == x
      && |s| == (if w > |Digits(x)| then w else |Digits(x)|)
    ensures x < 0 ==> var s := FormatZeroPadded(x, w);
      |s| >= 1 && s[0] == '-' && AllDigits(s[1..]) && ParseDigits(s[1..]) == -x
      && |s| == 1 + (if w - 1 > |Digits(-x)| then w - 1 else |Digits(-x)|)
  {
    var m: nat := if x < 0 then -x else x;
    var d := Digits(m);
    var k := (if x < 0 then w - 1 else w) - |d|;
    assert AllDigits(Zeros(k) + d) && ParseDigits(Zeros(k) + d) == m by {
      ParseDigitsLeadingZeros(k, d);
      ParseDigitsOfDigits(m);
    }
    if x < 0 {
      assert FormatZeroPadded(x, w)[1..] == Zeros(k) + d;
    }
  }

  /** A negative value keeps its sign in front of the zeros: `%04d` of -5. */
  lemma FormatZeroPaddedNegativeExample()
    ensures FormatZeroPadded(-5, 4) == "-005"
  {
    assert Digits(5) == "5" && Zeros(2) == "00";
  }

  /** The last of `w` padded digits is the units digit; the others are the
      padded digits of x / 10. */
  lemma FormatZeroPaddedStep(x: int, w: nat)
    requires 2 <= w && 0 <= x < Pow10(w)
    ensures FormatZeroPadded(x, w) == FormatZeroPadded(x / 10, w - 1) + [DigitChar(x % 10)]
  {
    if x < 10 {
      assert Zeros(w - 1) == Zeros(w - 2) + ['0'];
    } else {
      var d := Digits(x / 10);
      assert Digits(x) == d + [DigitChar(x % 10)];
      assert Zeros(w - |Digits(x)|) == Zeros(w - 1 - |d|);
    }
  }

  /** Truncating division by 10^k keeps the first w - k of the `w` padded
      digits: it never rounds. */
  lemma {:induction false} FormatZeroPaddedPrefix(x: int, w: nat, k: nat)
    requires k < w && 0 <= x < Pow10(w)
    ensures |FormatZeroPadded(x, w)| == w
    ensures FormatZeroPadded(x / Pow10(k), w - k) == FormatZeroPadded(x, w)[..w - k]
  {
    if k > 0 {
      var y := x / 10;
      assert y < Pow10(w - 1) by {
        assert x < Pow10(w - 1) * 10;
        DivBelow(x, Pow10(w - 1), 10);
      }
      FormatZeroPaddedPrefix(y, w - 1, k - 1);
      FormatZeroPaddedPrefixStep(x, w, k);
    } else {
      FormatZeroPaddedPrefixBase(x, w);
    }
  }

  lemma FormatZeroPaddedPrefixBase(x: int, w: nat)
    requires 0 < w && 0 <= x < Pow10(w)
    ensures |FormatZeroPadded(x, w)| == w
    ensures FormatZeroPadded(x / Pow10(0), w) == FormatZeroPadded(x, w)[..w]
  {
    FormatZeroPaddedRoundTrip(x, w);
    var s := FormatZeroPadded(x, w);
    assert s[..w] == s;
  }

  /** One step of the induction above: dropping the last padded digit. */
  lemma FormatZeroPaddedPrefixStep(x: int, w: nat, k: nat)
    requires 0 < k < w && 0 <= x < Pow10(w)
    requires |FormatZeroPadded(x / 10, w - 1)| == w - 1
    requires FormatZeroPadded(x / 10 / Pow10(k - 1), w - k) == FormatZeroPadded(x / 10, w - 1)[..w - k]
    ensures |FormatZeroPadded(x, w)| == w
    ensures FormatZeroPadded(x / Pow10(k), w - k) == FormatZeroPadded(x, w)[..w - k]
  {
    var s, head := FormatZeroPadded(x, w), FormatZeroPadded(x / 10, w - 1);
    assert s == head + [DigitChar(x % 10)] by {
      FormatZeroPaddedStep(x, w);
    }
    assert x / Pow10(k) == x / 10 / Pow10(k - 1) by {
      DivPow10Succ(x, k);
    }
    PrefixOfAppend(head, [DigitChar(x % 10)], w - k);
  }

  lemma PrefixOfAppend(a: string, b: string, n: nat)
    requires n <= |a|
    ensures |a + b| == |a| + |b| && (a + b)[..n] == a[..n]
  {
  }

  /** The digits of a positive number do not start with '0'. */
  lemma {:induction false} DigitsLeadingNonZero(n: nat)
    requires n >= 1
    ensures Digits(n)[0] != '0'
  {
    if n >= 10 {
      DigitsLeadingNonZero(n / 10);
      assert Digits(n) == Digits(n / 10) + [DigitChar(n % 10)];
    }
  }

  /** A number below 10^8 written with nine padded digits starts with '0'. */
  lemma NinePaddedLeadingZero(n: nat)
    requires n < 100_000_000
    ensures |FormatZeroPadded(n, 9)| == 9 && FormatZeroPadded(n, 9)[0] == '0'
  {
    assert Pow10(9) == 1_000_000_000 && Pow10(8) == 100_000_000;
    FormatZeroPaddedPrefix(n, 9, 8);
    assert n / Pow10(8) == 0;
    assert FormatZeroPadded(0, 1) == "0";
  }

  /** A digit string of length `w` is the `%0wd` text of its own value. */
  lemma {:induction false} FormatZeroPaddedOfParse(s: string)
    requires 1 <= |s| && AllDigits(s)
    ensures FormatZeroPadded(ParseDigits(s), |s|) == s
  {
    var init, last := s[..|s| - 1], s[|s| - 1];
    assert s == init + [last];
    var x := ParseDigits(s);
    var y := ParseDigits(init);
    assert x == 10 * y + DigitValue(last);
    if init == [] {
      assert x == DigitValue(last);
    } else {
      FormatZeroPaddedOfParse(init);
      assert x / 10 == y && x % 10 == DigitValue(last);
      ParseDigitsBound(s);
      FormatZeroPaddedStep(x, |s|);
      assert FormatZeroPadded(x, |s|) == init + [last];
    }
  }
}
