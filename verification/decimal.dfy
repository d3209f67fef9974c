/** Decimal rendering of counters: the digit width of the sequential numbering
    and the zero-padded `%0<w>d` / `%s` renderings of a natural number. */
module Decimal {

  function Pow10(k: nat): (r: nat)
    ensures r >= 1
  {
    if k == 0 then 1 else 10 * Pow10(k - 1)
  }

  /** The counter width: the least `w` with `10^w >= n`. This is the integer
      reading of `ceil(log10(n))`, which the source computes in floating point. */
  function Width(n: nat): (w: nat)
    requires n >= 1
    ensures n <= Pow10(w)
    ensures w == 0 || Pow10(w - 1) < n
    decreases n
  {
    if n == 1 then 0
    else
      var m := (n + 9) / 10;
      var v := Width(m);
      assert 10 * m >= n && 10 * (m - 1) < n;
      1 + v
  }

  predicate IsDigit(c: char) {
    '0' <= c <= '9'
  }

  predicate IsDecimal(s: string) {
    forall i :: 0 <= i < |s| ==> IsDigit(s[i])
  }

  /** Decimal strings contain none of the separators used in file names. */
  lemma DecimalHasNoSeparator(s: string)
    requires IsDecimal(s)
    ensures '/' !in s && '.' !in s && '-' !in s
  {
  }

  function DigitChar(d: nat): (c: char)
    requires d < 10
    ensures IsDigit(c) && c as int - '0' as int == d
  {
    ('0' as int + d) as char
  }

  function DigitValue(c: char): nat
    requires IsDigit(c)
  {
    c as int - '0' as int
  }

  /** The number a decimal string denotes (leading zeros allowed). */
  function Value(s: string): nat
    requires IsDecimal(s)
  {
    if s == [] then 0 else 10 * Value(s[..|s| - 1]) + DigitValue(s[|s| - 1])
  }

  /** `str(n)`: the canonical decimal rendering, with no leading zero. */
  function Digits(n: nat): (s: string)
    ensures 1 <= |s| && IsDecimal(s)
    ensures |s| > 1 ==> s[0] != '0'
  {
    if n < 10 then [DigitChar(n)]
    else
      var h := Digits(n / 10);
      var s := h + [DigitChar(n % 10)];
      assert s[..|s| - 1] == h;
      s
  }

  /** `str(n)` reads back as `n`. */
  lemma {:induction false} DigitsValue(n: nat)
    ensures Value(Digits(n)) == n
  {
    if n >= 10 {
      var s := Digits(n);
      DigitsValue(n / 10);
      assert s[..|s| - 1] == Digits(n / 10);
    }
  }

  /** `n` has at most `w` digits exactly when it is below `10^w`. */
  lemma {:induction false} DigitsLength(n: nat, w: nat)
    requires w >= 1
    ensures |Digits(n)| <= w <==> n < Pow10(w)
    decreases n
  {
    if n >= 10 {
      assert Digits(n) == Digits(n / 10) + [DigitChar(n % 10)];
      if w >= 2 {
        DigitsLength(n / 10, w - 1);
        assert Pow10(w) == 10 * Pow10(w - 1);
      } else {
        assert Pow10(w) == 10;
      }
    }
  }

  /** The decimal rendering is injective. */
  lemma DigitsInjective(m: nat, n: nat)
    requires Digits(m) == Digits(n)
    ensures m == n
  {
    DigitsValue(m);
    DigitsValue(n);
  }

  function Zeros(k: nat): (s: string)
    ensures |s| == k && IsDecimal(s)
  {
    if k == 0 then [] else Zeros(k - 1) + ['0']
  }

  lemma {:induction false} ZerosPrefixValue(k: nat, s: string)
    requires IsDecimal(s)
    ensures IsDecimal(Zeros(k) + s) && Value(Zeros(k) + s) == Value(s)
    decreases |s|
  {
    var z := Zeros(k) + s;
    if s == [] {
      assert z == Zeros(k);
      ZerosValue(k);
    } else {
      assert z[..|z| - 1] == Zeros(k) + s[..|s| - 1];
      ZerosPrefixValue(k, s[..|s| - 1]);
    }
  }

  lemma {:induction false} ZerosValue(k: nat)
    ensures Value(Zeros(k)) == 0
  {
    if k > 0 {
      assert Zeros(k)[..k - 1] == Zeros(k - 1);
      ZerosValue(k - 1);
    }
  }

  /** `'%0<w>d' % n`: the decimal rendering of `n`, left-padded with zeros to
      at least `w` characters and never truncated (`w == 0` pads nothing). */
  function ZeroPad(n: nat, w: nat): (s: string)
    ensures IsDecimal(s)
    ensures |s| == if w > |Digits(n)| then w else |Digits(n)|
    ensures w >= 1 && n < Pow10(w) ==> |s| == w
  {
    var d := Digits(n);
    var k := if w > |d| then w - |d| else 0;
    DigitsLength(n, if w >= 1 then w else 1);
    Zeros(k) + d
  }

  /** The padding reads back as the number: the leading zeros add nothing. */
  lemma ZeroPadValue(n: nat, w: nat)
    ensures Value(ZeroPad(n, w)) == n
  {
    var d := Digits(n);
    ZerosPrefixValue(if w > |d| then w - |d| else 0, d);
    DigitsValue(n);
  }

  /** Paddings of one width are equal only for equal numbers. */
  lemma ZeroPadInjective(m: nat, n: nat, w: nat)
    requires ZeroPad(m, w) == ZeroPad(n, w)
    ensures m == n
  {
    ZeroPadValue(m, w);
    ZeroPadValue(n, w);
  }

  /** Every 0-based index of `n` entries is rendered with `Width(n)` digits
      when `n >= 2`; a single entry has width 0 and its index renders as "0". */
  lemma PaddedIndexLength(n: nat, i: nat)
    requires 1 <= n && i < n
    ensures |ZeroPad(i, Width(n))| == if n == 1 then 1 else Width(n)
    ensures n == 1 ==> ZeroPad(i, Width(n)) == "0"
  {
    if n == 1 {
      assert Digits(0) == ['0'];
    } else {
      assert Width(n) >= 1;
    }
  }

  /** The width is no larger than needed: for `n >= 2` the last index `n - 1`
      has exactly `Width(n)` digits. */
  lemma WidthIsLastIndexDigits(n: nat)
    requires n >= 2
    ensures |Digits(n - 1)| == Width(n)
  {
    var w := Width(n);
    DigitsLength(n - 1, w);
    if w >= 2 {
      DigitsLength(n - 1, w - 1);
    } else {
      assert w == 1;
      assert Pow10(0) == 1;
    }
  }
}
