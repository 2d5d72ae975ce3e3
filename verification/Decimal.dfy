/** Decimal text of natural numbers and the lexicographic order of strings. */
module Decimal {

  function Pow10(w: nat): (r: nat)
    ensures r >= 1
  {
    if w == 0 then 1 else 10 * Pow10(w - 1)
  }

  lemma {:induction false} Pow10Monotone(a: nat, b: nat)
    requires a <= b
    ensures Pow10(a) <= Pow10(b)
  {
    if a < b {
      Pow10Monotone(a, b - 1);
    }
  }

  lemma PowersOfTen()
    ensures Pow10(5) == 100000 && Pow10(6) == 1000000 && Pow10(9) == 1000000000 && Pow10(10) == 10000000000
    ensures Pow10(12) == 1000000000000
  {
    assert Pow10(2) == 100;
    assert Pow10(4) == 10000;
    assert Pow10(8) == 100000000;
  }

  function Digit(d: nat): char
    requires d < 10
  {
    ('0' as int + d) as char
  }

  function Zeros(k: nat): (r: string)
    ensures |r| == k
  {
    seq(k, i => '0')
  }

  /** `str(n)`. */
  function ToString(n: nat): (r: string)
    ensures |r| > 0 && forall i :: 0 <= i < |r| ==> '0' <= r[i] <= '9'
  {
    (if n < 10 then "" else ToString(n / 10)) + [Digit(n % 10)]
  }

  /** The last `w` decimal digits of `n`. */
  function Digits(n: nat, w: nat): (r: string)
    ensures |r| == w && forall i :: 0 <= i < |r| ==> '0' <= r[i] <= '9'
  {
    if w == 0 then "" else Digits(n / 10, w - 1) + [Digit(n % 10)]
  }

  /** `"0" * (w - len(s)) + s`: Python repeats a negative number of times as zero times. */
  function ZeroFill(s: string, w: nat): (r: string)
  {
    Zeros(if |s| < w then w - |s| else 0) + s
  }

  /** The number a text of digits denotes. */
  function Value(s: string): nat
    requires forall i :: 0 <= i < |s| ==> '0' <= s[i] <= '9'
  {
    if s == "" then 0 else 10 * Value(s[..|s| - 1]) + (s[|s| - 1] as int - '0' as int)
  }

  /** Python's `a < b` on strings. */
  predicate LexLess(a: string, b: string) {
    b != "" && (a == "" || a[0] < b[0] || (a[0] == b[0] && LexLess(a[1..], b[1..])))
  }

  lemma {:induction false} DigitsOfZero(w: nat)
    ensures Digits(0, w) == Zeros(w)
  {
    if w > 0 {
      DigitsOfZero(w - 1);
      assert Zeros(w) == Zeros(w - 1) + ['0'];
    }
  }

  /** Padding the text of a number that fits gives its fixed-width digits. */
  lemma {:induction false} ZeroFillIsDigits(n: nat, w: nat)
    requires w > 0 && n < Pow10(w)
    ensures |ToString(n)| <= w && ZeroFill(ToString(n), w) == Digits(n, w)
  {
    if n < 10 {
      assert n / 10 == 0;
      DigitsOfZero(w - 1);
    } else {
      assert Pow10(w) == 10 * Pow10(w - 1) && Pow10(0) == 1;
      ZeroFillIsDigits(n / 10, w - 1);
      assert ZeroFill(ToString(n), w) == ZeroFill(ToString(n / 10), w - 1) + [Digit(n % 10)];
    }
  }

  /** Appending a digit multiplies by ten and adds the digit. */
  lemma ValueOfAppended(s: string, d: nat)
    requires d < 10 && forall i :: 0 <= i < |s| ==> '0' <= s[i] <= '9'
    ensures Value(s + [Digit(d)]) == 10 * Value(s) + d
  {
    var r := s + [Digit(d)];
    assert r[..|r| - 1] == s;
    assert r[|r| - 1] as int - '0' as int == d;
  }

  lemma QuotientFits(n: nat, w: nat)
    requires w > 0 && n < Pow10(w)
    ensures n / 10 < Pow10(w - 1) && n == 10 * (n / 10) + n % 10
  {
    assert Pow10(w) == 10 * Pow10(w - 1);
  }

  lemma {:induction false} ValueOfDigits(n: nat, w: nat)
    requires n < Pow10(w)
    ensures Value(Digits(n, w)) == n
  {
    if w > 0 {
      var q, d := n / 10, n % 10;
      var rest := Digits(q, w - 1);
      assert q < Pow10(w - 1) && n == 10 * q + d by { QuotientFits(n, w); }
      assert Value(rest) == q by { ValueOfDigits(q, w - 1); }
      assert Digits(n, w) == rest + [Digit(d)];
      assert Value(rest + [Digit(d)]) == 10 * q + d by { ValueOfAppended(rest, d); }
    }
  }

  lemma AppendDigit(v: nat, d: nat, w: nat)
    requires d < 10
    ensures Digits(10 * v + d, w + 1) == Digits(v, w) + [Digit(d)]
  {
  }

  lemma DigitsOfAppended(t: string, d: nat, v: nat)
    requires d < 10 && forall i :: 0 <= i < |t| ==> '0' <= t[i] <= '9'
    requires v == Value(t) < Pow10(|t|) && Digits(v, |t|) == t
    ensures Value(t + [Digit(d)]) == 10 * v + d < Pow10(|t| + 1) && Digits(10 * v + d, |t| + 1) == t + [Digit(d)]
  {
    ValueOfAppended(t, d);
    AppendDigit(v, d, |t|);
    assert Pow10(|t| + 1) == 10 * Pow10(|t|);
  }

  /** A text of digits is the fixed-width text of the number it denotes. */
  lemma {:induction false} DigitsOfValue(s: string)
    requires forall i :: 0 <= i < |s| ==> '0' <= s[i] <= '9'
    ensures IsItsDigits(s)
  {
    if s != "" {
      var t, c := s[..|s| - 1], s[|s| - 1];
      DigitsOfValue(t);
      DigitsOfExtended(t, c);
      assert s == t + [c];
    }
  }

  ghost predicate IsItsDigits(s: string) {
    && (forall i :: 0 <= i < |s| ==> '0' <= s[i] <= '9')
    && Value(s) < Pow10(|s|) && Digits(Value(s), |s|) == s
  }

  lemma DigitsOfExtended(t: string, c: char)
    requires IsItsDigits(t) && '0' <= c <= '9'
    ensures IsItsDigits(t + [c])
  {
    DigitsOfAppended(t, c as int - '0' as int, Value(t));
    DigitOfCharacter(c);
  }

  lemma DigitOfCharacter(c: char)
    requires '0' <= c <= '9'
    ensures Digit(c as int - '0' as int) == c
  {
  }

  lemma {:induction false} ValueOfToString(n: nat)
    ensures Value(ToString(n)) == n
  {
    if n >= 10 {
      ValueOfToString(n / 10);
      ValueOfAppended(ToString(n / 10), n % 10);
    } else {
      ValueOfAppended("", n);
      assert "" + [Digit(n)] == ToString(n);
    }
  }

  lemma {:induction false} LexLessTotal(a: string, b: string)
    ensures !(LexLess(a, b) && LexLess(b, a))
    ensures LexLess(a, b) || LexLess(b, a) || a == b
  {
    if a != "" && b != "" {
      LexLessTotal(a[1..], b[1..]);
      assert a == [a[0]] + a[1..] && b == [b[0]] + b[1..];
    }
  }

  lemma {:induction false} LexLessConcat(a: string, b: string, c: string, d: string)
    requires |a| == |c|
    ensures LexLess(a + b, c + d) <==> LexLess(a, c) || (a == c && LexLess(b, d))
  {
    if a == "" {
      assert a + b == b && c + d == d;
    } else {
      assert (a + b)[1..] == a[1..] + b && (c + d)[1..] == c[1..] + d;
      LexLessConcat(a[1..], b, c[1..], d);
      assert a == [a[0]] + a[1..] && c == [c[0]] + c[1..];
    }
  }

  lemma DigitOrder(d: nat, e: nat)
    requires d < 10 && e < 10
    ensures LexLess([Digit(d)], [Digit(e)]) <==> d < e
  {
    assert [Digit(d)][1..] == "" == [Digit(e)][1..];
    assert !LexLess("", "");
  }

  lemma SplitLastDigit(m: nat, n: nat)
    ensures m < n <==> m / 10 < n / 10 || (m / 10 == n / 10 && m % 10 < n % 10)
  {
  }

  lemma AppendedDigitOrder(a: string, d: nat, c: string, d': nat)
    requires |a| == |c| && d < 10 && d' < 10
    ensures LexLess(a + [Digit(d)], c + [Digit(d')]) <==> LexLess(a, c) || (a == c && d < d')
  {
    LexLessConcat(a, [Digit(d)], c, [Digit(d')]);
    DigitOrder(d, d');
  }

  /** On fixed-width digits the order of texts is the order of numbers. */
  lemma {:induction false} DigitsOrder(m: nat, n: nat, w: nat)
    requires m < Pow10(w) && n < Pow10(w)
    ensures LexLess(Digits(m, w), Digits(n, w)) <==> m < n
  {
    if w > 0 {
      var q, d, q', d' := m / 10, m % 10, n / 10, n % 10;
      assert q < Pow10(w - 1) && q' < Pow10(w - 1) by {
        QuotientFits(m, w);
        QuotientFits(n, w);
      }
      assert LexLess(Digits(q, w - 1), Digits(q', w - 1)) <==> q < q' by {
        DigitsOrder(q, q', w - 1);
      }
      assert Digits(q, w - 1) == Digits(q', w - 1) ==> q == q' by {
        ValueOfDigits(q, w - 1);
        ValueOfDigits(q', w - 1);
      }
      AppendedDigitOrder(Digits(q, w - 1), d, Digits(q', w - 1), d');
      SplitLastDigit(m, n);
    }
  }

  /** The number starts with digit `d`, followed by `k` others. */
  predicate StartsWith(n: nat, d: nat, k: nat) {
    0 < d < 10 && d * Pow10(k) <= n < (d + 1) * Pow10(k)
  }

  /** The first character is the leading digit. */
  lemma {:induction false} LeadingDigit(n: nat, d: nat, k: nat)
    requires StartsWith(n, d, k)
    ensures ToString(n)[0] == Digit(d)
  {
    if k > 0 {
      var low, high := d * Pow10(k - 1), (d + 1) * Pow10(k - 1);
      Tenfold(d, k);
      Tenfold(d + 1, k);
      AtLeastOnce(d, Pow10(k - 1));
      DropLastDigit(n, low, high);
      LeadingDigit(n / 10, d, k - 1);
    }
  }

  lemma Tenfold(d: nat, k: nat)
    requires k > 0
    ensures d * Pow10(k) == 10 * (d * Pow10(k - 1))
  {
    assert Pow10(k) == 10 * Pow10(k - 1);
  }

  lemma DropLastDigit(n: nat, low: nat, high: nat)
    requires 10 * low <= n < 10 * high && low > 0
    ensures low <= n / 10 < high && ToString(n)[0] == ToString(n / 10)[0]
  {
  }

  lemma AtLeastOnce(d: nat, p: nat)
    requires d > 0
    ensures d * p >= p
  {
  }

  lemma {:induction false} LengthExceeds(n: nat, w: nat)
    requires n >= Pow10(w)
    ensures |ToString(n)| > w
  {
    if w > 0 {
      assert Pow10(w) == 10 * Pow10(w - 1);
      LengthExceeds(n / 10, w - 1);
    }
  }
}
