/**
 * The key codec of the store: timestamps become keys through
 * strconv.FormatInt(t, 10), a plain decimal string with a leading '-'
 * for negative numbers. Keys are then ordered byte by byte, so decimal
 * order and numeric order agree only for non-negative numbers written
 * with the same number of digits.
 */
module Decimal {
  import opened ByteOrder

  const Minus: byte := 45   // '-'
  const ZeroDigit: byte := 48   // '0'
  const OneDigit: byte := 49   // '1'

  predicate IsDigit(c: byte) {
    ZeroDigit <= c <= ZeroDigit + 9
  }

  /** The decimal digits of `n`, most significant first, with no leading zero. */
  function Digits(n: nat): (r: Bytes)
    ensures r != [] && forall i :: 0 <= i < |r| ==> IsDigit(r[i])
    ensures r[0] == ZeroDigit <==> n == 0
    ensures |r| == 1 <==> n < 10
    decreases n
  {
    if n < 10 then [ZeroDigit + n] else Digits(n / 10) + [ZeroDigit + n % 10]
  }

  /** strconv.FormatInt(x, 10). */
  function FormatInt(x: int): (r: Bytes)
    ensures r != []
    ensures r[0] == Minus <==> x < 0
  {
    if x < 0 then [Minus] + Digits(-x) else Digits(x)
  }

  /** The number a string of decimal digits stands for; the inverse of Digits. */
  function DigitsValue(s: Bytes): nat
    requires forall i :: 0 <= i < |s| ==> IsDigit(s[i])
  {
    if s == [] then 0
    else
      var last := s[|s| - 1];
      assert IsDigit(last);
      10 * DigitsValue(s[..|s| - 1]) + (last as int - ZeroDigit as int)
  }

  function Pow10(w: nat): nat {
    if w == 0 then 1 else 10 * Pow10(w - 1)
  }

  /** Reading the digits back gives the number: Digits loses nothing. */
  lemma {:induction false} DigitsRoundTrip(n: nat)
    ensures DigitsValue(Digits(n)) == n
  {
    var d := Digits(n);
    if n >= 10 {
      DigitsRoundTrip(n / 10);
      assert d[..|d| - 1] == Digits(n / 10);
    }
  }

  /** Distinct timestamps give distinct keys, so an upsert on one timestamp touches one key. */
  lemma FormatIntInjective(a: int, b: int)
    requires FormatInt(a) == FormatInt(b)
    ensures a == b
  {
    if a < 0 {
      assert b < 0;
      var da, db := Digits(-a), Digits(-b);
      assert FormatInt(a) == [Minus] + da && FormatInt(b) == [Minus] + db;
      assert da == FormatInt(a)[1..] == FormatInt(b)[1..] == db;
      DigitsRoundTrip(-a);
      DigitsRoundTrip(-b);
    } else {
      assert b >= 0;
      DigitsRoundTrip(a);
      DigitsRoundTrip(b);
    }
  }

  /** A positive number has `w` digits exactly when it lies in [10^(w-1), 10^w). */
  lemma {:induction false} DigitsWidth(n: nat, w: nat)
    requires n >= 1 && w >= 1
    ensures |Digits(n)| == w <==> Pow10(w - 1) <= n < Pow10(w)
  {
    if w == 1 {
      assert Pow10(0) == 1 && Pow10(1) == 10;
    } else if n < 10 {
      assert Pow10(w - 1) >= 10 by { PowAtLeastTen(w - 1); }
    } else {
      DigitsWidth(n / 10, w - 1);
      assert Pow10(w) == 10 * Pow10(w - 1);
      assert Pow10(w - 1) == 10 * Pow10(w - 2);
    }
  }

  lemma {:induction false} PowAtLeastTen(w: nat)
    requires w >= 1
    ensures Pow10(w) >= 10
  {
    if w > 1 {
      PowAtLeastTen(w - 1);
    }
  }

  /** Numbers in the same decade [10^(w-1), 10^w) have decimal strings of the same length. */
  lemma SameDecadeSameWidth(a: int, b: int, w: nat)
    requires w >= 1
    requires Pow10(w - 1) <= a < Pow10(w) && Pow10(w - 1) <= b < Pow10(w)
    ensures |FormatInt(a)| == |FormatInt(b)| == w
  {
    if w > 1 {
      PowAtLeastTen(w - 1);
    }
    DigitsWidth(a, w);
    DigitsWidth(b, w);
  }

  /** For equal digit counts, a smaller number has a byte-smaller decimal string. */
  lemma {:induction false} DigitsMonotone(a: nat, b: nat)
    requires |Digits(a)| == |Digits(b)| && a < b
    ensures Less(Digits(a), Digits(b))
  {
    if a >= 10 {
      var pa, pb := Digits(a / 10), Digits(b / 10);
      var ca: byte, cb: byte := ZeroDigit + a % 10, ZeroDigit + b % 10;
      assert Digits(a) == pa + [ca] && Digits(b) == pb + [cb];
      if a / 10 == b / 10 {
        LessAfterCommonPrefix(pa, ca, cb);
      } else {
        DigitsMonotone(a / 10, b / 10);
        LessExtend(pa, pb, [ca], [cb]);
      }
    }
  }

  /**
   * The order the expiry sweep silently relies on: for non-negative
   * numbers with the same digit count, byte order of their decimal
   * strings is numeric order.
   */
  lemma DecimalOrderAgrees(a: int, b: int)
    requires 0 <= a && 0 <= b
    requires |FormatInt(a)| == |FormatInt(b)|
    ensures Less(FormatInt(a), FormatInt(b)) <==> a < b
    ensures LessEq(FormatInt(a), FormatInt(b)) <==> a <= b
  {
    if a < b {
      DigitsMonotone(a, b);
    } else if b < a {
      DigitsMonotone(b, a);
      LessTrichotomy(FormatInt(a), FormatInt(b));
      NotLessEq(FormatInt(a), FormatInt(b));
    }
  }

  /** With different digit counts the orders disagree: 9 < 10, yet "10" sorts before "9". */
  lemma MixedWidthsDisagree()
    ensures 9 < 10 && Less(FormatInt(10), FormatInt(9))
  {
    assert FormatInt(10) == Digits(1) + [ZeroDigit];
    assert FormatInt(9) == [ZeroDigit + 9];
  }

  /**
   * "1" is the sweep's lower bound: a decimal string is at least "1" in
   * byte order exactly when its number is positive, so "0" and every
   * negative timestamp ('-' sorts below '1') lie below it.
   */
  lemma AtLeastOneIffPositive(x: int)
    ensures LessEq([OneDigit], FormatInt(x)) <==> x > 0
  {
    var s := FormatInt(x);
    if x > 0 {
      assert s[0] != ZeroDigit && IsDigit(s[0]);
      if s[0] == OneDigit {
        assert [OneDigit][1..] == [];
        assert Compare([OneDigit], s) == Compare([], s[1..]);
      }
    } else if x == 0 {
      assert s == [ZeroDigit];
    } else {
      assert s[0] == Minus;
    }
  }
}
