/** Decimal numerals of unbounded naturals: `BigInt.prototype.toString()` and the facts
    about digit strings that the fixed-point formatter needs. */
module Numerals {

  function Pow10(n: nat): (r: nat)
    ensures r >= 1
  {
    if n == 0 then 1 else 10 * Pow10(n - 1)
  }

  predicate IsDigit(c: char)
  {
    '0' <= c <= '9'
  }

  predicate IsDigits(s: string)
  {
    forall i :: 0 <= i < |s| ==> IsDigit(s[i])
  }

  function DigitChar(d: nat): (c: char)
    requires d < 10
    ensures IsDigit(c)
  {
    (d + '0' as int) as char
  }

  function DigitValue(c: char): (d: nat)
    requires IsDigit(c)
    ensures d < 10
  {
    c as int - '0' as int
  }

  /** A string of `k` zero digits. */
  function Zeros(k: nat): (z: string)
    ensures |z| == k && IsDigits(z)
  {
    if k == 0 then "" else "0" + Zeros(k - 1)
  }

  /** A numeral without superfluous leading zeros: either "0" or a string whose first digit is not zero. */
  predicate Canonical(s: string)
  {
    |s| >= 1 && IsDigits(s) && (s[0] == '0' ==> s == "0")
  }

  /** `BigInt.prototype.toString()` for a non-negative value. */
  function NatToDecimal(n: nat): (s: string)
    ensures Canonical(s)
  {
    if n < 10 then [DigitChar(n)] else NatToDecimal(n / 10) + [DigitChar(n % 10)]
  }

  /** The number a digit string denotes, most significant digit first. */
  function DecimalValue(s: string): nat
    requires IsDigits(s)
  {
    if |s| == 0 then 0 else DecimalValue(s[..|s| - 1]) * 10 + DigitValue(s[|s| - 1])
  }

  /** `n` with its last `m` decimal digits dropped, that is `n / 10^m` (see `DropDigitsDivides`). */
  function DropDigits(n: nat, m: nat): nat
  {
    if m == 0 then n else DropDigits(n / 10, m - 1)
  }

  /** The last `k` digits of `n`, zero-padded on the left: `n mod 10^k` written with exactly `k` digits. */
  function LowDigits(n: nat, k: nat): (s: string)
    ensures |s| == k && IsDigits(s)
  {
    if k == 0 then "" else LowDigits(n / 10, k - 1) + [DigitChar(n % 10)]
  }

  lemma MulLe(d: nat, a: nat, b: nat)
    requires a <= b
    ensures d * a <= d * b
  {
    var c := b - a;
    assert d * b == d * a + d * c;
  }

  lemma DivUnique(x: nat, d: nat, q: nat, r: nat)
    requires d > 0 && r < d && x == d * q + r
    ensures x / d == q
  {
    var q' := x / d;
    var r' := x % d;
    assert x == d * q' + r';
    if q' < q {
      MulStep(d, q', q);
    } else if q' > q {
      MulStep(d, q, q');
    }
  }

  lemma DivTenDiv(x: nat, b: nat)
    requires b > 0
    ensures x / 10 / b == x / (10 * b)
  {
    var q, r1 := x / 10, x % 10;
    var q2, r2 := q / b, q % b;
    assert q == b * q2 + r2;
    assert x == 10 * q + r1;
    assert 10 * (b * q2) == (10 * b) * q2;
    assert x == (10 * b) * q2 + (10 * r2 + r1);
    assert 10 * r2 + r1 < 10 * b;
    DivUnique(x, 10 * b, q2, 10 * r2 + r1);
  }

  lemma MulStep(d: nat, a: nat, b: nat)
    requires a < b
    ensures d * a + d <= d * b
  {
    MulLe(d, a + 1, b);
    assert d * (a + 1) == d * a + d;
  }

  /** `toString()` reads back as the number it was made from. */
  lemma {:induction false} NatToDecimalValue(n: nat)
    ensures DecimalValue(NatToDecimal(n)) == n
  {
    if n >= 10 {
      var s := NatToDecimal(n);
      assert s[..|s| - 1] == NatToDecimal(n / 10);
      NatToDecimalValue(n / 10);
    }
  }

  /** Leading zeros do not change the value of a numeral. */
  lemma {:induction false} ZerosKeepValue(k: nat, s: string)
    requires IsDigits(s)
    ensures IsDigits(Zeros(k) + s)
    ensures DecimalValue(Zeros(k) + s) == DecimalValue(s)
    decreases |s|
  {
    var t := Zeros(k) + s;
    assert IsDigits(t) by {
      forall i | 0 <= i < |t| ensures IsDigit(t[i]) {
        if i < k { assert t[i] == Zeros(k)[i]; } else { assert t[i] == s[i - k]; }
      }
    }
    if |s| == 0 {
      assert t == Zeros(k);
      ZerosValue(k);
    } else {
      assert t[..|t| - 1] == Zeros(k) + s[..|s| - 1];
      ZerosKeepValue(k, s[..|s| - 1]);
    }
  }

  lemma {:induction false} ZerosValue(k: nat)
    ensures DecimalValue(Zeros(k)) == 0
  {
    if k > 0 {
      assert Zeros(k)[..k - 1] == Zeros(k - 1) by {
        assert Zeros(k) == Zeros(k - 1) + "0" by { ZerosSnoc(k); }
      }
      ZerosValue(k - 1);
    }
  }

  lemma {:induction false} ZerosSnoc(k: nat)
    requires k > 0
    ensures Zeros(k) == Zeros(k - 1) + "0"
  {
    if k > 1 {
      ZerosSnoc(k - 1);
    }
  }

  /** Dropping the last `m` characters of a numeral drops the last `m` digits of its value. */
  lemma {:induction false} PrefixValue(s: string, m: nat)
    requires IsDigits(s) && m <= |s|
    ensures DecimalValue(s[..|s| - m]) == DropDigits(DecimalValue(s), m)
  {
    if m > 0 {
      var s' := s[..|s| - 1];
      assert s'[..|s'| - (m - 1)] == s[..|s| - m];
      assert DecimalValue(s') == DecimalValue(s) / 10;
      PrefixValue(s', m - 1);
    } else {
      assert s[..|s|] == s;
    }
  }

  /** The last `k` characters of a numeral are the last `k` digits of its value. */
  lemma {:induction false} SuffixDigits(s: string, k: nat)
    requires IsDigits(s) && k <= |s|
    ensures s[|s| - k..] == LowDigits(DecimalValue(s), k)
  {
    if k > 0 {
      var s' := s[..|s| - 1];
      var n := DecimalValue(s);
      assert n / 10 == DecimalValue(s') && n % 10 == DigitValue(s[|s| - 1]);
      SuffixDigits(s', k - 1);
      assert s[|s| - k..] == s'[|s'| - (k - 1)..] + [s[|s| - 1]];
      assert DigitChar(DigitValue(s[|s| - 1])) == s[|s| - 1];
    }
  }

  /** Dropping the last `m` characters of `toString(n)` gives `toString` of `n` with `m` digits dropped. */
  lemma {:induction false} NumeralPrefix(n: nat, m: nat)
    requires m < |NatToDecimal(n)|
    ensures NatToDecimal(n)[..|NatToDecimal(n)| - m] == NatToDecimal(DropDigits(n, m))
  {
    if m > 0 {
      var s := NatToDecimal(n);
      assert n >= 10;
      var s' := NatToDecimal(n / 10);
      assert s == s' + [DigitChar(n % 10)];
      assert s[..|s| - m] == s'[..|s'| - (m - 1)];
      NumeralPrefix(n / 10, m - 1);
    }
  }

  /** A numeral of at most `m` digits has nothing left once `m` digits are dropped. */
  lemma {:induction false} DropAllDigits(n: nat, m: nat)
    requires |NatToDecimal(n)| <= m
    ensures DropDigits(n, m) == 0
  {
    if n < 10 {
      DropZero(n / 10, m - 1);
    } else {
      assert NatToDecimal(n) == NatToDecimal(n / 10) + [DigitChar(n % 10)];
      DropAllDigits(n / 10, m - 1);
    }
  }

  lemma {:induction false} DropZero(n: nat, m: nat)
    requires n == 0
    ensures DropDigits(n, m) == 0
  {
    if m > 0 {
      DropZero(n / 10, m - 1);
    }
  }

  /** Dropping `m` digits is division by `10^m`. */
  lemma {:induction false} DropDigitsDivides(n: nat, m: nat)
    ensures DropDigits(n, m) == n / Pow10(m)
  {
    if m > 0 {
      DropDigitsDivides(n / 10, m - 1);
      DivTenDiv(n, Pow10(m - 1));
    }
  }

  /** The `k` low digits of `n` denote `n mod 10^k`. */
  lemma {:induction false} LowDigitsValue(n: nat, k: nat)
    ensures DecimalValue(LowDigits(n, k)) == n % Pow10(k)
  {
    if k > 0 {
      var s := LowDigits(n, k);
      var s' := LowDigits(n / 10, k - 1);
      LowDigitsValue(n / 10, k - 1);
      assert s[..|s| - 1] == s';
      assert DigitValue(s[|s| - 1]) == n % 10;
      ModTenMod(n, Pow10(k - 1));
    }
  }

  /** `(n / 10) mod b`, shifted by one digit, with the last digit of `n` added back is `n mod 10b`. */
  lemma ModTenMod(n: nat, b: nat)
    requires b > 0
    ensures (n / 10) % b * 10 + n % 10 == n % (10 * b)
  {
    var q, r1 := n / 10, n % 10;
    var q2, r2 := q / b, q % b;
    assert n == 10 * q + r1;
    assert q == b * q2 + r2;
    assert 10 * (b * q2) == (10 * b) * q2;
    assert n == (10 * b) * q2 + (10 * r2 + r1);
    DivUnique(n, 10 * b, q2, 10 * r2 + r1);
  }
}
