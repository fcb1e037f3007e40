/** String helpers of the leaderboard: JavaScript substring and slice, address truncation,
    insertion at an index, and the fixed-point amount formatter with thousands separators. */
module Util {
  import opened Wrappers
  import opened Seqs
  import opened Numerals

  const ThousandsSeparator: char := ','
  const DecimalSeparator: char := '.'

  /** Clamps an index into `[0, len]`. */
  function Clamp(i: int, len: nat): (r: nat)
    ensures r <= len
    ensures 0 <= i <= len ==> r == i
  {
    if i < 0 then 0 else if i > len then len else i
  }

  /** `String.prototype.substring(start, end)`: both indices clamped into the string, swapped when reversed. */
  function Substring(s: string, start: int, end: int): (r: string)
    ensures 0 <= start <= end <= |s| ==> r == s[start..end]
    ensures |r| <= |s|
  {
    var a, b := Clamp(start, |s|), Clamp(end, |s|);
    if a <= b then s[a..b] else s[b..a]
  }

  /** Resolves a `slice` index: negative indices count from the end. */
  function RelativeIndex(i: int, len: nat): (r: nat)
    ensures r <= len
    ensures i < 0 && len + i >= 0 ==> r == len + i
    ensures 0 <= i <= len ==> r == i
  {
    if i < 0 then (if len + i < 0 then 0 else len + i) else (if i > len then len else i)
  }

  /** `String.prototype.slice(start, end)`: negative indices count from the end; a reversed range is empty. */
  function Slice(s: string, start: int, end: int): (r: string)
    ensures |r| <= |s|
    ensures 0 <= start <= end <= |s| ==> r == s[start..end]
    ensures -|s| <= start < 0 && end == |s| ==> r == s[|s| + start..]
    ensures 0 <= end <= start ==> r == ""
  {
    var a, b := RelativeIndex(start, |s|), RelativeIndex(end, |s|);
    if a < b then s[a..b] else ""
  }

  /** `truncateSS58Address`: the first four and last four characters around an ellipsis. */
  function TruncateSS58Address(address: string): (r: string)
    ensures |address| >= 4 ==> r == address[..4] + "..." + address[|address| - 4..] && |r| == 11
    ensures |address| < 4 ==> r == address + "..." + address
  {
    Slice(address, 0, 4) + "..." + Slice(address, -4, |address|)
  }

  /** `insertAtIndex`: `insert` spliced into `actual` before position `index` (clamped into the string). */
  function InsertAtIndex(actual: string, index: int, insert: string): (r: string)
    ensures 0 <= index <= |actual| ==> r == actual[..index] + insert + actual[index..]
    ensures index < 0 ==> r == insert + actual
    ensures index > |actual| ==> r == actual + insert
    ensures |r| == |actual| + |insert|
  {
    Substring(actual, 0, index) + insert + Substring(actual, index, |actual|)
  }

  /** The padding loop of `formatNumber`: prepend `'0'` until the string is `width` long. */
  function PadZeros(s: string, width: nat): (r: string)
    ensures |r| == if |s| < width then width else |s|
    ensures r == Zeros(|r| - |s|) + s
    decreases width - |s|
  {
    if |s| < width then
      var r := PadZeros("0" + s, width);
      ZerosSnoc(|r| - |s|);
      assert r == Zeros(|r| - |s|) + s by {
        assert Zeros(|r| - |s|) + s == Zeros(|r| - |s| - 1) + ("0" + s);
      }
      r
    else
      assert s == Zeros(0) + s;
      s
  }

  /** The separator loop of `formatNumber`: insert a separator at `i`, then at `i - 3`, and so on while positive. */
  function InsertSeparators(s: string, i: int): string
    decreases if i < 0 then 0 else i
  {
    if i > 0 then InsertSeparators(InsertAtIndex(s, i, [ThousandsSeparator]), i - 3) else s
  }

  predicate NotSeparator(c: char)
  {
    c != ThousandsSeparator
  }

  /** The digits of a separated numeral: every separator removed. */
  function Strip(s: string): string
  {
    Filter(s, NotSeparator)
  }

  /** Reference grouping of a digit string in threes from the right. */
  function Group3(u: string): string
    decreases |u|
  {
    if |u| <= 3 then u else Group3(u[..|u| - 3]) + [ThousandsSeparator] + u[|u| - 3..]
  }

  /** Separators sit exactly where the distance to the end is a multiple of four, and the length is not
      one: every group after the first has three digits, the first has one to three, none leads. */
  predicate WellGrouped(g: string)
  {
    |g| % 4 != 0 && forall j :: 0 <= j < |g| ==> (g[j] == ThousandsSeparator <==> (|g| - j) % 4 == 0)
  }

  /** The reference grouping is well grouped, and removing the separators gives back the digits. */
  lemma {:induction false} Group3WellGrouped(u: string)
    requires IsDigits(u) && |u| >= 1
    ensures Strip(Group3(u)) == u
    ensures WellGrouped(Group3(u))
    decreases |u|
  {
    if |u| <= 3 {
      StripDigits(u);
    } else {
      var head, tail := u[..|u| - 3], u[|u| - 3..];
      assert u == head + tail;
      assert Group3(u) == Group3(head) + [ThousandsSeparator] + tail;
      Group3WellGrouped(head);
      SeparatorStep(Group3(head), head, tail);
    }
  }

  /** One step of the reference grouping keeps the separated string well grouped. */
  lemma SeparatorStep(g': string, head: string, tail: string)
    requires IsDigits(head) && IsDigits(tail) && |tail| == 3
    requires Strip(g') == head && WellGrouped(g')
    ensures Strip(g' + [ThousandsSeparator] + tail) == head + tail
    ensures WellGrouped(g' + [ThousandsSeparator] + tail)
  {
    var sep: string := [ThousandsSeparator];
    StripConcat(g', sep, tail);
    assert Strip(sep) == [];
    StripDigits(tail);
    SeparatorPositions(g', tail);
  }

  lemma StripConcat(a: string, b: string, c: string)
    ensures Strip(a + b + c) == Strip(a) + Strip(b) + Strip(c)
  {
    FilterConcat(a + b, c, NotSeparator);
    FilterConcat(a, b, NotSeparator);
  }

  lemma SeparatorPositions(g': string, tail: string)
    requires IsDigits(tail) && |tail| == 3 && WellGrouped(g')
    ensures WellGrouped(g' + [ThousandsSeparator] + tail)
  {
    var g := g' + [ThousandsSeparator] + tail;
    var n := |g'|;
    assert |g| == n + 4;
    forall j | 0 <= j < |g|
      ensures g[j] == ThousandsSeparator <==> (|g| - j) % 4 == 0
    {
      if j < n {
        assert g[j] == g'[j];
        ModShift(n - j);
      } else if j > n {
        assert g[j] == tail[j - n - 1];
        assert |g| - j < 4;
      }
    }
    ModShift(n);
  }

  lemma ModShift(n: nat)
    ensures (n + 4) % 4 == n % 4
  {
  }

  /** A string without separators is its own stripped form. */
  lemma {:induction false} StripDigits(u: string)
    requires IsDigits(u)
    ensures Strip(u) == u
  {
    FilterAll(u, NotSeparator);
  }

  /** The separator loop computes the reference grouping of the part before `w`, leaving `w` untouched. */
  lemma {:induction false} InsertSeparatorsGroups(u: string, w: string)
    requires IsDigits(u) && |u| >= 1
    ensures InsertSeparators(u + w, |u| - 3) == Group3(u) + w
    decreases |u|
  {
    if |u| > 3 {
      var head, tail := u[..|u| - 3], u[|u| - 3..];
      var w' := [ThousandsSeparator] + tail + w;
      InsertOneSeparator(u, w);
      Group3Step(u, w);
      InsertSeparatorsGroups(head, w');
    }
  }

  /** One turn of the separator loop, three digits before the end of `u`. */
  lemma InsertOneSeparator(u: string, w: string)
    requires |u| > 3
    ensures InsertSeparators(u + w, |u| - 3) == InsertSeparators(u[..|u| - 3] + ([ThousandsSeparator] + u[|u| - 3..] + w), |u| - 6)
  {
    var head, tail := u[..|u| - 3], u[|u| - 3..];
    InsertAtSplit(head, tail, w);
    assert u == head + tail;
    Assoc(head, tail, w);
  }

  /** One turn of the reference grouping, with `w` following. */
  lemma Group3Step(u: string, w: string)
    requires |u| > 3
    ensures Group3(u) + w == Group3(u[..|u| - 3]) + ([ThousandsSeparator] + u[|u| - 3..] + w)
  {
    var g, tail := Group3(u[..|u| - 3]), u[|u| - 3..];
    assert Group3(u) == g + [ThousandsSeparator] + tail;
    Assoc4(g, [ThousandsSeparator], tail, w);
  }

  lemma InsertAtSplit(head: string, tail: string, w: string)
    ensures InsertAtIndex(head + (tail + w), |head|, [ThousandsSeparator]) == head + ([ThousandsSeparator] + tail + w)
  {
    var s := head + (tail + w);
    assert s[..|head|] == head;
    assert s[|head|..] == tail + w;
  }

  /** `formatNumber(value, decimals, formatDecimals, ticker)`: `value` read as a fixed-point number with
      `decimals` fractional digits, cut (not rounded) to `formatDecimals` fractional digits, its integer
      part grouped in threes, and the ticker appended after a space when it is truthy. */
  function FormatNumber(value: nat, decimals: nat, formatDecimals: nat, ticker: Optional<string>): string
    requires formatDecimals <= decimals
  {
    SplitAndJoin(Cut(Padded(value, decimals), decimals, formatDecimals), formatDecimals, ticker)
  }

  /** The second half of `formatNumber`: split the kept digits into integer and fractional part, group the
      integer part, join with the decimal point and append the ticker. */
  function SplitAndJoin(kept: string, formatDecimals: nat, ticker: Optional<string>): string
  {
    var integerPart := Substring(kept, 0, |kept| - formatDecimals);
    var grouped := InsertSeparators(integerPart, |integerPart| - 3);
    var decimalPart := Substring(kept, |kept| - formatDecimals, |kept|);
    var joined := grouped + [DecimalSeparator] + decimalPart;
    if Truthy(ticker) then joined + " " + ticker.value else joined
  }

  /** The ticker suffix `formatNumber` appends. */
  function TickerSuffix(ticker: Optional<string>): string
  {
    if Truthy(ticker) then " " + ticker.value else ""
  }

  /** After the padding loop the digit string has at least `decimals + 1` digits and still denotes `value`. */
  lemma PaddedNumeral(value: nat, decimals: nat)
    ensures |Padded(value, decimals)| >= decimals + 1
    ensures IsDigits(Padded(value, decimals))
    ensures DecimalValue(Padded(value, decimals)) == value
  {
    var s := NatToDecimal(value);
    var padded := PadZeros(s, decimals + 1);
    ZerosKeepValue(|padded| - |s|, s);
    NatToDecimalValue(value);
  }

  /** The integer part `formatNumber` cuts from the padded numeral is the numeral of `value / 10^decimals`. */
  lemma IntegerPartIsQuotient(value: nat, decimals: nat)
    ensures |Padded(value, decimals)| >= decimals
    ensures Padded(value, decimals)[..|Padded(value, decimals)| - decimals] == NatToDecimal(DropDigits(value, decimals))
  {
    var s := NatToDecimal(value);
    var padded := PadZeros(s, decimals + 1);
    if |s| >= decimals + 1 {
      assert padded == s by {
        assert Zeros(0) + s == s;
      }
      NumeralPrefix(value, decimals);
    } else {
      DropAllDigits(value, decimals);
      assert NatToDecimal(0) == "0" by {
        assert DigitChar(0) == '0';
      }
      assert |padded| - decimals == 1;
      assert padded[0] == Zeros(|padded| - |s|)[0] == '0';
    }
  }

  /** What `formatNumber` returns: the grouped numeral of `value / 10^decimals`, the decimal point, the last
      `formatDecimals` digits of `value / 10^(decimals - formatDecimals)` (truncation, not rounding), and the
      ticker suffix. */
  lemma FormatNumberSpec(value: nat, decimals: nat, formatDecimals: nat, ticker: Optional<string>)
    requires formatDecimals <= decimals
    ensures FormatNumber(value, decimals, formatDecimals, ticker)
         == Group3(NatToDecimal(DropDigits(value, decimals))) + [DecimalSeparator]
            + LowDigits(DropDigits(value, decimals - formatDecimals), formatDecimals) + TickerSuffix(ticker)
  {
    var kept := Cut(Padded(value, decimals), decimals, formatDecimals);
    KeptIntegerPart(value, decimals, formatDecimals);
    KeptFraction(value, decimals, formatDecimals);
    var numeral := NatToDecimal(DropDigits(value, decimals));
    var fraction := LowDigits(DropDigits(value, decimals - formatDecimals), formatDecimals);
    assert Substring(kept, 0, |kept| - formatDecimals) == numeral;
    assert Substring(kept, |kept| - formatDecimals, |kept|) == fraction;
    JoinParts(kept, formatDecimals, ticker);
    assert FormatNumber(value, decimals, formatDecimals, ticker) == SplitAndJoin(kept, formatDecimals, ticker);
  }

  /** Joining an integer part that is a numeral groups it with the reference grouping. */
  lemma JoinParts(kept: string, formatDecimals: nat, ticker: Optional<string>)
    requires |kept| >= formatDecimals + 1
    requires IsDigits(Substring(kept, 0, |kept| - formatDecimals))
    ensures SplitAndJoin(kept, formatDecimals, ticker)
         == Group3(Substring(kept, 0, |kept| - formatDecimals)) + [DecimalSeparator]
            + Substring(kept, |kept| - formatDecimals, |kept|) + TickerSuffix(ticker)
  {
    var integerPart := Substring(kept, 0, |kept| - formatDecimals);
    InsertSeparatorsGroups(integerPart, []);
    assert integerPart + [] == integerPart;
  }


  /** The padding loop of `formatNumber` applied to the numeral of `value`: at least `decimals + 1` digits. */
  function Padded(value: nat, decimals: nat): string
  {
    PadZeros(NatToDecimal(value), decimals + 1)
  }

  /** The cut of `formatNumber`: the padded numeral with its last `decimals - formatDecimals` digits dropped. */
  function Cut(padded: string, decimals: nat, formatDecimals: nat): string
    requires formatDecimals <= decimals
  {
    Substring(padded, 0, |padded| - decimals + formatDecimals)
  }

  /** The integer part of the kept digits is the numeral of `value / 10^decimals`. */
  lemma KeptIntegerPart(value: nat, decimals: nat, formatDecimals: nat)
    requires formatDecimals <= decimals
    ensures |Cut(Padded(value, decimals), decimals, formatDecimals)| >= formatDecimals + 1
    ensures var kept := Cut(Padded(value, decimals), decimals, formatDecimals);
      Substring(kept, 0, |kept| - formatDecimals) == NatToDecimal(DropDigits(value, decimals))
  {
    PaddedNumeral(value, decimals);
    IntegerPartIsQuotient(value, decimals);
    IntegerOfPadded(Padded(value, decimals), decimals, formatDecimals);
  }

  lemma IntegerOfPadded(padded: string, decimals: nat, formatDecimals: nat)
    requires |padded| >= decimals + 1 && formatDecimals <= decimals
    ensures |Cut(padded, decimals, formatDecimals)| >= formatDecimals + 1
    ensures var kept := Cut(padded, decimals, formatDecimals);
      Substring(kept, 0, |kept| - formatDecimals) == padded[..|padded| - decimals]
  {
    var kept := Cut(padded, decimals, formatDecimals);
    assert kept == padded[..|padded| - (decimals - formatDecimals)];
    assert Substring(kept, 0, |kept| - formatDecimals) == kept[..|kept| - formatDecimals];
  }


  /** The fractional part of the kept digits is the last `formatDecimals` digits of
      `value / 10^(decimals - formatDecimals)`: the value is truncated, not rounded. */
  lemma KeptFraction(value: nat, decimals: nat, formatDecimals: nat)
    requires formatDecimals <= decimals
    ensures var kept := Cut(Padded(value, decimals), decimals, formatDecimals);
      Substring(kept, |kept| - formatDecimals, |kept|) == LowDigits(DropDigits(value, decimals - formatDecimals), formatDecimals)
  {
    PaddedNumeral(value, decimals);
    FractionOfPadded(Padded(value, decimals), value, decimals, formatDecimals);
  }

  lemma FractionOfPadded(padded: string, value: nat, decimals: nat, formatDecimals: nat)
    requires IsDigits(padded) && |padded| >= decimals + 1 && DecimalValue(padded) == value
    requires formatDecimals <= decimals
    ensures var kept := Cut(padded, decimals, formatDecimals);
      Substring(kept, |kept| - formatDecimals, |kept|) == LowDigits(DropDigits(value, decimals - formatDecimals), formatDecimals)
  {
    var kept := Cut(padded, decimals, formatDecimals);
    assert kept == padded[..|padded| - (decimals - formatDecimals)];
    assert Substring(kept, |kept| - formatDecimals, |kept|) == kept[|kept| - formatDecimals..];
    KeptSuffix(padded, value, decimals - formatDecimals, formatDecimals);
  }


  /** Cutting `m` digits off a numeral of `value` leaves, as its last `k` digits, those of `value / 10^m`. */
  lemma KeptSuffix(padded: string, value: nat, m: nat, k: nat)
    requires IsDigits(padded) && |padded| >= m + k && DecimalValue(padded) == value
    ensures var kept := padded[..|padded| - m];
      kept[|kept| - k..] == LowDigits(DropDigits(value, m), k)
  {
    var kept := padded[..|padded| - m];
    assert IsDigits(kept);
    PrefixValue(padded, m);
    SuffixDigits(kept, k);
  }

  /** Amounts with twelve decimals shown with two, as the Kusama leaderboard does. */
  lemma TwelveDecimalsShownWithTwo(value: nat, whole: nat, cents: nat, ticker: Optional<string>)
    requires value / 1000000000000 == whole && value / 10000000000 == cents
    ensures FormatNumber(value, 12, 2, ticker) == Group3(NatToDecimal(whole)) + [DecimalSeparator] + LowDigits(cents, 2) + TickerSuffix(ticker)
  {
    assert DropDigits(value, 12) == whole by {
      DropDigitsDivides(value, 12);
      assert Pow10(12) == 1000000000000;
    }
    assert DropDigits(value, 12 - 2) == cents by {
      DropDigitsDivides(value, 10);
      assert Pow10(10) == 10000000000;
    }
    FormatNumberSpec(value, 12, 2, ticker);
  }

  /** The values the formatter produces for typical Kusama amounts (12 decimals shown with 2). */
  lemma FormatNumberExamples(a: nat, b: nat, c: nat, d: nat)
    requires a == 1234567890123456 && b == 1000000000000 && c == 5000000000000 && d == 123456789012
    ensures FormatNumber(a, 12, 2, Undefined) == "1,234.56"
    ensures FormatNumber(b, 12, 2, Undefined) == "1.00"
    ensures FormatNumber(c, 12, 2, Defined("KSM")) == "5.00 KSM"
    ensures FormatNumber(d, 12, 2, Undefined) == "0.12"
  {
    TwelveDecimalsShownWithTwo(a, 1234, 123456, Undefined);
    GroupedRendering();
    TwelveDecimalsShownWithTwo(b, 1, 100, Undefined);
    WholeRendering();
    TwelveDecimalsShownWithTwo(c, 5, 500, Defined("KSM"));
    TickerRendering();
    TwelveDecimalsShownWithTwo(d, 0, 12, Undefined);
    FractionRendering();
  }

  lemma GroupedRendering()
    ensures Group3(NatToDecimal(1234)) + [DecimalSeparator] + LowDigits(123456, 2) + TickerSuffix(Undefined) == "1,234.56"
  {
    NumeralOf1234();
    assert Group3("1234") == "1,234" by {
      assert "1234"[..1] == "1" && "1234"[1..] == "234";
    }
    assert LowDigits(123456, 2) == "56" by {
      assert LowDigits(12345, 1) == LowDigits(1234, 0) + "5";
    }
  }

  lemma NumeralOf1234()
    ensures NatToDecimal(1234) == "1234"
  {
    assert NatToDecimal(1) == "1" && NatToDecimal(12) == "12" && NatToDecimal(123) == "123";
  }

  lemma WholeRendering()
    ensures Group3(NatToDecimal(1)) + [DecimalSeparator] + LowDigits(100, 2) + TickerSuffix(Undefined) == "1.00"
  {
    assert LowDigits(100, 2) == "00" by {
      assert LowDigits(10, 1) == LowDigits(1, 0) + "0";
    }
  }

  lemma TickerRendering()
    ensures Group3(NatToDecimal(5)) + [DecimalSeparator] + LowDigits(500, 2) + TickerSuffix(Defined("KSM")) == "5.00 KSM"
  {
    assert LowDigits(500, 2) == "00" by {
      assert LowDigits(50, 1) == LowDigits(5, 0) + "0";
    }
    assert TickerSuffix(Defined("KSM")) == " KSM";
  }

  lemma FractionRendering()
    ensures Group3(NatToDecimal(0)) + [DecimalSeparator] + LowDigits(12, 2) + TickerSuffix(Undefined) == "0.12"
  {
    assert LowDigits(12, 2) == "12" by {
      assert LowDigits(1, 1) == LowDigits(0, 0) + "1";
    }
  }
}
