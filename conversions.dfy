/**
 * Token/wei unit conversions and the thousands separator of the web front
 * end's utilities. The conversions work on BigInt values, which for the
 * non-negative operands modelled here divide like Dafny's `/`.
 */
module Conversions {
  import opened Wrappers
  import Decimal

  /** `amount || 1n`: a zero amount counts as one. */
  function EffectiveAmount(amount: nat): (a: nat)
    ensures a >= 1
    ensures amount >= 1 ==> a == amount
  {
    if amount == 0 then 1 else amount
  }

  /**
   * `tokenAmountInWEI`: the displayed amount scaled by tokenValue / tokenRatio,
   * rounded down. BigInt division by zero throws a RangeError, which is
   * `None` here.
   */
  function TokenAmountInWei(amount: nat, tokenRatio: nat, tokenValue: nat): (wei: Option<nat>)
    ensures wei.None? <==> tokenRatio == 0
    ensures wei.Some? ==> tokenRatio * wei.value <= EffectiveAmount(amount) * tokenValue < tokenRatio * (wei.value + 1)
  {
    if tokenRatio == 0 then None else Some(EffectiveAmount(amount) * tokenValue / tokenRatio)
  }

  /** `weiToTokenAmount`: the stored amount scaled by tokenRatio / tokenValue, rounded down; `None` for a zero tokenValue. */
  function WeiToTokenAmount(amount: nat, tokenRatio: nat, tokenValue: nat): (tokens: Option<nat>)
    ensures tokens.None? <==> tokenValue == 0
    ensures tokens.Some? ==> tokenValue * tokens.value <= EffectiveAmount(amount) * tokenRatio < tokenValue * (tokens.value + 1)
  {
    if tokenValue == 0 then None else Some(EffectiveAmount(amount) * tokenRatio / tokenValue)
  }

  /** The quotient of floor division is the one value the bounds allow. */
  lemma FloorUnique(n: nat, d: nat, q: nat, q': nat)
    requires d != 0
    requires d * q <= n < d * (q + 1)
    requires d * q' <= n < d * (q' + 1)
    ensures q == q'
  {
    ProductOrder(d, q, q' + 1);
    ProductOrder(d, q', q + 1);
  }

  lemma ProductOrder(d: nat, a: nat, b: nat)
    requires d * a < d * b
    ensures a < b
  {
    assert d * (b - a) == d * b - d * a;
  }

  /** A zero amount converts like an amount of one: just the scale factor. */
  lemma ZeroAmountIsOne(tokenRatio: nat, tokenValue: nat)
    requires tokenRatio != 0 && tokenValue != 0
    ensures TokenAmountInWei(0, tokenRatio, tokenValue) == TokenAmountInWei(1, tokenRatio, tokenValue) == Some(tokenValue / tokenRatio)
    ensures WeiToTokenAmount(0, tokenRatio, tokenValue) == WeiToTokenAmount(1, tokenRatio, tokenValue) == Some(tokenRatio / tokenValue)
  {
  }

  /**
   * Round trip: when the ratio divides amount * value, converting to wei
   * and back gives the amount again.
   */
  lemma RoundTrip(amount: nat, tokenRatio: nat, tokenValue: nat)
    requires amount >= 1 && tokenRatio >= 1 && tokenValue >= 1
    requires (amount * tokenValue) % tokenRatio == 0
    ensures TokenAmountInWei(amount, tokenRatio, tokenValue).Some?
    ensures WeiToTokenAmount(TokenAmountInWei(amount, tokenRatio, tokenValue).value, tokenRatio, tokenValue) == Some(amount)
  {
    var w := TokenAmountInWei(amount, tokenRatio, tokenValue).value;
    assert tokenRatio * w == amount * tokenValue;
    PositiveProduct(amount, tokenValue);
    PositiveFactor(tokenRatio, w);
    var t := WeiToTokenAmount(w, tokenRatio, tokenValue).value;
    assert w * tokenRatio == tokenValue * amount;
    assert tokenValue * t <= tokenValue * amount < tokenValue * (t + 1);
    FloorUnique(tokenValue * amount, tokenValue, t, amount);
  }

  lemma PositiveProduct(a: nat, b: nat)
    requires a >= 1 && b >= 1
    ensures a * b >= 1
  {
    MulMonotone(a, 1, b);
  }

  lemma PositiveFactor(a: nat, b: nat)
    requires a * b >= 1
    ensures b >= 1
  {
  }

  lemma MulMonotone(k: nat, p: nat, q: nat)
    requires p <= q
    ensures k * p <= k * q
  {
    assert k * q == k * p + k * (q - p);
  }

  /** More displayed tokens never give fewer wei (zero counting as one keeps this). */
  lemma TokenAmountInWeiMonotone(a: nat, b: nat, tokenRatio: nat, tokenValue: nat)
    requires a <= b && tokenRatio != 0
    ensures TokenAmountInWei(a, tokenRatio, tokenValue).value <= TokenAmountInWei(b, tokenRatio, tokenValue).value
  {
    var x, y := TokenAmountInWei(a, tokenRatio, tokenValue).value, TokenAmountInWei(b, tokenRatio, tokenValue).value;
    MulMonotone(tokenValue, EffectiveAmount(a), EffectiveAmount(b));
    FloorMonotone(tokenRatio, EffectiveAmount(a) * tokenValue, EffectiveAmount(b) * tokenValue, x, y);
  }

  /** Floors of ordered numerators are ordered. */
  lemma FloorMonotone(d: nat, n: nat, m: nat, x: nat, y: nat)
    requires d != 0 && n <= m
    requires d * x <= n && m < d * (y + 1)
    ensures x <= y
  {
    ProductOrder(d, x, y + 1);
  }

  // ---------------------------------------------------------------------
  // formatNumber: String(amount).replace(/\B(?=(\d{3})+(?!\d))/g, "_")
  // ---------------------------------------------------------------------

  /** The regular-expression word characters `\w`: ASCII letters, digits and '_'. */
  predicate IsWordChar(c: char) {
    ('a' <= c <= 'z') || ('A' <= c <= 'Z') || ('0' <= c <= '9') || c == '_'
  }

  /** The number of consecutive digits `\d` starting at position i. */
  function DigitRun(s: string, i: nat): (n: nat)
    requires i <= |s|
    ensures i + n <= |s|
    decreases |s| - i
  {
    if i < |s| && Decimal.IsDigit(s[i]) then 1 + DigitRun(s, i + 1) else 0
  }

  /**
   * The empty match of `\B(?=(\d{3})+(?!\d))` at position i: no word
   * boundary there (`\B`), and the digits that start there form one or
   * more whole groups of three not followed by a further digit, that is,
   * their run is a positive multiple of three.
   */
  predicate SeparatorAt(s: string, i: nat)
    requires i <= |s|
  {
    var before := i > 0 && IsWordChar(s[i - 1]);
    var after := i < |s| && IsWordChar(s[i]);
    before == after && DigitRun(s, i) >= 3 && DigitRun(s, i) % 3 == 0
  }

  /** The global replace from position i on: a '_' before every character where the pattern matches. */
  function FormatFrom(s: string, i: nat): string
    requires i <= |s|
    decreases |s| - i
  {
    if i == |s| then "" else (if SeparatorAt(s, i) then "_" else "") + [s[i]] + FormatFrom(s, i + 1)
  }

  /**
   * `formatNumber` on the text of the amount. The replace only inserts '_':
   * deleting every '_' afterwards gives what deleting them beforehand gives.
   */
  function FormatNumber(s: string): (t: string)
    ensures RemoveSeparators(t) == RemoveSeparators(s)
  {
    RemoveSeparatorsFrom(s, 0);
    assert s[0..] == s;
    FormatFrom(s, 0)
  }

  /**
   * `formatNumber` of a non-negative BigInt, or of a non-negative integer
   * Number up to 2^53 - 1 (`Number.MAX_SAFE_INTEGER`), whose `String` is its
   * decimal numeral (a larger Number can print rounded digits, as
   * "18446744073709552000" for 2^64, or exponent form, as "1e+21"): the numeral cut into
   * groups of three from the right,
   * joined by '_', so that deleting the '_' gives the numeral back.
   */
  function FormatAmount(amount: nat): (t: string)
    ensures RemoveSeparators(t) == Decimal.NatToDecimal(amount)
    ensures var gs := Groups(Decimal.NatToDecimal(amount));
      WellGrouped(gs) && Flatten(gs) == Decimal.NatToDecimal(amount) && t == JoinGroups(gs)
  {
    var s := Decimal.NatToDecimal(amount);
    FormatNumberRemovesBack(s);
    FormatNumberGroups(s);
    FormatNumber(s)
  }

  /** The text with every '_' deleted. */
  function RemoveSeparators(s: string): string
    decreases |s|
  {
    if s == [] then "" else (if s[0] == '_' then "" else [s[0]]) + RemoveSeparators(s[1..])
  }

  lemma {:induction false} RemoveSeparatorsAppend(a: string, b: string)
    ensures RemoveSeparators(a + b) == RemoveSeparators(a) + RemoveSeparators(b)
    decreases |a|
  {
    if a != [] {
      assert (a + b)[1..] == a[1..] + b;
      RemoveSeparatorsAppend(a[1..], b);
    } else {
      assert a + b == b;
    }
  }

  lemma {:induction false} RemoveSeparatorsFrom(s: string, i: nat)
    requires i <= |s|
    ensures RemoveSeparators(FormatFrom(s, i)) == RemoveSeparators(s[i..])
    decreases |s| - i
  {
    if i < |s| {
      var sep: string := if SeparatorAt(s, i) then "_" else "";
      RemoveSeparatorsFrom(s, i + 1);
      RemoveSeparatorsAppend(sep + [s[i]], FormatFrom(s, i + 1));
      RemoveSeparatorsAppend(sep, [s[i]]);
      assert s[i..] == [s[i]] + s[i + 1..];
      RemoveSeparatorsAppend([s[i]], s[i + 1..]);
    }
  }

  lemma {:induction false} RemoveSeparatorsOfDigits(s: string)
    requires Decimal.IsDigits(s)
    ensures RemoveSeparators(s) == s
    decreases |s|
  {
    if s != [] {
      RemoveSeparatorsOfDigits(s[1..]);
      assert [s[0]] + s[1..] == s;
    }
  }

  /** On a digit string, deleting every '_' from the output gives back the input. */
  lemma FormatNumberRemovesBack(s: string)
    requires Decimal.IsDigits(s)
    ensures RemoveSeparators(FormatNumber(s)) == s
  {
    RemoveSeparatorsOfDigits(s);
  }

  lemma {:induction false} DigitRunOfDigits(s: string, i: nat)
    requires Decimal.IsDigits(s) && i <= |s|
    ensures DigitRun(s, i) == |s| - i
    decreases |s| - i
  {
    if i < |s| {
      DigitRunOfDigits(s, i + 1);
    }
  }

  /** In a digit string the pattern matches exactly inside the string, a multiple of three digits from its end. */
  lemma SeparatorAtInDigits(s: string, i: nat)
    requires Decimal.IsDigits(s) && i <= |s|
    ensures SeparatorAt(s, i) <==> 0 < i < |s| && (|s| - i) % 3 == 0
  {
    DigitRunOfDigits(s, i);
  }

  /** Where no separator is due, the rest of the string is copied. */
  lemma {:induction false} FormatFromShortTail(s: string, i: nat)
    requires Decimal.IsDigits(s) && i <= |s| && |s| - i <= 3 && (|s| - i == 3 ==> i == 0)
    ensures FormatFrom(s, i) == s[i..]
    decreases |s| - i
  {
    if i < |s| {
      FormatFromShortTail(s, i + 1);
      if i > 0 {
        SeparatorAtInDigits(s, i);
      } else {
        assert !SeparatorAt(s, 0);
      }
      assert s[i..] == [s[i]] + s[i + 1..];
    }
  }

  /** Digit strings of at most three digits are unchanged. */
  lemma FormatNumberShort(s: string)
    requires Decimal.IsDigits(s) && |s| <= 3
    ensures FormatNumber(s) == s
  {
    FormatFromShortTail(s, 0);
    assert s[0..] == s;
  }

  lemma DigitsAppend(p: string, q: string)
    requires Decimal.IsDigits(p) && Decimal.IsDigits(q)
    ensures Decimal.IsDigits(p + q)
  {
    forall j | 0 <= j < |p + q| ensures Decimal.IsDigit((p + q)[j]) {
      if j >= |p| { assert (p + q)[j] == q[j - |p|]; }
    }
  }

  /** At the start of the appended group: its separator and its three digits. */
  lemma FormatFromGroupStart(p: string, q: string)
    requires Decimal.IsDigits(p + q) && |p| >= 1 && |q| == 3
    ensures FormatFrom(p + q, |p|) == "_" + q
  {
    var s := p + q;
    var i := |p|;
    SeparatorAtInDigits(s, i);
    FormatFromShortTail(s, i + 1);
    assert s[i] == q[0] && s[i + 1..] == q[1..];
    assert "_" + [q[0]] + q[1..] == "_" + q;
  }

  /** Before the appended group, the separators are those of `p` alone. */
  lemma FormatFromBeforeGroup(p: string, q: string, i: nat, tail: string)
    requires Decimal.IsDigits(p + q) && Decimal.IsDigits(p) && |q| == 3 && i < |p|
    requires FormatFrom(p + q, i + 1) == FormatFrom(p, i + 1) + tail
    ensures FormatFrom(p + q, i) == FormatFrom(p, i) + tail
  {
    var s := p + q;
    SeparatorAtInDigits(s, i);
    SeparatorAtInDigits(p, i);
    assert (|s| - i) % 3 == (|p| - i) % 3;
    assert s[i] == p[i];
    var sep: string := if SeparatorAt(p, i) then "_" else "";
    assert FormatFrom(s, i) == sep + [p[i]] + (FormatFrom(p, i + 1) + tail);
    assert FormatFrom(p, i) == sep + [p[i]] + FormatFrom(p, i + 1);
  }

  lemma {:induction false} FormatFromAppendGroup(p: string, q: string, i: nat)
    requires Decimal.IsDigits(p) && Decimal.IsDigits(q) && |p| >= 1 && |q| == 3 && i <= |p|
    ensures FormatFrom(p + q, i) == FormatFrom(p, i) + ("_" + q)
    decreases |p| - i
  {
    DigitsAppend(p, q);
    if i == |p| {
      FormatFromGroupStart(p, q);
    } else {
      FormatFromAppendGroup(p, q, i + 1);
      FormatFromBeforeGroup(p, q, i, "_" + q);
    }
  }

  /** A digit string with three more digits after it: the output gains "_" and those digits. */
  lemma FormatNumberAppendGroup(p: string, q: string)
    requires Decimal.IsDigits(p) && Decimal.IsDigits(q) && |p| >= 1 && |q| == 3
    ensures FormatNumber(p + q) == FormatNumber(p) + "_" + q
  {
    FormatFromAppendGroup(p, q, 0);
    assert FormatNumber(p) + ("_" + q) == FormatNumber(p) + "_" + q;
  }

  /** A digit string cut into groups of three from the right; the first group keeps the rest. */
  function Groups(s: string): (gs: seq<string>)
    ensures |gs| >= 1
    decreases |s|
  {
    if |s| <= 3 then [s] else Groups(s[..|s| - 3]) + [s[|s| - 3..]]
  }

  /** The groups written out with '_' between neighbours. */
  function JoinGroups(gs: seq<string>): string
    requires |gs| >= 1
    decreases |gs|
  {
    if |gs| == 1 then gs[0] else JoinGroups(gs[..|gs| - 1]) + "_" + gs[|gs| - 1]
  }

  /** The grouping the output of `formatNumber` has. */
  predicate WellGrouped(gs: seq<string>) {
    |gs| >= 1 && 1 <= |gs[0]| <= 3 &&
    (forall k :: 1 <= k < |gs| ==> |gs[k]| == 3) &&
    (forall k :: 0 <= k < |gs| ==> Decimal.IsDigits(gs[k]))
  }

  /** The groups of three, put side by side, are the digit string again. */
  function Flatten(gs: seq<string>): string
    decreases |gs|
  {
    if gs == [] then "" else Flatten(gs[..|gs| - 1]) + gs[|gs| - 1]
  }

  /**
   * On a non-empty digit string, the output is the digits in groups
   * separated by '_': a first group of one to three digits, then groups of
   * exactly three, and the groups together are the input.
   */
  lemma {:induction false} FormatNumberGroups(s: string)
    requires Decimal.IsDigits(s) && |s| >= 1
    ensures WellGrouped(Groups(s))
    ensures Flatten(Groups(s)) == s
    ensures FormatNumber(s) == JoinGroups(Groups(s))
    decreases |s|
  {
    if |s| <= 3 {
      FormatNumberShort(s);
      assert Flatten([s]) == Flatten([]) + s;
    } else {
      var p, q := s[..|s| - 3], s[|s| - 3..];
      assert s == p + q;
      FormatNumberGroups(p);
      FormatNumberAppendGroup(p, q);
      var gs := Groups(s);
      assert gs == Groups(p) + [q];
      assert gs[..|gs| - 1] == Groups(p);
      assert forall k :: 0 <= k < |gs| - 1 ==> gs[k] == Groups(p)[k];
    }
  }

  /** No leading or trailing '_': the output starts and ends with the input's first and last digits. */
  lemma FormatNumberEnds(s: string)
    requires Decimal.IsDigits(s) && |s| >= 1
    ensures var t := FormatNumber(s); |t| >= 1 && t[0] == s[0] && t[|t| - 1] == s[|s| - 1]
  {
    assert !SeparatorAt(s, 0);
    FormatFromLast(s, 0);
  }

  lemma {:induction false} FormatFromLast(s: string, i: nat)
    requires i < |s|
    ensures var t := FormatFrom(s, i); |t| >= 1 && t[|t| - 1] == s[|s| - 1]
    decreases |s| - i
  {
    if i + 1 < |s| {
      FormatFromLast(s, i + 1);
    }
  }

  /** The documented example 1000 -> 1_000. */
  lemma FormatNumberThousand()
    ensures FormatNumber("1000") == "1_000"
  {
    assert Decimal.IsDigits("1") && Decimal.IsDigits("000");
    FormatNumberShort("1");
    FormatNumberAppendGroup("1", "000");
    assert "1" + "000" == "1000";
    assert "1" + "_" + "000" == "1_000";
  }

  /** The documented example 1000000 -> 1_000_000. */
  lemma FormatNumberMillion()
    ensures FormatNumber("1000000") == "1_000_000"
  {
    FormatNumberThousand();
    MillionPieces();
    FormatNumberAppendGroup("1000", "000");
  }

  lemma MillionPieces()
    ensures Decimal.IsDigits("1000") && Decimal.IsDigits("000")
    ensures "1000" + "000" == "1000000" && "1_000" + "_" + "000" == "1_000_000"
  {
  }
}
