/**
 x/mining/types/validation.go, ParseCanonicalAmount: decimal amounts with one spelling each,
 held in the SDK's 256-bit integers.
 */
module Amounts {
  import opened CoreSlotTypes

  const TWO_256: nat := 0x1_0000_0000_0000_0000_0000_0000_0000_0000_0000_0000_0000_0000_0000_0000_0000_0000

  predicate IsDigit(c: char) { '0' <= c <= '9' }

  function Digit(c: char): nat
    requires IsDigit(c)
    ensures Digit(c) < 10
  {
    (c - '0') as int
  }

  predicate Digits(text: string) { forall i :: 0 <= i < |text| ==> IsDigit(text[i]) }

  /** The number a digit string denotes, however it is padded. */
  function Decimal(text: string): nat
    requires Digits(text)
  {
    if text == "" then 0 else 10 * Decimal(text[..|text| - 1]) + Digit(text[|text| - 1])
  }

  /** Digits only, at least one, and no leading zero but in "0" itself. */
  predicate Canonical(text: string) { text != "" && Digits(text) && (|text| > 1 ==> text[0] != '0') }

  /** The amount, or None where the source refuses the text. */
  method ParseCanonicalAmount(text: string) returns (amount: Option<nat>)
    ensures amount == ParsedAmount(text)
  {
    if text == "" { return None; }
    for i := 0 to |text|
      invariant Digits(text[..i])
    {
      if !IsDigit(text[i]) { return None; }
      assert text[..i + 1] == text[..i] + [text[i]];
    }
    assert text[..|text|] == text;
    if |text| > 1 && text[0] == '0' { return None; }
    var value := 0;
    for i := 0 to |text|
      invariant Digits(text[..i]) && value == Decimal(text[..i])
    {
      assert text[..i + 1][..i] == text[..i];
      value := 10 * value + Digit(text[i]);
    }
    if value >= TWO_256 { return None; }
    return Some(value);
  }

  function ParsedAmount(text: string): Option<nat> {
    if Canonical(text) && Decimal(text) < TWO_256 then Some(Decimal(text)) else None
  }

  lemma {:induction false} LeadingDigitCounts(text: string)
    requires Canonical(text) && text != "0"
    ensures Decimal(text) > 0
    decreases |text|
  {
    if |text| > 1 {
      if text[..|text| - 1] != "0" { LeadingDigitCounts(text[..|text| - 1]); }
      assert text[..|text| - 1][0] == text[0];
    }
  }

  lemma {:induction false} OneSpelling(a: string, b: string)
    requires Canonical(a) && Canonical(b) && Decimal(a) == Decimal(b)
    ensures a == b
    decreases |a|
  {
    var fa, fb := a[..|a| - 1], b[..|b| - 1];
    assert a == fa + [a[|a| - 1]] && b == fb + [b[|b| - 1]];
    assert Decimal(fa) == Decimal(fb) && a[|a| - 1] == b[|b| - 1] by {
      var x, y := Digit(a[|a| - 1]), Digit(b[|b| - 1]);
      assert 10 * Decimal(fa) + x == 10 * Decimal(fb) + y;
    }
    if |a| > 1 { FrontIsPositive(a); }
    if |b| > 1 { FrontIsPositive(b); }
    if |a| > 1 && |b| > 1 { OneSpelling(fa, fb); }
  }

  lemma FrontIsPositive(a: string)
    requires Canonical(a) && |a| > 1
    ensures Canonical(a[..|a| - 1]) && Decimal(a[..|a| - 1]) > 0
  {
    assert a[..|a| - 1][0] == a[0];
    LeadingDigitCounts(a[..|a| - 1]);
  }

  /** The decimal text of a number: the quotient's text by ten, and the remainder's digit. */
  function Render(n: nat): string
    decreases n
  {
    var digit := ["0123456789"[n % 10]];
    if n < 10 then digit else Render(n / 10) + digit
  }

  lemma {:induction false} RenderMeans(n: nat)
    ensures Canonical(Render(n)) && Decimal(Render(n)) == n
    ensures n > 0 ==> Render(n)[0] != '0'
    decreases n
  {
    DigitOf(n % 10);
    var digit := ["0123456789"[n % 10]];
    assert digit[..0] == "";
    if n >= 10 {
      RenderMeans(n / 10);
      var front := Render(n / 10);
      assert (front + digit)[..|front|] == front;
    }
  }

  lemma DigitOf(d: nat)
    requires d < 10
    ensures IsDigit("0123456789"[d]) && Digit("0123456789"[d]) == d && (d > 0 ==> "0123456789"[d] != '0')
  {
  }

  /** A text is accepted for an amount exactly when it is the amount's decimal text, below 2^256. */
  lemma ParsedIsRendered(text: string, n: nat)
    ensures ParsedAmount(text) == Some(n) <==>
              text == Render(n)
              && n < 0x1_0000_0000_0000_0000_0000_0000_0000_0000_0000_0000_0000_0000_0000_0000_0000_0000
  {
    RenderMeans(n);
    if ParsedAmount(text) == Some(n) { OneSpelling(text, Render(n)); }
  }

  /** Two accepted texts of one amount are the same text: "007", "+7" and "7" cannot all pass. */
  lemma AmountsAreUnique(a: string, b: string)
    requires ParsedAmount(a).Some? && ParsedAmount(a) == ParsedAmount(b)
    ensures a == b
  {
    OneSpelling(a, b);
  }
}
