/**
 * The ids the listbox gives its options: `option-${i}` for the option at position i.
 * Decimal rendering is proved invertible, so distinct positions get distinct ids and
 * `aria-activedescendant` names exactly one option.
 */
module OptionIds {

  predicate IsDigit(c: char) {
    '0' <= c <= '9'
  }

  predicate AllDigits(s: string) {
    forall k :: 0 <= k < |s| ==> IsDigit(s[k])
  }

  function DigitChar(d: nat): (c: char)
    requires d < 10
    ensures IsDigit(c)
  {
    ('0' as int + d) as char
  }

  function DigitValue(c: char): (d: nat)
    requires IsDigit(c)
    ensures d < 10
  {
    c as int - '0' as int
  }

  /** How a template literal renders a non-negative integer: decimal, no leading zeros. */
  function NatToString(n: nat): (s: string)
    ensures |s| > 0 && AllDigits(s)
    ensures s[0] == '0' ==> n == 0
  {
    if n < 10 then [DigitChar(n)] else NatToString(n / 10) + [DigitChar(n % 10)]
  }

  /** Reads a string of decimal digits back as a number. */
  function ParseNat(s: string): nat
    requires AllDigits(s)
  {
    if s == [] then 0 else 10 * ParseNat(s[..|s| - 1]) + DigitValue(s[|s| - 1])
  }

  lemma {:induction false} ParseNatToString(n: nat)
    ensures ParseNat(NatToString(n)) == n
  {
    var s := NatToString(n);
    if n >= 10 {
      assert s[..|s| - 1] == NatToString(n / 10);
      ParseNatToString(n / 10);
    }
  }

  /** The id `setupOptions` gives the option at position i. */
  function OptionId(i: nat): (id: string)
    ensures |id| > 7 && id[..7] == "option-" && AllDigits(id[7..])
  {
    "option-" + NatToString(i)
  }

  /** Two positions share an id only if they are the same position. */
  lemma OptionIdInjective(i: nat, j: nat)
    ensures OptionId(i) == OptionId(j) <==> i == j
  {
    if OptionId(i) == OptionId(j) {
      assert NatToString(i) == OptionId(i)[7..];
      assert NatToString(j) == OptionId(j)[7..];
      ParseNatToString(i);
      ParseNatToString(j);
    }
  }

  /** The first n positions all get different ids. */
  lemma OptionIdsDistinct(n: nat)
    ensures forall i, j :: 0 <= i < j < n ==> OptionId(i) != OptionId(j)
  {
    forall i, j | 0 <= i < j < n
      ensures OptionId(i) != OptionId(j)
    {
      OptionIdInjective(i, j);
    }
  }
}
