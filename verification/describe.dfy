/** The text `CommandBuilder.__repr__` shows: the number of registered
    commands in decimal, followed by the word "command" with or without a
    plural "s". */
module Describe {

  predicate IsDigit(c: char) { '0' <= c <= '9' }

  /** The decimal numeral of `n`, as Python's `str` writes a non-negative int. */
  function Decimal(n: nat): (s: string)
    ensures |s| >= 1
    ensures forall i :: 0 <= i < |s| ==> IsDigit(s[i])
    ensures |s| > 1 ==> s[0] != '0'
  {
    var d := "0123456789"[n % 10];
    if n < 10 then [d] else Decimal(n / 10) + [d]
  }

  /** The number a string of decimal digits denotes. */
  function DecimalValue(s: string): nat
    requires forall i :: 0 <= i < |s| ==> IsDigit(s[i])
  {
    if s == [] then 0
    else
      assert IsDigit(s[|s| - 1]);
      DecimalValue(s[..|s| - 1]) * 10 + (s[|s| - 1] as int - '0' as int)
  }

  /** Reading the numeral back gives the count it was written from. */
  lemma {:induction false} DecimalRoundTrip(n: nat)
    ensures DecimalValue(Decimal(n)) == n
  {
    var s := Decimal(n);
    if n >= 10 {
      assert s[..|s| - 1] == Decimal(n / 10);
      DecimalRoundTrip(n / 10);
    }
  }

  const Prefix: string := "<CommandBuilder commands: "

  /** `__repr__` as written: the "s" is added only when the count is exactly one. */
  function DescribeAsWritten(count: nat): string {
    Prefix + Decimal(count) + " command" + (if count == 1 then "s" else "") + ">"
  }

  /** `__repr__` as intended: the "s" is added whenever the count is not one. */
  function Describe(count: nat): string {
    Prefix + Decimal(count) + " command" + (if count != 1 then "s" else "") + ">"
  }

  predicate EndsWith(s: string, suffix: string) {
    |suffix| <= |s| && s[|s| - |suffix|..] == suffix
  }

  /** The count can be read back from the text: it is the numeral right after the prefix. */
  lemma DescribeReportsCount(count: nat)
    ensures var t := Describe(count);
            var digits := t[|Prefix|..|Prefix| + |Decimal(count)|];
            digits == Decimal(count) && DecimalValue(digits) == count
  {
    DecimalRoundTrip(count);
  }

  /** The corrected text says "commands" exactly when the count is not one. */
  lemma DescribePlural(count: nat)
    ensures EndsWith(Describe(count), "commands>") <==> count != 1
  {
    var t := Describe(count);
    if count == 1 {
      assert t == Prefix + "1 command>";
      assert t[|t| - 2] == 'd';
    }
  }

  /** As written the plural is inverted: "commands" appears exactly when the count is one. */
  lemma AsWrittenPluralInverted(count: nat)
    ensures EndsWith(DescribeAsWritten(count), "commands>") <==> count == 1
  {
    var t := DescribeAsWritten(count);
    if count != 1 {
      assert t[|t| - 2] == 'd';
    }
  }

  /** The concrete cases: one command reads "1 commands", two read "2 command". */
  lemma AsWrittenMisplurals()
    ensures DescribeAsWritten(1) == "<CommandBuilder commands: 1 commands>"
    ensures DescribeAsWritten(2) == "<CommandBuilder commands: 2 command>"
    ensures Describe(1) == "<CommandBuilder commands: 1 command>"
    ensures Describe(2) == "<CommandBuilder commands: 2 commands>"
  {
  }
}
