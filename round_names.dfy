/**
 * The names under which the runner files each round: `round_1`, `round_2`,
 * ... The number is rendered the way Python renders an `int` in an
 * f-string: decimal digits, no sign, no leading zeros.
 */
module RoundNames {

  function DigitChar(d: nat): char
    requires d < 10
  {
    "0123456789"[d]
  }

  function DigitValue(c: char): int {
    c as int - '0' as int
  }

  /** `str(n)` for a non-negative integer. */
  function Decimal(n: nat): (s: string)
    ensures |s| >= 1
    ensures forall i :: 0 <= i < |s| ==> '0' <= s[i] <= '9'
  {
    if n < 10 then [DigitChar(n)] else Decimal(n / 10) + [DigitChar(n % 10)]
  }

  /** Reads a string of decimal digits back as a number. */
  function ParseDecimal(s: string): int {
    if |s| == 0 then 0 else ParseDecimal(s[..|s| - 1]) * 10 + DigitValue(s[|s| - 1])
  }

  /** Reading the rendering gives back the number. */
  lemma {:induction false} ParseDecimalOfDecimal(n: nat)
    ensures ParseDecimal(Decimal(n)) == n
  {
    var s := Decimal(n);
    if n < 10 {
      assert s[..0] == [];
    } else {
      ParseDecimalOfDecimal(n / 10);
      assert s[..|s| - 1] == Decimal(n / 10);
    }
  }

  /** The name the runner gives to the round numbered `n` (counted from 1). */
  function RoundName(n: nat): string {
    "round_" + Decimal(n)
  }

  /** Different rounds get different names, so filing a round under its name
      never overwrites an earlier round. */
  lemma RoundNameInjective(a: nat, b: nat)
    ensures RoundName(a) == RoundName(b) <==> a == b
  {
    if RoundName(a) == RoundName(b) {
      assert Decimal(a) == RoundName(a)[6..];
      assert Decimal(b) == RoundName(b)[6..];
      ParseDecimalOfDecimal(a);
      ParseDecimalOfDecimal(b);
    }
  }

  /** Two different rounds never share a name. */
  lemma RoundNamesDiffer(a: nat, b: nat)
    requires a != b
    ensures RoundName(a) != RoundName(b)
  {
    RoundNameInjective(a, b);
  }
}
