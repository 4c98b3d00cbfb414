/** The converter's fresh names: `"$$var" + n` and `"$$cont" + n`, where `n`
    is rendered in decimal as Java's string concatenation does for a
    non-negative int. */
module Names {

  function DigitChar(d: nat): char
    requires d < 10
  {
    ('0' as int + d) as char
  }

  /** Decimal digits of `n`, most significant first, without leading zeros. */
  function Decimal(n: nat): (s: string)
    ensures |s| >= 1
    decreases n
  {
    if n < 10 then [DigitChar(n)] else Decimal(n / 10) + [DigitChar(n % 10)]
  }

  /** Reads a string of decimal digits back into a number. */
  function ParseDecimal(s: string): int
    decreases |s|
  {
    if s == [] then 0 else 10 * ParseDecimal(s[..|s| - 1]) + (s[|s| - 1] as int - '0' as int)
  }

  lemma {:induction false} ParseDecimalOfDecimal(n: nat)
    ensures ParseDecimal(Decimal(n)) == n
    decreases n
  {
    if n >= 10 {
      var s := Decimal(n);
      assert s[..|s| - 1] == Decimal(n / 10);
      ParseDecimalOfDecimal(n / 10);
    }
  }

  /** Different counter values render differently. */
  lemma DecimalInjective(m: nat, n: nat)
    ensures Decimal(m) == Decimal(n) ==> m == n
  {
    ParseDecimalOfDecimal(m);
    ParseDecimalOfDecimal(n);
  }

  function VarName(n: nat): string {
    "$$var" + Decimal(n)
  }

  function ContName(n: nat): string {
    "$$cont" + Decimal(n)
  }

  /** `genVar` and `genCont` produce different names for different counter
      values, and never the same name as each other. */
  lemma FreshNamesDistinct(i: nat, j: nat)
    ensures VarName(i) != ContName(j)
    ensures i != j ==> VarName(i) != VarName(j) && ContName(i) != ContName(j)
  {
    assert VarName(i)[2] == 'v' && ContName(j)[2] == 'c';
    if VarName(i) == VarName(j) {
      assert Decimal(i) == VarName(i)[5..] == VarName(j)[5..] == Decimal(j);
      DecimalInjective(i, j);
    }
    if ContName(i) == ContName(j) {
      assert Decimal(i) == ContName(i)[6..] == ContName(j)[6..] == Decimal(j);
      DecimalInjective(i, j);
    }
  }
}
