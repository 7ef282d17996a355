/** The text a template literal gives a non-negative integer (`${i}`):
    its decimal digits, most significant first, without leading zeros. */
module Numeros {

  predicate EhDigito(c: char) { '0' as int <= c as int <= '9' as int }

  function Digito(d: nat): (c: char)
    requires d < 10
    ensures EhDigito(c) && c as int - '0' as int == d
  {
    ('0' as int + d) as char
  }

  function Decimal(n: nat): (s: string)
    ensures |s| >= 1
    ensures forall k :: 0 <= k < |s| ==> EhDigito(s[k])
    ensures |s| > 1 ==> s[0] != '0'
  {
    if n < 10 then [Digito(n)] else Decimal(n / 10) + [Digito(n % 10)]
  }

  /** Reads a string of decimal digits back as a number. */
  function ValorDecimal(s: string): nat
    requires forall k :: 0 <= k < |s| ==> EhDigito(s[k])
  {
    if s == [] then 0
    else
      assert EhDigito(s[|s| - 1]);
      10 * ValorDecimal(s[..|s| - 1]) + (s[|s| - 1] as int - '0' as int)
  }

  lemma {:induction false} ValorDecimalDeDecimal(n: nat)
    ensures ValorDecimal(Decimal(n)) == n
  {
    var s := Decimal(n);
    if n >= 10 {
      ValorDecimalDeDecimal(n / 10);
      assert s[..|s| - 1] == Decimal(n / 10);
    }
  }

  /** Distinct numbers never render to the same text. */
  lemma DecimalInjetivo(i: nat, j: nat)
    ensures Decimal(i) == Decimal(j) ==> i == j
  {
    ValorDecimalDeDecimal(i);
    ValorDecimalDeDecimal(j);
  }
}
