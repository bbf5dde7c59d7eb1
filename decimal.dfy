/**
 * Decimal rendering of replica indices, as `strconv.Itoa` does for the
 * non-negative indices the ring uses: base ten, no sign, no leading zero.
 * The parser is the partner that shows the rendering loses nothing, so the
 * virtual-replica names of one node are pairwise distinct.
 */
module Decimal {

  predicate IsDigit(c: char) {
    '0' <= c <= '9'
  }

  predicate AllDigits(s: string) {
    forall i :: 0 <= i < |s| ==> IsDigit(s[i])
  }

  function DigitChar(d: nat): (c: char)
    requires d < 10
    ensures IsDigit(c)
    ensures c == '0' <==> d == 0
  {
    ('0' as int + d) as char
  }

  function DigitValue(c: char): (d: nat)
    requires IsDigit(c)
    ensures d < 10
    ensures DigitChar(d) == c
  {
    c as int - '0' as int
  }

  /** `strconv.Itoa(n)` for n >= 0. */
  function Itoa(n: nat): (s: string)
    ensures |s| >= 1
    ensures AllDigits(s)
    ensures s[0] == '0' <==> n == 0
    decreases n
  {
    if n < 10 then [DigitChar(n)] else Itoa(n / 10) + [DigitChar(n % 10)]
  }

  /** The value of a string of decimal digits, most significant first. */
  function ParseDecimal(s: string): nat
    requires AllDigits(s)
    decreases |s|
  {
    if s == [] then 0
    else ParseDecimal(s[..|s| - 1]) * 10 + DigitValue(s[|s| - 1])
  }

  lemma {:induction false} ParseItoa(n: nat)
    ensures ParseDecimal(Itoa(n)) == n
    decreases n
  {
    if n >= 10 {
      var s := Itoa(n);
      assert s[..|s| - 1] == Itoa(n / 10);
      ParseItoa(n / 10);
    }
  }

  lemma ItoaInjective(a: nat, b: nat)
    requires Itoa(a) == Itoa(b)
    ensures a == b
  {
    ParseItoa(a);
    ParseItoa(b);
  }

  /** The name of replica `i` of `node` (consistent_hash.go:46 and :63). */
  function VName(node: string, i: nat): string {
    node + Itoa(i)
  }

  /** Replicas of one node never share a name. */
  lemma VNameInjective(node: string, i: nat, j: nat)
    requires VName(node, i) == VName(node, j)
    ensures i == j
  {
    assert Itoa(i) == VName(node, i)[|node|..];
    ItoaInjective(i, j);
  }
}
