/** Python's `str()` of a non-negative int, and the `Session-{n}` display names built from it. */
module Decimal {

  const Prefix: string := "Session-"

  function Digit(d: nat): char
    requires d < 10
  {
    ('0' as int + d) as char
  }

  function DigitValue(c: char): nat
  {
    if '0' <= c <= '9' then c as int - '0' as int else 0
  }

  /** The decimal digits of `n`, most significant first, without leading zeros. */
  function ToDecimal(n: nat): (s: string)
    ensures |s| >= 1
    ensures forall i :: 0 <= i < |s| ==> '0' <= s[i] <= '9'
    ensures s[0] == '0' <==> n == 0
    ensures n < 10 ==> s == [Digit(n)]
    decreases n
  {
    if n < 10 then [Digit(n)] else ToDecimal(n / 10) + [Digit(n % 10)]
  }

  /** Reads a string of decimal digits back as a number. */
  function ParseDecimal(s: string): nat
  {
    if s == [] then 0 else ParseDecimal(s[..|s| - 1]) * 10 + DigitValue(s[|s| - 1])
  }

  lemma {:induction false} ParseToDecimal(n: nat)
    ensures ParseDecimal(ToDecimal(n)) == n
    decreases n
  {
    if n >= 10 {
      var s := ToDecimal(n);
      assert s[..|s| - 1] == ToDecimal(n / 10);
      ParseToDecimal(n / 10);
    }
  }

  /** The display name `f"Session-{n}"`. */
  function SessionName(n: nat): (r: string)
    ensures |r| > |Prefix| && r[..|Prefix|] == Prefix
    ensures forall i :: |Prefix| <= i < |r| ==> '0' <= r[i] <= '9'
  {
    Prefix + ToDecimal(n)
  }

  /** The number can be read back from a display name. */
  lemma SessionNameParses(n: nat)
    ensures |SessionName(n)| > |Prefix| && SessionName(n)[..|Prefix|] == Prefix
    ensures ParseDecimal(SessionName(n)[|Prefix|..]) == n
  {
    ParseToDecimal(n);
    assert SessionName(n)[|Prefix|..] == ToDecimal(n);
  }

  /** Distinct numbers give distinct display names. */
  lemma SessionNameInjective(a: nat, b: nat)
    ensures SessionName(a) == SessionName(b) <==> a == b
  {
    SessionNameParses(a);
    SessionNameParses(b);
  }
}
