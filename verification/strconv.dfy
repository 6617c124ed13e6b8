/**
 * Decimal conversion between row keys and task indices, as `strconv.Itoa`
 * and `strconv.Atoi` perform it on the keys of the task table.
 */
module Strconv {
  import opened Wrappers

  predicate IsDigit(c: char) { '0' <= c <= '9' }

  predicate AllDigits(s: string) { forall i :: 0 <= i < |s| ==> IsDigit(s[i]) }

  function DigitChar(d: nat): (c: char)
    requires d < 10
    ensures IsDigit(c) && c as int - '0' as int == d
  {
    ('0' as int + d) as char
  }

  function DigitValue(c: char): nat
    requires IsDigit(c)
  {
    c as int - '0' as int
  }

  /** `strconv.Itoa` on the non-negative indices the table uses as keys. */
  function Itoa(n: nat): (s: string)
    ensures |s| > 0 && AllDigits(s)
  {
    if n < 10 then [DigitChar(n)] else Itoa(n / 10) + [DigitChar(n % 10)]
  }

  /** The value of a run of decimal digits, most significant first; the empty run is 0. */
  function DigitsValue(s: string): nat
    requires AllDigits(s)
  {
    if s == [] then 0 else DigitsValue(s[..|s| - 1]) * 10 + DigitValue(s[|s| - 1])
  }

  /** What follows one optional leading sign. */
  function Unsigned(s: string): string
  {
    if |s| > 0 && (s[0] == '+' || s[0] == '-') then s[1..] else s
  }

  /** Decimal syntax: an optional sign and then at least one digit. */
  predicate IsDecimal(s: string)
  {
    |Unsigned(s)| > 0 && AllDigits(Unsigned(s))
  }

  /**
   * `strconv.Atoi`: an optional sign followed by at least one decimal digit;
   * anything else is a syntax error, modelled as None.
   */
  function Atoi(s: string): (r: Option<int>)
    ensures r.Some? <==> IsDecimal(s)
    ensures r.Some? && s[0] == '-' ==> r.value == -(DigitsValue(Unsigned(s)) as int)
    ensures r.Some? && s[0] != '-' ==> r.value == DigitsValue(Unsigned(s))
  {
    if |s| == 0 then None
    else if s[0] == '+' || s[0] == '-' then
      if |s| == 1 || !AllDigits(s[1..]) then None
      else if s[0] == '-' then Some(-(DigitsValue(s[1..]) as int))
      else Some(DigitsValue(s[1..]))
    else if AllDigits(s) then Some(DigitsValue(s))
    else None
  }

  lemma {:induction false} DigitsValueItoa(n: nat)
    ensures DigitsValue(Itoa(n)) == n
  {
    if n >= 10 {
      var s := Itoa(n);
      assert s[..|s| - 1] == Itoa(n / 10);
      DigitsValueItoa(n / 10);
    }
  }

  /** Parsing a key produced from an index gives that index back. */
  lemma AtoiItoa(n: nat)
    ensures Atoi(Itoa(n)) == Some(n)
  {
    DigitsValueItoa(n);
  }

  /** Distinct indices give distinct keys. */
  lemma ItoaInjective(m: nat, n: nat)
    ensures Itoa(m) == Itoa(n) ==> m == n
  {
    AtoiItoa(m);
    AtoiItoa(n);
  }

  /** The parse-failure branch is reachable: the empty string and a lone sign are rejected. */
  lemma AtoiRejects(s: string)
    requires s == "" || s == "-" || s == "+" || (|s| > 0 && !IsDigit(s[0]) && s[0] != '+' && s[0] != '-')
    ensures Atoi(s).None?
  {
  }
}
