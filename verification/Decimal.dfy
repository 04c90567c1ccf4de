/** Rust's `i32`/`u32` text conversions: `str::parse` and `Display`. */
module Decimal {
  import opened Wrappers

  type i32 = x: int | -0x8000_0000 <= x < 0x8000_0000
  type u32 = x: int | 0 <= x < 0x1_0000_0000

  predicate IsDigits(s: string) {
    forall i | 0 <= i < |s| :: '0' <= s[i] <= '9'
  }

  function DigitsValue(s: string): nat
    requires IsDigits(s)
  {
    if s == [] then 0
    else 10 * DigitsValue(s[..|s| - 1]) + (s[|s| - 1] as int - '0' as int)
  }

  /** An optional sign (a minus only for a signed type), then one digit or more. */
  function ParseInt(s: string, signed: bool): Option<int> {
    var negative := s != [] && s[0] == '-' && signed;
    var digits := if negative || (s != [] && s[0] == '+') then s[1..] else s;
    if digits == [] || !IsDigits(digits) then None
    else
      var magnitude: int := DigitsValue(digits);
      Some(if negative then -magnitude else magnitude)
  }

  function ParseI32(s: string): Option<i32> {
    match ParseInt(s, true)
    case Some(n) => if -0x8000_0000 <= n < 0x8000_0000 then Some(n) else None
    case None => None
  }

  function ParseU32(s: string): Option<u32> {
    match ParseInt(s, false)
    case Some(n) => if 0 <= n < 0x1_0000_0000 then Some(n) else None
    case None => None
  }

  function ShowNat(n: nat): string {
    if n < 10 then ['0' + n as char]
    else ShowNat(n / 10) + ['0' + (n % 10) as char]
  }

  function Show(n: int): string {
    if n < 0 then "-" + ShowNat(-n) else ShowNat(n)
  }

  lemma {:induction false} ShowNatIsDigits(n: nat)
    ensures ShowNat(n) != [] && IsDigits(ShowNat(n))
    ensures DigitsValue(ShowNat(n)) == n
  {
    if n < 10 {
      assert ShowNat(n)[..0] == [];
    } else {
      ShowNatIsDigits(n / 10);
      assert ShowNat(n)[..|ShowNat(n)| - 1] == ShowNat(n / 10);
    }
  }

  /** Printing then parsing an integer gives it back, whatever its sign. */
  lemma {:induction false} ParseShown(n: int)
    ensures ParseInt(Show(n), true) == Some(n)
    ensures n >= 0 ==> ParseInt(Show(n), false) == Some(n)
  {
    if n < 0 {
      ShowNatIsDigits(-n);
      assert Show(n)[1..] == ShowNat(-n);
    } else {
      ShowNatIsDigits(n);
    }
  }

  /** Printed integers hold neither parentheses nor commas. */
  lemma {:induction false} ShownChars(n: int)
    ensures forall c <- Show(n) :: c == '-' || '0' <= c <= '9'
  {
    ShowNatIsDigits(if n < 0 then -n else n);
  }
}
