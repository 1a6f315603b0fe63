/**
 Decimal numbers as `strconv.Itoa` writes and `strconv.Atoi` reads them, without the limit to 64 bits.
 */
module Decimal {

  function Itoa(n: nat): (s: string)
    ensures |s| >= 1
  {
    if n < 10 then [Digit(n)] else Itoa(n / 10) + [Digit(n % 10)]
  }

  function Digit(d: nat): char
    requires d < 10
  {
    '0' + d as char
  }

  predicate AllDigits(s: string) {
    forall i :: 0 <= i < |s| ==> '0' <= s[i] <= '9'
  }

  function Value(s: string): nat
    requires AllDigits(s)
  {
    if s == "" then 0 else Value(s[..|s| - 1]) * 10 + (s[|s| - 1] as int - '0' as int)
  }

  datatype Index = NotANumber | Index(i: int)

  /** `strconv.Atoi`: an optional sign and at least one digit. */
  function Atoi(s: string): Index {
    var digits := if s != "" && (s[0] == '+' || s[0] == '-') then s[1..] else s;
    if digits == "" || !AllDigits(digits) then NotANumber
    else var v: int := Value(digits); Index(if s[0] == '-' then -v else v)
  }

  lemma {:induction false} ValueItoa(n: nat)
    ensures AllDigits(Itoa(n)) && Value(Itoa(n)) == n
  {
    if n >= 10 {
      ValueItoa(n / 10);
      var s := Itoa(n);
      assert s[..|s| - 1] == Itoa(n / 10);
    } else {
      assert Itoa(n)[..0] == "";
    }
  }

  lemma {:induction false} ReadWritten(n: nat)
    ensures Atoi(Itoa(n)) == Index(n)
  {
    ValueItoa(n);
    assert '0' <= Itoa(n)[0] <= '9';
  }
}
