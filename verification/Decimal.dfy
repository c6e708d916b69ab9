/** Decimal integers as Go prints (`%d`) and parses (`strconv.Atoi`) them. */
module Decimal {
  import opened Text

  const MIN_INT64: int := -0x8000_0000_0000_0000
  const MAX_INT64: int := 0x7FFF_FFFF_FFFF_FFFF

  predicate IsDigit(c: char) {
    '0' <= c <= '9'
  }

  predicate AllDigits(s: string) {
    forall i :: 0 <= i < |s| ==> IsDigit(s[i])
  }

  function DigitChar(d: nat): (c: char)
    requires d < 10
    ensures IsDigit(c) && DigitValue(c) == d
  {
    ('0' as int + d) as char
  }

  function DigitValue(c: char): nat
    requires IsDigit(c)
  {
    c as int - '0' as int
  }

  /** Decimal digits of a natural number, without leading zeros. */
  function Digits(n: nat): (s: string)
    ensures s != "" && AllDigits(s)
  {
    if n < 10 then [DigitChar(n)] else Digits(n / 10) + [DigitChar(n % 10)]
  }

  function Value(s: string): nat
    requires AllDigits(s)
  {
    if s == "" then 0 else 10 * Value(s[..|s| - 1]) + DigitValue(s[|s| - 1])
  }

  /** Go's `%d`. */
  function Itoa(n: int): (s: string)
    ensures s != ""
    ensures forall i :: 0 <= i < |s| ==> IsDigit(s[i]) || s[i] == '-'
  {
    if n < 0 then "-" + Digits(-n) else Digits(n)
  }

  /** Go's `strconv.Atoi` on a 64-bit platform: an optional sign, at least one digit, nothing
      else, and the value must fit. */
  function Atoi(s: string): Option<int> {
    var negative := s != "" && s[0] == '-';
    var body := if s != "" && (s[0] == '-' || s[0] == '+') then s[1..] else s;
    if body == "" || !AllDigits(body) then None
    else
      var n := if negative then -(Value(body) as int) else Value(body);
      if MIN_INT64 <= n <= MAX_INT64 then Some(n) else None
  }

  lemma {:induction false} ValueOfDigits(n: nat)
    ensures Value(Digits(n)) == n
  {
    if n < 10 {
      assert Digits(n)[..0] == "";
    } else {
      ValueOfDigits(n / 10);
      var s := Digits(n);
      assert s[..|s| - 1] == Digits(n / 10);
    }
  }

  /** Printing then parsing gives the number back exactly if it is a 64-bit integer. */
  lemma AtoiItoa(n: int)
    ensures Atoi(Itoa(n)) == if -0x8000_0000_0000_0000 <= n < 0x8000_0000_0000_0000 then Some(n) else None
  {
    if n < 0 {
      ValueOfDigits(-n);
      assert Itoa(n)[1..] == Digits(-n);
    } else {
      ValueOfDigits(n);
    }
  }

  /** Parsing takes an optional sign and at least one digit, leading zeros or not, and yields the number
      exactly if it is a 64-bit integer ... */
  lemma AtoiReads(sign: string, body: string)
    requires sign in {"", "+", "-"} && body != "" && AllDigits(body)
    ensures var n := if sign == "-" then -(Value(body) as int) else Value(body);
            Atoi(sign + body) == if -0x8000_0000_0000_0000 <= n < 0x8000_0000_0000_0000 then Some(n) else None
  {
    var s := sign + body;
    assert IsDigit(body[0]);
    if sign == "" {
      assert s == body;
    } else {
      assert s[0] == sign[0] && s[1..] == body;
    }
  }

  /** ... and nothing else. */
  lemma AtoiRejects(s: string)
    ensures Atoi(s).Some? ==>
              exists sign, body :: sign in {"", "+", "-"} && body != "" && AllDigits(body) && s == sign + body
  {
    if Atoi(s).Some? {
      var signed := s[0] == '-' || s[0] == '+';
      var sign, body := if signed then [s[0]] else "", if signed then s[1..] else s;
      assert s == sign + body;
    }
  }

  lemma ItoaShape(n: int)
    ensures Itoa(n)[0] == '-' <==> n < 0
    ensures n < 0 ==> Itoa(n)[1..] == Digits(-n)
  {
    if n < 0 {
      assert Itoa(n)[1..] == Digits(-n);
    } else {
      assert IsDigit(Digits(n)[0]);
    }
  }

  /** Printing is injective. */
  lemma ItoaInjective(m: int, n: int)
    requires Itoa(m) == Itoa(n)
    ensures m == n
  {
    ItoaShape(m);
    ItoaShape(n);
    ValueOfDigits(if m < 0 then -m else m);
    ValueOfDigits(if n < 0 then -n else n);
  }
}
