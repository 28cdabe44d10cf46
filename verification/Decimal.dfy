/** Decimal numerals: how natural numbers are written and read. */
module Decimal {
  function Digit(n: nat): char
    requires n < 10
  {
    "0123456789"[n]
  }

  function Itoa(n: nat): string {
    if n < 10 then [Digit(n)] else Itoa(n / 10) + [Digit(n % 10)]
  }

  predicate AllDigits(s: string) {
    forall c :: c in s ==> c in "0123456789"
  }

  /** Digits without a leading zero, as section 4 of RFC 6901 asks of an array index. */
  predicate IsIndex(token: string) {
    token != "" && AllDigits(token) && (token[0] == '0' ==> |token| == 1)
  }

  function DigitValue(c: char): nat {
    if c in "0123456789" then c as int - '0' as int else 0
  }

  lemma DigitRoundTrip(c: char)
    requires c in "0123456789"
    ensures DigitValue(c) < 10 && Digit(DigitValue(c)) == c
  {
    var i :| 0 <= i < 10 && "0123456789"[i] == c;
  }

  function Value(digits: string): nat {
    if digits == "" then 0 else 10 * Value(digits[..|digits| - 1]) + DigitValue(digits[|digits| - 1])
  }

  lemma ValueStep(front: string, d: nat)
    requires d < 10
    ensures Value(front + [Digit(d)]) == 10 * Value(front) + d
    ensures AllDigits(front + [Digit(d)]) <==> AllDigits(front)
  {
    var s := front + [Digit(d)];
    assert s[..|s| - 1] == front;
    assert forall c :: c in s <==> c in front || c == Digit(d);
    assert Digit(d) in "0123456789";
  }

  lemma ItoaStep(v: nat, d: nat)
    requires v > 0 && d < 10
    ensures Itoa(10 * v + d) == Itoa(v) + [Digit(d)]
  {
    assert (10 * v + d) / 10 == v && (10 * v + d) % 10 == d;
  }

  /** Every index is written as a legal array token that reads back as itself. */
  lemma {:induction false} ItoaRoundTrip(n: nat)
    ensures IsIndex(Itoa(n)) && Value(Itoa(n)) == n
    ensures Itoa(n)[0] == '0' <==> n == 0
  {
    if n >= 10 {
      ItoaRoundTrip(n / 10);
      ValueStep(Itoa(n / 10), n % 10);
    } else {
      ValueStep("", n);
      assert "" + [Digit(n)] == Itoa(n);
    }
  }

  lemma SplitIndex(token: string) returns (front: string, d: nat)
    requires IsIndex(token)
    ensures d < 10 && token == front + [Digit(d)]
    ensures front == "" || (IsIndex(front) && front[0] == token[0] != '0')
  {
    front, d := token[..|token| - 1], DigitValue(token[|token| - 1]);
    DigitRoundTrip(token[|token| - 1]);
    assert token == front + [Digit(d)];
    ValueStep(front, d);
  }

  lemma OneDigit(d: nat)
    requires d < 10
    ensures Itoa(d) == "" + [Digit(d)] && Value("" + [Digit(d)]) == d && (Digit(d) == '0' <==> d == 0)
  {
    ValueStep("", d);
  }

  /** And there is no other legal way to write it. */
  lemma {:induction false} IndexRoundTrip(token: string)
    requires IsIndex(token)
    ensures Itoa(Value(token)) == token
    ensures Value(token) == 0 <==> token[0] == '0'
    decreases |token|
  {
    hide *;
    var front, d := SplitIndex(token);
    if front == "" {
      OneDigit(d);
    } else {
      IndexRoundTrip(front);
      AppendDigit(front, d);
    }
  }

  lemma AppendDigit(front: string, d: nat)
    requires d < 10 && Value(front) > 0 && Itoa(Value(front)) == front
    ensures Value(front + [Digit(d)]) > 0 && Itoa(Value(front + [Digit(d)])) == front + [Digit(d)]
  {
    ValueStep(front, d);
    ItoaStep(Value(front), d);
  }
}
