/** Decimal text of integers: lexical_cast to a string and atoi back. */
module Decimal {
  import opened Chars

  predicate IsDecimal(c: byte) { 48 <= c <= 57 }

  function Digits(n: nat): (r: seq<byte>)
    ensures r != [] && forall i :: 0 <= i < |r| ==> IsDecimal(r[i])
  {
    if n < 10 then [n + ZERO] else Digits(n / 10) + [n % 10 + ZERO]
  }

  function ToText(n: int): (r: seq<byte>)
    ensures r != [] && (IsDecimal(r[0]) || r[0] == DASH) && forall i :: 0 < i < |r| ==> IsDecimal(r[i])
  {
    if n < 0 then [DASH] + Digits(-n) else Digits(n)
  }

  /** isspace in the C locale */
  predicate IsCSpace(c: byte) { c == SPACE || 9 <= c <= 13 }

  function ReadDigits(s: seq<byte>, value: nat): nat {
    if s == [] || !IsDecimal(s[0]) then value else ReadDigits(s[1..], 10 * value + (s[0] - ZERO))
  }

  /** atoi without its 32-bit overflow: white space, a sign, digits. */
  function Atoi(s: seq<byte>): int {
    if s != [] && IsCSpace(s[0]) then Atoi(s[1..])
    else if s != [] && s[0] == DASH then 0 - ReadDigits(s[1..], 0)
    else if s != [] && s[0] == 43 then ReadDigits(s[1..], 0)
    else ReadDigits(s, 0)
  }

  lemma {:induction false} ReadConcat(x: seq<byte>, c: byte, value: nat)
    requires (forall i :: 0 <= i < |x| ==> IsDecimal(x[i])) && IsDecimal(c)
    ensures ReadDigits(x + [c], value) == 10 * ReadDigits(x, value) + (c - ZERO)
  {
    if x == [] {
      assert x + [c] == [c] && ReadDigits([c][1..], 10 * value + (c - ZERO)) == 10 * value + (c - ZERO);
    } else {
      ReadConcat(x[1..], c, 10 * value + (x[0] - ZERO));
      assert (x + [c])[1..] == x[1..] + [c];
    }
  }

  lemma {:induction false} ReadWritten(n: nat)
    ensures ReadDigits(Digits(n), 0) == n
  {
    if n < 10 {
      assert ReadDigits([n + ZERO][1..], n) == n;
    } else {
      ReadWritten(n / 10);
      ReadConcat(Digits(n / 10), n % 10 + ZERO, 0);
    }
  }

  /** An integer written by lexical_cast is read back by atoi. */
  lemma AtoiToText(n: int)
    ensures Atoi(ToText(n)) == n
  {
    if n < 0 {
      ReadWritten(-n);
      assert ToText(n)[1..] == Digits(-n);
    } else {
      ReadWritten(n);
    }
  }
}
