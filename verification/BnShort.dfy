/** Division of a big number by one word (bignum.c:551-635). */
module BnShort {
  import opened Arith
  import opened BnValue
  import opened BnBasic
  import opened BnShift

  /** Appending a quotient word: BigNum_ShiftLeft(q, 32, word). */
  method PushWord(q: BigNum, word: Word) returns (r: BigNum)
    ensures Value(r) == Value(q) * B + word && Normal(r)
  {
    r := ShiftLeft(q, 32, word);
    Pow2Word();
    ShiftOrAdds(Value(q), 32, word);
  }

  /** bignum.c:606-616: a two-word partial quotient is pushed in two steps. */
  method PushQuotient(q0: BigNum, quotient: nat) returns (q: BigNum)
    requires quotient < B * B && (Value(q0) == 0 || quotient < B)
    ensures Value(q) == Value(q0) * B + quotient && Normal(q)
  {
    var high, low := High(quotient), Low(quotient);
    q := q0;
    if high != 0 {
      q := PushWord(q, high);
    }
    q := PushWord(q, low);
  }

  lemma QuotientFits(dividend: nat, d: nat)
    requires 0 < d < B && dividend < B * B
    ensures dividend == d * (dividend / d) + dividend % d && dividend % d < d
    ensures 0 <= dividend / d < B * B && (dividend < d * B ==> dividend / d < B)
  {
    DivMod(dividend, d);
    var q := dividend / d;
    MulMono(1, d, q);
    if dividend < d * B && q >= B { MulMono(B, q, d); }
  }

  /** One division step: the 64-bit dividend yields the next quotient words (bignum.c:603-616). */
  method DivideStep(q0: BigNum, dividend: nat, divisor: Word) returns (q: BigNum, reminder: Word)
    requires divisor > 0 && dividend < B * B && (Value(q0) == 0 || dividend < divisor * B)
    ensures Value(q) * divisor + reminder == B * (Value(q0) * divisor) + dividend && reminder < divisor && Normal(q)
  {
    QuotientFits(dividend, divisor);
    var quotient: nat, rest: Word := dividend / divisor, dividend % divisor;
    q := PushQuotient(q0, quotient);
    reminder := rest;
    StepIs(Value(q0), Value(q), dividend, divisor, quotient, rest);
  }

  lemma StepIs(q0: nat, q: nat, dividend: nat, divisor: Word, quotient: nat, rest: nat)
    requires 0 < divisor && dividend < B * B
    requires q == q0 * B + quotient && quotient == dividend / divisor && rest == dividend % divisor
    ensures q * divisor + rest == B * (q0 * divisor) + dividend
  {
    QuotientFits(dividend, divisor);
    StepArith(q0, q, divisor, dividend, quotient, rest);
  }

  lemma StepArith(q0: int, q: int, d: int, dividend: int, quotient: int, reminder: int)
    requires q == q0 * B + quotient && dividend == d * quotient + reminder
    ensures q * d + reminder == B * (q0 * d) + dividend
  {
    assert (q0 * B) * d == B * (q0 * d);
  }

  /** The next window, one word lower, still fits 64 bits. */
  lemma NextWindow(v: nat, q: nat, d: nat, rest: nat, word: nat)
    requires v == q * d + rest && rest < B && word < B && (q == 0 || rest < d)
    ensures word + B * v == B * (q * d) + (rest * B + word) && rest * B + word < B * B
    ensures q == 0 || rest * B + word < d * B
  {}

  /** BigNum_DivideByInteger */
  method DivideByInteger(a: BigNum, divisor: Word) returns (q: BigNum, rem: Word)
    requires divisor > 0
    ensures Value(a) == Value(q) * divisor + rem && rem < divisor && Normal(q)
  {
    q := CreateFromInteger(0);
    var words := Significant(a);
    var index := words - 1;
    var dividend: nat := a[index];
    ghost var t, first := a[..words], true;
    TopWords(t, index);
    while true
      invariant 0 <= index < words && t == a[..words] && dividend < B
      invariant Value(q) == 0 || dividend < divisor
      invariant Value(t[index..]) == Value(q) * divisor + dividend
      invariant if first then Value(q) == 0 else index > 0
      decreases index, first
    {
      if index > 0 {
        index := index - 1;
        NextWindow(Value(t[index + 1..]), Value(q), divisor, dividend, a[index]);
        LowerWord(t, index);
        dividend := dividend * B + a[index];
      }
      q, rem := DivideStep(q, dividend, divisor);
      if index == 0 {
        assert t[0..] == t;
        return;
      }
      dividend := rem;
      first := false;
    }
  }

  lemma TopWords(t: seq<Word>, index: nat)
    requires |t| == index + 1
    ensures Value(t[index..]) == t[index]
  {
    assert t[index..] == [t[index]];
    ValueSingle(t[index]);
  }

  lemma LowerWord(t: seq<Word>, index: nat)
    requires index < |t|
    ensures Value(t[index..]) == t[index] + B * Value(t[index + 1..])
  {
    assert t[index..][0] == t[index] && t[index..][1..] == t[index + 1..];
  }
}
