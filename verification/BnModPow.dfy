/** BigNum_ModPow (bignum.c:907-966). */
module BnModPow {
  import opened Arith
  import opened BnValue
  import opened BnBasic
  import opened BnShift
  import opened BnLong

  function Power(b: nat, e: nat): nat {
    if e == 0 then 1 else b * Power(b, e - 1)
  }

  // ----- congruence -----

  lemma ModUnique(a: nat, b: nat, m: nat, k: int)
    requires m > 0 && a == b + m * k
    ensures a % m == b % m
  {
    DivMod(b, m);
    assert m * (b / m + k) == m * (b / m) + m * k;
    DivUnique(a, m, b / m + k, b % m);
  }

  lemma ModOfMod(a: nat, m: nat)
    requires m > 0
    ensures (a % m) % m == a % m && 0 <= a % m < m
  {
    DivMod(a, m);
    DivUnique(a % m, m, 0, a % m);
  }

  lemma ModProduct(a: nat, b: nat, x: nat, y: nat, m: nat)
    requires m > 0 && a % m == b % m && x % m == y % m
    ensures (a * x) % m == (b * y) % m
  {
    DivMod(a, m); DivMod(b, m); DivMod(x, m); DivMod(y, m);
    ProductDifference(a, b, x, y, m, a / m - b / m, x / m - y / m);
    ModUnique(a * x, b * y, m, (a / m - b / m) * x + b * (x / m - y / m));
  }

  lemma ProductDifference(a: int, b: int, x: int, y: int, m: int, k: int, l: int)
    requires a == b + m * k && x == y + m * l
    ensures a * x == b * y + m * (k * x + b * l)
  {}

  lemma {:induction false} PowerMod(a: nat, b: nat, e: nat, m: nat)
    requires m > 0 && a % m == b % m
    ensures Power(a, e) % m == Power(b, e) % m
  {
    if e > 0 {
      PowerMod(a, b, e - 1, m);
      ModProduct(a, b, Power(a, e - 1), Power(b, e - 1), m);
    }
  }

  lemma {:induction false} PowerAdd(b: nat, e: nat, f: nat)
    ensures Power(b, e + f) == Power(b, e) * Power(b, f)
  {
    if e > 0 {
      PowerAdd(b, e - 1, f);
      assert b * (Power(b, e - 1) * Power(b, f)) == (b * Power(b, e - 1)) * Power(b, f);
    }
  }

  lemma {:induction false} PowerSquare(b: nat, e: nat)
    ensures Power(b * b, e) == Power(b, 2 * e)
  {
    if e > 0 {
      PowerSquare(b, e - 1);
      assert Power(b, 2 * e) == b * (b * Power(b, 2 * e - 2));
    }
  }

  /** One squaring step keeps result * base^exp modulo m. */
  lemma StepKeeps(result: nat, result': nat, base: nat, base': nat, exp: nat, m: nat)
    requires m > 0 && exp > 0
    requires base' % m == (base * base) % m
    requires if exp % 2 == 1 then result' % m == (result * base) % m else result' == result
    ensures (result' * Power(base', exp / 2)) % m == (result * Power(base, exp)) % m
  {
    hide Power;
    var h := exp / 2;
    PowerMod(base', base * base, h, m);
    PowerSquare(base, h);
    if exp % 2 == 1 {
      ModProduct(result', result * base, Power(base', h), Power(base, 2 * h), m);
      PowerAdd(base, 1, 2 * h);
      PowerOne(base);
      Assoc(result, base, Power(base, 2 * h));
    } else {
      ModProduct(result', result, Power(base', h), Power(base, 2 * h), m);
    }
  }

  lemma PowerOne(b: nat)
    ensures Power(b, 1) == b
  {
    assert Power(b, 0) == 1;
  }

  lemma Assoc(a: int, b: int, c: int)
    ensures (a * b) * c == a * (b * c) && a * b == b * a
  {}

  // ----- the loop -----

  /** Every division made before the last turn of the loop, while raising base to exp modulo m and starting
      from result, is exact. */
  ghost predicate BeforeExact(base: nat, exp: nat, m: nat, result: nat)
    requires m > 0
    decreases exp
  {
    exp <= 1 ||
    (&& (exp % 2 == 1 ==> DivisionExact(result * base, m))
     && DivisionExact(base * base, m)
     && BeforeExact((base * base) % m, exp / 2, m, if exp % 2 == 1 then (result * base) % m else result))
  }

  /** The product that the last turn reduces. Its square is thrown away. */
  function LastProduct(base: nat, exp: nat, m: nat, result: nat): nat
    requires m > 0
    decreases exp
  {
    if exp <= 1 then result * base
    else LastProduct((base * base) % m, exp / 2, m, if exp % 2 == 1 then (result * base) % m else result)
  }

  lemma {:induction false} SmallBeforeExact(base: nat, exp: nat, m: nat, result: nat)
    requires 0 < m < B * B
    ensures BeforeExact(base, exp, m, result)
    decreases exp
  {
    hide DivisionExact;
    if exp > 1 {
      SmallDivisorExact(result * base, m);
      SmallDivisorExact(base * base, m);
      SmallBeforeExact((base * base) % m, exp / 2, m, if exp % 2 == 1 then (result * base) % m else result);
    }
  }

  /** With a modulus of at most two words no division can go wrong. */
  lemma SmallModulusExact(base: nat, exp: nat, m: nat)
    requires 0 < m < B * B
    ensures BeforeExact(base, exp, m, 1) && DivisionExact(LastProduct(base, exp, m, 1), m)
  {
    hide DivisionExact;
    SmallBeforeExact(base, exp, m, 1);
    SmallDivisorExact(LastProduct(base, exp, m, 1), m);
  }

  /** With exponent one it is the only division that decides; here is one that fails. */
  lemma PowCanFail()
    ensures var n, d := Value([0, 0, 0x8000_0000, 0x7FFF_FFFF]), Value([1, 0, 0x8000_0000]);
      d > 0 && BeforeExact(n, 1, d, 1) && !DivisionExact(LastProduct(n, 1, d, 1), d)
  {
    OverestimateHappens();
    OneTimes(Value([0, 0, 0x8000_0000, 0x7FFF_FFFF]));
  }

  /** What a reduction modulo m leaves of n: the remainder, or after a digit that was too high something that
      is not below m. */
  ghost predicate Reduced(x: nat, n: nat, m: nat)
    requires m > 0
  {
    if DivisionExact(n, m) then x == n % m else x >= m
  }

  /** The remainder step: multiply, then divide by the modulus (bignum.c:933-940, 947-955). */
  method MultiplyMod(a: BigNum, b: BigNum, modulus: BigNum) returns (r: BigNum)
    requires Value(modulus) > 0
    ensures Normal(r) && Reduced(Value(r), Value(a) * Value(b), Value(modulus))
  {
    hide Value, Pow, DivisionExact, ExactIn;
    var temp := Multiply(a, b);
    var divTemp;
    divTemp, r := Divide(temp, modulus);
    if DivisionExact(Value(temp), Value(modulus)) {
      DivUnique(Value(temp), Value(modulus), Value(divTemp), Value(r));
    }
  }

  /** What holds of result, base and exponent at each turn, and in the end, if the divisions before the last
      turn are exact. */
  ghost predicate OnWay(base: nat, exp: nat, result: nat, m: nat, last: nat, power: nat)
    requires m > 0
  {
    if exp > 0 then
      BeforeExact(base, exp, m, result) && LastProduct(base, exp, m, result) == last
      && (result * Power(base, exp)) % m == power % m
    else if DivisionExact(last, m) then result == power % m
    else result >= m
  }

  /** BigNum_ModPow. For exponent zero it returns 1, even when the modulus is one. Otherwise, if the divisions
      before the last turn are exact, the result is the power modulo the modulus when the last one is exact
      too, and only then: after an inexact one it is not below the modulus, whatever came before. */
  method ModPow(base: BigNum, exponent: BigNum, modulus: BigNum) returns (result: BigNum, ghost reduced: nat)
    requires Value(modulus) > 0
    ensures Value(exponent) == 0 ==> Value(result) == 1
    ensures Value(exponent) > 0 ==> Reduced(Value(result), reduced, Value(modulus))
    ensures Value(exponent) > 0 && BeforeExact(Value(base), Value(exponent), Value(modulus), 1) ==>
      var last := LastProduct(Value(base), Value(exponent), Value(modulus), 1);
      && (DivisionExact(last, Value(modulus)) ==>
            Value(result) == Power(Value(base), Value(exponent)) % Value(modulus) < Value(modulus))
      && (!DivisionExact(last, Value(modulus)) ==> Value(result) >= Value(modulus))
    ensures Value(modulus) < B * B && Value(exponent) > 0 ==>
      Value(result) == Power(Value(base), Value(exponent)) % Value(modulus)
  {
    hide Value, Pow, DivisionExact, BeforeExact, LastProduct, Power, OnWay, Reduced;
    var bas := CreateFromBigNum(base);
    var exp := CreateFromBigNum(exponent);
    result := CreateFromInteger(1);
    ghost var m, b0, e0 := Value(modulus), Value(base), Value(exponent);
    reduced := 0;
    ghost var before, last := BeforeExact(b0, e0, m, 1), LastProduct(b0, e0, m, 1);
    if before && e0 > 0 { PowStart(b0, e0, m); }
    while !(|exp| == 1 && exp[0] == 0)
      invariant Normal(exp) && Normal(bas) && Normal(result)
      invariant e0 == 0 ==> Value(exp) == 0 && Value(result) == 1
      invariant e0 > 0 && Value(exp) == 0 ==> Reduced(Value(result), reduced, m)
      invariant before && e0 > 0 ==> OnWay(Value(bas), Value(exp), Value(result), m, last, Power(b0, e0))
      decreases Value(exp)
    {
      ghost var r, b, e := Value(result), Value(bas), Value(exp);
      NonZero(exp);
      LowBit(exp);
      if exp[0] % 2 == 1 {
        MulMono(0, r, b);
        reduced := r * b;
        result := MultiplyMod(result, bas, modulus);
      }
      HalfIs(e);
      exp := ShiftRight(exp, 1);
      bas := MultiplyMod(bas, bas, modulus);
      if before { PowStep(r, Value(result), b, Value(bas), e, r * b, b * b, m, last, Power(b0, e0)); }
    }
    ZeroValue(exp);
    if before && e0 > 0 { PowEnd(Value(bas), Value(result), m, last, Power(b0, e0)); }
    if m < B * B { SmallModulusExact(b0, e0, m); }
  }

  lemma OneTimes(x: int)
    ensures 1 * x == x
  {}

  lemma HalfIs(e: nat)
    ensures e / Pow2(1) == e / 2
  {
    assert Pow2(0) == 1;
  }

  lemma NonZero(s: BigNum)
    requires Normal(s) && !(|s| == 1 && s[0] == 0)
    ensures Value(s) > 0
  {
    ValueTop(s, |s| - 1);
    MulMono(1, s[|s| - 1], Pow(|s| - 1));
  }

  lemma ZeroValue(s: BigNum)
    requires |s| == 1 && s[0] == 0
    ensures Value(s) == 0
  {
    assert s == [0];
    ValueSingle(0);
  }

  lemma LowBit(s: BigNum)
    ensures s[0] % 2 == Value(s) % 2
  {
    assert Value(s) == s[0] + 2 * (0x8000_0000 * Value(s[1..]));
  }

  lemma PowStart(b: nat, e: nat, m: nat)
    requires m > 0 && e > 0 && BeforeExact(b, e, m, 1)
    ensures OnWay(b, e, 1, m, LastProduct(b, e, m, 1), Power(b, e))
  {
    hide Power, BeforeExact, LastProduct;
    OneTimes(Power(b, e));
  }

  lemma PowStep(r: nat, r': nat, b: nat, b': nat, e: nat, rb: nat, bb: nat, m: nat,
      last: nat, power: nat)
    requires m > 0 && e > 0 && OnWay(b, e, r, m, last, power) && rb == r * b && bb == b * b
    requires if e % 2 == 1 then Reduced(r', rb, m) else r' == r
    requires Reduced(b', bb, m)
    ensures OnWay(b', e / 2, r', m, last, power)
  {
    hide DivisionExact, Power;
    if e == 1 {
      PowerOne(b);
    } else {
      ModOfMod(bb, m);
      if e % 2 == 1 { ModOfMod(rb, m); }
      StepKeeps(r, r', b, b', e, m);
    }
  }

  lemma PowEnd(b: nat, r: nat, m: nat, last: nat, power: nat)
    requires m > 0 && OnWay(b, 0, r, m, last, power)
    ensures if DivisionExact(last, m) then r == power % m < m else r >= m
  {
    hide DivisionExact;
    ModOfMod(power, m);
  }
}
