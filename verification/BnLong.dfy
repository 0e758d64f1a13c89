/** BigNum_Divide (bignum.c:744-899). */
module BnLong {
  import opened Arith
  import opened BnValue
  import opened BnBasic
  import opened BnShift
  import opened BnShort
  import opened BnKnuth
  import opened BnDivide

  // ----- the words of a number -----

  function Words(x: nat): (s: BigNum)
    ensures Value(s) == x && Normal(s)
  {
    if x < B then
      ValueSingle(x);
      [x]
    else
      ValueJoin(x % B, Words(x / B));
      [x % B] + Words(x / B)
  }

  lemma ValueJoin(w: Word, s: seq<Word>)
    ensures Value([w] + s) == w + B * Value(s)
  {
    assert ([w] + s)[1..] == s;
  }

  lemma {:induction false} NormalIsWords(s: BigNum)
    requires Normal(s)
    ensures s == Words(Value(s))
  {
    var t := Words(Value(s));
    if |s| != |t| {
      if |s| > |t| { MoreWordsIsMore(s, t); } else { MoreWordsIsMore(t, s); }
    } else {
      ValueInjective(s, t);
    }
  }

  /** The length of a normal number follows from its size. */
  lemma NormalLength(s: BigNum, n: nat)
    requires Normal(s) && n >= 1 && Pow(n - 1) <= Value(s) < Pow(n)
    ensures |s| == n
  {
    NormalBound(s);
    if |s| < n { PowMono(|s|, n - 1); }
    if |s| > n { PowMono(n, |s| - 1); }
  }

  // ----- the normalising shift -----

  /** How far the top word has to move for its highest bit to be set. */
  function Leading(top: Word): (s: nat)
    requires top > 0
    ensures B / 2 <= top * Pow2(s) < B && s < 32
    decreases B - top
  {
    if top >= B / 2 then assert top * Pow2(0) == top; 0 else
      var s := Leading(2 * top);
      assert top * Pow2(s + 1) == (2 * top) * Pow2(s);
      LeadingBound(top, s + 1);
      s + 1
  }

  lemma LeadingBound(top: nat, s: nat)
    requires top > 0 && top * Pow2(s) < B
    ensures s < 32
  {
    MulMono(1, top, Pow2(s));
    if s >= 32 { Pow2Add(32, s - 32); Pow2Word(); MulMono(1, Pow2(s - 32), B); }
  }

  lemma {:induction false} LeadingUnique(top: Word, s: nat)
    requires top > 0 && B / 2 <= top * Pow2(s) < B
    ensures s == Leading(top)
    decreases s
  {
    if s > 0 {
      assert top * Pow2(s) == (2 * top) * Pow2(s - 1);
      MulMono(1, Pow2(s - 1), 2 * top);
      LeadingUnique(2 * top, s - 1);
    }
  }

  /** The scan with a one-bit mask (bignum.c:831-833). */
  method ScanTopBit(top: Word) returns (shift: nat)
    requires top > 0
    ensures shift == Leading(top)
  {
    var x: nat := 0x8000_0000;
    shift := 0;
    HalfWord();
    while (top / x) % 2 == 0
      invariant shift <= 31 && x == Pow2(31 - shift) && top < 2 * x
      decreases x
    {
      MaskStep(top, x, shift);
      x := x / 2;
      shift := shift + 1;
    }
    MaskEnd(top, x, shift);
    LeadingUnique(top, shift);
  }

  lemma HalfWord()
    ensures Pow2(31) == 0x8000_0000
  {
    Pow2Word();
    Pow2Add(1, 31);
  }

  lemma MaskStep(top: nat, x: nat, s: nat)
    requires s <= 31 && x == Pow2(31 - s) && 0 < top < 2 * x && (top / x) % 2 == 0
    ensures s < 31 && x / 2 == Pow2(30 - s) && top < 2 * (x / 2) && x / 2 < x
  {
    if top >= x { DivUnique(top, x, 1, top - x); }
  }

  lemma MaskEnd(top: nat, x: nat, s: nat)
    requires s <= 31 && x == Pow2(31 - s) && top < 2 * x && (top / x) % 2 != 0
    ensures B / 2 <= top * Pow2(s) < B
  {
    hide Pow2;
    if top < x { DivUnique(top, x, 0, top); }
    Pow2Add(31 - s, s);
    HalfWord();
    MaskArith(top, x, Pow2(s));
  }

  lemma MaskArith(top: int, x: int, p: int)
    requires x * p == B / 2 && x <= top < 2 * x && p > 0
    ensures B / 2 <= top * p < B
  {
    MulMono(x, top, p);
    MulStrict(top, 2 * x, p);
    assert (2 * x) * p == 2 * (x * p);
  }

  // ----- the setup of the long division -----

  /** The divisor moved until its highest bit is set, and the distance. */
  ghost predicate Setup(d: nat, n: nat, s: nat, v: BigNum) {
    s < 32 && Normalized(v) && |v| == n && Value(v) == d * Pow2(s)
  }

  lemma ShiftedDivisor(t: seq<Word>, d: nat, n: nat, s: nat, v: BigNum)
    requires n >= 2 && |t| == n && t[n - 1] != 0 && Value(t) == d && s == Leading(t[n - 1])
    requires Normal(v) && Value(v) == d * Pow2(s)
    ensures Setup(d, n, s, v)
  {
    hide Value, Pow, Pow2, Leading;
    var top, p, pn: int := t[n - 1], Pow2(s), Pow(n - 1);
    LeadingFits(t[n - 1]);
    Complement(s);
    ValueTop(t, n - 1);
    ValueBound(t[..n - 1]);
    PowNext(n - 1);
    TopShift(d, Value(t[..n - 1]), pn, top, p, Pow2(32 - s));
    MulMono(1, B / 2, pn);
    NormalLength(v, n);
    ValueTop(v, n - 1);
    ValueBound(v[..n - 1]);
    TopBit(Value(v), Value(v[..n - 1]), pn, v[n - 1]);
  }

  lemma LeadingFits(top: Word)
    requires top > 0
    ensures B / 2 <= top * Pow2(Leading(top)) < B && Leading(top) < 32
  {}

  lemma TopShift(d: int, low: int, pn: int, top: int, p: int, q: int)
    requires d == low + pn * top && 0 <= low < pn && p > 0 && B / 2 <= top * p < B && p * q == B
    ensures pn * (B / 2) <= d * p < pn * B
  {
    TopShiftLow(d, low, pn, top, p);
    assert top < q by { if top >= q { MulMono(q, top, p); } }
    MulMono(top + 1, q, p);
    TopShiftHigh(d, low, pn, top, p);
  }

  lemma TopShiftLow(d: int, low: int, pn: int, top: int, p: int)
    requires d == low + pn * top && 0 <= low < pn && p > 0 && B / 2 <= top * p
    ensures pn * (B / 2) <= d * p
  {
    Distribute(low, pn * top, p);
    Regroup(pn, top, p);
    MulMono(0, low, p);
    MulMono(B / 2, top * p, pn);
  }

  lemma TopShiftHigh(d: int, low: int, pn: int, top: int, p: int)
    requires d == low + pn * top && 0 <= low < pn && p > 0 && (top + 1) * p <= B
    ensures d * p < pn * B
  {
    Distribute(top, 1, pn);
    MulStrict(d, pn * (top + 1), p);
    Regroup(pn, top + 1, p);
    MulMono((top + 1) * p, B, pn);
  }

  lemma Regroup(a: int, b: int, c: int)
    ensures (a * b) * c == a * (b * c)
  {}

  lemma TopBit(v: int, low: int, pn: int, top: int)
    requires v == low + pn * top && low < pn && pn * (B / 2) <= v && pn > 0
    ensures top >= B / 2
  {
    if top + 1 <= B / 2 { MulMono(top + 1, B / 2, pn); }
  }

  /** The dividend space has room for the first window. */
  lemma RoomForQuotient(u: nat, x: nat, k: nat, s: nat, v: BigNum, n: nat)
    requires s < 32 && Normalized(v) && |v| == n <= k && u < Pow(k) && x == u * Pow2(s)
    ensures x < Value(v) * Pow(k + 1 - n)
  {
    hide Value, Pow, Pow2;
    NormalizedPositive(v);
    PowAdd(n, k + 1 - n);
    PowNext(k);
    Complement(s);
    HalfShift(s);
    RoomArith(u, x, Pow(k), Pow2(s), Value(v), Pow(n), Pow(k + 1 - n));
  }

  lemma HalfShift(s: nat)
    requires s < 32
    ensures 2 * Pow2(s) <= B
  {
    Pow2Add(s + 1, 31 - s);
    Pow2Word();
    MulMono(1, Pow2(31 - s), Pow2(s + 1));
  }

  lemma RoomArith(u: int, x: int, pk: int, p: int, v: int, pn: int, pr: int)
    requires x == u * p && u < pk && 0 < 2 * p <= B && 2 * v >= pn && pn * pr == B * pk && pr > 0 && pk > 0
    ensures x < v * pr
  {
    MulStrict(u, pk, p);
    MulMono(pn, 2 * v, pr);
    MulMono(2 * p, B, pk);
    assert (2 * v) * pr == 2 * (v * pr) && (2 * p) * pk == 2 * (pk * p);
  }

  /** The inputs on which BigNum_Divide makes no digit estimate that is one too high: in the division of
      the shifted numbers, each estimate times the divisor stays within its partial dividend. With one
      significant divisor word, or no quotient beyond 1, no estimates are made. The dividend has `words` words. */
  ghost predicate ExactIn(words: nat, n: nat, d: nat)
    requires d > 0
  {
    || d >= n
    || d < B
    || (var dw := Words(d);
        var top := dw[|dw| - 1];
        top > 0 &&
        var s := Leading(top);
        var v := Words(d * Pow2(s));
        Normalized(v) && |v| <= words && ExactFrom(n * Pow2(s), v, 0, words + 1 - |v|))
  }

  /** The same for a dividend without leading zero words. */
  ghost predicate DivisionExact(n: nat, d: nat)
    requires d > 0
  {
    ExactIn(|Words(n)|, n, d)
  }

  /** The shifted dividend has at least as many words as the dividend, so that one more makes room for the first
      window, and the division writes all words of the quotient (bignum.c:840-861). That is so for a dividend
      without leading zero words, and for one with a single one into which the shift spills. */
  predicate Writes(dividend: BigNum, d: nat) {
    d >= B ==>
      var dw := Words(d);
      var top := dw[|dw| - 1];
      top > 0 && Pow(|dividend| - 1) <= Value(dividend) * Pow2(Leading(top))
  }

  lemma NormalWrites(dividend: BigNum, d: nat)
    requires Normal(dividend) && 0 < d < Value(dividend)
    ensures Writes(dividend, d)
  {
    if d >= B {
      hide Value, Pow, Pow2, Leading;
      var dw := Words(d);
      var top := dw[|dw| - 1];
      NormalBound(dividend);
      WordsTop(d);
      Complement(Leading(top));
      Positive(1, Pow2(Leading(top)));
      MulMono(1, Pow2(Leading(top)), Value(dividend));
    }
  }

  lemma WordsTop(d: nat)
    requires d >= B
    ensures var dw := Words(d); |dw| > 1 && dw[|dw| - 1] > 0
  {}

  /** bignum.c:840-857: the shifted dividend, with exactly one more word than the dividend. */
  method ShiftDividend(dividend: BigNum, s: nat) returns (u: array<Word>)
    requires s < 32 && Pow(|dividend| - 1) <= Value(dividend) * Pow2(s)
    ensures fresh(u) && u.Length == |dividend| + 1 && Value(u[..]) == Value(dividend) * Pow2(s)
  {
    hide Value, Pow, Pow2;
    var temp := ShiftLeft(dividend, s, 0);
    ShiftOrZero(Value(dividend), s);
    TempLength(dividend, temp, s);
    var words := if |temp| != |dividend| then |temp| else |temp| + 1;
    u := new Word[words](i => 0);
    CopyWords(u, temp);
  }

  lemma ShiftOrZero(v: nat, s: nat)
    ensures ShiftOr(v, s, 0) == v * Pow2(s)
  {
    ShiftOrAdds(v, s, 0);
  }

  lemma TempLength(a: BigNum, temp: BigNum, s: nat)
    requires s < 32 && Pow(|a| - 1) <= Value(a) * Pow2(s) && Normal(temp) && Value(temp) == Value(a) * Pow2(s)
    ensures |a| <= |temp| <= |a| + 1
  {
    hide Value, Pow, Pow2;
    var n := |a|;
    ValueBound(a);
    Complement(s);
    PowNext(n);
    MulStrict(Value(a), Pow(n), Pow2(s));
    MulMono(Pow2(s), B, Pow(n));
    PowMono(0, n - 1);
    PowZero();
    NormalBound(temp);
    if |temp| < n { PowMono(|temp|, n - 1); }
    if |temp| > n + 1 { PowMono(n + 1, |temp| - 1); }
  }

  method CopyWords(u: array<Word>, s: BigNum)
    requires |s| <= u.Length && forall k | 0 <= k < u.Length :: u[k] == 0
    modifies u
    ensures Value(u[..]) == Value(s)
  {
    var i := 0;
    while i < |s|
      invariant 0 <= i <= |s|
      invariant forall k | 0 <= k < u.Length :: u[k] == if k < i then s[k] else 0
    {
      u[i] := s[i];
      i := i + 1;
    }
    assert u[..][..|s|] == s;
    ValueZeros(u[..], |s|);
  }

  /** The divisor scan of BigNum_Divide agrees with ExactIn. */
  lemma ExactIs(n: nat, d: nat, k: nat, t: BigNum, s: nat, v: BigNum)
    requires B <= d < n && Normal(t) && Value(t) == d && t[|t| - 1] > 0
    requires s == Leading(t[|t| - 1]) && Normal(v) && Value(v) == d * Pow2(s) && Normalized(v) && |v| <= k
    ensures ExactIn(k, n, d) <==> ExactFrom(n * Pow2(s), v, 0, k + 1 - |v|)
  {
    hide Value, Pow, Pow2, Leading, Words, Normal, Normalized, ExactFrom;
    NormalIsWords(t); NormalIsWords(v);
  }

  /** Undoing the shift on the remainder. */
  lemma Unshift(n: nat, d: nat, p: nat, q: nat, r2: nat)
    requires d > 0 && p > 0 && d * p > 0 && q == (n * p) / (d * p) && r2 == (n * p) % (d * p)
    ensures n == q * d + r2 / p && r2 / p < d
  {
    DivMod(n * p, d * p);
    UnshiftArith(n, d, p, q, r2);
  }

  lemma UnshiftArith(n: nat, d: nat, p: nat, q: nat, r2: nat)
    requires p > 0 && n * p == (d * p) * q + r2 && r2 < d * p
    ensures n == q * d + r2 / p && r2 / p < d
  {
    var r := n - q * d;
    assert r * p == r2 by { assert (q * d) * p == (d * p) * q; }
    if r < 0 { MulMono(r, -1, p); }
    DivUnique(r2, p, r, 0);
    if r >= d { MulMono(d, r, p); }
  }

  lemma UnshiftSpoiled(d: nat, p: nat, pn: nat, r2: nat)
    requires p > 0 && d * p < pn <= r2
    ensures r2 / p >= d
  {
    DivMod(r2, p);
    var r := r2 / p;
    if r + 1 <= d { MulMono(r + 1, d, p); }
  }

  /** bignum.c:821-883: both operands have at least two significant words and the dividend is larger. */
  method LongDivide(dividend: BigNum, divisor: BigNum, index: nat) returns (q: BigNum, r: BigNum)
    requires 2 <= index <= |divisor| && divisor[index - 1] != 0
    requires Value(divisor[..index]) == Value(divisor) && 0 < Value(divisor) < Value(dividend)
    requires Pow(|dividend| - 1) <= Value(dividend) * Pow2(Leading(divisor[index - 1]))
    ensures ExactIn(|dividend|, Value(dividend), Value(divisor)) ==>
      Value(dividend) == Value(q) * Value(divisor) + Value(r) && Value(r) < Value(divisor)
    ensures !ExactIn(|dividend|, Value(dividend), Value(divisor)) ==> Value(r) >= Value(divisor)
    ensures Normal(q) && Normal(r)
  {
    hide Value, Pow, Pow2, Leading, Words, Normalized, ExactFrom, ExactIn;
    var shift := ScanTopBit(divisor[index - 1]);
    ghost var n, d := Value(dividend), Value(divisor);
    LeadingFits(divisor[index - 1]);
    var divisor2 := ShiftLeft(divisor, shift, 0);
    ShiftOrZero(d, shift);
    ShiftedDivisor(divisor[..index], d, index, shift, divisor2);
    DivisorFits(dividend, divisor[..index], index);
    var dividend2 := ShiftDividend(dividend, shift);
    var quotient := new Word[|dividend| - |divisor2| + 1](i => 0);
    ValueBound(dividend);
    RoomForQuotient(n, n * Pow2(shift), |dividend|, shift, divisor2, index);
    DivideHelper(dividend2, divisor2, quotient);
    LongResult(n, d, shift, divisor2, |dividend|, divisor[..index], Value(quotient[..]), Value(dividend2[..]));
    q := CreateFromBigNum(quotient[..]);
    r := ShiftRight(dividend2[..], shift);
  }

  /** A smaller number has no more words. */
  lemma DivisorFits(a: BigNum, t: BigNum, n: nat)
    requires Value(t) < Value(a) && |t| == n && t[n - 1] != 0
    ensures n <= |a| && (Value(t) >= B || n == 1)
  {
    if n > |a| { MoreWordsIsMore(t, a); }
    if n >= 2 { ManyWordsAreLarge(t, n); }
  }

  lemma LongResult(n: nat, d: nat, s: nat, v: BigNum, k: nat, t: BigNum, q: nat, r2: nat)
    requires 0 < d < n && Normal(t) && Value(t) == d && |t| >= 2 && t[|t| - 1] > 0
    requires s == Leading(t[|t| - 1]) && Setup(d, |t|, s, v) && Normal(v) && |t| <= k && d >= B
    requires if ExactFrom(n * Pow2(s), v, 0, k + 1 - |v|)
      then Value(v) > 0 && q == (n * Pow2(s)) / Value(v) && r2 == (n * Pow2(s)) % Value(v)
      else r2 >= Pow(|v|)
    ensures ExactIn(k, n, d) ==> n == q * d + r2 / Pow2(s) && r2 / Pow2(s) < d
    ensures !ExactIn(k, n, d) ==> r2 / Pow2(s) >= d
  {
    hide Value, Pow, Pow2, Leading, Words, Normal, ExactFrom, ExactIn;
    ExactIs(n, d, k, t, s, v);
    ValueBound(v);
    if ExactFrom(n * Pow2(s), v, 0, k + 1 - |v|) {
      Unshift(n, d, Pow2(s), q, r2);
    } else {
      UnshiftSpoiled(d, Pow2(s), Pow(|v|), r2);
    }
  }

  lemma NoEstimates(k: nat, n: nat, d: nat)
    requires d > 0 && (d >= n || d < B)
    ensures ExactIn(k, n, d)
  {}

  /** With a divisor of at most two words no estimate is too high, whatever the dividend. */
  lemma TwoWordsAreExact(k: nat, n: nat, d: nat)
    requires 0 < d < B * B && k >= 2
    ensures ExactIn(k, n, d)
  {
    hide Value, Pow, Pow2, Leading, Words, ExactIn, ExactFrom, Normalized;
    if d < B || d >= n {
      NoEstimates(k, n, d);
    } else {
      var dw := Words(d);
      WordSquare();
      NormalLength(dw, 2);
      var s := Leading(dw[1]);
      LeadingFits(dw[1]);
      Positive(d, Pow2(s));
      var v := Words(d * Pow2(s));
      ShiftedDivisor(dw, d, 2, s, v);
      ExactIs(n, d, k, dw, s, v);
      TwoWordsExactFrom(n * Pow2(s), v, k + 1 - |v|);
    }
  }

  /** So division by any number below 2^64 is right. */
  lemma SmallDivisorExact(n: nat, d: nat)
    requires 0 < d < B * B
    ensures DivisionExact(n, d)
  {
    hide Value, Pow, ExactIn;
    if d < B || d >= n {
      NoEstimates(|Words(n)|, n, d);
    } else {
      WordsTop(n);
      TwoWordsAreExact(|Words(n)|, n, d);
    }
  }

  lemma TwoWordsExactFrom(u: nat, v: BigNum, steps: nat)
    requires Normalized(v) && |v| == 2
    ensures ExactFrom(u, v, 0, steps)
  {
    hide Overestimated;
    forall j: nat | j < steps
      ensures !Overestimated(u, v, j)
    {
      TwoWordsExact(u, v, j);
    }
  }

  lemma WordSquare()
    ensures Pow(1) == B && Pow(2) == B * B
  {
    assert Pow(0) == 1;
  }

  /** BigNum_Divide. Quotient and remainder are right exactly on the inputs of ExactIn, among them all divisors
      below 2^64; on the others the remainder is not below the divisor. A dividend with leading zero words is
      excluded only where the code would leave words of the quotient unwritten. */
  method Divide(dividend: BigNum, divisor: BigNum) returns (q: BigNum, r: BigNum)
    requires Value(divisor) > 0
    requires Normal(dividend) || Value(dividend) <= Value(divisor) || Writes(dividend, Value(divisor))
    ensures ExactIn(|dividend|, Value(dividend), Value(divisor)) ==>
      Value(dividend) == Value(q) * Value(divisor) + Value(r) && Value(r) < Value(divisor)
    ensures !ExactIn(|dividend|, Value(dividend), Value(divisor)) ==> Value(r) >= Value(divisor)
    ensures Normal(dividend) ==>
      (ExactIn(|dividend|, Value(dividend), Value(divisor)) <==> DivisionExact(Value(dividend), Value(divisor)))
    ensures Value(divisor) < B * B ==> ExactIn(|dividend|, Value(dividend), Value(divisor))
    ensures Normal(q) && Normal(r)
  {
    hide Value, Pow, Pow2, Leading, Words, Normalized, ExactFrom, ExactIn, Writes;
    if Normal(dividend) { NormalIsWords(dividend); }
    if Value(divisor) >= Value(dividend) { NoEstimates(|dividend|, Value(dividend), Value(divisor)); }
    var x := Compare(divisor, dividend);
    if x == 1 {
      q := CreateFromInteger(0);
      r := CreateFromBigNum(dividend);
      return;
    } else if x == 0 {
      q := CreateFromInteger(1);
      r := CreateFromInteger(0);
      return;
    }
    var index := Significant(divisor);
    if index == 1 {
      OneWordIsSmall(divisor);
      NoEstimates(|dividend|, Value(dividend), Value(divisor));
      var rem;
      q, rem := DivideByInteger(dividend, divisor[0]);
      r := CreateFromInteger(rem);
      return;
    }
    if Normal(dividend) { NormalWrites(dividend, Value(divisor)); }
    LongSetup(dividend, divisor, index);
    q, r := LongDivide(dividend, divisor, index);
  }

  /** What the long division needs of its operands. */
  lemma LongSetup(dividend: BigNum, divisor: BigNum, index: nat)
    requires 2 <= index <= |divisor| && divisor[index - 1] != 0 && Value(divisor[..index]) == Value(divisor)
    requires 0 < Value(divisor) < Value(dividend) && Writes(dividend, Value(divisor))
    ensures Value(divisor) >= B && Pow(|dividend| - 1) <= Value(dividend) * Pow2(Leading(divisor[index - 1]))
    ensures Value(divisor) < B * B ==> ExactIn(|dividend|, Value(dividend), Value(divisor))
  {
    hide Value, Pow, Pow2, Leading, Words, ExactIn;
    var t: BigNum := divisor[..index];
    ManyWordsAreLarge(t, index);
    NormalIsWords(t);
    assert t[|t| - 1] == divisor[index - 1];
    if Value(divisor) < B * B {
      DivisorFits(dividend, t, index);
      TwoWordsAreExact(|dividend|, Value(dividend), Value(divisor));
    }
  }

  lemma ManyWordsAreLarge(t: seq<Word>, n: nat)
    requires |t| == n >= 2 && t[n - 1] != 0
    ensures Value(t) >= B
  {
    ValueTop(t, n - 1);
    PowMono(1, n - 1);
    MulMono(1, t[n - 1], Pow(n - 1));
    WordSquare();
  }

  lemma OneWordIsSmall(s: BigNum)
    requires Value(s[..1]) == Value(s)
    ensures Value(s) == s[0] < B
  {
    ValueSingle(s[0]);
    assert s[..1] == [s[0]];
  }

  // ----- how the missing add-back shows -----

  /** The correction the comment at bignum.c:662-668 describes would always repair an estimate: one
      divisor added back gives the true digit and remainder. */
  lemma AddBackWouldRepair(win: seq<Word>, v: BigNum)
    requires Normalized(v) && |win| == |v| + 1 && Value(win) < Value(v) * B
    requires Estimate(Value(win), v) * Value(v) > Value(win)
    ensures Value(v) > 0 && Estimate(Value(win), v) - 1 == Value(win) / Value(v)
    ensures Value(win) - Estimate(Value(win), v) * Value(v) + Value(v) == Value(win) % Value(v)
  {
    hide Value, Pow, Estimate, Refined;
    NormalizedPositive(v);
    var w, d, e := Value(win), Value(v), Estimate(Value(win), v);
    var q := TrueDigit(w, d);
    EstimateNearlyRight(win, v, |v|, q);
    OneTooHigh(w, d, q, e);
    assert (e - 1) * d == e * d - d;
    DivUnique(w, d, e - 1, w - (e - 1) * d);
  }

  /** Four words by three: the estimate for quotient word 0 is 0xFFFFFFFF, one too high. */
  lemma OverestimateHappens()
    ensures var n, d := Value([0, 0, 0x8000_0000, 0x7FFF_FFFF]), Value([1, 0, 0x8000_0000]);
      d > 0 && !DivisionExact(n, d)
  {
    var nw: BigNum, v: BigNum := [0, 0, 0x8000_0000, 0x7FFF_FFFF], [1, 0, 0x8000_0000];
    var n, d := Value(nw), Value(v);
    SmallValue3(v); SmallValue4(nw);
    assert n == 0x7FFF_FFFF_8000_0000_0000_0000_0000_0000 && d == 0x8000_0000_0000_0000_0000_0001;
    assert Pow2(0) == 1 && Leading(v[2]) == 0;
    assert Pow(0) == 1 && Pow(1) == B;
    DivUnique(n, d * Pow(1), 0, n);
    assert Partial(n, d, 0) == n;
    DigitIsWord(nw, 3); DigitIsWord(nw, 2); DigitIsWord(nw, 1);
    assert Estimate(n, v) == 0xFFFF_FFFF;
    assert Overestimated(n, v, 0);
    assert n * Pow2(0) == n && d * Pow2(0) == d;
    ExactIs(n, d, |nw|, v, 0, v);
    NormalIsWords(nw);
  }

  lemma SmallValue3(s: BigNum)
    requires |s| == 3
    ensures Value(s) == s[0] + B * (s[1] + B * s[2])
  {
    assert s[1..][1..] == s[2..] && s[2..] == [s[2]];
    ValueSingle(s[2]);
  }

  lemma SmallValue4(s: BigNum)
    requires |s| == 4
    ensures Value(s) == s[0] + B * (s[1] + B * (s[2] + B * s[3]))
  {
    SmallValue3(s[1..]);
  }
}
