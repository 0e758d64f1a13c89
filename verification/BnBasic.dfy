/** Creation, comparison, addition, subtraction and multiplication (bignum.c:89-136, 168-210, 363-543). */
module BnBasic {
  import opened Arith
  import opened BnValue

  /** BigNum_CreateFromInteger */
  method CreateFromInteger(value: Word) returns (r: BigNum)
    ensures Value(r) == value && |r| == 1
  {
    ValueSingle(value);
    r := [value];
  }

  /** The count of words up to the highest one that is not zero, at least one. */
  method Significant(a: BigNum) returns (words: nat)
    ensures 1 <= words <= |a| && (words > 1 ==> a[words - 1] != 0)
    ensures forall i | words <= i < |a| :: a[i] == 0
    ensures Value(a[..words]) == Value(a)
    ensures Normal(a) ==> words == |a|
  {
    words := |a|;
    while words > 1 && a[words - 1] == 0
      invariant 1 <= words <= |a|
      invariant forall i | words <= i < |a| :: a[i] == 0
    {
      words := words - 1;
    }
    ValueZeros(a, words);
  }

  /** BigNum_CreateFromBigNum: the same number without leading zero words. */
  method CreateFromBigNum(value: BigNum) returns (r: BigNum)
    ensures Value(r) == Value(value) && Normal(r) && |r| <= |value|
    ensures Normal(value) ==> r == value
  {
    var words := Significant(value);
    r := value[..words];
  }

  /** Below a higher word, lower words do not matter. */
  lemma HigherWordDecides(a: seq<Word>, b: seq<Word>, k: nat)
    requires k < |a| && k < |b| && a[k] < b[k]
    ensures Value(a[..k + 1]) < Value(b[..k + 1])
  {
    ValueNext(a, k); ValueNext(b, k);
    ValueBound(a[..k]);
    MulMono(a[k] + 1, b[k], Pow(k));
    Distribute(a[k], 1, Pow(k));
  }

  function Sign(x: int): int {
    if x > 0 then 1 else if x < 0 then -1 else 0
  }

  /** BigNum_Compare */
  method Compare(a: BigNum, b: BigNum) returns (result: int)
    ensures result == Sign(Value(a) - Value(b))
  {
    var words1 := Significant(a);
    var words2 := Significant(b);
    if words1 > words2 {
      MoreWordsIsMore(a[..words1], b[..words2]);
      result := 1;
    } else if words2 > words1 {
      MoreWordsIsMore(b[..words2], a[..words1]);
      result := -1;
    } else {
      result := CompareWords(a[..words1], b[..words2]);
    }
  }

  /** The word-by-word comparison, from the top (bignum.c:194-206). */
  method CompareWords(a: BigNum, b: BigNum) returns (result: int)
    requires |a| == |b|
    ensures result == Sign(Value(a) - Value(b))
  {
    var words := |a|;
    assert a[..words] == a && b[..words] == b;
    while words > 0
      invariant 0 <= words <= |a|
      invariant Value(a) - Value(b) == Value(a[..words]) - Value(b[..words])
    {
      if a[words - 1] > b[words - 1] {
        HigherWordDecides(b, a, words - 1);
        return 1;
      }
      if b[words - 1] > a[words - 1] {
        HigherWordDecides(a, b, words - 1);
        return -1;
      }
      words := words - 1;
      ValueNext(a, words); ValueNext(b, words);
    }
    result := 0;
  }

  lemma MoreWordsIsMore(a: BigNum, b: BigNum)
    requires |a| > |b| && a[|a| - 1] != 0
    ensures Value(a) > Value(b)
  {
    ValueBound(b);
    PowMono(|b|, |a| - 1);
    ValueNext(a, |a| - 1);
    assert a[..|a| - 1 + 1] == a;
    MulMono(1, a[|a| - 1], Pow(|a| - 1));
  }

  /** The low and high word of a two-word number. */
  function Low(p: nat): Word { p % B }

  function High(p: nat): (h: Word)
    requires p < B * B
  {
    p / B
  }

  // ----- addition -----

  lemma AddArith(p: int, low: int, a: int, b: int, carry: int, x: int, y: int, h: int, l: int)
    requires low + p * carry == a + b && x + y + carry == h * B + l
    ensures (low + p * l) + (B * p) * h == (a + p * x) + (b + p * y)
  {}

  /** Adding word i of b, which is found in place, and of a. */
  lemma AddStep(a: seq<Word>, b: seq<Word>, low: seq<Word>, i: nat, carry: nat, sum: nat)
    requires i < |a| && i < |b| && |low| == i && carry <= 1
    requires Value(low) + Pow(i) * carry == Value(a[..i]) + Value(b[..i])
    requires sum == b[i] + a[i] + carry
    ensures High(sum) <= 1
    ensures Value(low + [Low(sum)]) + Pow(i + 1) * High(sum) == Value(a[..i + 1]) + Value(b[..i + 1])
  {
    ValueConcat(low, [Low(sum)]);
    ValueSingle(Low(sum));
    ValueNext(a, i); ValueNext(b, i);
    AddArith(Pow(i), Value(low), Value(a[..i]), Value(b[..i]), carry, a[i], b[i], sum / B, sum % B);
  }

  /** num := b, filled up with zeros (bignum.c:394-399, 456-461). */
  method FillWith(num: array<Word>, b: BigNum)
    requires Value(b) < Pow(num.Length)
    modifies num
    ensures forall j | 0 <= j < num.Length :: num[j] == if j < |b| then b[j] else 0
    ensures Value(num[..]) == Value(b)
  {
    var i := 0;
    while i < num.Length
      invariant 0 <= i <= num.Length
      invariant forall j | 0 <= j < i :: num[j] == if j < |b| then b[j] else 0
    {
      num[i] := if i < |b| then b[i] else 0;
      i := i + 1;
    }
    FillValue(num[..], b);
  }

  lemma FillValue(s: seq<Word>, b: seq<Word>)
    requires forall j | 0 <= j < |s| :: s[j] == if j < |b| then b[j] else 0
    requires Value(b) < Pow(|s|)
    ensures Value(s) == Value(b)
  {
    if |b| <= |s| {
      assert s[..|b|] == b;
      ValueZeros(s, |b|);
    } else {
      assert b[..|s|] == s;
      ValueSplit(b, |s|);
      if Value(b[|s|..]) > 0 { MulMono(1, Value(b[|s|..]), Pow(|s|)); }
    }
  }

  lemma Extend(s: seq<Word>, s': seq<Word>, i: nat, w: Word)
    requires i < |s| && s' == s[i := w]
    ensures s'[..i + 1] == s[..i] + [w] && s'[i + 1..] == s[i + 1..]
  {}

  /** The carry loop of BigNum_Add (bignum.c:401-409). */
  method AddInPlace(num: array<Word>, a: BigNum, ghost b: seq<Word>)
    requires num.Length == |a| + 1 && num[..] == b && b[|a|] == 0
    modifies num
    ensures Value(num[..]) == Value(a) + Value(b)
  {
    var carry: Word := 0;
    var i := 0;
    while i < |a|
      invariant 0 <= i <= |a| && 0 <= carry <= 1
      invariant num[i..] == b[i..]
      invariant Value(num[..i]) + Pow(i) * carry == Value(a[..i]) + Value(b[..i])
    {
      assert num[i] == num[i..][0] == b[i];
      var sum: nat := num[i] + a[i] + carry;
      AddStep(a, b, num[..i], i, carry, sum);
      Extend(num[..], num[..][i := Low(sum)], i, Low(sum));
      assert b[i..][1..] == b[i + 1..] && num[i..][1..] == num[i + 1..];
      num[i] := Low(sum);
      carry := High(sum);
      i := i + 1;
    }
    assert num[i] == num[i..][0] == b[i];
    assert a[..|a|] == a;
    ValueNext(b, |a|);
    assert b[..|a| + 1] == b;
    num[i] := num[i] + carry;
    ValueNext(num[..], i);
    assert num[..][..i + 1] == num[..];
  }

  /** BigNum_Add */
  method Add(a0: BigNum, b0: BigNum) returns (r: BigNum)
    ensures Value(r) == Value(a0) + Value(b0) && Normal(r)
  {
    var a, b := a0, b0;
    if |b| > |a| { a, b := b, a; }
    var num := new Word[|a| + 1](i => 0);
    ValueBound(b);
    PowMono(|b|, |a| + 1);
    FillWith(num, b);
    AddInPlace(num, a, num[..]);
    r := CreateFromBigNum(num[..]);
  }

  // ----- subtraction -----

  lemma SubArith(p: int, low: int, a: int, b: int, carry: int, x: int, y: int, carry': int, l: int)
    requires low - p * carry == a - b && x - y - carry == l - B * carry'
    ensures (low + p * l) - (B * p) * carry' == (a + p * x) - (b + p * y)
  {}

  lemma SubStep(a: seq<Word>, b: seq<Word>, low: seq<Word>, i: nat, carry: int, carry': int, l: Word)
    requires i < |a| && i < |b| && |low| == i
    requires Value(low) - Pow(i) * carry == Value(a[..i]) - Value(b[..i])
    requires a[i] - b[i] - carry == l - B * carry'
    ensures Value(low + [l]) - Pow(i + 1) * carry' == Value(a[..i + 1]) - Value(b[..i + 1])
  {
    ValueConcat(low, [l]);
    ValueSingle(l);
    ValueNext(a, i); ValueNext(b, i);
    SubArith(Pow(i), Value(low), Value(a[..i]), Value(b[..i]), carry, a[i], b[i], carry', l);
  }

  /** The borrow loop of BigNum_Subtract (bignum.c:463-474), which leaves the top word alone. */
  method SubtractInPlace(num: array<Word>, a: BigNum, ghost b: seq<Word>)
    requires num.Length == |a| + 1 && num[..] == b && Value(b) <= Value(a)
    modifies num
    ensures Value(num[..]) == Value(a) - Value(b)
  {
    hide Value, Pow;
    var carry := 0;
    var i := 0;
    ValueEmpty(num[..]); ValueEmpty(a); ValueEmpty(b);
    while i < |a|
      invariant 0 <= i <= |a| && 0 <= carry <= 1
      invariant num[i..] == b[i..]
      invariant Value(num[..i]) - Pow(i) * carry == Value(a[..i]) - Value(b[..i])
    {
      assert num[i] == num[i..][0] == b[i];
      ghost var borrowed := carry;
      var product := a[i] as int - num[i] as int;
      if carry != 0 {
        product := product - 1;
        carry := 0;
      }
      var word: Word := product % B;
      var next := if product < 0 then 1 else 0;
      assert product == word - B * next;
      SubStep(a, b, num[..i], i, borrowed, next, word);
      Extend(num[..], num[..][i := word], i, word);
      assert b[i..][1..] == b[i + 1..] && num[i..][1..] == num[i + 1..];
      num[i] := word;
      carry := next;
      i := i + 1;
    }
    assert num[i] == num[i..][0] == b[i];
    NoBorrowLeft(num[..], a, b, carry, |a|);
  }

  lemma NoBorrowLeft(num: seq<Word>, a: seq<Word>, b: seq<Word>, carry: int, n: nat)
    requires n == |a| && |num| == |b| == n + 1 && num[n] == b[n] && 0 <= carry <= 1 && Value(b) <= Value(a)
    requires Value(num[..n]) - Pow(n) * carry == Value(a[..n]) - Value(b[..n])
    ensures Value(num) == Value(a) - Value(b)
  {
    assert a[..n] == a;
    ValueTop(num, n); ValueTop(b, n);
    var top: int := b[n];
    assert Value(b) == Value(b[..n]) + Pow(n) * top;
    assert Value(num) == Value(num[..n]) + Pow(n) * top;
    assert 0 <= Value(a) < Pow(n) by { ValueBound(a); }
    assert Value(num[..n]) < Pow(n) by { ValueBound(num[..n]); }
    NoBorrowArith(Pow(n), Value(a), Value(num[..n]), Value(b[..n]), top, carry, Value(num), Value(b));
  }

  lemma NoBorrowArith(p: int, a: int, low: int, b: int, top: int, carry: int, num: int, all: int)
    requires 0 <= a < p && 0 <= b && 0 <= low < p && top >= 0 && 0 <= carry <= 1 && all <= a
    requires all == b + p * top && num == low + p * top && low - p * carry == a - b
    ensures num == a - all
  {
    TopIsZero(p, a, low, b, top, carry);
  }

  /** A subtrahend that is no larger has no word above the minuend, and leaves no borrow. */
  lemma TopIsZero(p: int, a: int, low: int, b: int, top: int, carry: int)
    requires 0 <= a < p && 0 <= b && 0 <= low < p && top >= 0 && 0 <= carry <= 1
    requires p * top + b <= a && low - p * carry == a - b
    ensures top == 0 && carry == 0
  {
    if top > 0 { MulMono(1, top, p); }
  }

  /** BigNum_Subtract: zero when the subtrahend is larger. */
  method Subtract(a: BigNum, b: BigNum) returns (r: BigNum)
    ensures Value(r) == if Value(a) <= Value(b) then 0 else Value(a) - Value(b)
    ensures Normal(r)
  {
    var x := Compare(a, b);
    if x <= 0 {
      r := CreateFromInteger(0);
      return;
    }
    var num := new Word[|a| + 1](i => 0);
    ValueBound(a);
    PowMono(|a|, |a| + 1);
    FillWith(num, b);
    SubtractInPlace(num, a, num[..]);
    r := CreateFromBigNum(num[..]);
  }

  // ----- multiplication -----

  lemma ProductFits(x: int, y: int, u: int, v: int)
    requires 0 <= x < B && 0 <= y < B && 0 <= u < B && 0 <= v < B
    ensures 0 <= x * y && x * y + u + v < B * B
  {
    MulMono(x, B - 1, y);
    MulMono(0, x, y);
    assert (B - 1) * y + u + v < B * B;
  }

  lemma MulArith(v: int, v': int, v0: int, p: int, pi: int, pj: int, ai: int, bj: int, bs: int, old': int,
      carry: int, h: int, w: int)
    requires p == pi * pj && v + p * carry == v0 + pi * (ai * bs)
    requires ai * bj + old' + carry == h * B + w && v' == v + p * (w - old')
    ensures v' + (B * p) * h == v0 + pi * (ai * (bs + pj * bj))
  {
    assert p * (ai * bj + old' + carry) == p * (h * B + w);
    assert v' + (B * p) * h == v + p * (ai * bj) + p * carry;
  }

  /** One word of the inner loop. */
  lemma MulStep(num: seq<Word>, b: seq<Word>, v0: nat, ai: Word, i: nat, j: nat, carry: Word, product: nat)
    requires j < |b| && i + j < |num|
    requires Value(num) + Pow(i + j) * carry == v0 + Pow(i) * (ai * Value(b[..j]))
    requires product == ai * b[j] + num[i + j] + carry && product < B * B
    ensures Value(num[i + j := Low(product)]) + Pow(i + j + 1) * High(product)
         == v0 + Pow(i) * (ai * Value(b[..j + 1]))
  {
    ValueUpdate(num, i + j, Low(product));
    ValueNext(b, j);
    PowAdd(i, j);
    MulArith(Value(num), Value(num[i + j := Low(product)]), v0, Pow(i + j), Pow(i), Pow(j), ai, b[j],
             Value(b[..j]), num[i + j], carry, product / B, product % B);
  }

  /** The inner loop of BigNum_Multiply: num += a[i] * b, i words up (bignum.c:528-537). */
  method MultiplyRow(num: array<Word>, ai: Word, b: BigNum, i: nat)
    requires i + |b| < num.Length && num[i + |b|] == 0
    modifies num
    ensures Value(num[..]) == old(Value(num[..])) + Pow(i) * (ai * Value(b))
    ensures forall k | i + |b| < k < num.Length :: num[k] == old(num[k])
  {
    ghost var v0 := Value(num[..]);
    var carry: Word := 0;
    var j := 0;
    assert b[..0] == [];
    while j < |b|
      invariant 0 <= j <= |b|
      invariant forall k | i + j <= k < num.Length :: num[k] == old(num[k])
      invariant Value(num[..]) + Pow(i + j) * carry == v0 + Pow(i) * (ai * Value(b[..j]))
    {
      carry := MultiplyWord(num, ai, b, i, j, carry, v0);
      j := j + 1;
    }
    assert b[..|b|] == b;
    AddWord(num, i + j, carry);
  }

  /** bignum.c:530-535 */
  method MultiplyWord(num: array<Word>, ai: Word, b: BigNum, i: nat, j: nat, carry: Word,
      ghost v0: nat) returns (next: Word)
    requires j < |b| && i + j < num.Length
    requires Value(num[..]) + Pow(i + j) * carry == v0 + Pow(i) * (ai * Value(b[..j]))
    modifies num
    ensures forall k | 0 <= k < num.Length && k != i + j :: num[k] == old(num[k])
    ensures Value(num[..]) + Pow(i + (j + 1)) * next == v0 + Pow(i) * (ai * Value(b[..j + 1]))
  {
    ProductFits(ai, b[j], num[i + j], carry);
    var product: nat := ai * b[j] + num[i + j] + carry;
    MulStep(num[..], b, v0, ai, i, j, carry, product);
    ghost var after := num[..][i + j := Low(product)];
    num[i + j] := Low(product);
    assert num[..] == after;
    next := High(product);
  }

  /** bignum.c:537: the last carry goes into a word that is still zero. */
  method AddWord(num: array<Word>, k: nat, carry: Word)
    requires k < num.Length && num[k] == 0
    modifies num
    ensures forall m | 0 <= m < num.Length && m != k :: num[m] == old(num[m])
    ensures Value(num[..]) == old(Value(num[..])) + Pow(k) * carry
  {
    ValueUpdate(num[..], k, carry);
    ghost var after := num[..][k := carry];
    num[k] := num[k] + carry;
    assert num[..] == after;
  }

  lemma RowArith(va: int, p: int, ai: int, vb: int)
    ensures va * vb + p * (ai * vb) == (va + p * ai) * vb
  {}

  /** BigNum_Multiply */
  method Multiply(a: BigNum, b: BigNum) returns (r: BigNum)
    ensures Value(r) == Value(a) * Value(b) && Normal(r)
  {
    var words := |a| + |b|;
    var num := new Word[words](i => 0);
    var i := 0;
    while i < words
      invariant 0 <= i <= words
      invariant forall k | 0 <= k < i :: num[k] == 0
    {
      num[i] := 0;
      i := i + 1;
    }
    ValueZeros(num[..], 0);
    i := 0;
    while i < |a|
      invariant 0 <= i <= |a|
      invariant forall k | i + |b| <= k < words :: num[k] == 0
      invariant Value(num[..]) == Value(a[..i]) * Value(b)
    {
      MultiplyRow(num, a[i], b, i);
      ValueNext(a, i);
      RowArith(Value(a[..i]), Pow(i), a[i], Value(b));
      i := i + 1;
    }
    assert a[..|a|] == a;
    r := CreateFromBigNum(num[..]);
  }
}
