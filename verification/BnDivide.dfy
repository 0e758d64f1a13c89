/** Long division (bignum.c:643-899), as the code computes it. */
module BnDivide {
  import opened Arith
  import opened BnValue
  import opened BnShift
  import opened BnShort
  import opened BnKnuth

  /** The range of a ULONG64. */
  const BB: int := 0x1_0000_0000_0000_0000

  // ----- subtracting a multiple of the divisor -----

  /** One word of the loop at bignum.c:710-716, for the product of digit and divisor word:
      the new word and the new k. */
  function SubWord(x: Word, product: nat, k: Word): (r: (Word, Word)) {
    var p := product % BB;
    var t := x - k - p % B;
    (t % B, (p / B - t / B) % B)
  }

  /** When the digit fits a word, nothing wraps. */
  lemma SubWordIs(x: Word, p: nat, qhat: int, k: Word)
    requires 0 <= k <= qhat < B && p <= qhat * (B - 1) < BB
    ensures var (w, k') := SubWord(x, p, k); w - B * k' == x - k - p && k' <= qhat
  {
    assert p % BB == p;
    var t := x - k - p % B;
    var w, k' := t % B, p / B - t / B;
    SubWordArith(x, k, p, qhat, p / B, p % B, t / B, w);
    assert k' % B == k';
    assert SubWord(x, p, k) == (w, k');
  }

  lemma SubWordArith(x: int, k: int, p: int, qhat: int, ph: int, pl: int, tb: int, w: int)
    requires 0 <= x < B && 0 <= k <= qhat < B && p <= qhat * (B - 1)
    requires p == B * ph + pl && 0 <= pl && 0 <= p && x - k - pl == B * tb + w && 0 <= w < B
    ensures w - B * (ph - tb) == x - k - p && 0 <= ph - tb <= qhat
  {}

  lemma ProductRange(q: int, y: int)
    requires 0 <= q < B && 0 <= y < B
    ensures 0 <= q * y <= q * (B - 1) < BB
  {
    MulMono(0, q, y);
    MulMono(y, B - 1, q);
  }

  lemma MulSubArith(p: int, low: int, a: int, b: int, k: int, x: int, qv: int, w: int, k': int, qhat: int,
      y: int, b': int)
    requires low - p * k == a - b && w - B * k' == x - k - qhat * y && b' == b + p * (qhat * y)
    ensures (low + p * w) - (B * p) * k' == (a + p * x) - b'
  {
    assert p * (w - B * k') == p * (x - k - qhat * y);
  }

  lemma MulSubStep(win: seq<Word>, v: seq<Word>, low: seq<Word>, i: nat, qhat: int, k: Word)
    requires i < |v| < |win| && |low| == i && 0 <= qhat < B && k <= qhat
    requires Value(low) - Pow(i) * k == Value(win[..i]) - qhat * Value(v[..i])
    ensures 0 <= qhat * v[i]
    ensures var (w, k') := SubWord(win[i], qhat * v[i], k);
      Value(low + [w]) - Pow(i + 1) * k' == Value(win[..i + 1]) - qhat * Value(v[..i + 1]) && k' <= qhat
  {
    ProductRange(qhat, v[i]);
    var (w, k') := SubWord(win[i], qhat * v[i], k);
    SubWordIs(win[i], qhat * v[i], qhat, k);
    ValueConcat(low, [w]);
    ValueSingle(w);
    ValueNext(win, i); ValueNext(v, i);
    QuotientTimes(qhat, Value(v[..i]), Pow(i), v[i]);
    MulSubArith(Pow(i), Value(low), Value(win[..i]), qhat * Value(v[..i]), k, win[i], 0, w, k', qhat, v[i],
                qhat * Value(v[..i + 1]));
  }

  lemma QuotientTimes(q: int, a: int, p: int, y: int)
    ensures q * (a + p * y) == q * a + p * (q * y)
  {}

  /** bignum.c:709-718: window j of the dividend minus qhat times the divisor, modulo the window size.
      The test at line 720 follows; its t is the difference of two ULONGs and so is never negative. */
  method MultiplySubtract(u: array<Word>, v: BigNum, qhat: int, j: nat) returns (t: int)
    requires 0 <= qhat < 2 * B && j + |v| < u.Length
    modifies u
    ensures forall k | 0 <= k < u.Length && !(j <= k <= j + |v|) :: u[k] == old(u[k])
    ensures qhat < B ==>
      var w, q := old(Value(u[j..j + |v| + 1])), qhat * Value(v);
      Value(u[j..j + |v| + 1]) == if q <= w then w - q else w - q + Pow(|v| + 1)
    ensures t >= 0
  {
    ghost var win := u[j..j + |v| + 1];
    var k: Word := 0;
    var i := 0;
    assert v[..0] == [] && u[j..j] == [];
    while i < |v|
      invariant 0 <= i <= |v|
      invariant forall m | 0 <= m < u.Length && !(j <= m < j + i) :: u[m] == old(u[m])
      invariant qhat < B ==> k <= qhat && Value(u[j..j + i]) - Pow(i) * k == Value(win[..i]) - qhat * Value(v[..i])
    {
      MulMono(0, qhat, v[i]);
      var next := SubWord(u[i + j], qhat * v[i], k);
      assert u[i + j] == win[i];
      ghost var low := u[j..j + i];
      if qhat < B { MulSubStep(win, v, low, i, qhat, k); }
      u[i + j] := next.0;
      assert u[j..j + i + 1] == low + [next.0];
      k := next.1;
      i := i + 1;
    }
    assert v[..|v|] == v;
    ghost var low := u[j..j + i];
    t := (u[i + j] - k) % B;
    assert u[i + j] == win[i];
    u[i + j] := t;
    assert u[j..j + i + 1] == low + [t as Word];
    if qhat < B {
      MulMono(0, qhat, Value(v));
      TopWord(win, low, qhat * Value(v), k, t, |v|);
    }
  }

  lemma TopWord(win: seq<Word>, low: seq<Word>, q: nat, k: Word, t: Word, n: nat)
    requires n == |low| && |win| == n + 1 && t == (win[n] - k) % B
    requires Value(low) - Pow(n) * k == Value(win[..n]) - q
    ensures Value(low + [t]) == if q <= Value(win) then Value(win) - q else Value(win) - q + B * Pow(n)
  {
    var c := if win[n] >= k then 0 else 1;
    ValuePush(low, t, n);
    ValueTop(win, n);
    TopBound(low + [t], n); TopBound(win, n);
    TopArith(Value(low), Pow(n), k, Value(win[..n]), q, win[n], t, c, Value(win), Value(low + [t]));
  }

  lemma TopArith(low: int, p: int, k: int, a: int, q: int, x: int, t: int, c: int, w: int, r: int)
    requires low - p * k == a - q && w == a + p * x && r == low + p * t && t == x - k + B * c && 0 <= c <= 1
    requires 0 <= r < B * p && 0 <= w < B * p && q >= 0
    ensures r == if q <= w then w - q else w - q + B * p
  {
    assert p * t == p * x - p * k + B * p * c;
  }

  // ----- what a digit estimate is worth -----

  /** Word k of a number. */
  function DigitAt(w: nat, k: nat): Word { w / Pow(k) % B }

  predicate Normalized(v: BigNum) { |v| >= 2 && v[|v| - 1] >= B / 2 }

  /** The refined digit for partial dividend w. */
  function Estimate(w: nat, v: BigNum): int
    requires Normalized(v)
  {
    var n := |v|;
    Refined(DigitAt(w, n), DigitAt(w, n - 1), DigitAt(w, n - 2), v[n - 1], v[n - 2])
  }

  /** The partial dividend that paper long division of u by v looks at for quotient word j. */
  function Partial(u: nat, v: nat, j: nat): nat
    requires v > 0
  {
    Positive(v, Pow(j + 1));
    (u % (v * Pow(j + 1))) / Pow(j)
  }

  lemma Positive(a: int, b: int)
    requires a > 0 && b > 0
    ensures a * b > 0
  {}

  lemma NormalizedPositive(v: BigNum)
    requires Normalized(v)
    ensures 2 * Value(v) >= Pow(|v|) && 0 < Value(v) < Pow(|v|)
  {
    var n := |v|;
    ValueTop(v, n - 1);
    ValueBound(v);
    MulMono(B / 2, v[n - 1], Pow(n - 1));
  }

  /** The estimate for quotient word j exceeds the true one. */
  predicate Overestimated(u: nat, v: BigNum, j: nat)
    requires Normalized(v)
  {
    NormalizedPositive(v);
    var w := Partial(u, Value(v), j);
    Estimate(w, v) * Value(v) > w
  }

  /** No estimate among quotient words from to steps - 1 is too high. */
  ghost predicate ExactFrom(u: nat, v: BigNum, from: nat, steps: nat)
    requires Normalized(v)
  {
    forall j: nat | from <= j < steps :: !Overestimated(u, v, j)
  }

  // ----- one round -----

  lemma DivFrom(v: nat, low: nat, p: nat, hi: nat)
    requires v == low + p * hi && low < p
    ensures v / p == hi && v % p == low
  {
    DivUnique(v, p, hi, low);
  }

  lemma DropWords(s: seq<Word>, k: nat)
    requires k <= |s|
    ensures Value(s) / Pow(k) == Value(s[k..]) && Value(s) % Pow(k) == Value(s[..k])
  {
    ValueSplit(s, k);
    ValueBound(s[..k]);
    DivFrom(Value(s), Value(s[..k]), Pow(k), Value(s[k..]));
  }

  lemma LowWord(s: seq<Word>)
    requires |s| > 0
    ensures Value(s) % B == s[0]
  {
    DivUnique(Value(s), B, Value(s[1..]), s[0]);
  }

  lemma DigitIsWord(s: seq<Word>, k: nat)
    requires k < |s|
    ensures DigitAt(Value(s), k) == s[k]
  {
    DropWords(s, k);
    LowWord(s[k..]);
  }

  lemma ThreeWords(s: seq<Word>, n: nat)
    requires n >= 2 && |s| == n + 1
    ensures Value(s) == (s[n] * B * B + s[n - 1] * B + s[n - 2]) * Pow(n - 2) + Value(s[..n - 2])
  {
    ValueTop(s, n);
    ValueTop(s[..n], n - 1);
    ValueTop(s[..n - 1], n - 2);
    assert s[..n][..n - 1] == s[..n - 1] && s[..n - 1][..n - 2] == s[..n - 2];
    var p := Pow(n - 2);
    assert Pow(n - 1) == B * p && Pow(n) == B * (B * p);
    ThreeArith(s[n], s[n - 1], s[n - 2], p);
  }

  lemma ThreeArith(a: int, b: int, c: int, p: int)
    ensures (B * (B * p)) * a + (B * p) * b + p * c == (a * B * B + b * B + c) * p
  {}

  lemma TwoWords(s: seq<Word>, n: nat)
    requires n >= 2 && |s| == n
    ensures Value(s) == (s[n - 1] * B + s[n - 2]) * Pow(n - 2) + Value(s[..n - 2])
  {
    ValueTop(s, n - 1);
    ValueTop(s[..n - 1], n - 2);
    assert s[..n - 1][..n - 2] == s[..n - 2];
    assert Pow(n - 1) == B * Pow(n - 2);
    ThreeArith(0, s[n - 1], s[n - 2], Pow(n - 2));
  }

  lemma EstimateIs(win: seq<Word>, v: BigNum)
    requires Normalized(v) && |win| == |v| + 1
    ensures Estimate(Value(win), v) == Refined(win[|v|], win[|v| - 1], win[|v| - 2], v[|v| - 1], v[|v| - 2])
  {
    var n := |v|;
    DigitIsWord(win, n); DigitIsWord(win, n - 1); DigitIsWord(win, n - 2);
  }

  /** In a window below v * B the refined digit is the true quotient digit or one more. */
  lemma EstimateNearlyRight(win: seq<Word>, v: BigNum, n: nat, q: nat)
    requires Normalized(v) && n == |v| && |win| == n + 1 && Value(win) < Value(v) * B
    requires q * Value(v) <= Value(win) < (q + 1) * Value(v)
    ensures q <= Estimate(Value(win), v) <= q + 1 && Estimate(Value(win), v) < B
  {
    hide Value, Pow, Refined, DigitAt;
    EstimateIs(win, v);
    ThreeWords(win, n); TwoWords(v, n);
    ValueBound(win[..n - 2]); ValueBound(v[..n - 2]);
    RefinedNearlyRight(Value(win), win[n], win[n - 1], win[n - 2], Value(win[..n - 2]),
                       Value(v), v[n - 1], v[n - 2], Value(v[..n - 2]), Pow(n - 2), q);
  }

  /** A divisor of two words is all that the estimate looks at: its digits are never too high. */
  lemma TwoWordsExact(u: nat, v: BigNum, j: nat)
    requires Normalized(v) && |v| == 2
    ensures !Overestimated(u, v, j)
  {
    hide Value, Pow, Refined, DigitAt;
    NormalizedPositive(v);
    var w := Partial(u, Value(v), j);
    PartialBelow(u, Value(v), j);
    var win := Digits3(w, v);
    EstimateIs(win, v);
    ThreeWords(win, 2); TwoWords(v, 2);
    ValueBound(win[..0]); ValueBound(v[..0]);
    PowZero();
    RefinedFits(w, win[2], win[1], win[0], 0, Value(v), v[1], v[0], 0, 1);
  }

  lemma PowZero()
    ensures Pow(0) == 1 && Value([]) == 0
  {}

  lemma PartialBelow(u: nat, v: nat, j: nat)
    requires v > 0
    ensures Partial(u, v, j) < v * B
  {
    Positive(v, Pow(j + 1));
    var r, p := u % (v * Pow(j + 1)), Pow(j);
    PowNext(j);
    DivMod(u, v * Pow(j + 1));
    DivMod(r, p);
    TimesWord3(v, p);
    if r / p >= v * B { MulMono(v * B, r / p, p); }
  }

  lemma TimesWord3(v: int, p: int)
    ensures v * (B * p) == (v * B) * p
  {}

  /** A number below two words times the word size, as three words. */
  lemma Digits3(w: nat, v: BigNum) returns (win: seq<Word>)
    requires |v| == 2 && w < Value(v) * B
    ensures |win| == 3 && Value(win) == w
  {
    ValueBound(v);
    assert Pow(2) == B * B;
    assert w < B * B * B;
    var x := w / B;
    win := [w % B, x % B, x / B];
    assert win[1..] == [x % B, x / B] && win[1..][1..] == [x / B];
    ValueSingle(x / B);
  }

  lemma QuotientBounds(w: nat, v: nat)
    requires v > 0
    ensures 0 <= w / v && (w / v) * v <= w < (w / v + 1) * v
  {
    DivMod(w, v);
  }

  lemma AdvanceArith(u: int, v: int, p: int, vp: int, d: int, q1: int, r1: int, w: int, q: int, e: int)
    requires vp == v * p && d == v * (B * p) && u == d * q1 + r1 && r1 == p * w + e && 0 <= e < p
    ensures u == (q1 * B + q) * vp + (r1 - p * (q * v))
    ensures r1 - p * (q * v) == p * (w - q * v) + e
  {
    assert d * q1 == (q1 * B) * vp;
    assert p * (q * v) == q * vp;
  }

  lemma RemainderSmall(p: int, f: int, v: int, e: int)
    requires 0 <= f < v && 0 <= e < p
    ensures 0 <= p * f + e < v * p
  {
    MulMono(f, v - 1, p);
    MulMono(0, f, p);
    assert p * (v - 1) == v * p - p;
  }

  /** What a right digit does to quotient and remainder of the whole division. */
  lemma DigitAdvances(u: nat, v: nat, p: nat, w: nat, q: nat)
    requires v > 0 && p > 0 && v * (B * p) > 0 && v * p > 0
    requires w == (u % (v * (B * p))) / p && q * v <= w < (q + 1) * v
    ensures u / (v * p) == (u / (v * (B * p))) * B + q
    ensures u % (v * p) == u % (v * (B * p)) - p * (q * v)
  {
    var d, vp := v * (B * p), v * p;
    DivMod(u, d);
    var r1, q1 := u % d, u / d;
    DivMod(r1, p);
    var e := r1 % p;
    AdvanceArith(u, v, p, vp, d, q1, r1, w, q, e);
    Next(q, v, w);
    RemainderSmall(p, w - q * v, v, e);
    DivUnique(u, vp, q1 * B + q, r1 - p * (q * v));
  }

  lemma Next(q: int, v: int, w: int)
    requires q * v <= w < (q + 1) * v
    ensures 0 <= w - q * v < v {}

  // ----- the loop -----

  /** So far every digit was right: dividend and quotient words hold remainder and quotient of u0
      by v * B^r. */
  ghost predicate OnTrack(u0: nat, v: BigNum, uv: nat, qv: nat, r: nat)
    requires Normalized(v)
  {
    NormalizedPositive(v); Positive(Value(v), Pow(r));
    uv == u0 % (Value(v) * Pow(r)) && qv == u0 / (Value(v) * Pow(r))
  }

  /** Some word at or above position k is not zero. */
  ghost predicate HasHigh(u: seq<Word>, k: nat) {
    exists m | k <= m < |u| :: u[m] != 0
  }

  lemma ChangeArith(v: int, v': int, a: int, p: int, r: int, r': int, d: int)
    requires v == a + p * r && v' == a + p * r' && r' - r == d
    ensures v' == v + p * d
  {}

  lemma TailChange(u: seq<Word>, u': seq<Word>, j: nat, k: nat)
    requires j + k <= |u| == |u'| && u'[j + k..] == u[j + k..]
    ensures Value(u'[j..]) - Value(u[j..]) == Value(u'[j..j + k]) - Value(u[j..j + k])
  {
    ValueSplit(u[j..], k); ValueSplit(u'[j..], k);
    assert u[j..][..k] == u[j..j + k] && u[j..][k..] == u[j + k..];
    assert u'[j..][..k] == u'[j..j + k] && u'[j..][k..] == u'[j + k..];
  }

  lemma WindowChange(u: seq<Word>, u': seq<Word>, j: nat, k: nat)
    requires j + k <= |u| == |u'| && u'[..j] == u[..j] && u'[j + k..] == u[j + k..]
    ensures Value(u') == Value(u) + Pow(j) * (Value(u'[j..j + k]) - Value(u[j..j + k]))
  {
    hide Value, Pow;
    TailChange(u, u', j, k);
    ValueSplit(u, j); ValueSplit(u', j);
    ChangeArith(Value(u), Value(u'), Value(u[..j]), Pow(j), Value(u[j..]), Value(u'[j..]),
                Value(u'[j..j + k]) - Value(u[j..j + k]));
  }

  lemma NothingAbove(u: seq<Word>, j: nat, k: nat)
    requires j + k <= |u| && Value(u[j..]) < Pow(k)
    ensures Value(u[j..]) == Value(u[j..j + k])
  {
    ValueSplit(u[j..], k);
    assert u[j..][..k] == u[j..j + k] && u[j..][k..] == u[j + k..];
    var hi := Value(u[j + k..]);
    if hi >= 1 { MulMono(1, hi, Pow(k)); }
  }

  lemma TailBelow(u: seq<Word>, j: nat, t: nat)
    requires j <= |u| && Value(u) < t * Pow(j)
    ensures Value(u[j..]) < t
  {
    hide Value, Pow;
    ValueSplit(u, j);
    if Value(u[j..]) >= t { MulMono(t, Value(u[j..]), Pow(j)); }
  }

  lemma TimesWord(v: nat, n: nat, p: nat)
    requires v < Pow(n)
    ensures v * B <= Pow(n + 1) && v * (B * p) == (v * B) * p
  {}

  /** Nothing is left above the window, and the window is below v * B. */
  lemma WindowIsAll(u: seq<Word>, j: nat, n: nat, v: nat)
    requires j + n < |u| && v < Pow(n) && Value(u) < v * (B * Pow(j))
    ensures Value(u[j..j + n + 1]) == Value(u) / Pow(j) && Value(u[j..j + n + 1]) < v * B
  {
    hide Value, Pow;
    TimesWord(v, n, Pow(j));
    DropWords(u, j);
    TailBelow(u, j, v * B);
    NothingAbove(u, j, n + 1);
  }

  /** The window that the multiple is subtracted from is the true partial dividend. */
  lemma WindowIsPartial(u0: nat, v: BigNum, u: seq<Word>, qv: nat, j: nat, n: nat)
    requires Normalized(v) && n == |v| && j + n < |u| && OnTrack(u0, v, Value(u), qv, j + 1)
    ensures 0 < Value(v) < Pow(n)
    ensures Value(u[j..j + n + 1]) == Partial(u0, Value(v), j) && Value(u[j..j + n + 1]) < Value(v) * B
  {
    hide Value, Pow;
    NormalizedPositive(v);
    Positive(Value(v), Pow(j + 1));
    DivMod(u0, Value(v) * Pow(j + 1));
    PowNext(j);
    WindowIsAll(u, j, n, Value(v));
  }

  /** A multiple that does not exceed the window was the right one. */
  lemma RightDigit(u0: nat, v: BigNum, u: seq<Word>, u': seq<Word>, qv: nat, j: nat, n: nat, qhat: nat, w: nat, vv: nat)
    requires Normalized(v) && n == |v| && j + n < |u| == |u'| && OnTrack(u0, v, Value(u), qv, j + 1)
    requires u'[..j] == u[..j] && u'[j + n + 1..] == u[j + n + 1..]
    requires vv == Value(v) > 0 && w == Value(u[j..j + n + 1]) == Partial(u0, vv, j)
    requires qhat * vv <= w < (qhat + 1) * vv && Value(u'[j..j + n + 1]) == w - qhat * vv
    ensures OnTrack(u0, v, Value(u'), qv * B + qhat, j)
  {
    hide Value, Pow;
    PowNext(j);
    Positive(vv, Pow(j + 1)); Positive(vv, Pow(j));
    DigitAdvances(u0, vv, Pow(j), w, qhat);
    WindowChange(u, u', j, n + 1);
    NegProduct(Pow(j), qhat * vv);
  }

  lemma NegProduct(p: int, x: int)
    ensures p * (0 - x) == -(p * x)
  {}

  /** A multiple one too high leaves a nonzero word on top of the window. */
  lemma SpoiledTop(s: seq<Word>, n: nat, w: nat, v: nat, qhat: nat)
    requires |s| == n + 1 && v < Pow(n) && qhat > 0 && (qhat - 1) * v <= w
    requires Value(s) == w - qhat * v + B * Pow(n)
    ensures s[n] != 0
  {
    hide Value, Pow;
    ValueTop(s, n);
    ValueBound(s[..n]);
    SpoiledArith(Value(s), w, v, qhat, Pow(n), Value(s[..n]), s[n]);
  }

  lemma SpoiledArith(r: int, w: int, v: int, qhat: int, p: int, low: int, t: int)
    requires r == low + p * t && 0 <= low < p && r == w - qhat * v + B * p && (qhat - 1) * v <= w && v < p
    ensures t != 0
  {
    assert (qhat - 1) * v == qhat * v - v;
    assert t == 0 ==> p * t == 0;
  }
  
  lemma TrueDigit(w: nat, v: nat) returns (q: nat)
    requires v > 0
    ensures q * v <= w < (q + 1) * v
  {
    QuotientBounds(w, v);
    q := w / v;
  }

  lemma OneTooHigh(w: nat, v: nat, q: int, qhat: int)
    requires v > 0 && qhat * v > w && qhat <= q + 1 && q * v <= w
    ensures (qhat - 1) * v <= w && qhat > 0
  {
    if qhat <= q { MulMono(qhat, q, v); }
    if qhat <= 0 { MulMono(qhat, 0, v); }
  }

  lemma NotTooHigh(w: nat, v: nat, q: int, qhat: int)
    requires v > 0 && q <= qhat && w < (q + 1) * v
    ensures w < (qhat + 1) * v
  {
    MulMono(q + 1, qhat + 1, v);
  }

  /** Overestimation, seen on the window. */
  lemma OverestimatedIs(u0: nat, v: BigNum, j: nat, w: nat)
    requires Normalized(v) && Value(v) > 0 && w == Partial(u0, Value(v), j)
    ensures Overestimated(u0, v, j) <==> Estimate(w, v) * Value(v) > w
  {
    hide Value, Pow, Refined, Estimate, Partial;
  }

  lemma RoundRight(u0: nat, v: BigNum, u: seq<Word>, u': seq<Word>, qv: nat, j: nat, n: nat, qhat: int, w: nat)
    requires Normalized(v) && n == |v| && j + n < |u| == |u'| && OnTrack(u0, v, Value(u), qv, j + 1)
    requires u'[..j] == u[..j] && u'[j + n + 1..] == u[j + n + 1..]
    requires w == Value(u[j..j + n + 1]) && qhat == Estimate(w, v) && qhat * Value(v) <= w
    requires Value(u'[j..j + n + 1]) == w - qhat * Value(v)
    ensures 0 <= qhat < B && !Overestimated(u0, v, j) && OnTrack(u0, v, Value(u'), qv * B + qhat, j)
  {
    hide Value, Pow, Refined, Estimate, Partial, OnTrack;
    WindowIsPartial(u0, v, u, qv, j, n);
    OverestimatedIs(u0, v, j, w);
    var q := TrueDigit(w, Value(v));
    EstimateNearlyRight(u[j..j + n + 1], v, n, q);
    NotTooHigh(w, Value(v), q, qhat);
    RightDigit(u0, v, u, u', qv, j, n, qhat, w, Value(v));
  }

  lemma RoundWrong(u0: nat, v: BigNum, u: seq<Word>, u': seq<Word>, qv: nat, j: nat, n: nat, qhat: int, w: nat)
    requires Normalized(v) && n == |v| && j + n < |u| == |u'| && OnTrack(u0, v, Value(u), qv, j + 1)
    requires w == Value(u[j..j + n + 1]) && qhat == Estimate(w, v) && qhat * Value(v) > w
    requires Value(u'[j..j + n + 1]) == w - qhat * Value(v) + B * Pow(n)
    ensures 0 <= qhat < B && Overestimated(u0, v, j) && u'[j + n] != 0
  {
    hide Value, Pow, Refined, Estimate, Partial, OnTrack;
    WindowIsPartial(u0, v, u, qv, j, n);
    OverestimatedIs(u0, v, j, w);
    var q := TrueDigit(w, Value(v));
    EstimateNearlyRight(u[j..j + n + 1], v, n, q);
    OneTooHigh(w, Value(v), q, qhat);
    SpoiledTop(u'[j..j + n + 1], n, w, Value(v), qhat);
  }

  /** What holds when quotient words r and up are done. */
  ghost predicate State(u0: nat, v: BigNum, u: seq<Word>, q: seq<Word>, r: nat)
    requires Normalized(v) && r <= |q|
  {
    if ExactFrom(u0, v, r, |q|) then OnTrack(u0, v, Value(u), Value(q[r..]), r) else HasHigh(u, r + |v|)
  }

  lemma StateStep(u0: nat, v: BigNum, u: seq<Word>, u': seq<Word>, q: seq<Word>, q': seq<Word>, j: nat, qhat: int)
    requires Normalized(v) && j < |q| == |q'| && |u| == |u'| == |q| + |v|
    requires State(u0, v, u, q, j + 1)
    requires u'[..j] == u[..j] && u'[j + |v| + 1..] == u[j + |v| + 1..]
    requires qhat == Estimate(Value(u[j..j + |v| + 1]), v)
    requires qhat < B ==>
      var w, x := Value(u[j..j + |v| + 1]), qhat * Value(v);
      Value(u'[j..j + |v| + 1]) == if x <= w then w - x else w - x + B * Pow(|v|)
    requires q'[j + 1..] == q[j + 1..] && q'[j] == qhat % B
    ensures State(u0, v, u', q', j)
  {
    hide Value, Pow, Refined, Estimate, Partial, OnTrack, Overestimated;
    var n, w := |v|, Value(u[j..j + |v| + 1]);
    if !ExactFrom(u0, v, j + 1, |q|) {
      var m :| j + 1 + n <= m < |u| && u[m] != 0;
      assert u'[m] == u'[j + n + 1..][m - (j + n + 1)] == u[j + n + 1..][m - (j + n + 1)] == u[m];
    } else {
      RoundBelow(u0, v, u, q, j, n, qhat, w);
      if qhat * Value(v) <= w {
        RoundRight(u0, v, u, u', Value(q[j + 1..]), j, n, qhat, w);
        LowerWord(q', j);
      } else {
        RoundWrong(u0, v, u, u', Value(q[j + 1..]), j, n, qhat, w);
      }
    }
  }

  lemma RoundBelow(u0: nat, v: BigNum, u: seq<Word>, q: seq<Word>, j: nat, n: nat, qhat: int, w: nat)
    requires Normalized(v) && n == |v| && j < |q| && j + n < |u| && OnTrack(u0, v, Value(u), Value(q[j + 1..]), j + 1)
    requires w == Value(u[j..j + n + 1]) && qhat == Estimate(w, v)
    ensures qhat < B
  {
    hide Value, Pow, Refined, Estimate, Partial, OnTrack;
    WindowIsPartial(u0, v, u, Value(q[j + 1..]), j, n);
    var d := TrueDigit(w, Value(v));
    EstimateNearlyRight(u[j..j + n + 1], v, n, d);
  }

  /** One round of the loop at bignum.c:690-735. */
  method DivideRound(u: array<Word>, v: BigNum, quotient: array<Word>, j: nat, ghost u0: nat)
    requires Normalized(v) && u.Length == quotient.Length + |v| && j < quotient.Length && u != quotient
    requires State(u0, v, u[..], quotient[..], j + 1)
    modifies u, quotient
    ensures State(u0, v, u[..], quotient[..], j)
  {
    hide Value, Pow, Refined, Estimate, Partial, OnTrack, Overestimated, State;
    ghost var n, us, qs := |v|, u[..], quotient[..];
    var divisorH1, divisorH2 := v[|v| - 1], v[|v| - 2];
    var qhat := Refine(u[j + |v|], u[j + |v| - 1], u[j + |v| - 2], divisorH1, divisorH2);
    EstimateIs(us[j..j + n + 1], v);
    var t := MultiplySubtract(u, v, qhat, j);
    PowNext(n);
    quotient[j] := qhat % B;
    assert u[..][..j] == us[..j] && u[..][j + n + 1..] == us[j + n + 1..];
    assert u[..][j..j + n + 1] == u[j..j + n + 1];
    StateStep(u0, v, us, u[..], qs, quotient[..], j, qhat);
  }

  /** BigNum_DivideHelper. The dividend space u receives the remainder. The results are right exactly
      when no digit estimate is one too high; otherwise what is left in u is not below the divisor. */
  method DivideHelper(u: array<Word>, v: BigNum, quotient: array<Word>)
    requires Normalized(v) && u.Length == quotient.Length + |v| && quotient.Length > 0 && u != quotient
    requires Value(u[..]) < Value(v) * Pow(quotient.Length)
    modifies u, quotient
    ensures var u0 := old(Value(u[..]));
      if ExactFrom(u0, v, 0, quotient.Length)
      then Value(v) > 0 && Value(quotient[..]) == u0 / Value(v) && Value(u[..]) == u0 % Value(v)
      else Value(u[..]) >= Pow(|v|)
  {
    ghost var u0, steps := Value(u[..]), quotient.Length;
    StateStart(u0, v, u[..], quotient[..]);
    var j := quotient.Length;
    while j > 0
      invariant 0 <= j <= quotient.Length && State(u0, v, u[..], quotient[..], j)
    {
      j := j - 1;
      DivideRound(u, v, quotient, j, u0);
    }
    StateEnd(u0, v, u[..], quotient[..]);
  }

  lemma StateStart(u0: nat, v: BigNum, u: seq<Word>, q: seq<Word>)
    requires Normalized(v) && u0 == Value(u) < Value(v) * Pow(|q|)
    ensures State(u0, v, u, q, |q|)
  {
    NormalizedPositive(v);
    Positive(Value(v), Pow(|q|));
    DivUnique(u0, Value(v) * Pow(|q|), 0, u0);
    assert q[|q|..] == [];
  }

  lemma StateEnd(u0: nat, v: BigNum, u: seq<Word>, q: seq<Word>)
    requires Normalized(v) && State(u0, v, u, q, 0)
    ensures if ExactFrom(u0, v, 0, |q|)
      then Value(v) > 0 && Value(q) == u0 / Value(v) && Value(u) == u0 % Value(v)
      else Value(u) >= Pow(|v|)
  {
    NormalizedPositive(v);
    assert Value(v) * Pow(0) == Value(v);
    assert q[0..] == q;
    if !ExactFrom(u0, v, 0, |q|) {
      var m :| |v| <= m < |u| && u[m] != 0;
      HighWordIsLarge(u, m, |v|);
    }
  }

  lemma HighWordIsLarge(u: seq<Word>, m: nat, n: nat)
    requires n <= m < |u| && u[m] != 0
    ensures Value(u) >= Pow(n)
  {
    hide Value, Pow;
    PowMono(n, m);
    ValueSplit(u, m);
    LowerWord(u, m);
    MulMono(1, Value(u[m..]), Pow(m));
  }
}
