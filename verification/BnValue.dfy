/** Little-endian words and the numbers they stand for. */
module BnValue {
  import opened Arith

  /** The range of a ULONG. */
  const B: int := 0x1_0000_0000

  type Word = x: int | 0 <= x < B

  /** A BIGNUM: at least one word, least significant first. The length word in front of the
      words in memory is the length of the sequence. */
  type BigNum = s: seq<Word> | |s| >= 1 witness [0]

  function Pow(n: nat): (p: nat)
    ensures p >= 1
  {
    if n == 0 then 1 else B * Pow(n - 1)
  }

  function Value(s: seq<Word>): nat {
    if |s| == 0 then 0 else s[0] + B * Value(s[1..])
  }

  /** No leading zero words. */
  predicate Normal(s: BigNum) { |s| == 1 || s[|s| - 1] != 0 }

  lemma {:induction false} PowAdd(m: nat, n: nat)
    ensures Pow(m + n) == Pow(m) * Pow(n)
  {
    if m > 0 {
      PowAdd(m - 1, n);
      assert B * (Pow(m - 1) * Pow(n)) == (B * Pow(m - 1)) * Pow(n);
    }
  }

  lemma PowNext(n: nat)
    ensures Pow(n + 1) == B * Pow(n)
  {}

  lemma {:induction false} PowMono(m: nat, n: nat)
    requires m <= n
    ensures Pow(m) <= Pow(n)
  {
    if m < n { PowMono(m, n - 1); }
  }

  // ----- facts on values -----

  lemma {:induction false} ValueBound(s: seq<Word>)
    ensures Value(s) < Pow(|s|)
  {
    if |s| > 0 { ValueBound(s[1..]); }
  }

  lemma {:induction false} ValueConcat(a: seq<Word>, b: seq<Word>)
    ensures Value(a + b) == Value(a) + Pow(|a|) * Value(b)
  {
    if a == [] {
      assert a + b == b;
    } else {
      ValueConcat(a[1..], b);
      assert (a + b)[1..] == a[1..] + b;
      Distribute(Value(a[1..]), Pow(|a| - 1) * Value(b), B);
      assert B * (Pow(|a| - 1) * Value(b)) == (B * Pow(|a| - 1)) * Value(b);
    }
  }

  lemma ValueSplit(s: seq<Word>, k: nat)
    requires k <= |s|
    ensures Value(s) == Value(s[..k]) + Pow(k) * Value(s[k..])
  {
    assert s == s[..k] + s[k..];
    ValueConcat(s[..k], s[k..]);
  }

  lemma ValueNext(s: seq<Word>, k: nat)
    requires k < |s|
    ensures Value(s[..k + 1]) == Value(s[..k]) + Pow(k) * s[k]
  {
    assert s[..k + 1] == s[..k] + [s[k]];
    ValueConcat(s[..k], [s[k]]);
    assert Value([s[k]]) == s[k];
  }

  lemma ValueTop(s: seq<Word>, n: nat)
    requires |s| == n + 1
    ensures Value(s) == Value(s[..n]) + Pow(n) * s[n]
  {
    assert s[..n + 1] == s;
    ValueNext(s, n);
  }

  lemma ValueEmpty(s: seq<Word>)
    ensures Value(s[..0]) == 0
  {}

  lemma ValueSingle(w: Word)
    ensures Value([w]) == w
  {
    assert [w][1..] == [];
  }

  lemma ValuePush(low: seq<Word>, w: Word, n: nat)
    requires |low| == n
    ensures Value(low + [w]) == Value(low) + Pow(n) * w
  {
    ValueConcat(low, [w]);
    ValueSingle(w);
  }

  lemma TopBound(s: seq<Word>, n: nat)
    requires |s| == n + 1
    ensures 0 <= Value(s) < B * Pow(n)
  {
    ValueBound(s);
  }

  /** Changing one word. */
  lemma ValueUpdate(s: seq<Word>, k: nat, w: Word)
    requires k < |s|
    ensures Value(s[k := w]) == Value(s) + Pow(k) * (w - s[k])
  {
    var s' := s[k := w];
    ValueSplit(s, k); ValueSplit(s', k);
    assert s'[..k] == s[..k] && s'[k..] == [w] + s[k + 1..] && s[k..] == [s[k]] + s[k + 1..];
    assert Value(s'[k..]) == w + B * Value(s[k + 1..]);
    assert Value(s[k..]) == s[k] + B * Value(s[k + 1..]);
    Distribute(Value(s'[k..]), Value(s[k..]), Pow(k));
  }

  /** High zero words do not count. */
  lemma {:induction false} ValueZeros(s: seq<Word>, k: nat)
    requires k <= |s| && forall i | k <= i < |s| :: s[i] == 0
    ensures Value(s) == Value(s[..k])
    decreases |s|
  {
    if k < |s| {
      var n := |s| - 1;
      ValueZeros(s[..n], k);
      ValueNext(s, n);
      assert s[..n + 1] == s && s[..n][..k] == s[..k];
    } else {
      assert s[..k] == s;
    }
  }

  /** A normal number of n words is at least B^(n-1). */
  lemma NormalBound(s: BigNum)
    requires Normal(s) && Value(s) > 0
    ensures Pow(|s| - 1) <= Value(s) < Pow(|s|)
  {
    var n := |s| - 1;
    ValueBound(s);
    ValueNext(s, n);
    assert s[..n + 1] == s;
    if n == 0 { assert s[..0] == []; } else { MulMono(1, s[n], Pow(n)); }
  }

  /** Equal lengths: the value determines the words. */
  lemma {:induction false} ValueInjective(a: seq<Word>, b: seq<Word>)
    requires |a| == |b| && Value(a) == Value(b)
    ensures a == b
  {
    if |a| > 0 {
      DivUnique(Value(a), B, Value(a[1..]), a[0]);
      DivUnique(Value(b), B, Value(b[1..]), b[0]);
      ValueInjective(a[1..], b[1..]);
      assert a == [a[0]] + a[1..] && b == [b[0]] + b[1..];
    }
  }
}
