/** The quotient digit estimate of the long division (bignum.c:690-707). */
module BnKnuth {
  import opened Arith
  import opened BnValue

  /** The loop at bignum.c:698-707, started with qhat * v1 + rhat == u2 * B + u1. */
  function RefineFrom(qhat: int, rhat: nat, u0: Word, v1: Word, v0: Word): int
    requires v1 > 0
    decreases B - rhat
  {
    if qhat >= B || qhat * v0 > rhat * B + u0 then
      if rhat + v1 < B then RefineFrom(qhat - 1, rhat + v1, u0, v1, v0) else qhat - 1
    else qhat
  }

  /** The refined digit for the three high words of the window and the two high words of the divisor. */
  function Refined(u2: Word, u1: Word, u0: Word, v1: Word, v0: Word): int
    requires v1 > 0
  {
    RefineFrom((u2 * B + u1) / v1, (u2 * B + u1) % v1, u0, v1, v0)
  }

  /** bignum.c:692-707, on 64-bit intermediates: the two quantities that could wrap do not. */
  method Refine(u2: Word, u1: Word, u0: Word, v1: Word, v0: Word) returns (qhat: int)
    requires v1 >= B / 2
    ensures qhat == Refined(u2, u1, u0, v1, v0)
    ensures 0 <= qhat < 2 * B
  {
    var p: nat := u2 * B + u1;
    FirstEstimate(p, v1);
    var rhat: nat := p % v1;
    qhat := p / v1;
    ghost var result := RefineFrom(qhat, rhat, u0, v1, v0);
    while true
      invariant rhat < B && qhat < 2 * B && qhat * v1 + rhat == p
      invariant result == RefineFrom(qhat, rhat, u0, v1, v0)
      invariant 0 <= qhat
      decreases B - rhat
    {
      var limit := rhat * B + u0;
      assert limit < B * B;
      ProductIn64(qhat, v0);
      if qhat >= B || qhat * v0 > limit {
        EstimateIsPositive(qhat, v0, limit);
        MinusOne(qhat, v1, rhat, p);
        qhat := qhat - 1;
        rhat := rhat + v1;
        if rhat < B { continue; }
      }
      break;
    }
  }

  lemma FirstEstimate(p: nat, v1: nat)
    requires p < B * B && B / 2 <= v1 < B
    ensures 0 <= p / v1 < 2 * B && 0 <= p % v1 < v1 && (p / v1) * v1 + p % v1 == p
  {
    var q := p / v1;
    assert q * v1 + p % v1 == p;
    if q >= 2 * B { MulMono(2 * B, q, v1); }
    if q < 0 { MulMono(q, -1, v1); }
  }

  lemma ProductIn64(qhat: int, v0: int)
    requires 0 <= v0 < B
    ensures 0 <= qhat < B ==> qhat * v0 < B * B
  {
    if 0 <= qhat < B { MulMono(qhat, B - 1, v0); }
  }

  lemma EstimateIsPositive(qhat: int, v0: int, limit: int)
    requires 0 <= qhat && (qhat >= B || qhat * v0 > limit) && limit >= 0
    ensures qhat > 0
  {}

  lemma MinusOne(qhat: int, v1: int, rhat: int, p: int)
    requires qhat * v1 + rhat == p
    ensures (qhat - 1) * v1 + (rhat + v1) == p
  {}

  // ----- the estimate is right or one too high -----

  /** A window and a divisor, split after the words the estimate looks at. */
  ghost predicate Window(w: nat, u2: Word, u1: Word, u0: Word, wr: nat, v: nat, v1: Word, v0: Word, vr: nat, p: nat) {
    && p > 0 && wr < p && vr < p && v1 >= B / 2
    && w == (u2 * B * B + u1 * B + u0) * p + wr
    && v == (v1 * B + v0) * p + vr
    && w < v * B
  }

  /** An estimate that is rejected is too high. */
  lemma RejectedTooHigh(qhat: int, rhat: int, q: int, w: nat, u2: Word, u1: Word, u0: Word, wr: nat, v: nat,
      v1: Word, v0: Word, vr: nat, p: nat)
    requires Window(w, u2, u1, u0, wr, v, v1, v0, vr, p)
    requires 0 <= qhat && qhat * v1 + rhat == u2 * B + u1 && qhat * v0 > rhat * B + u0 && q * v <= w
    ensures q < qhat
  {
    var v2, w3 := v1 * B + v0, u2 * B * B + u1 * B + u0;
    HighWords(qhat, v1, v0);
    AboveWindow(qhat, qhat * v2, w3, w, wr, p, v2, vr, v);
    if q >= qhat { MulMono(qhat, q, v); }
  }

  lemma HighWords(q: int, v1: int, v0: int)
    ensures q * (v1 * B + v0) == q * v1 * B + q * v0
  {}

  lemma AboveWindow(qhat: int, s: int, w3: int, w: int, wr: int, p: int, v2: int, vr: int, v: int)
    requires s == qhat * v2 && s >= w3 + 1 && w == w3 * p + wr && 0 <= wr < p
    requires v == v2 * p + vr && qhat >= 0 && vr >= 0
    ensures qhat * v > w
  {
    MulMono(w3 + 1, s, p);
    assert qhat * (v2 * p + vr) == s * p + qhat * vr;
    MulMono(0, qhat, vr);
  }

  /** An estimate at or above the word size is too high. */
  lemma BigTooHigh(q: int, w: nat, v: nat)
    requires q * v <= w < v * B
    ensures q < B
  {
    if q >= B { MulMono(B, q, v); }
  }

  /** An estimate that is kept is at most one too high. */
  lemma AcceptedNearlyRight(qhat: int, q: int, w: nat, u2: Word, u1: Word, u0: Word, wr: nat, v: nat, v1: Word,
      v0: Word, vr: nat, p: nat)
    requires Window(w, u2, u1, u0, wr, v, v1, v0, vr, p)
    requires 0 <= qhat <= B && qhat * (v1 * B + v0) <= u2 * B * B + u1 * B + u0
    requires w < (q + 1) * v
    ensures qhat <= q + 1
  {
    if qhat > 0 {
      var v2, w3 := v1 * B + v0, u2 * B * B + u1 * B + u0;
      MulMono(qhat * v2, w3, p);
      assert (qhat - 1) * v == (qhat * v2) * p - v2 * p + (qhat - 1) * vr;
      MulMono(qhat - 1, B, vr);
      assert B * vr <= B * p;
      MulMono(B, v2, p);
      assert (qhat - 1) * v <= w;
      if qhat - 1 > q { MulMono(q + 1, qhat - 1, v); }
    } else if q < -1 {
      MulMono(q + 1, -1, v);
    }
  }

  /** The refined digit is the true quotient digit or one more, and fits a word. */
  lemma {:induction false} RefineFromNearlyRight(qhat: int, rhat: nat, w: nat, u2: Word, u1: Word, u0: Word,
      wr: nat, v: nat, v1: Word, v0: Word, vr: nat, p: nat, q: int)
    requires Window(w, u2, u1, u0, wr, v, v1, v0, vr, p)
    requires q * v <= w < (q + 1) * v && 0 <= q <= qhat && rhat < B
    requires qhat * v1 + rhat == u2 * B + u1
    ensures var r := RefineFrom(qhat, rhat, u0, v1, v0); q <= r <= q + 1 && r < B
    decreases B - rhat
  {
    BigTooHigh(q, w, v);
    if qhat >= B || qhat * v0 > rhat * B + u0 {
      if qhat < B { RejectedTooHigh(qhat, rhat, q, w, u2, u1, u0, wr, v, v1, v0, vr, p); }
      MinusOne(qhat, v1, rhat, u2 * B + u1);
      if rhat + v1 < B {
        RefineFromNearlyRight(qhat - 1, rhat + v1, w, u2, u1, u0, wr, v, v1, v0, vr, p, q);
      } else {
        LargeRemainder(qhat - 1, rhat + v1, w, u2, u1, u0, wr, v, v1, v0, vr, p);
        AcceptedNearlyRight(qhat - 1, q, w, u2, u1, u0, wr, v, v1, v0, vr, p);
      }
    } else {
      HighWords(qhat, v1, v0);
      AcceptedNearlyRight(qhat, q, w, u2, u1, u0, wr, v, v1, v0, vr, p);
    }
  }

  /** With a remainder of a whole word or more, the estimate needs no further test. */
  lemma LargeRemainder(qhat: int, rhat: int, w: nat, u2: Word, u1: Word, u0: Word, wr: nat, v: nat, v1: Word,
      v0: Word, vr: nat, p: nat)
    requires Window(w, u2, u1, u0, wr, v, v1, v0, vr, p)
    requires 0 <= qhat && rhat >= B && qhat * v1 + rhat == u2 * B + u1
    ensures qhat < B && qhat * (v1 * B + v0) <= u2 * B * B + u1 * B + u0
  {
    TopWords(w, u2, u1, u0, wr, v, v1, v0, vr, p);
    if qhat >= B { MulMono(B, qhat, v1); }
    MulMono(qhat, B - 1, v0);
    HighWords(qhat, v1, v0);
  }

  /** The window's top word is at most the divisor's. */
  lemma TopWords(w: nat, u2: Word, u1: Word, u0: Word, wr: nat, v: nat, v1: Word, v0: Word, vr: nat, p: nat)
    requires Window(w, u2, u1, u0, wr, v, v1, v0, vr, p)
    ensures u2 <= v1
  {
    if u2 >= v1 + 1 {
      AboveDivisor(u2 * B * B + u1 * B + u0, v1 * B + v0, p, w, v, wr, vr);
    }
  }

  lemma AboveDivisor(w3: int, v2: int, p: int, w: int, v: int, wr: int, vr: int)
    requires w3 >= v2 * B + B && w == w3 * p + wr && v == v2 * p + vr && 0 <= wr && 0 <= vr < p
    ensures w >= v * B
  {
    MulMono(v2 * B + B, w3, p);
    assert v * B == (v2 * B) * p + vr * B;
  }

  /** The first estimate is not too low. */
  lemma FirstNotTooLow(w: nat, u2: Word, u1: Word, u0: Word, wr: nat, v: nat, v1: Word, v0: Word, vr: nat,
      p: nat, q: int)
    requires Window(w, u2, u1, u0, wr, v, v1, v0, vr, p) && q * v <= w && q >= 0
    ensures q <= (u2 * B + u1) / v1
  {
    var p2 := u2 * B + u1;
    FirstEstimate(p2, v1);
    var e, r := p2 / v1, p2 % v1;
    if q >= e + 1 {
      MulMono(e + 1, q, v1);
      assert q * v1 >= p2 + 1;
      HighWords(q, v1, v0);
      MulMono(0, q, v0);
      assert q * (v1 * B + v0) >= (p2 + 1) * B;
      AboveWindow(q, q * (v1 * B + v0), u2 * B * B + u1 * B + u0, w, wr, p, v1 * B + v0, vr, v);
    }
  }

  lemma RefinedNearlyRight(w: nat, u2: Word, u1: Word, u0: Word, wr: nat, v: nat, v1: Word, v0: Word, vr: nat,
      p: nat, q: int)
    requires Window(w, u2, u1, u0, wr, v, v1, v0, vr, p)
    requires q * v <= w < (q + 1) * v && 0 <= q
    ensures q <= Refined(u2, u1, u0, v1, v0) <= q + 1 && Refined(u2, u1, u0, v1, v0) < B
  {
    FirstEstimate(u2 * B + u1, v1);
    FirstNotTooLow(w, u2, u1, u0, wr, v, v1, v0, vr, p, q);
    RefineFromNearlyRight((u2 * B + u1) / v1, (u2 * B + u1) % v1, w, u2, u1, u0, wr, v, v1, v0, vr, p, q);
  }

  // ----- the estimate for the words it looks at -----

  /** Against the words it looks at the refined digit is never too high. */
  lemma {:induction false} RefineFromFits(qhat: int, rhat: nat, w: nat, u2: Word, u1: Word, u0: Word, wr: nat,
      v: nat, v1: Word, v0: Word, vr: nat, p: nat)
    requires Window(w, u2, u1, u0, wr, v, v1, v0, vr, p)
    requires 0 <= qhat && rhat < B && qhat * v1 + rhat == u2 * B + u1
    ensures RefineFrom(qhat, rhat, u0, v1, v0) * (v1 * B + v0) <= u2 * B * B + u1 * B + u0
    decreases B - rhat
  {
    if qhat >= B || qhat * v0 > rhat * B + u0 {
      EstimateIsPositive(qhat, v0, rhat * B + u0);
      MinusOne(qhat, v1, rhat, u2 * B + u1);
      if rhat + v1 < B {
        RefineFromFits(qhat - 1, rhat + v1, w, u2, u1, u0, wr, v, v1, v0, vr, p);
      } else {
        LargeRemainder(qhat - 1, rhat + v1, w, u2, u1, u0, wr, v, v1, v0, vr, p);
      }
    } else {
      HighWords(qhat, v1, v0);
    }
  }

  lemma RefinedFits(w: nat, u2: Word, u1: Word, u0: Word, wr: nat, v: nat, v1: Word, v0: Word, vr: nat, p: nat)
    requires Window(w, u2, u1, u0, wr, v, v1, v0, vr, p)
    ensures Refined(u2, u1, u0, v1, v0) * (v1 * B + v0) <= u2 * B * B + u1 * B + u0
  {
    FirstEstimate(u2 * B + u1, v1);
    RefineFromFits((u2 * B + u1) / v1, (u2 * B + u1) % v1, w, u2, u1, u0, wr, v, v1, v0, vr, p);
  }
}
