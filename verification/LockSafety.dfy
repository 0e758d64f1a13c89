/** What the lock of lock.c guarantees in every reachable state. */
module LockSafety {
  import opened LockProtocol

  /** The invariant holds at the end of every run. */
  lemma {:induction false} RunKeeps(states: seq<State>)
    requires Run(states)
    ensures Inv(states[|states| - 1]) && Few(states[|states| - 1])
  {
    var n := |states|;
    if n == 1 {
      StartHolds(states[0]);
    } else {
      RunKeeps(states[..n - 1]);
      assert states[..n - 1][n - 2] == states[n - 2];
      var t :| Step(states[n - 2], t, states[n - 1]);
      StepKeeps(states[n - 2], t, states[n - 1]);
    }
  }

  /** The word counts the holders, and has the exclusive bit exactly when a writer has set it. */
  lemma {:induction false} WordCounts(states: seq<State>)
    requires Run(states)
    ensures var s := states[|states| - 1];
      && Count(s.word) == |Holders(s.pcs)| && s.word < WORDS
      && (Bit(s.word) == EXCLUSIVE <==> Owned(s.pcs))
      && (s.word == 0 <==> Holders(s.pcs) == {})
  {
    RunKeeps(states);
    var s := states[|states| - 1];
    WordParts(|Holders(s.pcs)|, Owned(s.pcs));
    if Owned(s.pcs) {
      var t :| t in s.pcs && Owning(s.pcs[t]);
      assert t in Holders(s.pcs);
    }
  }

  /** While a thread has the lock for itself, no other thread holds it in any way; and at most one writer
      has set the exclusive bit. */
  lemma {:induction false} MutualExclusion(states: seq<State>, t: nat, u: nat)
    requires Run(states)
    requires var pcs := states[|states| - 1].pcs; t in pcs && u in pcs && t != u
    ensures var pcs := states[|states| - 1].pcs;
      (Exclusive(pcs[t]) ==> !Holding(pcs[u])) && !(Owning(pcs[t]) && Owning(pcs[u]))
  {
    RunKeeps(states);
    var pcs := states[|states| - 1].pcs;
    assert u in Holders(pcs) <==> Holding(pcs[u]);
  }

  /** Once a writer has set the exclusive bit, threads only leave: no step of any thread brings in another. */
  lemma NoEntryOnceClaimed(s: State, t: nat, s': State)
    requires Inv(s) && Few(s) && Owned(s.pcs) && Step(s, t, s')
    ensures Holders(s'.pcs) <= Holders(s.pcs)
  {
    HoldersAfter(s.pcs, t, s'.pcs[t]);
    assert s.word >= EXCLUSIVE;
    assert Masked(s.pcs[t]);
    hide Inv, Few, Count, WithBit, AfterLeaving, Bit;
  }

  // ----- progress -----

  /** What thread `t` does when it runs: from outside it would have to choose, elsewhere there is one way on. */
  function Do(s: State, t: nat): State
    requires t in s.pcs && !s.pcs[t].Outside?
  {
    var w, pc := s.word, s.pcs[t];
    match pc
    case ShareRead => Put(s, t, w, ShareCas(Count(w)))
    case ShareCas(seen) => if w == seen then Put(s, t, (seen + 1) % WORDS, Sharing) else Put(s, t, w, ShareRead)
    case Sharing => Put(s, t, w, LeaveRead(false))
    case ClaimRead => Put(s, t, w, ClaimCas(Count(w)))
    case ClaimCas(seen) =>
      if w == seen then Put(s, t, WithBit((seen + 1) % WORDS), Claimed) else Put(s, t, w, ClaimRead)
    case Claimed => Put(s, t, w, if w == WithBit(1) then Alone else Claimed)
    case Alone => Put(s, t, w, LeaveRead(true))
    case LeaveRead(exclusive) => Put(s, t, w, LeaveCas(w, exclusive))
    case LeaveCas(seen, exclusive) =>
      if w == seen then Put(s, t, AfterLeaving(seen), Outside) else Put(s, t, w, LeaveRead(exclusive))
  }

  function Put(s: State, t: nat, w: nat, pc: Pc): State { State(w, s.pcs[t := pc]) }

  /** `s'` can follow `s` after `n` steps. */
  ghost predicate Reach(n: nat, s: State, s': State) {
    if n == 0 then s == s' else exists m :: Next(s, m) && Reach(n - 1, m, s')
  }

  lemma {:induction false} ReachOn(m: nat, n: nat, a: State, b: State, c: State)
    requires Reach(m, a, b) && Reach(n, b, c)
    ensures Reach(m + n, a, c)
  {
    hide Next;
    if m > 0 {
      var x :| Next(a, x) && Reach(m - 1, x, b);
      ReachOn(m - 1, n, x, b, c);
    }
  }

  lemma ReachSelf(s: State)
    ensures Reach(0, s, s)
  {}

  lemma DoIsStep(s: State, t: nat)
    requires t in s.pcs && !s.pcs[t].Outside?
    ensures Step(s, t, Do(s, t)) && Do(s, t).pcs == s.pcs[t := Do(s, t).pcs[t]]
  {
    hide Count, WithBit, AfterLeaving, Bit;
  }

  /** One step of `t`. */
  lemma Doing(s: State, t: nat)
    requires Inv(s) && Few(s) && t in s.pcs && !s.pcs[t].Outside?
    ensures Inv(Do(s, t)) && Reach(1, s, Do(s, t)) && Do(s, t).pcs.Keys == s.pcs.Keys
    ensures forall u :: u in s.pcs && u != t ==> Do(s, t).pcs[u] == s.pcs[u]
    ensures Holders(Do(s, t).pcs) == if Holding(Do(s, t).pcs[t]) then Holders(s.pcs) + {t} else Holders(s.pcs) - {t}
  {
    var s' := Do(s, t);
    DoIsStep(s, t);
    hide Inv, Few, Holders, Do, Step;
    StepKeeps(s, t, s');
    HoldersAfter(s.pcs, t, s'.pcs[t]);
    assert Next(s, s') && Reach(0, s', s');
  }

  /** The steps a holder has to go before it can leave. */
  function LeaveRank(s: State, t: nat): nat
    requires t in s.pcs
  {
    match s.pcs[t]
    case LeaveCas(seen, _) => if seen == s.word then 0 else 2
    case LeaveRead(_) => 1
    case _ => 3
  }

  lemma OneStepOut(s: State, t: nat)
    requires t in s.pcs && Holding(s.pcs[t]) && !s.pcs[t].Claimed?
    ensures t in Do(s, t).pcs
    ensures Do(s, t).pcs[t].Outside?
      || (Holding(Do(s, t).pcs[t]) && !Do(s, t).pcs[t].Claimed? && LeaveRank(Do(s, t), t) < LeaveRank(s, t))
  {
    hide Count, WithBit, AfterLeaving, Bit;
  }

  /** A holder that does not wait for others can leave in at most four steps of its own. */
  lemma CanLeave(s: State, t: nat) returns (n: nat, s': State)
    requires Inv(s) && Few(s) && t in s.pcs && Holding(s.pcs[t]) && !s.pcs[t].Claimed?
    ensures Reach(n, s, s') && Inv(s') && Few(s') && s'.pcs.Keys == s.pcs.Keys
    ensures Holders(s'.pcs) == Holders(s.pcs) - {t}
    ensures forall u :: u in s.pcs && u != t ==> s'.pcs[u] == s.pcs[u]
    decreases LeaveRank(s, t)
  {
    hide Inv, Few, Do, Reach, LeaveRank, Holders;
    var m := Do(s, t);
    Doing(s, t);
    OneStepOut(s, t);
    InHolders(s, t);
    if m.pcs[t].Outside? {
      SmallerFew(s, m, t);
      return 1, m;
    }
    assert Holders(m.pcs) == Holders(s.pcs);
    SameFew(s, m);
    var k;
    k, s' := CanLeave(m, t);
    n := 1 + k;
    ReachOn(1, k, s, m, s');
  }

  lemma SameFew(s: State, m: State)
    requires Few(s) && Holders(m.pcs) == Holders(s.pcs)
    ensures Few(m)
  {}

  lemma SmallerFew(s: State, m: State, t: nat)
    requires Few(s) && Holders(m.pcs) == Holders(s.pcs) - {t}
    ensures Few(m)
  {}

  /** When the last sharer is gone, the writer that waits has the lock for itself at its next step. */
  lemma LastOneIsAlone(s: State, t: nat)
    requires Inv(s) && Few(s) && t in s.pcs && s.pcs[t].Claimed? && Holders(s.pcs) == {t}
    ensures Do(s, t).pcs[t] == Alone && Holders(Do(s, t).pcs) == {t}
  {
    Doing(s, t);
    assert Owning(s.pcs[t]);
    assert s.word == 1 + EXCLUSIVE;
    WordParts(1, true);
  }

  /** From every state the lock can become free, and no thread outside it needs to move for that. */
  lemma {:induction false} CanDrain(s: State) returns (n: nat, s': State)
    requires Inv(s) && Few(s)
    ensures Reach(n, s, s') && Inv(s') && Few(s') && s'.pcs.Keys == s.pcs.Keys && Holders(s'.pcs) == {}
    ensures forall u :: u in s.pcs && u !in Holders(s.pcs) ==> s'.pcs[u] == s.pcs[u]
    decreases |Holders(s.pcs)|
  {
    hide Inv, Few, Holders, Reach;
    if Holders(s.pcs) == {} {
      ReachSelf(s);
      return 0, s;
    }
    var a, m, t := OneLeaves(s);
    assert |Holders(m.pcs)| < |Holders(s.pcs)|;
    var b;
    b, s' := CanDrain(m);
    n := a + b;
    ReachOn(a, b, s, m, s');
  }

  /** Some holder can leave. */
  lemma OneLeaves(s: State) returns (n: nat, m: State, t: nat)
    requires Inv(s) && Few(s) && Holders(s.pcs) != {}
    ensures Reach(n, s, m) && Inv(m) && Few(m) && m.pcs.Keys == s.pcs.Keys
    ensures t in Holders(s.pcs) && Holders(m.pcs) == Holders(s.pcs) - {t}
    ensures forall u :: u in s.pcs && u != t ==> m.pcs[u] == s.pcs[u]
  {
    hide Inv, Few, Reach;
    if u :| u in Holders(s.pcs) && !s.pcs[u].Claimed? {
      t := u;
      n, m := CanLeave(s, t);
    } else {
      t :| t in Holders(s.pcs);
      OnlyOneWaits(s, t);
      n, m := LastOneLeaves(s, t);
    }
  }

  lemma LastOneLeaves(s: State, t: nat) returns (n: nat, m: State)
    requires Inv(s) && Few(s) && t in s.pcs && s.pcs[t].Claimed? && Holders(s.pcs) == {t}
    ensures Reach(n, s, m) && Inv(m) && Few(m) && m.pcs.Keys == s.pcs.Keys && Holders(m.pcs) == {}
    ensures forall u :: u in s.pcs && u != t ==> m.pcs[u] == s.pcs[u]
  {
    hide Inv, Few, Reach, Do, Holders;
    var s1 := Do(s, t);
    LastOneIsAlone(s, t);
    Doing(s, t);
    SameFew(s, s1);
    var k;
    k, m := CanLeave(s1, t);
    n := 1 + k;
    ReachOn(1, k, s, s1, m);
  }

  lemma OnlyOneWaits(s: State, t: nat)
    requires Inv(s) && t in Holders(s.pcs) && forall u :: u in Holders(s.pcs) ==> s.pcs[u].Claimed?
    ensures Holders(s.pcs) == {t}
  {
    forall u | u in Holders(s.pcs)
      ensures u == t
    {
      assert Owning(s.pcs[u]) && Owning(s.pcs[t]);
    }
  }

  /** The steps a waiting thread needs if no other thread moves: at most three. */
  function StepsToGo(s: State, t: nat): nat
    requires t in s.pcs
  {
    var pc := s.pcs[t];
    if pc.ShareCas? || pc.ClaimCas? then if pc.seen == s.word then 1 else 3 else 2
  }

  /** While no writer has set the bit, a waiting thread comes in by itself, whoever holds the lock: after at most
      three steps of its own, and without a step of any other. */
  lemma OpenLockIsTaken(s: State, t: nat) returns (n: nat, s': State)
    requires Inv(s) && Few(s) && !Owned(s.pcs) && t in s.pcs && Waiting(s.pcs[t])
    ensures n <= StepsToGo(s, t) && Reach(n, s, s') && Inv(s')
    ensures s'.pcs == s.pcs[t := if IsWriter(s.pcs[t]) then Claimed else Sharing]
    ensures s'.word == s.word + 1 + if IsWriter(s.pcs[t]) then EXCLUSIVE else 0
    decreases StepsToGo(s, t)
  {
    hide Reach, Holders, Owned;
    OpenWord(s, t);
    var m := Do(s, t);
    Doing(s, t);
    DoIsStep(s, t);
    hide Inv, Few;
    if Holding(m.pcs[t]) { return 1, m; }
    StillOpen(s, t);
    hide WithBit, AfterLeaving, Bit, Count;
    var k;
    k, s' := OpenLockIsTaken(m, t);
    n := 1 + k;
    ReachOn(1, k, s, m, s');
  }

  predicate IsWriter(pc: Pc) { pc.ClaimRead? || pc.ClaimCas? }

  /** Without the bit the word is the number of holders, and what a thread reads of it is all of it. */
  lemma OpenWord(s: State, t: nat)
    requires Inv(s) && Few(s) && !Owned(s.pcs) && t in s.pcs && Waiting(s.pcs[t])
    ensures s.word == |Holders(s.pcs)| < EXCLUSIVE - 1 && Count(s.word) == s.word && (s.word + 1) % WORDS == s.word + 1
    ensures WithBit(s.word + 1) == s.word + 1 + EXCLUSIVE
  {
    Words(|Holders(s.pcs)|, false);
    hide Holders, Owned;
  }

  /** A step of the thread that does not bring it in leaves all as it was, but for what the thread has read. */
  lemma StillOpen(s: State, t: nat)
    requires Inv(s) && Few(s) && !Owned(s.pcs) && t in s.pcs && Waiting(s.pcs[t]) && !Holding(Do(s, t).pcs[t])
    ensures !Owned(Do(s, t).pcs) && Few(Do(s, t)) && Do(s, t).word == s.word && Waiting(Do(s, t).pcs[t])
    ensures IsWriter(Do(s, t).pcs[t]) == IsWriter(s.pcs[t]) && StepsToGo(Do(s, t), t) < StepsToGo(s, t)
  {
    OpenWord(s, t);
    OwnedAfter(s.pcs, t, Do(s, t).pcs[t]);
    HoldersAfter(s.pcs, t, Do(s, t).pcs[t]);
    InHolders(s, t);
    hide Inv, Owned, Holders, WithBit, AfterLeaving, Bit;
  }

  /** Threads share the lock: in every reachable state in which no writer has set the bit, a thread that is about to
      read the word for its share has it after two steps, beside all holders. */
  lemma {:induction false} SharesAtOnce(states: seq<State>, t: nat)
    requires Run(states)
    requires var s := states[|states| - 1]; t in s.pcs && s.pcs[t].ShareRead? && !Owned(s.pcs)
    ensures var s := states[|states| - 1];
      var s' := State(s.word + 1, s.pcs[t := Sharing]);
      Reach(2, s, s') && Holders(s'.pcs) == Holders(s.pcs) + {t}
  {
    RunKeeps(states);
    hide Inv, Reach, Run, Holders, Few, Owned;
    EntersInTwo(states[|states| - 1], t);
  }

  /** A writer sets the bit as soon, while the sharers still hold the lock. */
  lemma {:induction false} ClaimsAtOnce(states: seq<State>, t: nat)
    requires Run(states)
    requires var s := states[|states| - 1]; t in s.pcs && s.pcs[t].ClaimRead? && !Owned(s.pcs)
    ensures var s := states[|states| - 1];
      var s' := State(s.word + 1 + EXCLUSIVE, s.pcs[t := Claimed]);
      Reach(2, s, s') && Holders(s'.pcs) == Holders(s.pcs) + {t}
  {
    RunKeeps(states);
    hide Inv, Reach, Run, Holders, Few, Owned;
    EntersInTwo(states[|states| - 1], t);
  }

  /** Where a thread that comes in takes the state. */
  function Entered(s: State, t: nat): State
    requires t in s.pcs
  {
    if IsWriter(s.pcs[t]) then State(s.word + 1 + EXCLUSIVE, s.pcs[t := Claimed])
    else State(s.word + 1, s.pcs[t := Sharing])
  }

  lemma EntersInTwo(s: State, t: nat)
    requires Inv(s) && Few(s) && !Owned(s.pcs) && t in s.pcs && (s.pcs[t].ShareRead? || s.pcs[t].ClaimRead?)
    ensures Reach(2, s, Entered(s, t)) && Holders(Entered(s, t).pcs) == Holders(s.pcs) + {t}
  {
    hide *;
    TwoSteps(s, t);
    Doing(s, t);
    StillOpen(s, t);
    Doing(Do(s, t), t);
    HoldersAfter(s.pcs, t, Entered(s, t).pcs[t]);
    ReachOn(1, 1, s, Do(s, t), Entered(s, t));
  }

  lemma TwoSteps(s: State, t: nat)
    requires Inv(s) && Few(s) && !Owned(s.pcs) && t in s.pcs && (s.pcs[t].ShareRead? || s.pcs[t].ClaimRead?)
    ensures t in Do(s, t).pcs && Waiting(Do(s, t).pcs[t]) && !Do(s, t).pcs[t].Outside?
    ensures !s.pcs[t].Outside? && Waiting(s.pcs[t]) && !Holding(Do(s, t).pcs[t])
    ensures Do(Do(s, t), t) == Entered(s, t) && Entered(s, t).pcs == s.pcs[t := Entered(s, t).pcs[t]]
    ensures Holding(Entered(s, t).pcs[t])
  {
    hide Inv, Few, Owned, Holders, Count, WithBit, AfterLeaving;
    OpenWord(s, t);
  }

  /** With no holder, a waiting thread's compare-exchange succeeds after it has read the word once more. */
  lemma FreeLockIsTaken(s: State, t: nat) returns (n: nat, s': State)
    requires Inv(s) && Few(s) && Holders(s.pcs) == {} && t in s.pcs && Waiting(s.pcs[t])
    ensures n <= StepsToGo(s, t) && Reach(n, s, s') && Inv(s') && Holders(s'.pcs) == {t}
    ensures s'.pcs.Keys == s.pcs.Keys && s'.pcs[t] == if IsWriter(s.pcs[t]) then Claimed else Sharing
  {
    NobodyOwns(s);
    hide Inv, Few, Reach, Holders;
    n, s' := OpenLockIsTaken(s, t);
    HoldersAfter(s.pcs, t, s'.pcs[t]);
  }

  lemma NobodyOwns(s: State)
    requires Holders(s.pcs) == {}
    ensures !Owned(s.pcs)
  {
    assert forall t :: t in s.pcs && Owning(s.pcs[t]) ==> t in Holders(s.pcs);
  }

  /** From a state that meets the invariant, a waiting thread can come in. */
  lemma CanGetIn(s: State, t: nat) returns (n: nat, s': State)
    requires Inv(s) && Few(s) && t in s.pcs && Waiting(s.pcs[t])
    ensures Reach(n, s, s') && t in s'.pcs && Inv(s') && Holders(s'.pcs) == {t}
    ensures s'.pcs[t] == if IsWriter(s.pcs[t]) then Claimed else Sharing
  {
    hide Inv, Reach, Few;
    assert t !in Holders(s.pcs);
    var a, free := CanDrain(s);
    var b;
    b, s' := FreeLockIsTaken(free, t);
    n := a + b;
    ReachOn(a, b, s, free, s');
  }

  /** No deadlock: from every reachable state every waiting thread can still come in, and a writer can come
      to have the lock for itself. */
  lemma {:induction false} WaiterCanGetIn(states: seq<State>, t: nat) returns (n: nat, s': State)
    requires Run(states)
    requires var pcs := states[|states| - 1].pcs; t in pcs && Waiting(pcs[t])
    ensures Reach(n, states[|states| - 1], s') && t in s'.pcs && Holders(s'.pcs) == {t}
    ensures s'.pcs[t] == if IsWriter(states[|states| - 1].pcs[t]) then Alone else Sharing
  {
    RunKeeps(states);
    hide Inv, Reach, Run, Waiting, IsWriter, Holders, Few;
    n, s' := CanHave(states[|states| - 1], t);
  }

  lemma CanHave(s: State, t: nat) returns (n: nat, s': State)
    requires Inv(s) && Few(s) && t in s.pcs && Waiting(s.pcs[t])
    ensures Reach(n, s, s') && t in s'.pcs && Holders(s'.pcs) == {t}
    ensures s'.pcs[t] == if IsWriter(s.pcs[t]) then Alone else Sharing
  {
    hide Inv, Reach, Waiting, Holders;
    n, s' := CanGetIn(s, t);
    if IsWriter(s.pcs[t]) {
      var k, got := n, s';
      s' := BecomesAlone(got, t);
      hide Few;
      n := k + 1;
      ReachOn(k, 1, s, got, s');
    }
  }

  lemma BecomesAlone(s: State, t: nat) returns (s': State)
    requires Inv(s) && t in s.pcs && s.pcs[t].Claimed? && Holders(s.pcs) == {t}
    ensures Reach(1, s, s') && t in s'.pcs && s'.pcs[t] == Alone && Holders(s'.pcs) == {t}
  {
    hide Inv, Reach, Do, Holders;
    s' := Do(s, t);
    LastOneIsAlone(s, t);
    Doing(s, t);
  }
}
