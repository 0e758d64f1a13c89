/** The hand-off of SbieAPI.cpp cannot get stuck: from every reachable state, every caller can still return
    with the status of its own request. */
module CallServerProgress {
  import opened CallServer

  /** `s'` can follow `s` after `n` steps. */
  ghost predicate Reach(n: nat, s: State, s': State) {
    if n == 0 then s == s' else exists m :: Next(s, m) && Reach(n - 1, m, s')
  }

  lemma {:induction false} ReachOn(m: nat, n: nat, a: State, b: State, c: State)
    requires Reach(m, a, b) && Reach(n, b, c)
    ensures Reach(m + n, a, c)
  {
    if m > 0 {
      var x :| Next(a, x) && Reach(m - 1, x, b);
      ReachOn(m - 1, n, x, b, c);
    }
  }

  lemma OneStep(s: State, s': State)
    requires Next(s, s')
    ensures Reach(1, s, s')
  {
    assert Reach(0, s', s');
  }

  /** The step that moves the request in the slot on: the worker's while its turn lasts, else the owner's. */
  function Onward(s: State, t: nat, status: int): State
    requires t in s.callers && Owns(s.callers[t])
  {
    if s.callers[t].WaitDone? && s.svcLock != Done then WorkerStep(s, status) else CallerStep(s, t)
  }

  /** The steps left until the owner gives the slot back. */
  function Left(s: State, t: nat): nat
    requires t in s.callers
  {
    match s.callers[t]
    case PutReq(_) => 13
    case PutRpl(_) => 12
    case PutStatus(_) => 11
    case Submit(_) => 10
    case WaitDone(_) =>
      (match s.worker
       case Poll => if s.svcLock == Done then 5 else 9
       case Execute => 8
       case Report(_) => 7
       case Finish => 6)
    case DropReq(_) => 4
    case DropRpl(_) => 3
    case TakeStatus(_) => 2
    case Release(_, _) => 1
    case _ => 0
  }

  /** Nothing about the other callers changes. */
  predicate Others(s: State, s': State, t: nat) {
    s'.callers.Keys == s.callers.Keys && forall u :: u in s.callers && u != t ==> s'.callers[u] == s.callers[u]
  }

  lemma OnwardIsStep(s: State, t: nat, status: int)
    requires t in s.callers && Owns(s.callers[t])
    ensures Next(s, Onward(s, t, status))
  {
    hide WorkerStep, CallerStep, Begins;
  }

  lemma OnwardMoves(s: State, t: nat, status: int)
    requires Inv(s, Somebody(t))
    ensures var s' := Onward(s, t, status);
      Others(s, s', t) && t in s'.callers && Left(s', t) < Left(s, t)
      && !s'.callers[t].Outside? && s'.callers[t].id == s.callers[t].id && (Owns(s'.callers[t]) || s'.callers[t].Leave?)
  {
    hide Numbered, Own, Executed;
  }

  lemma OnwardKeeps(s: State, t: nat, status: int)
    requires Inv(s, Somebody(t))
    ensures var s' := Onward(s, t, status); Inv(s', if s.callers[t].Release? then Nobody else Somebody(t))
  {
    if s.callers[t].WaitDone? && s.svcLock != Done {
      WorkerKeeps(s, status, Somebody(t));
    } else {
      CallerKeeps(s, t, Somebody(t));
    }
    hide WorkerStep, CallerStep, Inv;
  }

  /** The owner of the slot can get its answer and give the slot back. */
  lemma {:induction false} OwnerFinishes(s: State, t: nat) returns (n: nat, s': State)
    requires Inv(s, Somebody(t))
    ensures Reach(n, s, s') && Inv(s', Nobody) && Others(s, s', t) && t in s'.callers
    ensures s'.callers[t].Leave? && s'.callers[t].id == s.callers[t].id
    decreases Left(s, t)
  {
    OnwardMoves(s, t, 0);
    OnwardIsStep(s, t, 0);
    OnwardKeeps(s, t, 0);
    var m := Onward(s, t, 0);
    OneStep(s, m);
    hide Reach, Onward, Next;
    if s.callers[t].Release? {
      Released(m, t);
      return 1, m;
    }
    hide Inv;
    var k;
    k, s' := OwnerFinishes(m, t);
    n := 1 + k;
    ReachOn(1, k, s, m, s');
  }

  lemma Released(m: State, t: nat)
    requires Inv(m, Nobody) && t in m.callers && (Owns(m.callers[t]) || m.callers[t].Leave?)
    ensures m.callers[t].Leave?
  {}

  /** A free slot can be taken. */
  lemma WaiterTakes(s: State, t: nat) returns (s': State)
    requires Inv(s, Nobody) && t in s.callers && s.callers[t].WaitIdle?
    ensures Reach(1, s, s') && Inv(s', Somebody(t)) && t in s'.callers && s'.callers[t].id == s.callers[t].id
  {
    s' := CallerStep(s, t);
    CallerKeeps(s, t, Nobody);
    hide Inv;
    OneStep(s, s');
  }

  /** Every caller can return, whatever has happened so far. By OwnStatus it then has the status of its own
      request, executed once. */
  lemma {:induction false} EveryCallerCanReturn(states: seq<State>, t: nat) returns (n: nat, s': State)
    requires Run(states)
    requires var c := states[|states| - 1].callers; t in c && !c[t].Outside?
    ensures Reach(n, states[|states| - 1], s') && t in s'.callers && s'.callers[t].Leave?
    ensures s'.callers[t].id == states[|states| - 1].callers[t].id
  {
    var owner := RunKeeps(states);
    n, s' := CanReturn(states[|states| - 1], t, owner);
  }

  lemma CanReturn(s: State, t: nat, owner: Owner) returns (n: nat, s': State)
    requires Inv(s, owner) && t in s.callers && !s.callers[t].Outside?
    ensures Reach(n, s, s') && t in s'.callers && s'.callers[t].Leave? && s'.callers[t].id == s.callers[t].id
  {
    hide Inv, Reach, Others;
    WhereItIs(s, t, owner);
    if s.callers[t].Leave? {
      ReachSelf(s);
      n, s' := 0, s;
    } else if owner == Somebody(t) {
      n, s' := OwnerFinishes(s, t);
    } else {
      n, s' := WaiterReturns(s, t, owner);
    }
  }

  lemma WaiterReturns(s: State, t: nat, owner: Owner) returns (n: nat, s': State)
    requires Inv(s, owner) && t in s.callers && s.callers[t].WaitIdle? && owner != Somebody(t)
    ensures Reach(n, s, s') && t in s'.callers && s'.callers[t].Leave? && s'.callers[t].id == s.callers[t].id
  {
    hide Inv, Reach, Others;
    var a, free := SlotFrees(s, owner);
    var taken := WaiterTakes(free, t);
    var b;
    b, s' := OwnerFinishes(taken, t);
    ReachOn(a, 1, s, free, taken);
    ReachOn(a + 1, b, s, taken, s');
    n := a + 1 + b;
  }

  lemma ReachSelf(s: State)
    ensures Reach(0, s, s)
  {}

  lemma WhereItIs(s: State, t: nat, owner: Owner)
    requires Inv(s, owner) && t in s.callers && !s.callers[t].Outside?
    ensures s.callers[t].Leave? || owner == Somebody(t) || s.callers[t].WaitIdle?
  {
    hide Numbered, Own, SlotOf;
  }

  /** The slot becomes free, and callers that do not own it stay where they are. */
  lemma SlotFrees(s: State, owner: Owner) returns (n: nat, s': State)
    requires Inv(s, owner)
    ensures Reach(n, s, s') && Inv(s', Nobody) && s'.callers.Keys == s.callers.Keys
    ensures forall u :: u in s.callers && owner != Somebody(u) ==> s'.callers[u] == s.callers[u]
  {
    if owner.Nobody? {
      n, s' := 0, s;
    } else {
      n, s' := OwnerFinishes(s, owner.t);
    }
  }
}
