/** The hand-off of requests to the worker thread (SbieAPI.cpp:642-649, 683-719): any number of callers share
    one slot, the SvcLock word says who may touch it, and every step below is one access to shared memory. */
module CallServer {
  /** SVC_OP_STATE_IDLE .. SVC_OP_STATE_EVAL */
  datatype Phase = Idle | Prep | Start | Exec | Done | Eval

  /** A pointer field: null, or the request or reply buffer of a call. */
  datatype Pointer = Null | Of(call: nat)

  /** Where a caller is in CSbieAPI::CallServer. */
  datatype Caller =
    | Outside
    | WaitIdle(id: nat)                  // SbieAPI.cpp:693
    | PutReq(id: nat)                    // 696
    | PutRpl(id: nat)                    // 697
    | PutStatus(id: nat)                 // 698
    | Submit(id: nat)                    // 700
    | WaitDone(id: nat)                  // 709
    | DropReq(id: nat)                   // 712
    | DropRpl(id: nat)                   // 713
    | TakeStatus(id: nat)                // 714
    | Release(id: nat, status: int)      // 716
    | Leave(id: nat, status: int)        // 718

  /** Where the worker is in CSbieAPI::run. */
  datatype Worker =
    | Poll                               // 642
    | Execute                            // 644, the call
    | Report(status: int)                // 644, the assignment
    | Finish                             // 646

  /** One request the server has executed: whose it was, whose reply buffer was filled, and the status. */
  datatype Entry = Entry(req: Pointer, rpl: Pointer, status: int)

  datatype State = State(
    svcLock: Phase, svcReq: Pointer, svcRpl: Pointer, svcStatus: int,
    callers: map<nat, Caller>, worker: Worker,
    issued: nat,          // calls made so far: the next call gets this number
    log: seq<Entry>,      // what the server has executed
    done: seq<Entry>)     // what callers have taken out of the slot

  /** A call begins and gets its number. */
  predicate Begins(s: State, t: nat, s': State) {
    t in s.callers && s.callers[t].Outside?
    && s' == s.(callers := s.callers[t := WaitIdle(s.issued)], issued := s.issued + 1)
  }

  /** One access to shared memory by caller `t`. */
  function CallerStep(s: State, t: nat): State
    requires t in s.callers && !s.callers[t].Outside?
  {
    match s.callers[t]
    case WaitIdle(id) => if s.svcLock == Idle then At(s, t, PutReq(id)).(svcLock := Prep) else s
    case PutReq(id) => At(s, t, PutRpl(id)).(svcReq := Of(id))
    case PutRpl(id) => At(s, t, PutStatus(id)).(svcRpl := Of(id))
    case PutStatus(id) => At(s, t, Submit(id)).(svcStatus := 0)
    case Submit(id) => At(s, t, WaitDone(id)).(svcLock := Start)
    case WaitDone(id) => if s.svcLock == Done then At(s, t, DropReq(id)).(svcLock := Eval) else s
    case DropReq(id) => At(s, t, DropRpl(id)).(svcReq := Null)
    case DropRpl(id) => At(s, t, TakeStatus(id)).(svcRpl := Null)
    case TakeStatus(id) => At(s, t, Release(id, s.svcStatus))
    case Release(id, status) =>
      At(s, t, Leave(id, status)).(svcLock := Idle, done := s.done + [Entry(Of(id), Of(id), status)])
    case Leave(id, status) => At(s, t, Outside)
  }

  function At(s: State, t: nat, pc: Caller): State
    requires t in s.callers
  {
    s.(callers := s.callers[t := pc])
  }

  /** One access by the worker; `status` is what the server answers. */
  function WorkerStep(s: State, status: int): State {
    match s.worker
    case Poll => if s.svcLock == Start then s.(svcLock := Exec, worker := Execute) else s
    case Execute => s.(worker := Report(status), log := s.log + [Entry(s.svcReq, s.svcRpl, status)])
    case Report(st) => s.(worker := Finish, svcStatus := st)
    case Finish => s.(worker := Poll, svcLock := Done)
  }

  ghost predicate Next(s: State, s': State) {
    || (exists t :: Begins(s, t, s'))
    || (exists t :: t in s.callers && !s.callers[t].Outside? && s' == CallerStep(s, t))
    || (exists status: int :: s' == WorkerStep(s, status))
  }

  predicate Initial(s: State) {
    && s.svcLock == Idle && s.worker == Poll && s.issued == 0 && s.log == [] && s.done == []
    && forall t :: t in s.callers ==> s.callers[t] == Outside
  }

  ghost predicate Run(states: seq<State>) {
    && |states| > 0
    && if |states| == 1 then Initial(states[0])
       else Run(states[..|states| - 1]) && Next(states[|states| - 2], states[|states| - 1])
  }

  // ----- the invariant -----

  /** The callers between taking the slot and giving it back. */
  predicate Owns(pc: Caller) { !pc.Outside? && !pc.WaitIdle? && !pc.Leave? }

  datatype Owner = Nobody | Somebody(t: nat)

  /** The server has executed the request in the slot, and nothing else since the last caller left. */
  predicate Executed(s: State, id: nat, status: int) {
    s.log == s.done + [Entry(Of(id), Of(id), status)]
  }

  /** Once a call has been served, a free slot has no pointers in it. */
  predicate Cleared(s: State) { s.done != [] ==> s.svcReq == Null && s.svcRpl == Null }

  /** What the slot and the worker are like while a caller owns the slot. */
  predicate SlotOf(s: State, pc: Caller)
    requires Owns(pc)
  {
    match pc
    case PutReq(id) => s.svcLock == Prep && s.worker == Poll && s.log == s.done && Cleared(s)
    case PutRpl(id) => s.svcLock == Prep && s.worker == Poll && s.log == s.done && s.svcReq == Of(id)
    case PutStatus(id) =>
      s.svcLock == Prep && s.worker == Poll && s.log == s.done && s.svcReq == Of(id) && s.svcRpl == Of(id)
    case Submit(id) =>
      && s.svcLock == Prep && s.worker == Poll && s.log == s.done && s.svcReq == Of(id) && s.svcRpl == Of(id)
      && s.svcStatus == 0
    case WaitDone(id) =>
      && s.svcReq == Of(id) && s.svcRpl == Of(id)
      && (match s.worker
          case Poll =>
            || (s.svcLock == Start && s.log == s.done && s.svcStatus == 0)
            || (s.svcLock == Done && Executed(s, id, s.svcStatus))
          case Execute => s.svcLock == Exec && s.log == s.done && s.svcStatus == 0
          case Report(status) => s.svcLock == Exec && Executed(s, id, status)
          case Finish => s.svcLock == Exec && Executed(s, id, s.svcStatus))
    case DropReq(id) => s.svcLock == Eval && s.worker == Poll && Executed(s, id, s.svcStatus)
    case DropRpl(id) => s.svcLock == Eval && s.worker == Poll && Executed(s, id, s.svcStatus) && s.svcReq == Null
    case TakeStatus(id) =>
      && s.svcLock == Eval && s.worker == Poll && Executed(s, id, s.svcStatus)
      && s.svcReq == Null && s.svcRpl == Null
    case Release(id, status) =>
      && s.svcLock == Eval && s.worker == Poll && Executed(s, id, status) && s.svcReq == Null && s.svcRpl == Null
  }

  /** The slot is free, or what it is like is told by the caller that owns it. */
  predicate SlotIs(s: State, owner: Owner) {
    if owner.Nobody? then s.svcLock == Idle && s.worker == Poll && s.log == s.done && Cleared(s)
    else owner.t in s.callers && Owns(s.callers[owner.t]) && SlotOf(s, s.callers[owner.t])
  }

  /** The requests in the log are those of different calls, and filled the reply buffers of the same calls. */
  ghost predicate Own(log: seq<Entry>, issued: nat) {
    && (forall i :: 0 <= i < |log| ==> log[i].req.Of? && log[i].rpl == log[i].req && log[i].req.call < issued)
    && (forall i, j :: 0 <= i < j < |log| ==> log[i].req != log[j].req)
  }

  ghost predicate Logged(log: seq<Entry>, id: nat) { exists i :: 0 <= i < |log| && log[i].req == Of(id) }

  /** A caller's number is its own; its request is in the log exactly from the moment it was executed. */
  ghost predicate Numbered(s: State) {
    && (forall t :: t in s.callers && !s.callers[t].Outside? ==> s.callers[t].id < s.issued)
    && (forall t, u :: t in s.callers && u in s.callers && t != u && !s.callers[t].Outside? && !s.callers[u].Outside?
          ==> s.callers[t].id != s.callers[u].id)
    && (forall t :: t in s.callers && !s.callers[t].Outside? && !s.callers[t].Leave? ==>
          !Logged(s.done, s.callers[t].id))
    && (forall t :: t in s.callers && s.callers[t].Leave? ==>
          Entry(Of(s.callers[t].id), Of(s.callers[t].id), s.callers[t].status) in s.done)
  }

  ghost predicate Inv(s: State, owner: Owner) {
    && (forall t :: t in s.callers ==> (Owns(s.callers[t]) <==> owner == Somebody(t)))
    && SlotIs(s, owner) && Numbered(s) && Own(s.done, s.issued)
  }

  lemma InitialHolds(s: State)
    requires Initial(s)
    ensures Inv(s, Nobody)
  {}

  lemma BeginKeeps(s: State, t: nat, s': State, owner: Owner)
    requires Inv(s, owner) && Begins(s, t, s')
    ensures Inv(s', owner)
  {
    BeginNumbered(s, t, s');
    hide Numbered, Own;
    forall u | u in s'.callers
      ensures Owns(s'.callers[u]) <==> owner == Somebody(u)
    {
      assert s'.callers[u] == if u == t then WaitIdle(s.issued) else s.callers[u];
    }
  }

  lemma BeginNumbered(s: State, t: nat, s': State)
    requires Numbered(s) && Own(s.done, s.issued) && Begins(s, t, s')
    ensures Numbered(s') && Own(s'.done, s'.issued)
  {
    forall u | u in s'.callers
      ensures s'.callers[u] == if u == t then WaitIdle(s.issued) else s.callers[u]
    {}
    assert !Logged(s.done, s.issued);
  }

  /** A caller that goes on with its call, with nothing taken out of the slot. */
  lemma OnwardNumbered(s: State, t: nat, s': State)
    requires Numbered(s) && t in s.callers && !s.callers[t].Outside? && !s.callers[t].Leave?
    requires t in s'.callers && s'.callers == s.callers[t := s'.callers[t]]
    requires s'.done == s.done && s'.issued == s.issued
    requires !s'.callers[t].Outside? && !s'.callers[t].Leave? && s'.callers[t].id == s.callers[t].id
    ensures Numbered(s')
  {
    hide Logged;
  }

  lemma OutNumbered(s: State, t: nat, s': State)
    requires Numbered(s) && t in s.callers
    requires s'.callers == s.callers[t := Outside] && s'.done == s.done && s'.issued == s.issued
    ensures Numbered(s')
  {
    hide Logged;
  }

  /** The caller takes its status out of the slot and gives the slot back. */
  lemma ReleaseNumbered(s: State, t: nat, id: nat, status: int, s': State)
    requires Numbered(s) && Own(s.done, s.issued) && t in s.callers && s.callers[t] == Release(id, status)
    requires s'.callers == s.callers[t := Leave(id, status)] && s'.issued == s.issued
    requires s'.done == s.done + [Entry(Of(id), Of(id), status)]
    ensures Numbered(s') && Own(s'.done, s'.issued)
  {
    forall u | u in s.callers && u != t && !s.callers[u].Outside? && !s.callers[u].Leave?
      ensures !Logged(s'.done, s.callers[u].id)
    {
      assert s.callers[u].id != id;
    }
    assert !Logged(s.done, id);
    assert s'.done[|s.done|] == Entry(Of(id), Of(id), status);
    hide Logged;
  }

  function OwnerAfter(s: State, t: nat, owner: Owner): Owner
    requires t in s.callers
  {
    if s.callers[t].WaitIdle? && s.svcLock == Idle then Somebody(t)
    else if s.callers[t].Release? then Nobody else owner
  }

  /** A step of a caller changes no other caller, and its own part in the slot as the owner says. */
  lemma OwnStep(s: State, t: nat, owner: Owner)
    requires t in s.callers && !s.callers[t].Outside?
    requires (Owns(s.callers[t]) <==> owner == Somebody(t)) && (owner == Nobody <== s.svcLock == Idle)
    ensures var s' := CallerStep(s, t);
      t in s'.callers && s'.callers == s.callers[t := s'.callers[t]]
      && (Owns(s'.callers[t]) <==> OwnerAfter(s, t, owner) == Somebody(t))
  {}

  lemma IdleIsFree(s: State, owner: Owner)
    requires Inv(s, owner) && s.svcLock == Idle
    ensures owner == Nobody
  {
    hide Numbered, Own, Executed;
  }

  /** Which caller owns the slot, after a step of one of them. */
  lemma OwnersAfter(s: State, t: nat, owner: Owner)
    requires Inv(s, owner) && t in s.callers && !s.callers[t].Outside?
    ensures var s' := CallerStep(s, t);
      s'.callers.Keys == s.callers.Keys
      && forall u :: u in s'.callers ==> (Owns(s'.callers[u]) <==> OwnerAfter(s, t, owner) == Somebody(u))
  {
    hide Numbered, Own, CallerStep, SlotOf;
    if s.svcLock == Idle { IdleIsFree(s, owner); }
    OwnStep(s, t, owner);
    ReleaseIsOwner(s, t, owner);
  }

  lemma ReleaseIsOwner(s: State, t: nat, owner: Owner)
    requires t in s.callers && (Owns(s.callers[t]) <==> owner == Somebody(t))
    ensures s.callers[t].Release? ==> owner == Somebody(t)
    ensures s.callers[t].WaitIdle? ==> owner != Somebody(t)
  {}

  lemma OwnSlot(s: State, t: nat, owner: Owner)
    requires t in s.callers && !s.callers[t].Outside? && SlotIs(s, owner)
    requires Owns(s.callers[t]) <==> owner == Somebody(t)
    requires owner == Nobody || owner == Somebody(t)
    ensures SlotIs(CallerStep(s, t), OwnerAfter(s, t, owner))
  {}

  lemma OtherSlot(s: State, t: nat, owner: Owner)
    requires t in s.callers && !s.callers[t].Outside? && SlotIs(s, owner)
    requires owner.Somebody? && owner.t != t && !Owns(s.callers[t])
    ensures SlotIs(CallerStep(s, t), OwnerAfter(s, t, owner))
  {
    assert CallerStep(s, t).callers[owner.t] == s.callers[owner.t];
  }

  /** What the slot is like after a step of a caller. */
  lemma SlotAfter(s: State, t: nat, owner: Owner)
    requires Inv(s, owner) && t in s.callers && !s.callers[t].Outside?
    ensures SlotIs(CallerStep(s, t), OwnerAfter(s, t, owner))
  {
    hide Numbered, Own, CallerStep, SlotOf, OwnerAfter;
    if owner == Nobody || owner == Somebody(t) {
      OwnSlot(s, t, owner);
    } else {
      OtherSlot(s, t, owner);
    }
  }

  lemma CallerNumbered(s: State, t: nat)
    requires Numbered(s) && Own(s.done, s.issued) && t in s.callers && !s.callers[t].Outside?
    ensures Numbered(CallerStep(s, t)) && Own(CallerStep(s, t).done, CallerStep(s, t).issued)
  {
    var s', pc := CallerStep(s, t), s.callers[t];
    hide Numbered, Own, Logged;
    match pc
    case Release(id, status) => ReleaseNumbered(s, t, id, status, s');
    case Leave(_, _) => OutNumbered(s, t, s');
    case WaitIdle(_) => if s.svcLock == Idle { OnwardNumbered(s, t, s'); }
    case WaitDone(_) => if s.svcLock == Done { OnwardNumbered(s, t, s'); }
    case _ => OnwardNumbered(s, t, s');
  }

  /** Every step of a caller keeps the invariant. */
  lemma CallerKeeps(s: State, t: nat, owner: Owner)
    requires Inv(s, owner) && t in s.callers && !s.callers[t].Outside?
    ensures Inv(CallerStep(s, t), OwnerAfter(s, t, owner))
  {
    OwnersAfter(s, t, owner);
    SlotAfter(s, t, owner);
    CallerNumbered(s, t);
    hide CallerStep, SlotOf, Numbered, Own, Executed, OwnerAfter;
  }

  /** Every step of the worker keeps the invariant. */
  lemma WorkerKeeps(s: State, status: int, owner: Owner)
    requires Inv(s, owner)
    ensures Inv(WorkerStep(s, status), owner)
  {
    var s' := WorkerStep(s, status);
    assert Numbered(s') by { hide Logged; }
    hide Numbered, Own;
    if owner.Somebody? {
      assert s.worker != Poll || s.svcLock == Start ==> s.callers[owner.t].WaitDone?;
    }
  }

  /** The invariant holds at the end of every run. */
  lemma {:induction false} RunKeeps(states: seq<State>) returns (owner: Owner)
    requires Run(states)
    ensures Inv(states[|states| - 1], owner)
  {
    var n := |states|;
    if n == 1 {
      InitialHolds(states[0]);
      return Nobody;
    }
    owner := RunKeeps(states[..n - 1]);
    var s, s' := states[n - 2], states[n - 1];
    assert states[..n - 1][n - 2] == s;
    owner := NextKeeps(s, s', owner);
  }

  lemma NextKeeps(s: State, s': State, owner: Owner) returns (owner': Owner)
    requires Inv(s, owner) && Next(s, s')
    ensures Inv(s', owner')
  {
    hide Inv, CallerStep, WorkerStep, OwnerAfter;
    if t :| Begins(s, t, s') {
      BeginKeeps(s, t, s', owner);
      owner' := owner;
    } else if t :| t in s.callers && !s.callers[t].Outside? && s' == CallerStep(s, t) {
      CallerKeeps(s, t, owner);
      owner' := OwnerAfter(s, t, owner);
    } else {
      var status: int :| s' == WorkerStep(s, status);
      WorkerKeeps(s, status, owner);
      owner' := owner;
    }
  }

  // ----- what callers may rely on -----

  /** At most one caller is between taking the slot and giving it back. */
  lemma {:induction false} OneOwner(states: seq<State>, t: nat, u: nat)
    requires Run(states)
    requires var c := states[|states| - 1].callers; t in c && u in c && Owns(c[t]) && Owns(c[u])
    ensures t == u
  {
    var owner := RunKeeps(states);
  }

  /** The worker never runs without a request, and while it does, the slot holds the request and the reply
      buffer of the one caller that waits for it. */
  lemma {:induction false} WorkerServesOwner(states: seq<State>)
    requires Run(states) && states[|states| - 1].worker != Poll
    ensures var s := states[|states| - 1];
      exists t :: t in s.callers && s.callers[t].WaitDone? && s.svcReq == Of(s.callers[t].id) == s.svcRpl
  {
    var owner := RunKeeps(states);
  }

  /** After the first call the slot points to no buffer of a caller while it is free: what a caller has put there it
      has taken out again. */
  lemma {:induction false} FreeSlotIsEmpty(states: seq<State>)
    requires Run(states) && states[|states| - 1].svcLock == Idle && states[|states| - 1].done != []
    ensures states[|states| - 1].svcReq == Null && states[|states| - 1].svcRpl == Null
  {
    var owner := RunKeeps(states);
    IdleIsFree(states[|states| - 1], owner);
  }

  /** No request is executed twice, and each one fills the reply buffer of its own call. */
  lemma {:induction false} ExecutedOnce(states: seq<State>)
    requires Run(states)
    ensures Own(states[|states| - 1].log, states[|states| - 1].issued)
  {
    var owner := RunKeeps(states);
    var s := states[|states| - 1];
    if s.log != s.done {
      var pc := s.callers[owner.t];
      assert !Logged(s.done, pc.id);
    }
  }

  /** A caller that returns got the status the server gave to its own request, executed exactly once. */
  lemma {:induction false} OwnStatus(states: seq<State>, t: nat)
    requires Run(states)
    requires var c := states[|states| - 1].callers; t in c && c[t].Leave?
    ensures var s := states[|states| - 1];
      var mine := Entry(Of(s.callers[t].id), Of(s.callers[t].id), s.callers[t].status);
      exists i :: 0 <= i < |s.log| && s.log[i] == mine
        && forall j :: 0 <= j < |s.log| && j != i ==> s.log[j].req != mine.req
  {
    var owner := RunKeeps(states);
    ExecutedOnce(states);
    var s := states[|states| - 1];
    var mine := Entry(Of(s.callers[t].id), Of(s.callers[t].id), s.callers[t].status);
    assert s.done <= s.log;
    var i :| 0 <= i < |s.done| && s.done[i] == mine;
    assert s.log[i] == mine;
  }

  /** The slot is never stuck: whenever some caller is in a call, the caller that owns the slot or else the
      worker or else every caller that waits for the slot can take a step that changes the state. */
  lemma {:induction false} NeverStuck(states: seq<State>, t: nat)
    requires Run(states)
    requires var c := states[|states| - 1].callers; t in c && !c[t].Outside?
    ensures var s := states[|states| - 1];
      || (exists u :: u in s.callers && !s.callers[u].Outside? && !s.callers[u].Leave? && CallerStep(s, u) != s)
      || (forall status: int :: WorkerStep(s, status) != s)
      || s.callers[t].Leave?
  {
    var owner := RunKeeps(states);
    var s := states[|states| - 1];
    var u := if owner.Somebody? then owner.t else t;
    hide Numbered, Own;
    if CallerStep(s, u) == s && !s.callers[t].Leave? {
      assert s.callers[u].WaitDone?;
    }
  }
}
