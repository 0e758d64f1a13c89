/** The reader/writer lock of lock.c: any number of threads, each reading the lock word and then trying a
    compare-exchange on it, in any order. */
module LockProtocol {
  /** LOCK_EXCLUSIVE: the highest bit of the 32-bit word. */
  const EXCLUSIVE: nat := 0x8000_0000

  const WORDS: nat := 0x1_0000_0000

  /** `w & ~LOCK_EXCLUSIVE` */
  function Count(w: nat): nat { w % EXCLUSIVE }

  /** `w & LOCK_EXCLUSIVE` */
  function Bit(w: nat): nat { if (w / EXCLUSIVE) % 2 == 1 then EXCLUSIVE else 0 }

  /** `LOCK_EXCLUSIVE | w` */
  function WithBit(w: nat): nat { if Bit(w) == 0 then w + EXCLUSIVE else w }

  /** Where a thread is. A `Cas` state carries the value the thread read and will compare with. */
  datatype Pc =
    | Outside
    | ShareRead
    | ShareCas(seen: nat)
    | Sharing
    | ClaimRead
    | ClaimCas(seen: nat)
    | Claimed                               // waits for the sharers to leave
    | Alone
    | LeaveRead(exclusive: bool)
    | LeaveCas(seen: nat, exclusive: bool)

  /** The threads that the count in the word stands for. */
  predicate Holding(pc: Pc) {
    pc.Sharing? || pc.Claimed? || pc.Alone? || pc.LeaveRead? || pc.LeaveCas?
  }

  /** The thread that set the exclusive bit. */
  predicate Owning(pc: Pc) {
    pc.Claimed? || pc.Alone? || (pc.LeaveRead? && pc.exclusive) || (pc.LeaveCas? && pc.exclusive)
  }

  /** The thread that has the lock for itself. */
  predicate Exclusive(pc: Pc) { Owning(pc) && !pc.Claimed? }

  predicate Waiting(pc: Pc) { pc.ShareRead? || pc.ShareCas? || pc.ClaimRead? || pc.ClaimCas? }

  datatype State = State(word: nat, pcs: map<nat, Pc>)

  function Holders(pcs: map<nat, Pc>): set<nat> { set t | t in pcs && Holding(pcs[t]) }

  /** lock.c:126-135 */
  function AfterLeaving(seen: nat): nat {
    var n := (Count(seen) - 1) % WORDS;
    if seen == WithBit(1) then 0 else if Bit(seen) == 0 then n else WithBit(n)
  }

  /** What thread `t` does next: the place it goes to and the word it leaves. */
  predicate Moves(word: nat, pc: Pc, word': nat, pc': Pc) {
    match pc
    case Outside => word' == word && (pc' == ShareRead || pc' == ClaimRead)
    // lock.c:103-113
    case ShareRead => word' == word && pc' == ShareCas(Count(word))
    case ShareCas(seen) =>
      if word == seen then word' == (seen + 1) % WORDS && pc' == Sharing
      else word' == word && pc' == ShareRead
    case Sharing => word' == word && pc' == LeaveRead(false)
    // lock.c:71-80
    case ClaimRead => word' == word && pc' == ClaimCas(Count(word))
    case ClaimCas(seen) =>
      if word == seen then word' == WithBit((seen + 1) % WORDS) && pc' == Claimed
      else word' == word && pc' == ClaimRead
    // lock.c:82-90
    case Claimed => word' == word && pc' == if word == WithBit(1) then Alone else Claimed
    case Alone => word' == word && pc' == LeaveRead(true)
    // lock.c:125-141
    case LeaveRead(exclusive) => word' == word && pc' == LeaveCas(word, exclusive)
    case LeaveCas(seen, exclusive) =>
      if word == seen then word' == AfterLeaving(seen) && pc' == Outside
      else word' == word && pc' == LeaveRead(exclusive)
  }

  predicate Step(s: State, t: nat, s': State) {
    t in s.pcs && t in s'.pcs && Moves(s.word, s.pcs[t], s'.word, s'.pcs[t]) && s'.pcs == s.pcs[t := s'.pcs[t]]
  }

  predicate Start(s: State) { s.word == 0 && forall t :: t in s.pcs ==> s.pcs[t] == Outside }

  /** Few enough holders for the count to stay clear of the exclusive bit. */
  predicate Few(s: State) { |Holders(s.pcs)| < EXCLUSIVE - 1 }

  ghost predicate Next(s: State, s': State) { exists t :: Step(s, t, s') }

  /** The states of a run in which the holders stay few. */
  ghost predicate Run(states: seq<State>) {
    && |states| > 0 && Few(states[|states| - 1])
    && if |states| == 1 then Start(states[0])
       else Run(states[..|states| - 1]) && Next(states[|states| - 2], states[|states| - 1])
  }

  /** What a thread compares with to come in never has the exclusive bit. */
  predicate Masked(pc: Pc) { pc.ShareCas? || pc.ClaimCas? ==> pc.seen < EXCLUSIVE }

  ghost predicate Owned(pcs: map<nat, Pc>) { exists t :: t in pcs && Owning(pcs[t]) }

  /** The word is the number of holders, with the exclusive bit exactly when one of them set it; no two
      did; and the one that has the lock for itself is the only holder. */
  ghost predicate Inv(s: State) {
    && s.word == |Holders(s.pcs)| + (if Owned(s.pcs) then EXCLUSIVE else 0)
    && (forall t, u :: t in s.pcs && u in s.pcs && Owning(s.pcs[t]) && Owning(s.pcs[u]) ==> t == u)
    && (forall t :: t in s.pcs && Exclusive(s.pcs[t]) ==> Holders(s.pcs) == {t})
    && (forall t :: t in s.pcs ==> Masked(s.pcs[t]))
  }

  lemma WordParts(n: nat, bit: bool)
    requires n < EXCLUSIVE
    ensures var w := n + if bit then EXCLUSIVE else 0;
      Count(w) == n && Bit(w) == (if bit then EXCLUSIVE else 0) && w < WORDS
    ensures WithBit(n) == n + EXCLUSIVE
  {}

  lemma HoldersAfter(pcs: map<nat, Pc>, t: nat, pc: Pc)
    requires t in pcs
    ensures Holders(pcs[t := pc]) == if Holding(pc) then Holders(pcs) + {t} else Holders(pcs) - {t}
  {
    var pcs' := pcs[t := pc];
    assert forall u :: u in pcs' <==> u in pcs;
  }

  lemma InHolders(s: State, t: nat)
    requires t in s.pcs
    ensures t in Holders(s.pcs) <==> Holding(s.pcs[t])
  {}

  lemma StartHolds(s: State)
    requires Start(s)
    ensures Inv(s)
  {
    assert Holders(s.pcs) == {};
  }

  /** The words that lock.c compares with and writes, in terms of the count and the bit. */
  lemma Words(n: nat, bit: bool)
    requires n < EXCLUSIVE - 1
    ensures var w := n + if bit then EXCLUSIVE else 0;
      (w == Count(w) <==> !bit) && (w + 1) % WORDS == n + 1 + (if bit then EXCLUSIVE else 0)
    ensures var w := n + if bit then EXCLUSIVE else 0;
      (w == WithBit(1) <==> n == 1 && bit)
      && (n > 0 ==> AfterLeaving(w) == if n == 1 then 0 else n - 1 + if bit then EXCLUSIVE else 0)
    ensures WithBit((n + 1) % WORDS) == n + 1 + EXCLUSIVE
  {
    WordParts(n, bit);
    if n > 0 { WordParts(n - 1, bit); }
    WordParts(n + 1, bit);
    WordParts(1, true);
  }

  lemma OwnedAfter(pcs: map<nat, Pc>, t: nat, pc: Pc)
    requires t in pcs && Owning(pcs[t]) == Owning(pc)
    ensures Owned(pcs[t := pc]) <==> Owned(pcs)
  {
    var pcs' := pcs[t := pc];
    assert forall u :: u in pcs ==> Owning(pcs'[u]) == Owning(pcs[u]);
    if Owned(pcs) {
      var u :| u in pcs && Owning(pcs[u]);
      assert u in pcs' && Owning(pcs'[u]);
    }
  }

  /** Steps that leave the word and the thread's part in it alone. */
  lemma QuietStep(s: State, t: nat, s': State)
    requires Inv(s) && Step(s, t, s') && s'.word == s.word
    requires var pc, pc' := s.pcs[t], s'.pcs[t];
      Holding(pc) == Holding(pc') && Owning(pc) == Owning(pc') && (Exclusive(pc') ==> Exclusive(pc)) && Masked(pc')
    ensures Inv(s')
  {
    hide Holders, Owned, Moves;
    var pc' := s'.pcs[t];
    HoldersAfter(s.pcs, t, pc');
    InHolders(s, t);
    assert Holders(s'.pcs) == Holders(s.pcs);
    OwnedAfter(s.pcs, t, pc');
    forall u | u in s'.pcs
      ensures Owning(s'.pcs[u]) == Owning(s.pcs[u]) && Masked(s'.pcs[u])
      ensures Exclusive(s'.pcs[u]) ==> Exclusive(s.pcs[u])
    {
      assert s'.pcs[u] == if u == t then pc' else s.pcs[u];
    }
    hide Owning, Exclusive, Masked;
  }

  /** A sharer comes in. */
  lemma ShareStep(s: State, t: nat, s': State)
    requires Inv(s) && Few(s) && Step(s, t, s') && s.pcs[t].ShareCas? && s'.pcs[t].Sharing?
    requires s.word == s.pcs[t].seen < EXCLUSIVE
    ensures Inv(s')
  {
    hide AfterLeaving, Count, WithBit, Bit, Holders, Moves;
    EntryWords(s, t, s');
    InHolders(s, t);
    HoldersAfter(s.pcs, t, s'.pcs[t]);
    assert forall u :: u in s.pcs ==> Owning(s.pcs[u]) == Owning(s'.pcs[u]);
    assert !Owned(s.pcs);
  }

  /** The word that a compare-exchange at the entry finds and leaves. */
  lemma EntryWords(s: State, t: nat, s': State)
    requires Inv(s) && Few(s) && Step(s, t, s') && s.word < EXCLUSIVE
    requires if s.pcs[t].ShareCas? then s.word == s.pcs[t].seen else s.pcs[t].ClaimCas? && s.word == s.pcs[t].seen
    ensures !Owned(s.pcs) && s.word == |Holders(s.pcs)|
    ensures s'.word == s.word + 1 + if s.pcs[t].ShareCas? then 0 else EXCLUSIVE
  {
    Words(|Holders(s.pcs)|, Owned(s.pcs));
    hide Holders, Owned;
  }

  /** A writer sets the exclusive bit. */
  lemma ClaimStep(s: State, t: nat, s': State)
    requires Inv(s) && Few(s) && Step(s, t, s') && s.pcs[t].ClaimCas? && s'.pcs[t].Claimed?
    requires s.word == s.pcs[t].seen < EXCLUSIVE
    ensures Inv(s')
  {
    hide AfterLeaving, Count, WithBit, Bit, Holders, Moves;
    EntryWords(s, t, s');
    InHolders(s, t);
    HoldersAfter(s.pcs, t, s'.pcs[t]);
    assert Owning(s'.pcs[t]);
    assert forall u :: u in s.pcs && u != t ==> s'.pcs[u] == s.pcs[u];
  }

  lemma Singleton(s: set<nat>, t: nat)
    requires |s| == 1 && t in s
    ensures s == {t}
  {
    var rest := s - {t};
    assert |rest| == 0;
  }

  /** The writer finds that the sharers have left. */
  lemma AloneStep(s: State, t: nat, s': State)
    requires Inv(s) && Few(s) && Step(s, t, s') && s.pcs[t].Claimed? && s'.pcs[t].Alone?
    ensures Inv(s')
  {
    Words(|Holders(s.pcs)|, Owned(s.pcs));
    HoldersAfter(s.pcs, t, s'.pcs[t]);
    Singleton(Holders(s.pcs), t);
    assert Holders(s'.pcs) == {t};
    assert Owning(s'.pcs[t]) && Owning(s.pcs[t]);
    assert forall u :: u in s.pcs && u != t ==> s'.pcs[u] == s.pcs[u];
  }

  /** A holder leaves. */
  lemma LeaveStep(s: State, t: nat, s': State)
    requires Inv(s) && Few(s) && Step(s, t, s') && s.pcs[t].LeaveCas? && s'.pcs[t].Outside?
    ensures Inv(s')
  {
    var h := Holders(s.pcs);
    assert t in h;
    Words(|h|, Owned(s.pcs));
    HoldersAfter(s.pcs, t, s'.pcs[t]);
    assert forall u :: u in s.pcs && u != t ==> s'.pcs[u] == s.pcs[u];
    if s.pcs[t].exclusive {
      assert Owning(s.pcs[t]);
      assert !Owned(s'.pcs);
    } else {
      if Owned(s.pcs) { AnotherHolder(s, t); }
      assert Owned(s.pcs) ==> Owned(s'.pcs);
    }
  }

  /** If a sharer is among the holders while the exclusive bit is set, there are two holders at least. */
  lemma AnotherHolder(s: State, t: nat)
    requires Inv(s) && t in s.pcs && Holding(s.pcs[t]) && !Owning(s.pcs[t]) && Owned(s.pcs)
    ensures |Holders(s.pcs)| > 1
  {
    var u :| u in s.pcs && Owning(s.pcs[u]);
    assert {t, u} <= Holders(s.pcs);
    if |Holders(s.pcs)| <= 1 { Singleton(Holders(s.pcs), t); }
  }

  /** Every step of every thread keeps the invariant. */
  lemma StepKeeps(s: State, t: nat, s': State)
    requires Inv(s) && Few(s) && Step(s, t, s')
    ensures Inv(s')
  {
    assert Masked(s.pcs[t]);
    assert Count(s.word) < EXCLUSIVE;
    hide Inv, Few, AfterLeaving, Count, WithBit;
    match s.pcs[t]
    case ShareCas(seen) =>
      if s.word == seen { ShareStep(s, t, s'); } else { QuietStep(s, t, s'); }
    case ClaimCas(seen) =>
      if s.word == seen { ClaimStep(s, t, s'); } else { QuietStep(s, t, s'); }
    case Claimed =>
      if s'.pcs[t].Alone? { AloneStep(s, t, s'); } else { QuietStep(s, t, s'); }
    case LeaveCas(seen, exclusive) =>
      if s.word == seen { LeaveStep(s, t, s'); } else { QuietStep(s, t, s'); }
    case _ => QuietStep(s, t, s');
  }
}
