/** What a search of the pool for free cells finds, and what it leaves behind (pool.c:844-877). Pages are told by
    their addresses. */
module PoolSearch {
  import opened PoolPage

  /** FULL_PAGE_THRESHOLD */
  const THRESHOLD: nat := 4

  /** The blocks in use, by the address of their page. */
  type Blocks = map<nat, seq<Block>>

  /** What a search for cells can tell of the pages: their blocks, the free cells they count, and where their
      lowest run of enough free cells starts, or -1. */
  datatype View = View(live: Blocks, counts: map<nat, nat>, runs: map<nat, int>)

  /** The page is searched, counts enough free cells, and has them in a row. */
  predicate HasRoom(view: View, a: nat, size: nat) {
    && a in view.counts && view.counts[a] >= THRESHOLD && view.counts[a] >= size
    && a in view.runs && view.runs[a] >= 0
  }

  lemma ShortHasNoRoom(view: View, a: nat, size: nat)
    requires a in view.counts && view.counts[a] < size
    ensures !HasRoom(view, a, size)
  {}

  lemma RunlessHasNoRoom(view: View, a: nat, size: nat)
    requires a in view.runs && view.runs[a] < 0
    ensures !HasRoom(view, a, size)
  {}

  ghost predicate NoRoom(view: View, size: nat) { forall a :: a in view.counts ==> !HasRoom(view, a, size) }

  /** What a page that was passed over counts: without a run of `size` free cells at most one less. */
  function Counted(count: nat, size: nat): nat
    requires size > 0
  {
    if count < size || count < THRESHOLD then count else size - 1
  }

  /** What the pages count after the first `k` on the list were passed over. */
  function After(was: View, size: nat, listed: seq<nat>, k: nat): map<nat, nat>
    requires size > 0 && k <= |listed|
  {
    map a | a in was.counts :: if a in listed[..k] then Counted(was.counts[a], size) else was.counts[a]
  }

  /** The first `k` pages on the list were passed over for cause. */
  ghost predicate Passed(now: View, was: View, size: nat, listed: seq<nat>, k: nat)
    requires size > 0
  {
    && k <= |listed| && now.live == was.live && now.runs == was.runs && now.counts == After(was, size, listed, k)
    && forall j :: 0 <= j < k ==> !HasRoom(was, listed[j], size)
  }

  /** Only the page has changed what it counts. */
  ghost predicate Lowered(now: View, was: View, page: nat, size: nat)
    requires size > 0
  {
    && now.live == was.live && now.runs == was.runs
    && page in was.counts && now.counts == was.counts[page := Counted(was.counts[page], size)]
  }

  lemma LoweredIs(now: View, was: View, page: nat, size: nat)
    requires size > 0 && page in was.counts && now.counts.Keys == was.counts.Keys && now.runs.Keys == was.runs.Keys
    requires now.live == was.live && now.counts[page] == Counted(was.counts[page], size)
    requires forall a :: a in was.counts && a != page ==> now.counts[a] == was.counts[a]
    requires forall a :: a in was.runs ==> now.runs[a] == was.runs[a]
    ensures Lowered(now, was, page, size)
  {
    assert now.counts == was.counts[page := Counted(was.counts[page], size)];
    assert now.runs == was.runs;
  }

  lemma MoreCounts(now: map<nat, nat>, was: map<nat, nat>, at: nat, cells: nat)
    requires now.Keys == was.Keys + {at} && at !in was && now[at] == cells && forall a :: a in was ==> now[a] == was[a]
    ensures now == was[at := cells]
  {}

  /** The page has given `size` cells, and counts so many less. */
  function Less(counts: map<nat, nat>, page: nat, size: nat): map<nat, nat>
    requires page in counts && counts[page] >= size
  {
    counts[page := counts[page] - size]
  }

  lemma PassedNone(was: View, size: nat, listed: seq<nat>)
    requires size > 0
    ensures Passed(was, was, size, listed, 0)
  {
    assert After(was, size, listed, 0) == was.counts;
  }

  lemma PassedOn(now: View, before: View, was: View, size: nat, listed: seq<nat>, k: nat)
    requires size > 0 && Passed(before, was, size, listed, k) && k < |listed| && listed[k] !in listed[..k]
    requires Lowered(now, before, listed[k], size) && !HasRoom(before, listed[k], size)
    ensures Passed(now, was, size, listed, k + 1)
  {
    assert listed[..k + 1] == listed[..k] + [listed[k]];
    assert before.counts[listed[k]] == was.counts[listed[k]];
    assert now.counts == After(was, size, listed, k + 1);
  }

  /** The search finds the first page on the list that has room, and passes over the others before it. */
  ghost predicate FoundAt(was: View, size: nat, listed: seq<nat>, k: nat) {
    k < |listed| && HasRoom(was, listed[k], size) && forall j :: 0 <= j < k ==> !HasRoom(was, listed[j], size)
  }

  /** Where a request for `size` cells is served: from cell `index` of page `base`, when the pages count `now`. If a
      page on the list has room, it is the first such page and the start of its lowest run. Only if none has, it is
      the first cell of a page from the system. */
  ghost predicate Chosen(was: View, size: nat, listed: seq<nat>, at: nat, cells: nat, now: map<nat, nat>, base: nat,
      index: int)
    requires size > 0
  {
    if NoRoom(was, size) then
      base == at && index == 0 && at != 0 && at !in was.counts && now == After(was, size, listed, |listed|)[at := cells]
    else
      exists k: nat :: FoundAt(was, size, listed, k) && base == listed[k] && index == was.runs[base]
                       && now == After(was, size, listed, k)
  }

  /** The same once the page counts `size` cells less. */
  ghost predicate Served(was: View, size: nat, listed: seq<nat>, at: nat, cells: nat, now: map<nat, nat>, base: nat,
      index: int)
    requires size > 0
  {
    if NoRoom(was, size) then
      base == at && index == 0 && at != 0 && at !in was.counts && cells >= size
      && now == After(was, size, listed, |listed|)[at := cells - size]
    else
      exists k: nat :: FoundAt(was, size, listed, k) && base == listed[k] && index == was.runs[base]
                       && now == After(was, size, listed, k)[base := was.counts[base] - size]
  }

  lemma ChosenServed(was: View, size: nat, listed: seq<nat>, at: nat, cells: nat, before: map<nat, nat>, base: nat,
      index: int)
    requires size > 0 && Chosen(was, size, listed, at, cells, before, base, index)
    requires base in before && before[base] >= size
    ensures Served(was, size, listed, at, cells, Less(before, base, size), base, index)
  {
    if !NoRoom(was, size) {
      var k: nat :| FoundAt(was, size, listed, k) && base == listed[k] && before == After(was, size, listed, k);
      assert base !in listed[..k];
      assert before[base] == was.counts[base];
    }
  }

  /** Every page that counts enough cells to be searched is on the list. */
  ghost predicate AllListed(was: View, listed: seq<nat>) {
    forall a :: a in was.counts ==> a in listed || was.counts[a] < THRESHOLD
  }

  lemma NoneFound(now: View, was: View, size: nat, listed: seq<nat>)
    requires size > 0 && Passed(now, was, size, listed, |listed|) && AllListed(was, listed)
    ensures NoRoom(was, size)
  {
    forall a | a in was.counts
      ensures !HasRoom(was, a, size)
    {
      if a in listed { var j :| 0 <= j < |listed| && listed[j] == a; }
    }
  }

  lemma OneFound(now: View, was: View, size: nat, listed: seq<nat>, k: nat, at: nat, cells: nat, index: int)
    requires size > 0 && Passed(now, was, size, listed, k) && k < |listed| && listed[k] !in listed[..k]
    requires HasRoom(now, listed[k], size) && index == now.runs[listed[k]]
    ensures !NoRoom(was, size) && Chosen(was, size, listed, at, cells, now.counts, listed[k], index)
  {
    assert FoundAt(was, size, listed, k);
  }


  lemma NewChosen(now: View, was: View, size: nat, listed: seq<nat>, at: nat, cells: nat)
    requires size > 0 && Passed(now, was, size, listed, |listed|) && NoRoom(was, size)
    requires at != 0 && at !in was.counts
    ensures Chosen(was, size, listed, at, cells, now.counts[at := cells], at, 0)
  {}

  lemma PassedKeeps(now: View, was: View, size: nat, listed: seq<nat>, k: nat)
    requires size > 0 && Passed(now, was, size, listed, k)
    ensures now.live == was.live && k <= |listed| && now.counts == After(was, size, listed, k)
  {}
}
