/** The pool: pages that are searched, pages that are nearly full, and large chunks. */
module PoolHeap {
  import opened Arith
  import opened Lists
  import opened PoolLayout
  import opened PoolPage
  import opened PoolSearch

  /** A large chunk: `size` bytes from the system at `ptr`, with the LARGE_CHUNK structure at its end. */
  datatype Chunk = Chunk(ptr: nat, size: nat)

  ghost predicate Overlap(a: nat, n: nat, b: nat, m: nat) { a < b + m && b < a + n }

  /** A chunk is page-aligned and has room for its LARGE_CHUNK structure. */
  predicate Fits(config: Config, c: Chunk) {
    config.pageSize > 0 && c.ptr % config.pageSize == 0 && 0 < config.ChunkHeader() < c.size
  }

  /** Pages and large chunks share no memory. */
  ghost predicate Chunked(config: Config, chunks: seq<Chunk>, pages: set<nat>) {
    && (forall c :: c in chunks ==> Fits(config, c))
    && (forall i, j :: 0 <= i < j < |chunks| ==> !Overlap(chunks[i].ptr, chunks[i].size, chunks[j].ptr, chunks[j].size))
    && (forall c, a :: c in chunks && a in pages ==> !Overlap(c.ptr, c.size, a, config.pageSize))
  }

  /** Where the LARGE_CHUNK structure is. */
  function HeaderOf(config: Config, c: Chunk): int { c.ptr + c.size - config.ChunkHeader() }

  /** List_Remove of the structure at `header`. */
  function UnlinkHeader(config: Config, chunks: seq<Chunk>, header: int): seq<Chunk> {
    if chunks == [] then []
    else if HeaderOf(config, chunks[0]) == header then chunks[1..]
    else [chunks[0]] + UnlinkHeader(config, chunks[1..], header)
  }

  lemma {:induction false} UnlinkHeaderAt(config: Config, chunks: seq<Chunk>, i: nat)
    requires i < |chunks| && forall j :: 0 <= j < i ==> HeaderOf(config, chunks[j]) != HeaderOf(config, chunks[i])
    ensures UnlinkHeader(config, chunks, HeaderOf(config, chunks[i])) == chunks[..i] + chunks[i + 1..]
  {
    if i > 0 {
      UnlinkHeaderAt(config, chunks[1..], i - 1);
      assert chunks[..i] == [chunks[0]] + chunks[1..][..i - 1];
      assert chunks[1..][i..] == chunks[i + 1..];
    }
  }

  /** The header alone tells the chunk, and the others stay apart. */
  lemma HeaderTells(config: Config, chunks: seq<Chunk>, pages: set<nat>, c: Chunk)
    requires Chunked(config, chunks, pages) && c in chunks
    ensures UnlinkHeader(config, chunks, HeaderOf(config, c)) == Unlink(chunks, c)
    ensures Chunked(config, Unlink(chunks, c), pages)
  {
    var i :| 0 <= i < |chunks| && chunks[i] == c;
    forall j, k | 0 <= j < k < |chunks|
      ensures HeaderOf(config, chunks[j]) != HeaderOf(config, chunks[k]) && chunks[j] != chunks[k]
    {
      assert chunks[j] in chunks && chunks[k] in chunks;
      assert !Overlap(chunks[j].ptr, chunks[j].size, chunks[k].ptr, chunks[k].size);
    }
    UnlinkHeaderAt(config, chunks, i);
    UnlinkAt(chunks, i);
    ChunkedWithout(config, chunks, pages, i);
  }

  lemma ChunkedWithout(config: Config, chunks: seq<Chunk>, pages: set<nat>, i: nat)
    requires Chunked(config, chunks, pages) && i < |chunks|
    ensures Chunked(config, chunks[..i] + chunks[i + 1..], pages)
  {
    var rest := chunks[..i] + chunks[i + 1..];
    assert forall j :: 0 <= j < |rest| ==> rest[j] == chunks[if j < i then j else j + 1];
    hide Overlap;
  }

  lemma ChunkedMore(config: Config, chunks: seq<Chunk>, pages: set<nat>, c: Chunk)
    requires Chunked(config, chunks, pages) && Fits(config, c)
    requires forall d :: d in chunks ==> !Overlap(d.ptr, d.size, c.ptr, c.size)
    requires forall a :: a in pages ==> !Overlap(c.ptr, c.size, a, config.pageSize)
    ensures Chunked(config, [c] + chunks, pages)
  {
    forall j, k | 0 <= j < k <= |chunks|
      ensures !Overlap(([c] + chunks)[j].ptr, ([c] + chunks)[j].size, ([c] + chunks)[k].ptr, ([c] + chunks)[k].size)
    {
      if j == 0 { assert ([c] + chunks)[k] in chunks; }
    }
  }

  lemma ChunkedPlus(config: Config, chunks: seq<Chunk>, pages: set<nat>, at: nat)
    requires Chunked(config, chunks, pages)
    requires forall c :: c in chunks ==> !Overlap(c.ptr, c.size, at, config.pageSize)
    ensures Chunked(config, chunks, pages + {at})
  {}

  /** Every page on exactly one list. */
  ghost predicate Linked(memory: map<nat, Page>, pages: seq<Page>, fullPages: seq<Page>) {
    && Distinct(pages) && Distinct(fullPages) && (forall p :: p in pages ==> p !in fullPages)
    && (forall p :: p in pages ==> p.base in memory && memory[p.base] == p)
    && (forall p :: p in fullPages ==> p.base in memory && memory[p.base] == p)
    && (forall a :: a in memory ==> memory[a] in pages || memory[a] in fullPages)
  }

  lemma LinkedPlus(memory: map<nat, Page>, pages: seq<Page>, fullPages: seq<Page>, page: Page)
    requires Linked(memory, pages, fullPages) && page.base !in memory
    ensures Linked(memory[page.base := page], [page] + pages, fullPages)
    ensures forall p :: p in [page] + pages <==> p in pages || p == page
  {
    LinkMembers(pages, page);
  }

  /** From one list to the front of the other. */
  lemma LinkedMove(memory: map<nat, Page>, pages: seq<Page>, fullPages: seq<Page>, page: Page)
    requires Linked(memory, pages, fullPages) && page in pages
    ensures Linked(memory, Unlink(pages, page), [page] + fullPages)
    ensures forall p :: p in Unlink(pages, page) <==> p in pages && p != page
    ensures forall p :: p in [page] + fullPages <==> p in fullPages || p == page
  {
    UnlinkMembers(pages, page);
    assert page !in fullPages;
    LinkMembers(fullPages, page);
    assert Distinct(Unlink(pages, page)) && Distinct([page] + fullPages);
    assert forall p :: p in Unlink(pages, page) ==> p !in [page] + fullPages;
  }

  lemma LinkedTurn(memory: map<nat, Page>, pages: seq<Page>, fullPages: seq<Page>)
    requires Linked(memory, pages, fullPages)
    ensures Linked(memory, fullPages, pages)
  {}

  function BlocksOf(live: Blocks, at: nat): seq<Block> { if at in live then live[at] else [] }

  lemma SameBlocks(live: Blocks, at: nat)
    ensures live[at := BlocksOf(live, at)] == if at in live then live else live[at := []]
  {}

  lemma AddressFacts(config: Config, base: nat, index: nat)
    requires config.Sound() && base % config.pageSize == 0 && index < config.PageCells()
    ensures var ptr := AddressOf(config, base, index);
      PageOf(config, ptr) == base && IndexOf(config, ptr) == index && ptr > 0
  {
    AddressRoundTrip(config, base, index);
    CellsInPage(config, index, 1);
    hide PageOf, IndexOf, Config.Sound, Config.PageCells, Config.CellsAt;
    MulMono(0, index, config.cellSize);
  }

  /** Where the pages are. */
  function Bases(pages: seq<Page>): (s: seq<nat>)
    ensures |s| == |pages| && forall k :: 0 <= k < |s| ==> s[k] == pages[k].base
  {
    seq<nat>(|pages|, i requires 0 <= i < |pages| => pages[i].base)
  }

  /** The state of the pages: what a search can tell, the pages on the list, and all pages. */
  datatype Scene = Scene(view: View, pages: seq<Page>, memory: map<nat, Page>)

  /** Where the pages are, and in which order they are searched: as before, but for a new page in front. Pages may
      have left for full_pages. */
  ghost predicate Grows(was: Scene, now: Scene, at: nat) {
    if now.memory.Keys == was.memory.Keys then now.memory == was.memory && Subsequence(now.pages, was.pages)
    else at in now.memory && now.memory == was.memory[at := now.memory[at]]
         && Subsequence(now.pages, [now.memory[at]] + was.pages)
  }

  /** What a returned block changes: its page counts so many cells more, and comes first on the list when it is
      searched again. */
  ghost predicate Back(was: Scene, now: Scene, base: nat, size: nat) {
    && base in was.view.counts && base in was.memory && now.memory == was.memory
    && now.view.counts == was.view.counts[base := was.view.counts[base] + size]
    && now.pages == Revived(was.pages, was.memory[base], was.view.counts[base], size)
  }

  function Revived(listed: seq<Page>, page: Page, free: nat, size: nat): seq<Page> {
    if free < THRESHOLD <= free + size then [page] + listed else listed
  }

  lemma IsBack(was: Scene, now: Scene, page: Page, size: nat, free: nat)
    requires page.base in was.view.counts && was.view.counts[page.base] == free
    requires page.base in was.memory && was.memory[page.base] == page && now.memory == was.memory
    requires now.view.counts == was.view.counts[page.base := free + size]
    requires now.pages == Revived(was.pages, page, free, size)
    ensures Back(was, now, page.base, size)
  {}

  lemma StillInOrder(was: Scene, found: Scene, now: Scene, at: nat)
    requires Grows(was, found, at) && now.memory == found.memory && Subsequence(now.pages, found.pages)
    ensures Grows(was, now, at)
  {
    hide Subsequence;
    SubsequenceOf(now.pages, found.pages,
                  if now.memory.Keys == was.memory.Keys then was.pages else [now.memory[at]] + was.pages);
  }

  class Pool {
    const config: Config
    var pages: seq<Page>
    var fullPages: seq<Page>
    var chunks: seq<Chunk>
    /** The pages by address: what a cast of the address to PAGE* finds. */
    var memory: map<nat, Page>

    /** pool.c:494-584: a pool with one page, which also holds the POOL structure. */
    constructor (config: Config, at: nat)
      requires config.Sound() && at % config.pageSize == 0
      ensures this.config == config && Valid() && fresh(repr) && chunks == [] && fullPages == []
      ensures memory.Keys == {at} && Live() == map[at := []]
    {
      var page := new Page.First(config, at);
      this.config := config;
      pages, fullPages, chunks, memory := [page], [], [], map[at := page];
      repr := {page, page.bitmap};
      new;
      hide Page.Valid, Page.Covered;
    }

    /** The pages and their bitmaps. */
    ghost var repr: set<object>

    /** Every page in its place. */
    ghost predicate Mapped()
      reads this`memory, this`repr, repr
    {
      && config.Sound() && this !in repr
      && (forall a :: a in memory ==> memory[a] in repr && memory[a].bitmap in repr)
      && (forall a :: a in memory ==> memory[a].base == a && memory[a].config == config)
      && (forall a :: a in memory ==> memory[a].Covered() && memory[a].Valid())
      && (forall a, b :: a in memory && b in memory && a != b ==> memory[a].bitmap != memory[b].bitmap)
    }

    /** A page is on full_pages exactly when it counts fewer than four free cells. */
    ghost predicate Filed(but: set<Page>)
      reads this, repr
    {
      && (forall p :: p in pages && p !in but ==> p in repr && p.numFree >= THRESHOLD)
      && (forall p :: p in fullPages && p !in but ==> p in repr && p.numFree < THRESHOLD)
    }

    ghost predicate Valid()
      reads this, repr
    {
      Mapped() && Linked(memory, pages, fullPages) && Filed({}) && Chunked(config, chunks, memory.Keys)
    }

    /** What the system promises of `n` bytes at `at`: aligned, and not in use by this pool. */
    ghost predicate Unused(at: nat, n: nat)
      reads this`memory, this`chunks
    {
      && config.pageSize > 0 && at % config.pageSize == 0 && at !in memory
      && (forall c :: c in chunks ==> !Overlap(c.ptr, c.size, at, n))
      && (forall a :: a in memory ==> !Overlap(at, n, a, config.pageSize))
    }

    ghost function Live(): Blocks
      requires Mapped()
      reads this`memory, this`repr, repr
    {
      map a | a in memory :: memory[a].live
    }

    ghost function Look(size: nat): View
      requires Mapped()
      reads this`memory, this`repr, repr
    {
      View(Live(), map a | a in memory :: memory[a].numFree, map a | a in memory :: memory[a].FirstRun(size))
    }

    ghost function Now(size: nat): Scene
      requires Mapped()
      reads this`pages, this`memory, this`repr, repr
    {
      Scene(Look(size), pages, memory)
    }

    /** pool.c:871-872, 902-903 */
    method MoveToFull(page: Page)
      requires Linked(memory, pages, fullPages) && Filed({page}) && page in pages && this !in repr
      requires page in repr && page.numFree < THRESHOLD
      modifies this`pages, this`fullPages
      ensures pages == Unlink(old(pages), page) && fullPages == [page] + old(fullPages)
      ensures Linked(memory, pages, fullPages) && Filed({})
    {
      LinkedMove(memory, pages, fullPages, page);
      hide Linked;
      pages := Unlink(pages, page);
      fullPages := [page] + fullPages;
    }

    /** pool.c:869-873, 900-904: to full_pages, if few free cells are left. */
    method Retire(page: Page)
      requires Mapped() && Linked(memory, pages, fullPages) && Filed({page}) && Chunked(config, chunks, memory.Keys)
      requires page in pages && page in repr
      modifies this`pages, this`fullPages
      ensures Valid() && Live() == old(Live())
      ensures forall n: nat :: Look(n) == old(Look(n))
      ensures page.numFree >= THRESHOLD ==> pages == old(pages) && fullPages == old(fullPages)
      ensures page.numFree < THRESHOLD ==> pages == Unlink(old(pages), page) && fullPages == [page] + old(fullPages)
    {
      hide *;
      NotInRepr();
      if page.numFree < THRESHOLD { MoveToFull(page); } else { FiledAll(page); }
      Whole();
    }

    /** pool.c:863 */
    method LowerPage(page: Page, size: nat)
      requires Valid() && page in pages && 0 < size <= page.numFree
      modifies page`numFree
      ensures Mapped() && Filed({page}) && page.numFree == size - 1
    {
      hide Look, Page.FirstRun, Page.NoRun, Page.Valid, Page.Covered, Chunked;
      Listed(page, size);
      hide Linked;
      page.Lower(size);
    }

    /** The page that was lowered is the only one whose count has changed. */
    method LowerSeen(page: Page, size: nat)
      requires Valid() && Mapped() && page in pages && 0 < size <= page.numFree
      modifies page`numFree
      ensures Mapped() && Filed({page}) && page.numFree == size - 1
      ensures Lowered(Look(size), old(Look(size)), page.base, size)
    {
      hide Page.Valid, Page.FirstRun, Page.Covered, Chunked, Linked, Filed, Look, Mapped, Valid, Lowered, Config.Sound;
      Looks(size);
      Listed(page, size);
      ghost var was := Look(size);
      LowerPage(page, size);
      Looks(size);
      LoweredIs(Look(size), was, page.base, size);
    }

    /** pool.c:863-873 */
    method Reduce(page: Page, size: nat)
      requires Valid() && page in pages && 0 < size <= page.numFree
      modifies this`pages, this`fullPages, page`numFree
      ensures Valid() && page.numFree == size - 1 && Lowered(Look(size), old(Look(size)), page.base, size)
      ensures page.numFree >= THRESHOLD ==> pages == old(pages) && fullPages == old(fullPages)
      ensures page.numFree < THRESHOLD ==> pages == Unlink(old(pages), page) && fullPages == [page] + old(fullPages)
    {
      hide *;
      Parts();
      Listed(page, size);
      LowerSeen(page, size);
      Retire(page);
    }

    lemma Listed(p: Page, n: nat)
      requires Valid() && p in pages
      ensures p.base in memory && memory[p.base] == p && memory[p.base] in memory.Values
      ensures p in repr && p.bitmap in repr
      ensures p.config == config && p.Covered() && p.Valid() && p.numFree >= THRESHOLD
      ensures var view := Look(n);
        p.base in view.counts && view.counts[p.base] == p.numFree && p.base in view.runs
        && (view.runs[p.base] == -1 <==> p.NoRun(n)) && view.runs[p.base] == p.FirstRun(n) >= -1
    {
      p.FirstRunIs(0, n);
      hide Page.Valid, Page.Covered, Page.NoRun, Page.FirstRun, Chunked;
    }

    /** What the pages count. */
    ghost predicate Counting(counts: map<nat, nat>)
      requires Mapped()
      reads this`memory, this`repr, repr
    {
      counts.Keys == memory.Keys && forall a :: a in memory ==> counts[a] == memory[a].numFree
    }

    lemma LookCounts(counts: map<nat, nat>, n: nat)
      requires Mapped()
      ensures Counting(counts) <==> counts == Look(n).counts
    {
      hide Page.Valid, Page.Covered, Page.FirstRun, Config.Sound;
    }

    lemma Looks(n: nat)
      requires Mapped()
      ensures Look(n).live == Live() && Live().Keys == Look(n).counts.Keys == Look(n).runs.Keys == memory.Keys
      ensures forall a :: a in memory ==> Look(n).counts[a] == memory[a].numFree && memory[a].Covered()
      ensures forall a :: a in memory ==> Look(n).runs[a] == memory[a].FirstRun(n)
      ensures this !in repr && config.Sound() && forall a :: a in memory ==> memory[a].base == a && memory[a] in repr
    {
      hide Page.Valid, Page.Covered, Page.NoRun, Page.FirstRun;
    }

    /** Pages that are not on the list count too few cells to be searched. */
    lemma ListedAll(n: nat)
      requires Valid()
      ensures AllListed(Look(n), Bases(pages))
    {
      hide Page.Valid, Page.Covered, Page.FirstRun, Chunked;
      var listed := Bases(pages);
      forall a | a in memory
        ensures a in listed || memory[a].numFree < THRESHOLD
      {
        if memory[a] in pages {
          var i :| 0 <= i < |pages| && pages[i] == memory[a];
          assert listed[i] == a;
        }
      }
    }

    /** No two pages on the list have the same address. */
    lemma ListedOnce(k: nat)
      requires Valid() && k < |pages|
      ensures Bases(pages)[k] == pages[k].base && Bases(pages)[k] !in Bases(pages)[..k]
    {
      hide Page.Valid, Page.Covered, Chunked;
      forall j | 0 <= j < k
        ensures pages[j].base != pages[k].base
      {
        assert pages[j] in pages && pages[k] in pages;
        assert memory[pages[j].base] != memory[pages[k].base];
      }
    }

    /** pool.c:863-876: on to the next page, as this one does not have the cells. */
    method Pass(i: nat, size: nat) returns (next: nat)
      requires Valid() && size > 0 && i < |pages|
      modifies this`pages, this`fullPages, memory.Values`numFree
      ensures Valid() && Mapped() && Lowered(Look(size), old(Look(size)), old(pages[i]).base, size)
      ensures next <= |pages| && pages[next..] == old(pages[i + 1..]) && Subsequence(pages, old(pages))
    {
      hide Page.Valid, Page.NoRun, Page.Fits, Page.LowestRun, Page.Covered, Chunked, Look;
      var page := pages[i];
      next := i;
      Listed(page, size);
      SubsequenceSelf(pages);
      if page.numFree >= size {
        UnlinkAt(pages, i);
        UnlinkInOrder(pages, page);
        Reduce(page, size);
      }
      if page.numFree >= THRESHOLD { next := i + 1; }
    }

    /** pool.c:844-877: the first page on the list, among those that count enough free cells, that has
        a run of them; null when there is none among the pages on the list. */
    method Search(size: nat) returns (page: Page?, index: int, ghost k: nat)
      requires Valid() && size > 0
      modifies this`pages, this`fullPages, memory.Values`numFree
      ensures Valid() && Mapped() && Passed(Look(size), old(Look(size)), size, Bases(old(pages)), k)
      ensures Subsequence(pages, old(pages))
      ensures if page == null then k == |old(pages)| else
        page in pages && k < |old(pages)| && page == old(pages)[k] && index >= 0 && page.Fits(index, size)
    {
      hide *;
      Parts();
      ghost var was, listed, before := Look(size), Bases(pages), pages;
      PassedNone(was, size, listed);
      SubsequenceSelf(pages);
      var i := 0;
      page, index, k := null, -1, 0;
      Once();
      OneEach(pages);
      while i < |pages| && page == null
        invariant 0 <= i <= |pages| && Valid() && Mapped() && Passed(Look(size), was, size, listed, k)
        invariant k <= |before| && pages[i..] == before[k..] && Subsequence(pages, before)
        invariant page != null ==> i < |pages| && page == pages[i] && index >= 0 && page.Fits(index, size)
        decreases |pages| - i, page == null
      {
        ghost var now, seen, j := Look(size), pages, i;
        page, index := Visit(i, size);
        assert before[k..][0] == before[k] && pages[i..][0] == pages[i];
        if page == null {
          i := Pass(i, size);
          assert pages[i..] == seen[j + 1..] == seen[j..][1..];
          PassedOn(Look(size), now, was, size, listed, k);
          SubsequenceOf(pages, seen, before);
          k := k + 1;
        }
      }
    }

    lemma OneEach(pages: seq<Page>)
      ensures |Bases(pages)| == |pages| && forall k :: 0 <= k < |pages| ==> Bases(pages)[k] == pages[k].base
      ensures pages[0..] == pages
    {}

    lemma Once()
      requires Valid()
      ensures forall k: nat :: k < |pages| ==> Bases(pages)[k] == pages[k].base && Bases(pages)[k] !in Bases(pages)[..k]
    {
      forall k: nat | k < |pages|
        ensures Bases(pages)[k] == pages[k].base && Bases(pages)[k] !in Bases(pages)[..k]
      {
        ListedOnce(k);
      }
    }

    /** pool.c:851-858: whether the page has the cells. */
    method Visit(i: nat, size: nat) returns (page: Page?, index: int)
      requires Valid() && size > 0 && i < |pages|
      ensures page == null ==> Mapped() && !HasRoom(Look(size), pages[i].base, size)
      ensures page != null ==> page == pages[i] && index >= 0 && page.Fits(index, size)
    {
      hide *;
      Parts();
      Listed(pages[i], size);
      page, index := null, -1;
      if pages[i].numFree >= size {
        index := pages[i].FindCells(size);
        if index != -1 {
          page := pages[i];
          page.ItFits(index, size);
        } else {
          RunlessHasNoRoom(Look(size), pages[i].base, size);
        }
      } else {
        ShortHasNoRoom(Look(size), pages[i].base, size);
      }
    }

    /** pool.c:457-467: a new page from the system. */
    method NewPage(at: nat) returns (page: Page)
      requires Mapped() && at % config.pageSize == 0 && at !in memory
      modifies this`memory, this`repr
      ensures Mapped() && fresh(page) && old(repr) <= repr && fresh(repr - old(repr))
      ensures memory == old(memory)[at := page]
      ensures page.base == at && page.config == config && page.Covered() && page.live == []
      ensures page.numFree == config.PageCells() && Live() == old(Live())[at := []]
      ensures forall a :: a in old(memory) ==> memory[a].numFree == old(memory[a].numFree)
      ensures forall size: nat :: size <= config.PageCells() ==> page.Fits(0, size)
    {
      hide Page.Valid, Page.Fits, Page.LowestRun, Page.Covered;
      page := new Page(config, at);
      page.EmptyRuns();
      memory := memory[at := page];
      repr := repr + {page, page.bitmap};
    }

    /** pool.c:457-469, 885-891: a new page, first on the list. */
    method AddPage(at: nat) returns (page: Page)
      requires Valid() && Unused(at, config.pageSize)
      modifies this
      ensures Valid() && fresh(page) && fresh(repr - old(repr)) && memory == old(memory)[at := page]
      ensures pages == [page] + old(pages) && fullPages == old(fullPages) && chunks == old(chunks)
      ensures page.Covered() && page.config == config && page.base == at && page.numFree == config.PageCells()
      ensures Live() == old(Live())[at := []]
      ensures forall a :: a in old(memory) ==> memory[a].numFree == old(memory[a].numFree)
      ensures forall size: nat :: size <= config.PageCells() ==> page.Fits(0, size)
    {
      hide Page.Valid, Page.Fits, Page.LowestRun, Page.Covered, Linked, Chunked;
      ChunkedPlus(config, chunks, memory.Keys, at);
      page := NewPage(at);
      LinkedPlus(old(memory), pages, fullPages, page);
      assert memory.Keys == old(memory.Keys) + {at};
      pages := [page] + pages;
      assert Filed({});
    }

    /** pool.c:898, 913-927 */
    method Mark(page: Page, index: nat, size: nat, ghost counts: map<nat, nat>)
      requires Mapped() && page.base in memory && memory[page.base] == page && size > 0 && page.Fits(index, size)
      requires page.base in counts && counts[page.base] >= size && Counting(counts) && Filed({page})
      modifies page`numFree, page`live, page.bitmap
      ensures Mapped() && page.base in old(Live()) && Filed({page})
      ensures Live() == old(Live())[page.base := old(Live())[page.base] + [Block(index, size)]]
      ensures Counting(Less(counts, page.base, size))
    {
      hide Page.Valid, Page.LowestRun, Page.Covered;
      page.Take(index, size);
    }

    /** pool.c:898-927 */
    method TakeCells(page: Page, index: nat, size: nat, ghost counts: map<nat, nat>)
      requires Valid() && Mapped() && page in pages && size > 0 && page.Fits(index, size)
      requires page.base in counts && counts[page.base] >= size && Counting(counts)
      modifies this`pages, this`fullPages, page`numFree, page`live, page.bitmap
      ensures Valid() && Mapped() && page.base in old(Live()) && Subsequence(pages, old(pages))
      ensures Live() == old(Live())[page.base := old(Live())[page.base] + [Block(index, size)]]
      ensures Counting(Less(counts, page.base, size))
    {
      hide *;
      Parts();
      Listed(page, size);
      SubsequenceSelf(pages);
      UnlinkInOrder(pages, page);
      FiledBut(page);
      Mark(page, index, size, counts);
      Retire(page);
    }

    /** pool.c:898-931 */
    method Hand(page: Page, index: nat, size: nat, ghost counts: map<nat, nat>) returns (ptr: nat)
      requires Valid() && Mapped() && page in pages && size > 0 && page.Fits(index, size)
      requires page.base in counts && counts[page.base] >= size && Counting(counts)
      modifies this`pages, this`fullPages, page`numFree, page`live, page.bitmap
      ensures Valid() && Mapped() && ptr > 0 && PageOf(config, ptr) == page.base && IndexOf(config, ptr) == index
      ensures IsCell(ptr) && page.base in old(Live()) && Subsequence(pages, old(pages))
      ensures Live() == old(Live())[page.base := old(Live())[page.base] + [Block(index, size)]]
      ensures Counting(Less(counts, page.base, size))
    {
      hide Valid, Mapped, Live, Counting, Look, Subsequence, Page.Valid, Page.Covered, Page.NoRun, Page.FirstRun;
      Listed(page, size);
      page.InPage(index, size);
      AddressFacts(config, page.base, index);
      assert IsCell(AddressOf(config, page.base, index));
      hide Page.Fits, Config.Sound, AddressOf, PageOf, IndexOf, IsCell;
      ptr := AddressOf(config, page.base, index);
      TakeCells(page, index, size, counts);
    }

    /** pool.c:883-892: a new page is empty. */
    method Extend(size: nat, at: nat) returns (page: Page)
      requires Valid() && 0 < size <= config.PageCells() && Unused(at, config.pageSize)
      modifies this
      ensures Valid() && Mapped() && fresh(repr - old(repr)) && chunks == old(chunks)
      ensures page in pages && page.base == at && page.Fits(0, size) && at !in old(Live())
      ensures memory == old(memory)[at := page] && pages == [page] + old(pages)
      ensures Live() == old(Live())[at := []]
      ensures Look(size).counts == old(Look(size)).counts[at := config.PageCells()]
    {
      hide *;
      Parts();
      Looks(size);
      NotUsed(at);
      ghost var was, cells := Look(size).counts, config.PageCells();
      page := AddPage(at);
      Parts();
      Looks(size);
      MoreCounts(Look(size).counts, was, at, cells);
    }

    lemma NotUsed(at: nat)
      requires Unused(at, config.pageSize)
      ensures at !in memory
    {}

    /** pool.c:844-892: a page with room, from the list or else from the system. */
    method FindPage(size: nat, at: nat, ghost was: Scene) returns (page: Page?, index: int)
      requires Valid() && 0 < size <= config.PageCells() && was == Now(size)
      requires at != 0 ==> Unused(at, config.pageSize)
      modifies this, repr
      ensures Valid() && fresh(repr - old(repr)) && chunks == old(chunks) && Grows(was, Now(size), at)
      ensures page == null ==> FirstFit(was, Now(size), size, at, 0)
      ensures page != null ==> page in pages && page in repr && page.bitmap in repr && index >= 0
      ensures page != null ==> page.Fits(index, size)
      ensures page != null ==> Live() == was.view.live[page.base := BlocksOf(was.view.live, page.base)]
      ensures page != null ==>
        Chosen(was.view, size, Bases(was.pages), at, config.PageCells(), Look(size).counts, page.base, index)
    {
      hide Page.Valid, Page.Fits, Page.Covered, Page.NoRun, Valid, Live, Look, Unused, Mapped, Passed;
      hide NoRoom, BlocksOf, AllListed, Subsequence, Chosen, HasRoom, After, Config.Sound, FirstFit;
      Parts();
      Looks(size);
      ghost var cells, listed := config.PageCells(), Bases(pages);
      ListedAll(size);
      Once();
      ghost var k;
      page, index, k := Search(size);
      Looks(size);
      ghost var now, found := Look(size), pages;
      PassedKeeps(now, was.view, size, listed, k);
      if page != null {
        RoomAt(page, index, size);
        Listed(page, size);
        SameBlocks(now.live, page.base);
        OneFound(now, was.view, size, listed, k, at, cells, index);
      } else {
        NoneFound(now, was.view, size, listed);
        if at != 0 {
          var more := Extend(size, at);
          page, index := more, 0;
          Listed(more, size);
          SameBlocks(now.live, at);
          SubsequenceFront(more, found, was.pages);
          NewChosen(now, was.view, size, listed, at, cells);
        } else {
          NoFit(was, Now(size), size);
        }
      }
    }

    /** A page that has the cells has room in what a search can tell. */
    lemma RoomAt(page: Page, index: nat, size: nat)
      requires Valid() && Mapped() && page in pages && size > 0 && page.Fits(index, size)
      ensures page.base in Live() && HasRoom(Look(size), page.base, size) && Look(size).runs[page.base] == index
      ensures page.base in Look(size).counts && Look(size).counts[page.base] >= size
    {
      Listed(page, size);
      page.FirstRunIs(index, size);
      hide Page.Valid, Page.Covered, Page.NoRun, Page.FirstRun, Page.LowestRun, Chunked, Linked, Filed, Look, Mapped;
    }

    /** A cell of some page starts at `ptr`. */
    ghost predicate IsCell(ptr: nat) {
      && config.Sound() && IndexOf(config, ptr) >= 0
      && ptr == AddressOf(config, PageOf(config, ptr), IndexOf(config, ptr))
    }

    /** A block of `cells` cells at `ptr` is in use. */
    ghost predicate Holds(live: Blocks, ptr: nat, cells: nat) {
      && IsCell(ptr) && PageOf(config, ptr) in live
      && Block(IndexOf(config, ptr), cells) in live[PageOf(config, ptr)]
    }

    /** pool.c:827-944: from the first page on the list that has the cells, or else from a new page. */
    method GetCells(size: nat, at: nat) returns (ptr: nat)
      requires Valid() && 0 < size <= config.PageCells()
      requires at != 0 ==> Unused(at, config.pageSize)
      modifies this, repr
      ensures Valid() && fresh(repr - old(repr)) && chunks == old(chunks)
      ensures if ptr == 0 then Live() == old(Live()) else IsCell(ptr) && Live() == Handed(old(Live()), ptr, size)
      ensures (ptr == 0 ==> at == 0) && FirstFit(old(Now(size)), Now(size), size, at, ptr)
    {
      hide Page.Valid, Look, Live, Now, Mapped, Valid, Grows, Served, NoRoom, After, IsCell, Handed, Config.Sound;
      hide Unused;
      Parts();
      Looks(size);
      NowIs(size);
      ghost var was := Now(size);
      ptr := CellsFrom(size, at, was);
      Parts();
      NowIs(size);
      Looks(size);
    }

    method CellsFrom(size: nat, at: nat, ghost was: Scene) returns (ptr: nat)
      requires Valid() && 0 < size <= config.PageCells() && was == Now(size)
      requires at != 0 ==> Unused(at, config.pageSize)
      modifies this, repr
      ensures Valid() && fresh(repr - old(repr)) && chunks == old(chunks)
      ensures FirstFit(was, Now(size), size, at, ptr)
    {
      hide *;
      Parts();
      var page, index := FindPage(size, at, was);
      ptr := 0;
      if page != null { ptr := Deal(page, index, size, at, was); }
    }

    /** pool.c:898-931, from the page that was found. */
    method Deal(page: Page, index: nat, size: nat, at: nat, ghost was: Scene) returns (ptr: nat)
      requires Valid() && page in pages && size > 0 && page.Fits(index, size)
      requires Chosen(was.view, size, Bases(was.pages), at, config.PageCells(), Look(size).counts, page.base, index)
      requires Live() == was.view.live[page.base := BlocksOf(was.view.live, page.base)] && Grows(was, Now(size), at)
      modifies this`pages, this`fullPages, page`numFree, page`live, page.bitmap
      ensures Valid() && FirstFit(was, Now(size), size, at, ptr)
    {
      hide *;
      Parts();
      NowIs(size);
      ghost var cells, found := config.PageCells(), Now(size);
      Listed(page, size);
      RoomAt(page, index, size);
      ghost var counts, blocks := Look(size).counts, Live();
      LookCounts(counts, size);
      ptr := Hand(page, index, size, counts);
      LookCounts(Less(counts, page.base, size), size);
      ChosenServed(was.view, size, Bases(was.pages), at, cells, counts, page.base, index);
      NowIs(size);
      Looks(size);
      StillInOrder(was, found, Now(size), at);
      IsFirstFit(was, blocks, Now(size), size, at, page.base, index, ptr);
    }

    lemma NowIs(size: nat)
      requires Mapped()
      ensures Now(size).view == Look(size) && Now(size).pages == pages && Now(size).memory == memory
    {}

    /** What Pool_Get_Cells returns, and what the pages then are, hold and count: see Served. The result is 0 if no
        page on the list has room and the system gave none. */
    ghost predicate FirstFit(was: Scene, now: Scene, size: nat, at: nat, ptr: nat)
      requires size > 0 && config.Sound()
    {
      && Grows(was, now, at)
      && (if ptr == 0 then
            at == 0 && NoRoom(was.view, size) && now.view.live == was.view.live
            && now.view.counts == After(was.view, size, Bases(was.pages), |was.pages|)
          else
            IsCell(ptr) && now.view.live == Handed(was.view.live, ptr, size)
            && Served(was.view, size, Bases(was.pages), at, config.PageCells(), now.view.counts, PageOf(config, ptr),
                      IndexOf(config, ptr)))
    }

    lemma IsFirstFit(was: Scene, found: Blocks, now: Scene, size: nat, at: nat, base: nat, index: nat, ptr: nat)
      requires size > 0 && config.Sound() && ptr > 0 && Grows(was, now, at)
      requires IsCell(ptr) && PageOf(config, ptr) == base && IndexOf(config, ptr) == index
      requires found == was.view.live[base := BlocksOf(was.view.live, base)]
      requires now.view.live == found[base := found[base] + [Block(index, size)]]
      requires Served(was.view, size, Bases(was.pages), at, config.PageCells(), now.view.counts, base, index)
      ensures FirstFit(was, now, size, at, ptr)
    {
      hide Served, Grows, PageOf, IndexOf, Config.Sound;
    }

    lemma NoFit(was: Scene, now: Scene, size: nat)
      requires size > 0 && config.Sound() && NoRoom(was.view, size) && Grows(was, now, 0)
      requires now.view.counts == After(was.view, size, Bases(was.pages), |was.pages|)
      requires now.view.live == was.view.live
      ensures FirstFit(was, now, size, 0, 0)
    {}

    /** The blocks in use after `cells` cells at `ptr` are handed out. */
    ghost function Handed(live: Blocks, ptr: nat, cells: nat): Blocks
      requires IsCell(ptr)
    {
      var base := PageOf(config, ptr);
      live[base := BlocksOf(live, base) + [Block(IndexOf(config, ptr), cells)]]
    }

    /** pool.c:975-980: back to the searched pages, if the page is about to count enough free cells. */
    method Revive(page: Page, size: nat)
      requires Valid() && page.base in memory && memory[page.base] == page && page in repr
      modifies this`pages, this`fullPages
      ensures Linked(memory, pages, fullPages) && Filed({page}) && page in repr
      ensures if page.numFree + size >= THRESHOLD then page !in fullPages else page !in pages
      ensures Mapped() && Live() == old(Live()) && Chunked(config, chunks, memory.Keys)
      ensures pages == Revived(old(pages), page, page.numFree, size)
    {
      hide *;
      Parts();
      OnOneList(page);
      IsRevived(pages, page, page.numFree, size);
      FiledBut(page);
      if page.numFree < THRESHOLD && page.numFree + size >= THRESHOLD {
        LinkedTurn(memory, pages, fullPages);
        LinkedMove(memory, fullPages, pages, page);
        fullPages := Unlink(fullPages, page);
        pages := [page] + pages;
        LinkedTurn(memory, fullPages, pages);
        StillFiled(page, old(pages), old(fullPages));
      }
    }

    lemma IsRevived(listed: seq<Page>, page: Page, free: nat, size: nat)
      ensures Revived(listed, page, free, size) ==
        if free < THRESHOLD <= free + size then [page] + listed else listed
    {}

    lemma StillFiled(page: Page, before: seq<Page>, full: seq<Page>)
      requires forall p :: p in before && p != page ==> p in repr && p.numFree >= THRESHOLD
      requires forall p :: p in full && p != page ==> p in repr && p.numFree < THRESHOLD
      requires pages == [page] + before && forall p :: p in fullPages ==> p in full
      ensures Filed({page})
    {}

    /** Every page is on one list, and on the one its count calls for. */
    lemma OnOneList(page: Page)
      requires Linked(memory, pages, fullPages) && Filed({}) && page.base in memory && memory[page.base] == page
      ensures if page in pages then page !in fullPages && page.numFree >= THRESHOLD
        else page in fullPages && page.numFree < THRESHOLD
    {}

    /** pool.c:982-998 */
    method Unmark(page: Page, index: nat, size: nat, ghost counts: map<nat, nat>)
      requires Mapped() && page.base in memory && memory[page.base] == page && Filed({page})
      requires Block(index, size) in page.live && page.base in counts && Counting(counts)
      modifies page`numFree, page`live, page.bitmap
      ensures Mapped() && page.base in old(Live()) && Filed({page})
      ensures page.numFree == old(page.numFree) + size
      ensures Counting(counts[page.base := counts[page.base] + size])
      ensures Live() == old(Live())[page.base := Unlink(old(Live())[page.base], Block(index, size))]
    {
      hide Page.Valid, Page.Covered;
      page.Give(index, size);
    }

    lemma Held(ptr: nat, size: nat)
      requires Mapped() && Holds(Live(), ptr, size)
      ensures config.Sound() && PageOf(config, ptr) in memory && IndexOf(config, ptr) >= 0 && this !in repr
      ensures var page := memory[PageOf(config, ptr)];
        page in repr && page.bitmap in repr && page.base == PageOf(config, ptr)
        && Block(IndexOf(config, ptr), size) in page.live
    {
      hide Page.Valid, Page.Covered;
    }

    /** pool.c:952-1001 */
    method FreeCells(ptr: nat, size: nat)
      requires Valid() && Holds(Live(), ptr, size)
      modifies this`pages, this`fullPages, repr
      ensures Valid() && Live() == Returned(old(Live()), ptr, size)
      ensures Back(old(Now(0)), Now(0), PageOf(config, ptr), size)
    {
      hide *;
      Parts();
      Held(ptr, size);
      NowIs(0);
      Looks(0);
      var page, index := memory[PageOf(config, ptr)], IndexOf(config, ptr);
      ghost var was, live, free := Now(0), Live(), page.numFree;
      LookCounts(was.view.counts, 0);
      Revive(page, size);
      Unmark(page, index, size, was.view.counts);
      LookCounts(was.view.counts[page.base := free + size], 0);
      Refiled(page);
      Whole();
      NowIs(0);
      IsBack(was, Now(0), page, size, free);
      IsReturned(live, ptr, size);
    }

    /** The search leaves out exactly the pages that count fewer than four free cells. */
    lemma FullBelowFour(page: Page)
      requires Valid() && page.base in memory && memory[page.base] == page
      ensures if page.numFree < 4 then page in fullPages && page !in pages else page in pages && page !in fullPages
    {
      hide *;
      Parts();
      OnOneList(page);
      Four();
    }

    lemma Four()
      ensures THRESHOLD == 4
    {}

    lemma NotInRepr()
      requires Mapped()
      ensures this !in repr
    {}

    lemma FiledAll(page: Page)
      requires Filed({page}) && Linked(memory, pages, fullPages) && page in pages && page in repr
      requires page.numFree >= THRESHOLD
      ensures Filed({})
    {}

    lemma Whole()
      requires Mapped() && Linked(memory, pages, fullPages) && Filed({}) && Chunked(config, chunks, memory.Keys)
      ensures Valid()
    {}

    lemma IsReturned(live: Blocks, ptr: nat, size: nat)
      requires Holds(live, ptr, size)
      ensures Returned(live, ptr, size) == live[PageOf(config, ptr) :=
        Unlink(live[PageOf(config, ptr)], Block(IndexOf(config, ptr), size))]
    {}

    lemma Parts()
      requires Valid()
      ensures Mapped() && Linked(memory, pages, fullPages) && Filed({}) && Chunked(config, chunks, memory.Keys)
      ensures this !in repr && config.Sound()
    {}

    lemma FiledBut(page: Page)
      requires Filed({})
      ensures Filed({page})
    {}

    lemma Refiled(page: Page)
      requires Filed({page}) && page in repr
      requires if page.numFree >= THRESHOLD then page !in fullPages else page !in pages
      ensures Filed({})
    {}

    ghost function Returned(live: Blocks, ptr: nat, cells: nat): Blocks
      requires Holds(live, ptr, cells)
    {
      var base := PageOf(config, ptr);
      live[base := Unlink(live[base], Block(IndexOf(config, ptr), cells))]
    }

    /** pool.c:1009-1043: the new chunk is first on its list. */
    method GetLargeChunk(size: nat, at: nat) returns (ptr: nat)
      requires Valid() && 0 < size < config.LargeLimit() && (at != 0 ==> Unused(at, config.LargeSize(size)))
      modifies this`chunks
      ensures Valid() && ptr == at
      ensures chunks == if ptr == 0 then old(chunks) else [Chunk(ptr, config.LargeSize(size))] + old(chunks)
    {
      LargeHolds(config, size);
      hide Mapped, Linked, Filed, Chunked, Config.LargeSize;
      ptr := at;
      if ptr != 0 {
        ChunkedMore(config, chunks, memory.Keys, Chunk(ptr, config.LargeSize(size)));
        chunks := [Chunk(ptr, config.LargeSize(size))] + chunks;
      }
    }

    /** pool.c:1051-1085: the LARGE_CHUNK structure is found from the size the caller gives back. */
    method FreeLargeChunk(ptr: nat, size: nat)
      requires Valid() && Chunk(ptr, config.LargeSize(size)) in chunks
      modifies this`chunks
      ensures Valid() && chunks == Unlink(old(chunks), Chunk(ptr, config.LargeSize(size)))
    {
      assert config.pageSize > 0;
      hide Mapped, Linked, Filed, Chunked, Config.LargeSize;
      var header := ptr + config.LargeSize(size) - config.ChunkHeader();
      assert header == HeaderOf(config, Chunk(ptr, config.LargeSize(size)));
      HeaderTells(config, chunks, memory.Keys, Chunk(ptr, config.LargeSize(size)));
      chunks := UnlinkHeader(config, chunks, header);
    }

    /** What the caller of Pool_Alloc holds: `size` bytes at `ptr`. */
    ghost predicate InUse(ptr: nat, size: nat)
      requires Mapped()
      reads this`memory, this`repr, this`chunks, repr
    {
      if size > config.SmallLimit() then Chunk(ptr, config.LargeSize(size)) in chunks
      else Holds(Live(), ptr, config.NumCells(size))
    }

    /** The bytes the system is asked for, if the request needs any. */
    function Needed(size: nat): nat
      requires config.pageSize > 0
    {
      if size > config.SmallLimit() then config.LargeSize(size) else config.pageSize
    }

    /** pool.c:651-684. Small requests take cells, large ones chunks of their own; requests for nothing
        or for too much take nothing. */
    method Alloc(size: nat, at: nat) returns (ptr: nat)
      requires Valid() && (at != 0 ==> Unused(at, Needed(size)))
      modifies this, repr
      ensures Valid() && fresh(repr - old(repr))
      ensures size == 0 || size >= config.LargeLimit() ==> ptr == 0
      ensures ptr == 0 ==> Live() == old(Live()) && chunks == old(chunks)
      ensures ptr == 0 && 0 < size < config.LargeLimit() ==> at == 0
      ensures ptr != 0 && size > config.SmallLimit() ==>
        Live() == old(Live()) && chunks == [Chunk(ptr, config.LargeSize(size))] + old(chunks)
      ensures ptr != 0 && size <= config.SmallLimit() ==>
        IsCell(ptr) && Live() == Handed(old(Live()), ptr, config.NumCells(size)) && chunks == old(chunks)
      ensures size == 0 || size > config.SmallLimit() || size >= config.LargeLimit() ==>
        pages == old(pages) && memory == old(memory)
      ensures 0 < size <= config.SmallLimit() && size < config.LargeLimit() ==>
        var cells := config.NumCells(size); cells > 0 && FirstFit(old(Now(cells)), Now(cells), cells, at, ptr)
    {
      hide Valid, Mapped, Linked, Filed, Chunked, Config.LargeSize, Config.NumCells, Config.Sound, Live, Look, Now;
      hide Handed, IndexOf, NoRoom, FirstFit, IsCell, Unused;
      Parts();
      if size >= config.LargeLimit() { return 0; }
      ptr := 0;
      if size != 0 {
        RequestFits(config, size);
        if size > config.SmallLimit() {
          ptr := GetLargeChunk(size, at);
        } else {
          ptr := GetCells(config.NumCells(size), at);
        }
      }
    }

    /** The cells of a page start behind its header, so no small block is where a large one could be. */
    lemma SmallNotAligned(ptr: nat, size: nat)
      requires Valid() && 0 < size <= config.SmallLimit() && InUse(ptr, size)
      ensures ptr % config.pageSize != 0
    {
      var cells := config.NumCells(size);
      Held(ptr, cells);
      RequestFits(config, size);
      var base, index := PageOf(config, ptr), IndexOf(config, ptr);
      InLive(base, Block(index, cells));
      assert ptr == AddressOf(config, base, index);
      hide Holds, PageOf, IndexOf, AddressOf, Config.NumCells, Mapped, Linked, Filed, Chunked, Live;
      AddressRoundTrip(config, base, index);
    }

    lemma InLive(base: nat, b: Block)
      requires Mapped() && base in memory && b in memory[base].live
      ensures b.start + b.cells <= config.PageCells() && base % config.pageSize == 0
    {
      var page := memory[base];
      assert page.base == base && page.Valid() && page.config == config;
      hide Mapped, Marked, Total;
    }

    lemma LargeAligned(ptr: nat, size: nat)
      requires Valid() && size > config.SmallLimit() && InUse(ptr, size)
      ensures ptr % config.pageSize == 0
    {
      hide Mapped, Linked, Filed, Overlap, Config.LargeSize;
    }

    /** pool.c:692-719. Whether `ptr` is page-aligned tells the two kinds of memory apart. */
    method Free(ptr: nat, size: nat)
      requires Valid() && size > 0 && InUse(ptr, size)
      modifies this`pages, this`fullPages, this`chunks, repr
      ensures Valid()
      ensures size > config.SmallLimit() ==>
        Live() == old(Live()) && chunks == Unlink(old(chunks), Chunk(ptr, config.LargeSize(size)))
      ensures size <= config.SmallLimit() ==>
        chunks == old(chunks) && Live() == Returned(old(Live()), ptr, config.NumCells(size))
      ensures size > config.SmallLimit() ==> pages == old(pages)
      ensures size <= config.SmallLimit() ==> Back(old(Now(0)), Now(0), PageOf(config, ptr), config.NumCells(size))
    {
      hide Valid, Mapped, Linked, Filed, Chunked, Config.LargeSize, Config.NumCells, Config.Sound, Live, Returned;
      hide Holds, Look, Now, Back, PageOf;
      Parts();
      if size > config.SmallLimit() { LargeAligned(ptr, size); } else { SmallNotAligned(ptr, size); }
      if ptr % config.pageSize == 0 {
        FreeLargeChunk(ptr, size);
      } else {
        FreeCells(ptr, config.NumCells(size));
      }
    }
  }

  lemma RequestFits(config: Config, size: nat)
    requires config.Sound() && size > 0
    ensures size <= config.SmallLimit() ==> 0 < config.NumCells(size) <= config.PageCells()
  {
    CellsHold(config, size);
    if size <= config.SmallLimit() { CellsMono(config, size, config.SmallLimit()); }
  }
}
