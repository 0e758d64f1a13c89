/** What holds in every state a pool can reach by Pool_Alloc and size-matched Pool_Free: the memory in use
    does not overlap, and no more cells are in use than there are. */
module PoolSafety {
  import opened Arith
  import opened Lists
  import opened PoolLayout
  import opened PoolPage
  import opened PoolSearch
  import opened PoolHeap

  /** The bytes of a block lie behind the page header and bitmap, and within the page. */
  lemma SmallInside(pool: Pool, ptr: nat, size: nat)
    requires pool.Valid() && 0 < size <= pool.config.SmallLimit() && pool.InUse(ptr, size)
    ensures var c := pool.config; var base := PageOf(c, ptr);
      base in pool.memory && base + c.CellsAt() <= ptr && ptr + c.NumCells(size) * c.cellSize <= base + c.pageSize
    ensures size <= pool.config.NumCells(size) * pool.config.cellSize
  {
    var c := pool.config;
    var cells := c.NumCells(size);
    pool.Held(ptr, cells);
    RequestFits(c, size);
    CellsHold(c, size);
    var base, index := PageOf(c, ptr), IndexOf(c, ptr);
    pool.InLive(base, Block(index, cells));
    assert ptr == base + c.CellsAt() + index * c.cellSize;
    hide Pool.Valid, Pool.InUse, Config.NumCells, PageOf, IndexOf;
    CellsInPage(c, index, cells);
    MulMono(0, index, c.cellSize);
  }

  /** A large chunk holds the caller's bytes in front of its LARGE_CHUNK structure. */
  lemma LargeInside(pool: Pool, ptr: nat, size: nat)
    requires pool.Valid() && pool.config.SmallLimit() < size < pool.config.LargeLimit() && pool.InUse(ptr, size)
    ensures var chunk := Chunk(ptr, pool.config.LargeSize(size));
      chunk in pool.chunks && ptr + size <= HeaderOf(pool.config, chunk)
  {
    LargeHolds(pool.config, size);
  }

  /** Two blocks of one page share no cell, so they share no byte. */
  lemma CellsApart(c: Config, base: nat, i: nat, m: nat, j: nat, n: nat)
    requires c.Sound() && i + m <= j
    ensures AddressOf(c, base, i) + m * c.cellSize <= AddressOf(c, base, j)
  {
    MulMono(i + m, j, c.cellSize);
    Distribute(i, m, c.cellSize);
  }

  lemma PlacedApart(live: seq<Block>, reserved: nat, n: nat, a: Block, b: Block)
    requires Placed(live, reserved, n) && a in live && b in live
    ensures (a == b || Apart(a, b)) && a.cells > 0
  {
    var i :| 0 <= i < |live| && live[i] == a;
    var j :| 0 <= j < |live| && live[j] == b;
    if i < j { assert Apart(live[i], live[j]); }
    if j < i { assert Apart(live[j], live[i]); }
  }

  lemma AlignedApart(a: nat, b: nat, size: nat)
    requires size > 0 && a % size == 0 && b % size == 0 && a < b
    ensures a + size <= b
  {
    DivParts(a, size);
    DivParts(b, size);
    if a / size >= b / size { MulMono(b / size, a / size, size); }
    MulMono(a / size + 1, b / size, size);
  }

  /** Blocks in the same page. */
  lemma SamePage(pool: Pool, p: nat, m: nat, q: nat, n: nat)
    requires pool.Valid() && pool.Holds(pool.Live(), p, m) && pool.Holds(pool.Live(), q, n)
    requires PageOf(pool.config, p) == PageOf(pool.config, q)
    ensures (p == q && m == n) || p + m * pool.config.cellSize <= q || q + n * pool.config.cellSize <= p
  {
    var c := pool.config;
    pool.Held(p, m);
    pool.Held(q, n);
    var base, i, j := PageOf(c, p), IndexOf(c, p), IndexOf(c, q);
    var page := pool.memory[base];
    assert page.Valid();
    PlacedApart(page.live, page.reserved, page.config.PageCells(), Block(i, m), Block(j, n));
    assert p == AddressOf(c, base, i) && q == AddressOf(c, base, j);
    hide Pool.Valid, Pool.Holds, Page.Valid, PageOf, IndexOf, AddressOf, Config.Sound;
    if i + m <= j { CellsApart(c, base, i, m, j, n); }
    if j + n <= i { CellsApart(c, base, j, n, i, m); }
  }

  /** Small blocks. */
  lemma SmallApart(pool: Pool, p: nat, s: nat, q: nat, t: nat)
    requires pool.Valid() && 0 < s <= pool.config.SmallLimit() && 0 < t <= pool.config.SmallLimit()
    requires pool.InUse(p, s) && pool.InUse(q, t)
    ensures p == q || !Overlap(p, s, q, t)
  {
    SmallInside(pool, p, s);
    SmallInside(pool, q, t);
    var a, b := PageOf(pool.config, p), PageOf(pool.config, q);
    if a == b {
      SamePage(pool, p, pool.config.NumCells(s), q, pool.config.NumCells(t));
    } else {
      InMemory(pool, a);
      InMemory(pool, b);
      hide Pool.Valid, Pool.InUse, PageOf, Config.NumCells, Config.CellsAt;
      if a < b { AlignedApart(a, b, pool.config.pageSize); } else { AlignedApart(b, a, pool.config.pageSize); }
    }
  }

  lemma InMemory(pool: Pool, base: nat)
    requires pool.Valid() && base in pool.memory
    ensures pool.config.pageSize > 0 && base % pool.config.pageSize == 0
  {
    var page := pool.memory[base];
    assert page.Valid() && page.base == base;
    hide Placed, Marked, Total;
  }

  /** Large chunks. */
  lemma LargeApart(pool: Pool, p: nat, s: nat, q: nat, t: nat)
    requires pool.Valid() && pool.config.SmallLimit() < s < pool.config.LargeLimit()
    requires pool.config.SmallLimit() < t < pool.config.LargeLimit()
    requires pool.InUse(p, s) && pool.InUse(q, t)
    ensures p == q || !Overlap(p, s, q, t)
  {
    LargeInside(pool, p, s);
    LargeInside(pool, q, t);
    var a, b := Chunk(p, pool.config.LargeSize(s)), Chunk(q, pool.config.LargeSize(t));
    var i :| 0 <= i < |pool.chunks| && pool.chunks[i] == a;
    var j :| 0 <= j < |pool.chunks| && pool.chunks[j] == b;
    assert i != j ==> !Overlap(a.ptr, a.size, b.ptr, b.size);
    hide Pool.Mapped, Linked, Pool.Filed;
  }

  /** A small block and a large chunk. */
  lemma MixedApart(pool: Pool, p: nat, s: nat, q: nat, t: nat)
    requires pool.Valid() && 0 < s <= pool.config.SmallLimit() < t < pool.config.LargeLimit()
    requires pool.InUse(p, s) && pool.InUse(q, t)
    ensures !Overlap(p, s, q, t)
  {
    SmallInside(pool, p, s);
    LargeInside(pool, q, t);
    var base := PageOf(pool.config, p);
    var chunk := Chunk(q, pool.config.LargeSize(t));
    assert !Overlap(chunk.ptr, chunk.size, base, pool.config.pageSize);
    hide Pool.Valid, Pool.InUse, PageOf, Config.NumCells, Config.CellsAt, Config.LargeSize;
  }

  /** Memory in use is in use once: what two callers of Pool_Alloc hold does not overlap. */
  lemma MemoryApart(pool: Pool, p: nat, s: nat, q: nat, t: nat)
    requires pool.Valid() && 0 < s < pool.config.LargeLimit() && 0 < t < pool.config.LargeLimit()
    requires pool.InUse(p, s) && pool.InUse(q, t)
    ensures p == q || !Overlap(p, s, q, t)
  {
    hide Pool.Valid, Pool.InUse;
    var limit := pool.config.SmallLimit();
    if s <= limit && t <= limit {
      SmallApart(pool, p, s, q, t);
    } else if s <= limit {
      MixedApart(pool, p, s, q, t);
    } else if t <= limit {
      MixedApart(pool, q, t, p, s);
    } else {
      LargeApart(pool, p, s, q, t);
    }
  }

  /** After Pool_Alloc, exactly the new block is in use besides the old ones. */
  lemma HandedHolds(pool: Pool, live: Blocks, ptr: nat, cells: nat, q: nat, n: nat)
    requires pool.IsCell(ptr)
    ensures pool.Holds(pool.Handed(live, ptr, cells), q, n) <==> pool.Holds(live, q, n) || (q == ptr && n == cells)
  {
    var c := pool.config;
    var base, b := PageOf(c, ptr), Block(IndexOf(c, ptr), cells);
    var before := BlocksOf(live, base);
    assert forall x :: x in before + [b] <==> x in before || x == b;
    assert pool.IsCell(q) && PageOf(c, q) == base && IndexOf(c, q) == IndexOf(c, ptr) ==> q == ptr;
    hide PageOf, IndexOf, AddressOf, Config.Sound;
  }

  /** After Pool_Free, exactly the returned block is out of use. */
  lemma ReturnedHolds(pool: Pool, ptr: nat, cells: nat, q: nat, n: nat)
    requires pool.Valid() && pool.Holds(pool.Live(), ptr, cells)
    ensures pool.Holds(pool.Returned(pool.Live(), ptr, cells), q, n) <==> pool.Holds(pool.Live(), q, n) && q != ptr
  {
    var c := pool.config;
    pool.Held(ptr, cells);
    var base, b := PageOf(c, ptr), Block(IndexOf(c, ptr), cells);
    var page := pool.memory[base];
    assert page.Valid();
    page.LiveDistinct();
    UnlinkMembers(page.live, b);
    if pool.Holds(pool.Live(), q, n) && q == ptr { SamePage(pool, ptr, cells, q, n); }
    assert pool.IsCell(q) && PageOf(c, q) == base && IndexOf(c, q) == IndexOf(c, ptr) ==> q == ptr;
    hide Pool.Valid, Page.Valid, PageOf, IndexOf, AddressOf, Config.Sound, Distinct;
  }
}
