/** One page of a pool: its bitmap, its estimate of the free cells, and the blocks handed out from it. */
module PoolPage {
  import opened Lists
  import opened PoolBits
  import opened PoolBitmap
  import opened PoolLayout

  /** A block in use: `cells` cells from cell `start`. */
  datatype Block = Block(start: nat, cells: nat)

  ghost predicate Covers(b: Block, k: nat) { b.start <= k < b.start + b.cells }

  ghost predicate Apart(a: Block, b: Block) { a.start + a.cells <= b.start || b.start + b.cells <= a.start }

  ghost predicate Owned(live: seq<Block>, k: nat) { exists i :: 0 <= i < |live| && Covers(live[i], k) }

  /** The blocks hold at least one cell each, do not overlap, and stay between the reserved cells and
      the last cell. */
  ghost predicate Placed(live: seq<Block>, reserved: nat, n: nat) {
    && (forall i :: 0 <= i < |live| ==>
          live[i].cells > 0 && reserved <= live[i].start && live[i].start + live[i].cells <= n)
    && (forall i, j :: 0 <= i < j < |live| ==> Apart(live[i], live[j]))
  }

  /** The bit of a cell is set exactly when the cell is padding, reserved, or in a block. */
  ghost predicate Marked(m: seq<bv8>, reserved: nat, n: nat, live: seq<Block>) {
    forall k: nat :: k < 8 * |m| ==> (Bit(m, k) <==> k >= n || k < reserved || Owned(live, k))
  }

  function Total(live: seq<Block>): nat {
    if live == [] then 0 else live[0].cells + Total(live[1..])
  }

  function Without(live: seq<Block>, i: nat): seq<Block>
    requires i < |live|
  {
    live[..i] + live[i + 1..]
  }

  lemma {:induction false} TotalAppend(a: seq<Block>, b: seq<Block>)
    ensures Total(a + b) == Total(a) + Total(b)
  {
    if a == [] {
      assert a + b == b;
    } else {
      assert (a + b)[1..] == a[1..] + b;
      TotalAppend(a[1..], b);
    }
  }

  lemma TotalWithout(live: seq<Block>, i: nat)
    requires i < |live|
    ensures Total(live) == Total(Without(live, i)) + live[i].cells
  {
    var a, x, b := live[..i], [live[i]], live[i + 1..];
    assert live == a + (x + b);
    hide Total;
    TotalAppend(a, x + b);
    TotalAppend(x, b);
    TotalAppend(a, b);
    TotalOne(live[i]);
  }

  lemma TotalOne(b: Block)
    ensures Total([b]) == b.cells
  {}

  /** Taking a free run keeps the blocks apart, and its bits tell it is taken. */
  lemma TakeKeeps(m: seq<bv8>, m': seq<bv8>, reserved: nat, n: nat, live: seq<Block>, index: nat, size: nat)
    requires n <= 8 * |m| && Marked(m, reserved, n, live) && Placed(live, reserved, n) && size > 0
    requires FreeRun(m, n, index, size) && Painted(m, m', index, index + size, true)
    ensures Placed(live + [Block(index, size)], reserved, n)
    ensures Marked(m', reserved, n, live + [Block(index, size)])
  {
    TakePlaced(m, reserved, n, live, index, size);
    var after := live + [Block(index, size)];
    hide Bit;
    forall k: nat | k < 8 * |m|
      ensures Bit(m', k) <==> k >= n || k < reserved || Owned(after, k)
    {
      OwnedAppend(live, Block(index, size), k);
      assert Bit(m', k) <==> if index <= k < index + size then true else Bit(m, k);
    }
  }

  lemma OwnedAppend(live: seq<Block>, b: Block, k: nat)
    ensures Owned(live + [b], k) <==> Owned(live, k) || Covers(b, k)
  {
    var after := live + [b];
    assert after[|live|] == b;
    assert forall i :: 0 <= i < |live| ==> after[i] == live[i];
  }

  lemma TakePlaced(m: seq<bv8>, reserved: nat, n: nat, live: seq<Block>, index: nat, size: nat)
    requires n <= 8 * |m| && Marked(m, reserved, n, live) && Placed(live, reserved, n) && size > 0
    requires FreeRun(m, n, index, size)
    ensures Placed(live + [Block(index, size)], reserved, n)
  {
    hide Bit;
    assert !Bit(m, index);
    forall i | 0 <= i < |live|
      ensures Apart(live[i], Block(index, size))
    {
      var k := if live[i].start <= index then index else live[i].start;
      assert index <= k < index + size ==> !Bit(m, k);
      assert Covers(live[i], k) ==> Owned(live, k);
    }
  }

  /** Giving a block back clears its bits and no others. */
  lemma GiveKeeps(m: seq<bv8>, m': seq<bv8>, reserved: nat, n: nat, live: seq<Block>, i: nat)
    requires n <= 8 * |m| && Marked(m, reserved, n, live) && Placed(live, reserved, n) && i < |live|
    requires Painted(m, m', live[i].start, live[i].start + live[i].cells, false)
    ensures Placed(Without(live, i), reserved, n)
    ensures Marked(m', reserved, n, Without(live, i))
  {
    hide Bit;
    forall k: nat | k < 8 * |m|
      ensures Bit(m', k) <==> k >= n || k < reserved || Owned(Without(live, i), k)
    {
      OwnedWithout(live, reserved, n, i, k);
      assert Bit(m', k) <==> if Covers(live[i], k) then false else Bit(m, k);
    }
  }

  lemma OwnedWithout(live: seq<Block>, reserved: nat, n: nat, i: nat, k: nat)
    requires Placed(live, reserved, n) && i < |live|
    ensures Owned(Without(live, i), k) <==> Owned(live, k) && !Covers(live[i], k)
  {
    if Owned(Without(live, i), k) { OwnedStill(live, reserved, n, i, k); }
    if Owned(live, k) {
      var j :| 0 <= j < |live| && Covers(live[j], k);
      if j != i { assert Without(live, i)[if j < i then j else j - 1] == live[j]; }
    }
  }

  lemma OwnedStill(live: seq<Block>, reserved: nat, n: nat, i: nat, k: nat)
    requires Placed(live, reserved, n) && i < |live| && Owned(Without(live, i), k)
    ensures Owned(live, k) && !Covers(live[i], k)
  {
    var rest := Without(live, i);
    var j :| 0 <= j < |rest| && Covers(rest[j], k);
    var j' := if j < i then j else j + 1;
    assert live[j'] == rest[j];
    assert Apart(live[j'], live[i]) || Apart(live[i], live[j']);
  }

  /** What a store to the USHORT field num_free keeps. */
  function Ushort(x: int): nat { x % 0x1_0000 }

  lemma UshortFits(x: int)
    requires 0 <= x <= 0xFFFF
    ensures Ushort(x) == x
  {}

  class Page {
    const config: Config
    const base: nat
    const bitmap: array<bv8>
    var numFree: nat
    /** The cells at the front that hold the POOL structure itself: none, except in the first page. */
    ghost const reserved: nat
    ghost var live: seq<Block>

    /** The bitmap has a bit for every cell. */
    ghost predicate Covered() {
      config.Sound() && bitmap.Length == config.BitmapSize() && config.PageCells() <= 8 * bitmap.Length
    }

    /** The layout, the meaning of the bitmap, and the bound that keeps num_free from wrapping. */
    ghost predicate Valid()
      reads this, bitmap
    {
      && Covered() && base % config.pageSize == 0 && reserved <= config.PageCells()
      && Placed(live, reserved, config.PageCells())
      && Marked(bitmap[..], reserved, config.PageCells(), live)
      && numFree + Total(live) <= config.PageCells()
    }

    /** pool.c:451-475, 511-526: a page whose bitmap shows nothing but the padding. */
    constructor (config: Config, base: nat)
      requires config.Sound() && base % config.pageSize == 0
      ensures this.config == config && this.base == base && reserved == 0
      ensures Valid() && fresh(bitmap) && live == [] && numFree == config.PageCells()
    {
      this.config, this.base, this.numFree := config, base, config.PageCells();
      this.bitmap := new bv8[config.BitmapSize()];
      this.reserved, this.live := 0, [];
      new;
      BitmapCovers(config);
      PrepareBitmap(bitmap, config.PageCells());
    }

    /** pool.c:494-584: the first page, in which the POOL structure takes the first cells. */
    constructor First(config: Config, base: nat)
      requires config.Sound() && base % config.pageSize == 0
      ensures this.config == config && this.base == base && reserved == config.NumCells(config.poolStruct)
      ensures Valid() && fresh(bitmap) && live == [] && numFree == config.PageCells()
    {
      this.config, this.base, this.numFree := config, base, config.PageCells();
      this.bitmap := new bv8[config.BitmapSize()];
      this.reserved, this.live := config.NumCells(config.poolStruct), [];
      new;
      BitmapCovers(config);
      PrepareBitmap(bitmap, config.PageCells());
      ghost var m := bitmap[..];
      MarkHeader(bitmap, config.NumCells(config.poolStruct));
      HeaderMarked(m, bitmap[..], config.PageCells(), reserved);
    }

    /** pool.c:762-819 on this page. */
    method FindCells(size: nat) returns (index: int)
      requires Valid() && size > 0
      ensures if index >= 0 then LowestRun(index, size) else index == -1 && NoRun(size)
    {
      hide Bit;
      index := PoolBitmap.FindCells(bitmap, config.PageCells(), size);
    }

    /** pool.c:863: without a run of `size` cells, the page counts as having at most one less. */
    method Lower(size: nat)
      requires Valid() && 0 < size <= numFree
      modifies this`numFree
      ensures Valid() && numFree == size - 1
    {
      assert size <= config.PageCells() <= 0xFFFF;
      UshortFits(size - 1);
      hide Ushort, Placed, Marked, Total;
      numFree := Ushort(size - 1);
    }

    /** The page has no `size` free cells in a row. */
    ghost predicate NoRun(size: nat)
      requires Covered()
      reads bitmap
    {
      forall s: nat :: !FreeRun(bitmap[..], config.PageCells(), s, size)
    }

    /** The first of the lowest `size` free cells in a row. */
    ghost predicate LowestRun(index: int, size: nat)
      requires Covered()
      reads bitmap
    {
      && index >= 0 && FreeRun(bitmap[..], config.PageCells(), index, size)
      && forall s: nat :: s < index ==> !FreeRun(bitmap[..], config.PageCells(), s, size)
    }

    /** Where the lowest `size` free cells in a row start, or -1. */
    ghost function FirstRun(size: nat): int
      requires Covered()
      reads bitmap
    {
      LowestStart(bitmap[..], config.PageCells(), 0, size)
    }

    lemma FirstRunIs(index: int, size: nat)
      requires Covered()
      ensures NoRun(size) <==> FirstRun(size) == -1
      ensures LowestRun(index, size) ==> FirstRun(size) == index
      ensures FirstRun(size) >= -1
    {
      hide FreeRun, Config.PageCells, Config.Sound;
    }

    /** The page counts `size` free cells, and has them from `index` on. */
    ghost predicate Fits(index: nat, size: nat)
      reads this, bitmap
    {
      Covered() && size <= numFree && LowestRun(index, size)
    }

    lemma ItFits(index: nat, size: nat)
      requires Covered() && size <= numFree && LowestRun(index, size)
      ensures Fits(index, size)
    {}

    lemma InPage(index: nat, size: nat)
      requires Valid() && size > 0 && Fits(index, size)
      ensures config.Sound() && base % config.pageSize == 0 && index + size <= config.PageCells()
    {
      hide Bit, Config.PageCells, Config.Sound;
    }

    lemma LiveDistinct()
      requires Valid()
      ensures Distinct(live)
    {
      hide Bit, Config.PageCells, Config.Sound, Marked;
    }

    /** All cells of an empty page are free. */
    lemma EmptyRuns()
      requires Valid() && live == [] && reserved == 0 && numFree == config.PageCells()
      ensures forall size: nat :: size <= config.PageCells() ==> Fits(0, size)
    {
      hide Bit, Config.PageCells;
    }

    /** pool.c:898, 913-927: hands out `size` cells from `index` on. */
    method Take(index: nat, size: nat)
      requires Valid() && size > 0 && Fits(index, size)
      modifies this`numFree, this`live, bitmap
      ensures Valid() && numFree == old(numFree) - size && live == old(live) + [Block(index, size)]
    {
      ghost var m := bitmap[..];
      ghost var n := config.PageCells();
      assert index + size <= n <= 0xFFFF;
      UshortFits(numFree - size);
      hide Ushort, Bit, Config.Sound, Config.PageCells, Config.BitmapSize, Placed, Marked, Painted, FreeRun, Total;
      numFree := Ushort(numFree - size);
      SetCells(bitmap, index, size);
      TakeKeeps(m, bitmap[..], reserved, n, live, index, size);
      TotalAppend(live, [Block(index, size)]);
      TotalOne(Block(index, size));
      live := live + [Block(index, size)];
    }

    /** pool.c:982-998: takes a block back. */
    method Give(index: nat, size: nat)
      requires Valid() && Block(index, size) in live
      modifies this`numFree, this`live, bitmap
      ensures Valid() && numFree == old(numFree) + size && live == Unlink(old(live), Block(index, size))
    {
      LiveDistinct();
      ghost var i :| 0 <= i < |live| && live[i] == Block(index, size);
      UnlinkAt(live, i);
      hide Valid;
      GiveAt(index, size, i);
    }

    method GiveAt(index: nat, size: nat, ghost i: nat)
      requires Valid() && i < |live| && live[i] == Block(index, size)
      modifies this`numFree, this`live, bitmap
      ensures Valid() && numFree == old(numFree) + size && live == Without(old(live), i)
    {
      ghost var m := bitmap[..];
      ghost var n := config.PageCells();
      assert index + size <= n <= 0xFFFF;
      hide Ushort, Bit, Config.Sound, Config.PageCells, Config.BitmapSize, Placed, Marked, Painted, Total;
      TotalWithout(live, i);
      UshortFits(numFree + size);
      numFree := Ushort(numFree + size);
      ClearCells(bitmap, index, size);
      GiveKeeps(m, bitmap[..], reserved, n, live, i);
      live := Without(live, i);
    }
  }

  lemma HeaderMarked(m: seq<bv8>, m': seq<bv8>, n: nat, reserved: nat)
    requires n <= 8 * |m| && forall k: nat :: k < 8 * |m| ==> (Bit(m, k) <==> k >= n)
    requires Painted(m, m', 0, reserved, true)
    ensures Marked(m', reserved, n, [])
  {
    hide Bit;
    forall k: nat | k < 8 * |m|
      ensures Bit(m', k) <==> k >= n || k < reserved || Owned([], k)
    {
      assert Bit(m', k) <==> if 0 <= k < reserved then true else Bit(m, k);
    }
  }
}
