/** The sizes a pool is built from, and addresses of cells (pool.c:45-122). */
module PoolLayout {
  import opened Arith

  /** POOL_PAGE_SIZE, POOL_CELL_SIZE and the sizes of the structures PAGE, POOL and LARGE_CHUNK.
      The two first sizes are powers of two, so masking with them is division and remainder. */
  datatype Config = Config(pageSize: nat, cellSize: nat, pageStruct: nat, poolStruct: nat, chunkStruct: nat) {
    /** `p` rounded up to a multiple of `unit`. */
    static function Pad(p: nat, unit: nat): nat
      requires unit > 0
    {
      (p + unit - 1) / unit * unit
    }

    function NumCells(n: nat): nat
      requires cellSize > 0
    {
      Pad(n, cellSize) / cellSize
    }

    function Header(): nat
      requires cellSize > 0
    {
      Pad(pageStruct, cellSize)
    }

    function BitmapSize(): nat
      requires cellSize > 0 && Header() <= pageSize
    {
      Pad(((pageSize - Header()) / cellSize + 7) / 8, cellSize)
    }

    /** Where the cells of a page begin. */
    function CellsAt(): nat
      requires cellSize > 0 && Header() <= pageSize
    {
      Header() + BitmapSize()
    }

    /** NUM_PAGE_CELLS */
    function PageCells(): nat
      requires cellSize > 0 && Header() <= pageSize && CellsAt() <= pageSize
    {
      (pageSize - CellsAt()) / cellSize
    }

    /** LARGE_CHUNK_MINIMUM */
    function SmallLimit(): nat { pageSize * 3 / 4 }

    /** LARGE_CHUNK_MAXIMUM */
    function LargeLimit(): int { 0xFFFF_FFFF - (ChunkHeader() + pageSize) }

    /** pool.c:1018-1019: the bytes asked of the system for a large request. */
    function LargeSize(size: nat): nat
      requires pageSize > 0
    {
      Pad(size + ChunkHeader(), pageSize)
    }

    /** LARGE_CHUNK_SIZE */
    function ChunkHeader(): nat { Pad(chunkStruct, 8) }

    /** What the code takes for granted about its constants. */
    predicate Sound() {
      && cellSize > 0 && pageSize > 0 && pageStruct > 0
      && Header() <= pageSize && CellsAt() <= pageSize
      && pageSize <= 65536
      && 4 <= PageCells() <= 65535
      && NumCells(SmallLimit()) <= PageCells()
      && NumCells(poolStruct) <= PageCells()
      && 0 < ChunkHeader() < pageSize
    }
  }

  lemma PadCovers(p: nat, unit: nat)
    requires unit > 0
    ensures p <= Config.Pad(p, unit) < p + unit && Config.Pad(p, unit) % unit == 0
  {
    DivParts(p + unit - 1, unit);
    DivOfMultiple((p + unit - 1) / unit, unit, 0);
  }

  /** The bits of the bitmap cover every cell. */
  lemma BitmapCovers(c: Config)
    requires c.Sound()
    ensures c.PageCells() <= 8 * c.BitmapSize()
  {
    hide Config.Pad;
    var free := c.pageSize - c.Header();
    PadCovers((free / c.cellSize + 7) / 8, c.cellSize);
    DivMono(c.pageSize - c.CellsAt(), free, c.cellSize);
  }

  /** A request takes enough cells for its bytes, and at least one if it takes bytes at all. */
  lemma CellsHold(c: Config, n: nat)
    requires c.cellSize > 0
    ensures n <= c.NumCells(n) * c.cellSize < n + c.cellSize
    ensures n > 0 ==> c.NumCells(n) > 0
  {
    PadCovers(n, c.cellSize);
    DivParts(Config.Pad(n, c.cellSize), c.cellSize);
    hide Config.Pad;
    if n > 0 && c.NumCells(n) <= 0 { MulMono(c.NumCells(n), 0, c.cellSize); }
  }

  lemma CellsMono(c: Config, m: nat, n: nat)
    requires c.cellSize > 0 && m <= n
    ensures c.NumCells(m) <= c.NumCells(n)
  {
    DivMono(m + c.cellSize - 1, n + c.cellSize - 1, c.cellSize);
    MulMono((m + c.cellSize - 1) / c.cellSize, (n + c.cellSize - 1) / c.cellSize, c.cellSize);
    DivMono(Config.Pad(m, c.cellSize), Config.Pad(n, c.cellSize), c.cellSize);
  }

  /** The 64-bit kernel driver: a page of 4096 bytes has 251 cells of 16 bytes. */
  lemma Kernel64()
    ensures var c := Config(4096, 16, 38, 116, 40);
      c.Sound() && c.PageCells() == 251 && c.CellsAt() == 80 && c.SmallLimit() == 3072 && c.LargeLimit() == 0xFFFF_EFD7
  {
    var c := Config(4096, 16, 38, 116, 40);
    assert c.Header() == 48;
    assert c.BitmapSize() == 32;
    assert c.NumCells(3072) == 192;
  }

  /** 64-bit user mode: a page of 65536 bytes has 510 cells of 128 bytes. */
  lemma User64(c: Config)
    requires c == Config(65536, 128, 38, 248, 40)
    ensures c.Sound() && c.PageCells() == 510 && c.CellsAt() == 256 && c.SmallLimit() == 49152
    ensures c.LargeLimit() == 0xFFFE_FFD7
  {
    hide Config.Pad, Config.NumCells, Config.Header, Config.BitmapSize, Config.ChunkHeader;
    User64Sizes(c);
    User64Header(c);
    User64Request(c);
  }

  lemma User64Request(c: Config)
    requires c == Config(65536, 128, 38, 248, 40)
    ensures c.NumCells(c.SmallLimit()) == 384
  {}

  lemma User64Sizes(c: Config)
    requires c == Config(65536, 128, 38, 248, 40)
    ensures c.NumCells(c.poolStruct) == 2 && c.ChunkHeader() == 40
  {}

  lemma User64Header(c: Config)
    requires c == Config(65536, 128, 38, 248, 40)
    ensures c.Header() == 128 && c.BitmapSize() == 128
  {}

  /** The 32-bit kernel driver. */
  lemma Kernel32()
    ensures var c := Config(4096, 16, 22, 76, 24);
      c.Sound() && c.PageCells() == 252 && c.CellsAt() == 64 && c.SmallLimit() == 3072 && c.LargeLimit() == 0xFFFF_EFE7
  {
    var c := Config(4096, 16, 22, 76, 24);
    assert c.Header() == 32;
    assert c.BitmapSize() == 32;
    assert c.NumCells(3072) == 192;
  }

  /** A large request leaves room for the LARGE_CHUNK structure behind the caller's bytes, takes as
      few whole pages as that allows, and is computed without a carry out of 32 bits. */
  lemma LargeHolds(c: Config, size: nat)
    requires c.Sound() && size < c.LargeLimit()
    ensures size + c.ChunkHeader() <= c.LargeSize(size) < size + c.ChunkHeader() + c.pageSize
    ensures c.LargeSize(size) % c.pageSize == 0
    ensures size + c.ChunkHeader() + c.pageSize - 1 <= 0xFFFF_FFFF && c.LargeSize(size) <= 0xFFFF_FFFF
  {
    PadCovers(size + c.ChunkHeader(), c.pageSize);
  }

  // ----- addresses -----

  /** pool.c:931: the address handed out for cell `index` of the page at `base`. */
  function AddressOf(c: Config, base: nat, index: nat): nat
    requires c.Sound()
  {
    base + c.CellsAt() + index * c.cellSize
  }

  function PageStart(ptr: nat, size: nat): nat
    requires size > 0
  {
    MulMono(0, ptr / size, size);
    ptr / size * size
  }

  /** pool.c:955: `ptr & POOL_MASK_LEFT` */
  function PageOf(c: Config, ptr: nat): nat
    requires c.Sound()
  {
    PageStart(ptr, c.pageSize)
  }

  /** pool.c:956-959 */
  function IndexOf(c: Config, ptr: nat): int
    requires c.Sound()
  {
    (ptr % c.pageSize - c.CellsAt()) / c.cellSize
  }

  /** The cells lie within their page, past its start. */
  lemma CellsInPage(c: Config, index: nat, cells: nat)
    requires c.Sound() && index + cells <= c.PageCells()
    ensures 0 < c.CellsAt() && c.CellsAt() + index * c.cellSize + cells * c.cellSize <= c.pageSize
    ensures c.CellsAt() + (index + cells) * c.cellSize <= c.pageSize
  {
    PadCovers(c.pageStruct, c.cellSize);
    DivParts(c.pageSize - c.CellsAt(), c.cellSize);
    hide Config.Header, Config.BitmapSize, Config.NumCells, Config.SmallLimit, Config.ChunkHeader;
    MulMono(index + cells, c.PageCells(), c.cellSize);
    Distribute(index, cells, c.cellSize);
  }

  /** From an address back to its page and cell; no cell has the address of a page. */
  lemma AddressRoundTrip(c: Config, base: nat, index: nat)
    requires c.Sound() && base % c.pageSize == 0 && index < c.PageCells()
    ensures var ptr := AddressOf(c, base, index);
      PageOf(c, ptr) == base && IndexOf(c, ptr) == index && ptr % c.pageSize != 0
  {
    CellsInPage(c, index, 1);
    hide Config.CellsAt, Config.PageCells;
    var ofs := c.CellsAt() + index * c.cellSize;
    DivParts(base, c.pageSize);
    DivOfMultiple(base / c.pageSize, c.pageSize, ofs);
    DivOfMultiple(index, c.cellSize, 0);
  }
}
