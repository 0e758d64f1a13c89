/** Searching and changing the bitmap of a page, a byte at a time where whole bytes agree (pool.c:762-819,
    913-927, 978-998). */
module PoolBitmap {
  import opened PoolBits

  /** `size` free cells from `start`, all below `n`. */
  ghost predicate FreeRun(m: seq<bv8>, n: nat, start: nat, size: nat)
    requires n <= 8 * |m|
  {
    start + size <= n && forall k: nat :: start <= k < start + size ==> !Bit(m, k)
  }

  /** Where the lowest `size` free cells in a row start, from cell `from` on; -1 if there are none. */
  ghost function LowestStart(m: seq<bv8>, n: nat, from: nat, size: nat): (s: int)
    requires n <= 8 * |m|
    ensures s >= 0 ==> s >= from && FreeRun(m, n, s, size) && forall i: nat :: from <= i < s ==> !FreeRun(m, n, i, size)
    ensures s < 0 ==> s == -1 && forall i: nat :: from <= i ==> !FreeRun(m, n, i, size)
    decreases n - from
  {
    if from > n then -1
    else if FreeRun(m, n, from, size) then from
    else LowestStart(m, n, from + 1, size)
  }

  /** The bits beyond the last cell are set, so that a byte of zeroes lies within the cells. */
  ghost predicate Padded(m: seq<bv8>, n: nat)
    requires n <= 8 * |m|
  {
    forall k: nat :: n <= k < 8 * |m| ==> Bit(m, k)
  }

  lemma WholeByte(m: seq<bv8>, j: nat)
    requires j < 8 * |m| && j % 8 == 0
    ensures m[j / 8] == 0xFF ==> forall k: nat :: j <= k < j + 8 ==> Bit(m, k)
    ensures m[j / 8] == 0x00 ==> forall k: nat :: j <= k < j + 8 ==> !Bit(m, k)
  {
    forall k: nat | j <= k < j + 8
      ensures k / 8 == j / 8 && ByteBit(0xFF, k % 8) && !ByteBit(0x00, k % 8)
    {
      ByteFull(k % 8);
    }
  }

  lemma ZeroByteFits(m: seq<bv8>, n: nat, j: nat)
    requires n <= 8 * |m| && Padded(m, n) && j < n && j + 8 <= 8 * |m|
    requires forall k: nat :: j <= k < j + 8 ==> !Bit(m, k)
    ensures j + 8 <= n
  {
    assert n < 8 * |m| ==> Bit(m, n);
  }

  /** No run starts before `j` when the cells from `i` to `j` are free but too few, and `j` is taken. */
  lemma NoRunBefore(m: seq<bv8>, n: nat, size: nat, i: nat, j: nat)
    requires n <= 8 * |m| && i <= j && j < i + size
    requires j < n ==> Bit(m, j)
    ensures forall s: nat :: i <= s < j ==> !FreeRun(m, n, s, size)
  {
    forall s: nat | i <= s < j
      ensures !FreeRun(m, n, s, size)
    {
      assert s <= j < s + size;
    }
  }

  /** Where the scan stands: byte `p` and the mask of cell `j` in it. */
  predicate Cursor(j: nat, p: nat, mask: bv8) { p == j / 8 && mask == Mask(j % 8) }

  /** `++j`, with the mask and byte position moved along. */
  method Advance(ghost j: nat, p: nat, mask: bv8) returns (p': nat, mask': bv8)
    requires Cursor(j, p, mask)
    ensures Cursor(j + 1, p', mask')
  {
    RotateWalks(j);
    mask' := Rotate(mask);
    p' := p + if mask' & 1 == 1 then 1 else 0;
  }

  /** What the two tests of the scan see at cell `j`. */
  lemma AtCursor(m: seq<bv8>, j: nat, p: nat, mask: bv8)
    requires Cursor(j, p, mask) && j < 8 * |m|
    ensures p < |m| && (m[p] & mask != 0 <==> Bit(m, j))
    ensures mask == 1 ==> j % 8 == 0 && j + 8 <= 8 * |m| && Cursor(j + 8, p + 1, mask)
    ensures mask == 1 && m[p] == 0xFF ==> forall k: nat :: j <= k < j + 8 ==> Bit(m, k)
    ensures mask == 1 && m[p] == 0x00 ==> forall k: nat :: j <= k < j + 8 ==> !Bit(m, k)
  {
    RotateWalks(j);
    if mask == 1 { WholeByte(m, j); }
  }

  /** pool.c:779-791: past the taken cells, whole bytes of 0xFF at once. */
  method SkipTaken(bitmap: array<bv8>, n: nat, i: nat, p0: nat, mask0: bv8)
    returns (j: nat, p: nat, mask: bv8)
    requires n <= 8 * bitmap.Length && i < n && Bit(bitmap[..], i) && Cursor(i + 1, p0, mask0)
    ensures i < j <= 8 * bitmap.Length && Cursor(j, p, mask)
    ensures forall k: nat :: i <= k < j ==> Bit(bitmap[..], k)
    ensures j < n ==> !Bit(bitmap[..], j)
  {
    hide Bit, Cursor;
    ghost var m := bitmap[..];
    j, p, mask := i + 1, p0, mask0;
    while j < n
      invariant i < j <= 8 * |m| && Cursor(j, p, mask)
      invariant forall k: nat :: i <= k < j ==> Bit(m, k)
    {
      AtCursor(m, j, p, mask);
      if mask == 1 && bitmap[p] == 0xFF {
        j := j + 8;
        p := p + 1;
      } else {
        if bitmap[p] & mask == 0 { break; }
        p, mask := Advance(j, p, mask);
        j := j + 1;
      }
    }
  }

  /** pool.c:793-805: over the free cells until there are enough, whole bytes of zeroes at once. */
  method CountFree(bitmap: array<bv8>, n: nat, size: nat, i: nat, p0: nat, mask0: bv8)
    returns (j: nat, p: nat, mask: bv8)
    requires n <= 8 * bitmap.Length && Padded(bitmap[..], n)
    requires i < n && !Bit(bitmap[..], i) && Cursor(i + 1, p0, mask0)
    ensures i < j <= n && Cursor(j, p, mask)
    ensures forall k: nat :: i <= k < j ==> !Bit(bitmap[..], k)
    ensures j - i < size && j < n ==> Bit(bitmap[..], j)
  {
    hide Bit, Cursor;
    ghost var m := bitmap[..];
    j, p, mask := i + 1, p0, mask0;
    while j < n && j - i < size
      invariant i < j <= n && Cursor(j, p, mask)
      invariant forall k: nat :: i <= k < j ==> !Bit(m, k)
    {
      AtCursor(m, j, p, mask);
      if mask == 1 && bitmap[p] == 0 {
        ZeroByteFits(m, n, j);
        j := j + 8;
        p := p + 1;
      } else {
        if bitmap[p] & mask != 0 { break; }
        p, mask := Advance(j, p, mask);
        j := j + 1;
      }
    }
  }

  /** pool.c:762-819: the lowest run of `size` free cells, or -1 exactly when there is none. */
  method FindCells(bitmap: array<bv8>, n: nat, size: nat) returns (index: int)
    requires n <= 8 * bitmap.Length && Padded(bitmap[..], n) && size > 0
    ensures index >= 0 ==> FreeRun(bitmap[..], n, index, size)
    ensures index >= 0 ==> forall s: nat :: s < index ==> !FreeRun(bitmap[..], n, s, size)
    ensures index < 0 ==> index == -1 && forall s: nat :: !FreeRun(bitmap[..], n, s, size)
  {
    ghost var m := bitmap[..];
    var mask: bv8 := 1;
    var p: nat, i: nat := 0, 0;
    while i < n
      invariant 0 <= i <= 8 * |m| && Cursor(i, p, mask)
      invariant forall s: nat :: s < i ==> !FreeRun(m, n, s, size)
    {
      var bit := bitmap[p] & mask;
      p, mask := Advance(i, p, mask);
      var j;
      if bit != 0 {
        j, p, mask := SkipTaken(bitmap, n, i, p, mask);
        forall s: nat | i <= s < j
          ensures !FreeRun(m, n, s, size)
        {
          assert Bit(m, s);
        }
      } else {
        j, p, mask := CountFree(bitmap, n, size, i, p, mask);
        if j - i >= size { return i; }
        NoRunBefore(m, n, size, i, j);
      }
      i := j;
    }
    return -1;
  }

  /** `m` with the bits of the cells from `from` to `to` all set, or all cleared, and no others changed. */
  ghost predicate Painted(m: seq<bv8>, m': seq<bv8>, from: nat, to: nat, value: bool) {
    && |m'| == |m|
    && forall k: nat :: k < 8 * |m| ==> (Bit(m', k) <==> if from <= k < to then value else Bit(m, k))
  }

  lemma PaintNothing(m: seq<bv8>, i: nat, value: bool)
    ensures Painted(m, m, i, i, value)
  {}

  /** One byte changed. */
  lemma BitOfUpdate(m: seq<bv8>, p: nat, b: bv8, k: nat)
    requires p < |m| && k < 8 * |m|
    ensures Bit(m[p := b], k) <==> if k / 8 == p then ByteBit(b, k % 8) else Bit(m, k)
  {
    hide ByteBit;
  }

  /** One bit of one byte changed. */
  lemma BitAfter(m: seq<bv8>, j: nat, k: nat, b: bv8, value: bool)
    requires j < 8 * |m| && k < 8 * |m|
    requires ByteBit(b, k % 8) <==> if j % 8 == k % 8 then value else ByteBit(m[j / 8], k % 8)
    ensures Bit(m[j / 8 := b], k) <==> if j == k then value else Bit(m, k)
  {
    hide ByteBit, Mask;
    BitOfUpdate(m, j / 8, b, k);
  }

  lemma ByteAfter(b: bv8, j: nat, k: nat, value: bool)
    requires j < 8 && k < 8
    ensures ByteBit(if value then b | Mask(j) else b & !Mask(j), k) <==> if j == k then value else ByteBit(b, k)
  {
    ByteSet(b, j, k);
    ByteClear(b, j, k);
  }

  /** What the next step over cell `j` may rely on. */
  lemma CursorPlace(j: nat, p: nat, mask: bv8, bytes: nat)
    requires Cursor(j, p, mask) && j < 8 * bytes
    ensures p < bytes && (mask == 1 ==> j + 8 <= 8 * bytes && Cursor(j + 8, p + 1, mask))
  {
    RotateWalks(j);
  }

  /** One cell more. */
  lemma PaintBit(m: seq<bv8>, m': seq<bv8>, from: nat, j: nat, p: nat, mask: bv8, b: bv8, value: bool)
    requires Painted(m, m', from, j, value) && from <= j < 8 * |m| && Cursor(j, p, mask)
    requires p < |m'| && b == if value then m'[p] | mask else m'[p] & !mask
    ensures Painted(m, m'[p := b], from, j + 1, value)
  {
    var w := m'[p := b];
    hide Bit, ByteBit, Mask;
    forall k: nat | k < 8 * |m|
      ensures Bit(w, k) <==> if from <= k < j + 1 then value else Bit(m, k)
    {
      ByteAfter(m'[p], j % 8, k % 8, value);
      BitAfter(m', j, k, w[p], value);
      assert Bit(m', k) <==> if from <= k < j then value else Bit(m, k);
    }
  }

  /** Eight cells more. */
  lemma PaintByte(m: seq<bv8>, m': seq<bv8>, from: nat, j: nat, p: nat, value: bool)
    requires Painted(m, m', from, j, value) && from <= j && j + 8 <= 8 * |m| && Cursor(j, p, 1) && p < |m'|
    ensures Painted(m, m'[p := if value then 0xFF else 0x00], from, j + 8, value)
  {
    RotateWalks(j);
    var w := m'[p := if value then 0xFF else 0x00];
    forall k: nat | k < 8 * |m|
      ensures Bit(w, k) <==> if from <= k < j + 8 then value else Bit(m, k)
    {
      ByteFull(k % 8);
      assert Bit(m', k) <==> if from <= k < j then value else Bit(m, k);
    }
  }

  /** pool.c:913-927: marks `size` cells in use. */
  method SetCells(bitmap: array<bv8>, index: nat, size: nat)
    requires index + size <= 8 * bitmap.Length
    modifies bitmap
    ensures Painted(old(bitmap[..]), bitmap[..], index, index + size, true)
  {
    var p: nat, mask, left := index / 8, Mask(index % 8), size;
    ghost var j := index;
    assert Cursor(j, p, mask);
    PaintNothing(bitmap[..], index, true);
    hide Bit, Cursor, Painted;
    while left > 0
      invariant 0 <= left <= size && j == index + size - left && Cursor(j, p, mask)
      invariant Painted(old(bitmap[..]), bitmap[..], index, j, true)
    {
      CursorPlace(j, p, mask, bitmap.Length);
      ghost var m := bitmap[..];
      if mask == 1 && left > 8 {
        PaintByte(old(bitmap[..]), m, index, j, p, true);
        bitmap[p] := 0xFF;
        assert bitmap[..] == m[p := 0xFF];
        p, left := p + 1, left - 8;
        j := j + 8;
      } else {
        var byte := bitmap[p] | mask;
        PaintBit(old(bitmap[..]), m, index, j, p, mask, byte, true);
        bitmap[p] := byte;
        assert bitmap[..] == m[p := byte];
        p, mask := Advance(j, p, mask);
        left := left - 1;
        j := j + 1;
      }
    }
  }

  /** pool.c:986-998: marks `size` cells free. */
  method ClearCells(bitmap: array<bv8>, index: nat, size: nat)
    requires index + size <= 8 * bitmap.Length
    modifies bitmap
    ensures Painted(old(bitmap[..]), bitmap[..], index, index + size, false)
  {
    var p: nat, mask, left := index / 8, Mask(index % 8), size;
    ghost var j := index;
    assert Cursor(j, p, mask);
    PaintNothing(bitmap[..], index, false);
    hide Bit, Cursor, Painted;
    while left > 0
      invariant 0 <= left <= size && j == index + size - left && Cursor(j, p, mask)
      invariant Painted(old(bitmap[..]), bitmap[..], index, j, false)
    {
      CursorPlace(j, p, mask, bitmap.Length);
      ghost var m := bitmap[..];
      if mask == 1 && left > 8 {
        PaintByte(old(bitmap[..]), m, index, j, p, false);
        bitmap[p] := 0x00;
        assert bitmap[..] == m[p := 0x00];
        p, left := p + 1, left - 8;
        j := j + 8;
      } else {
        var byte := bitmap[p] & !mask;
        PaintBit(old(bitmap[..]), m, index, j, p, mask, byte, false);
        bitmap[p] := byte;
        assert bitmap[..] == m[p := byte];
        p, mask := Advance(j, p, mask);
        left := left - 1;
        j := j + 1;
      }
    }
  }

  /** pool.c:511-526: the bitmap of a fresh page. Only the bits that stand for no cell are set. */
  method PrepareBitmap(bitmap: array<bv8>, n: nat)
    requires n <= 8 * bitmap.Length
    modifies bitmap
    ensures forall k: nat :: k < 8 * bitmap.Length ==> (Bit(bitmap[..], k) <==> k >= n)
  {
    forall i | 0 <= i < bitmap.Length { bitmap[i] := 0; }
    ghost var zero := bitmap[..];
    NothingSet(zero);
    hide Bit;
    var i: nat := n;
    while i / 8 < bitmap.Length
      invariant n <= i <= 8 * bitmap.Length
      invariant Painted(zero, bitmap[..], n, i, true)
      decreases 8 * bitmap.Length - i
    {
      ghost var m := bitmap[..];
      var ofs, bit := i / 8, Mask(i % 8);
      RotateWalks(i);
      if bit == 1 {
        PaintByte(zero, m, n, i, ofs, true);
        bitmap[ofs] := 0xFF;
        assert bitmap[..] == m[ofs := 0xFF];
        i := i + 8;
      } else {
        var byte := bitmap[ofs] | bit;
        PaintBit(zero, m, n, i, ofs, bit, byte, true);
        bitmap[ofs] := byte;
        assert bitmap[..] == m[ofs := byte];
        i := i + 1;
      }
    }
  }

  lemma NothingSet(m: seq<bv8>)
    requires forall b :: b in m ==> b == 0
    ensures forall k: nat :: k < 8 * |m| ==> !Bit(m, k)
    ensures forall i: nat :: i <= 8 * |m| ==> Painted(m, m, i, i, true)
  {
    forall k: nat | k < 8 * |m|
      ensures !Bit(m, k)
    {
      ByteFull(k % 8);
      assert m[k / 8] in m;
    }
  }

  /** pool.c:575-581: marks the first `cells` cells in use. */
  method MarkHeader(bitmap: array<bv8>, cells: nat)
    requires cells <= 8 * bitmap.Length
    modifies bitmap
    ensures Painted(old(bitmap[..]), bitmap[..], 0, cells, true)
  {
    hide Bit;
    var i: nat := 0;
    while i < cells
      invariant i <= cells
      invariant Painted(old(bitmap[..]), bitmap[..], 0, i, true)
    {
      ghost var m := bitmap[..];
      var ofs, bit := i / 8, Mask(i % 8);
      var byte := bitmap[ofs] | bit;
      PaintBit(old(bitmap[..]), m, 0, i, ofs, bit, byte, true);
      bitmap[ofs] := byte;
      assert bitmap[..] == m[ofs := byte];
      i := i + 1;
    }
  }
}
