/** CRC_Adler32 (crc.c:69-93): the sums are folded once for every 5550 bytes instead of once for every byte. */
module Adler {
  import opened Arith

  /** MOD_ADLER */
  const MOD: nat := 65521

  const WORD: nat := 0x1_0000_0000

  type Byte = x: int | 0 <= x < 256

  /** The two sums of section 2.2 of RFC 1950, each reduced after every byte. */
  function Sums(data: seq<Byte>): (r: (nat, nat))
    ensures r.0 < MOD && r.1 < MOD
  {
    if data == [] then (1, 0)
    else
      var (a, b) := Sums(data[..|data| - 1]);
      var a' := (a + data[|data| - 1]) % MOD;
      (a', (b + a') % MOD)
  }

  function Checksum(data: seq<Byte>): nat {
    Sums(data).1 * 65536 + Sums(data).0
  }

  /** Addition of two ULONGs. */
  function Add(x: nat, y: nat): nat { (x + y) % WORD }

  /** `(x & 0xffff) + (x >> 16) * (65536 - MOD_ADLER)` on ULONGs */
  function Fold(x: nat): nat { Add(x % 65536, ((x / 65536) * 15) % WORD) }

  lemma AddFits(x: nat, y: nat)
    requires x + y < WORD
    ensures Add(x, y) == x + y
  {}

  /** Folding keeps the remainder and brings every 32-bit value below 2^20. */
  lemma Folds(x: nat)
    requires x < WORD
    ensures Fold(x) % MOD == x % MOD && Fold(x) == x % 65536 + (x / 65536) * 15
  {
    DivParts(x, 65536);
    var h, l := x / 65536, x % 65536;
    FoldParts(x, h, l);
    assert x == h * MOD + (l + h * 15);
    SameRemainder(l + h * 15, x, h);
  }

  lemma FoldParts(x: nat, h: nat, l: nat)
    requires x < WORD && h == x / 65536 && l == x % 65536
    ensures Fold(x) == l + h * 15
  {
    AddFits(l, h * 15);
    AddFits(h * 15, 0);
    hide Add;
  }

  lemma SameRemainder(x: nat, y: nat, k: nat)
    requires y == x + k * MOD
    ensures x % MOD == y % MOD
  {
    DivParts(x, MOD);
    DivUnique(y, MOD, x / MOD + k, x % MOD);
  }

  /** Sums of remainders. */
  lemma AddMod(x: nat, y: nat, z: nat)
    requires x % MOD == y % MOD
    ensures (x + z) % MOD == (y % MOD + z) % MOD
  {
    DivParts(x, MOD);
    SameRemainder(x % MOD + z, x + z, x / MOD);
  }

  /** 1 + 2 + ... + n */
  function Triangle(n: nat): nat { if n == 0 then 0 else n + Triangle(n - 1) }

  lemma {:induction false} TriangleIs(n: nat)
    ensures 2 * Triangle(n) == n * (n + 1)
  {
    if n > 0 { TriangleIs(n - 1); }
  }

  lemma {:induction false} TriangleGrows(m: nat, n: nat)
    requires m <= n
    ensures Triangle(m) <= Triangle(n)
  {
    if m < n { TriangleGrows(m, n - 1); }
  }

  lemma NextTriangle(n: nat)
    ensures Triangle(n + 1) == Triangle(n) + n + 1 && Triangle(0) == 0
  {}

  /** No 32-bit addition overflows in a block: with 5550 bytes the second sum reaches 4294625685 at most. */
  lemma NoOverflow(i: nat)
    requires i <= 5550
    ensures 65865 + 255 * i < WORD && 1048560 + 65865 * i + 255 * Triangle(i) <= 4294625685 < WORD
  {
    TriangleGrows(i, 5550);
    TriangleIs(5550);
  }

  /** One block of at most 5550 bytes. */
  method Block(data: seq<Byte>, start: nat, tlen: nat, a0: nat, b0: nat) returns (a: nat, b: nat)
    requires 0 < tlen <= 5550 && start + tlen <= |data|
    requires a0 <= 65865 && b0 <= 1048560
    requires (a0 % MOD, b0 % MOD) == Sums(data[..start])
    ensures a <= 65865 + 255 * 5550 && b < WORD
    ensures (a % MOD, b % MOD) == Sums(data[..start + tlen])
  {
    hide Sums, Add, Triangle;
    a, b := a0, b0;
    var i := 0;
    NextTriangle(0);
    while i < tlen
      invariant 0 <= i <= tlen && a <= 65865 + 255 * i && b <= 1048560 + 65865 * i + 255 * Triangle(i)
      invariant (a % MOD, b % MOD) == Sums(data[..start + i])
    {
      NoOverflow(i + 1);
      NextSums(data, start + i, a, b);
      NextTriangle(i);
      AddFits(a, data[start + i]);
      AddFits(b, a + data[start + i]);
      a := Add(a, data[start + i]);
      b := Add(b, a);
      i := i + 1;
    }
    NoOverflow(tlen);
  }

  lemma NextSums(data: seq<Byte>, n: nat, a: nat, b: nat)
    requires n < |data| && (a % MOD, b % MOD) == Sums(data[..n])
    ensures ((a + data[n]) % MOD, (b + (a + data[n])) % MOD) == Sums(data[..n + 1])
  {
    assert data[..n + 1][..n] == data[..n];
    AddMod(a, a, data[n]);
    AddMod(b, b, a + data[n]);
    AddMod(a + data[n], a + data[n], b % MOD);
  }

  /** crc.c:69-93 */
  method Adler32(data: seq<Byte>) returns (r: nat)
    ensures r == Checksum(data)
  {
    var a: nat, b: nat := 1, 0;
    assert data[..0] == [];
    assert (1 % MOD, 0 % MOD) == Sums(data[..0]);
    hide Sums, Fold;
    var done, len := 0, |data|;
    while len > 0
      invariant 0 <= len && 0 <= done && done + len == |data| && a <= 65865 && b <= 1048560
      invariant (a % MOD, b % MOD) == Sums(data[..done])
      decreases len
    {
      var tlen := if len > 5550 then 5550 else len;
      len := len - tlen;
      a, b := Block(data, done, tlen, a, b);
      done := done + tlen;
      Folds(a);
      Folds(b);
      a, b := Fold(a), Fold(b);
    }
    assert data[..done] == data;
    r := Finish(a, b);
  }

  /** crc.c:85-92 */
  method Finish(a0: nat, b0: nat) returns (r: nat)
    requires a0 <= 65865 && b0 <= 1048560
    ensures r == (b0 % MOD) * 65536 + a0 % MOD
  {
    var a, b := a0, b0;
    Subtracted(a);
    if a >= MOD { a := a - MOD; }
    Folds(b);
    b := Fold(b);
    hide Fold;
    Subtracted(b);
    if b >= MOD { b := b - MOD; }
    r := b * 65536 + a;
  }

  lemma Subtracted(x: nat)
    requires x < 2 * MOD
    ensures x % MOD == if x >= MOD then x - MOD else x
  {
    if x >= MOD { DivUnique(x, MOD, 1, x - MOD); } else { DivUnique(x, MOD, 0, x); }
  }

  // ----- what the sums are -----

  function Total(data: seq<Byte>): nat { if data == [] then 0 else data[0] + Total(data[1..]) }

  /** Each byte as often as there are bytes from it on. */
  function Weighted(data: seq<Byte>): nat {
    if data == [] then 0 else |data| * data[0] + Weighted(data[1..])
  }

  lemma {:induction false} WeightedSnoc(data: seq<Byte>, x: Byte)
    ensures Total(data + [x]) == Total(data) + x && Weighted(data + [x]) == Weighted(data) + Total(data) + x
  {
    if data == [] {
      assert data + [x] == [x] && [x][1..] == [];
    } else {
      assert (data + [x])[1..] == data[1..] + [x];
      WeightedSnoc(data[1..], x);
      assert (|data| + 1) * data[0] == |data| * data[0] + data[0];
    }
  }

  /** The first sum is one more than all bytes together; the second one is the number of bytes and each byte as often
      as it was added to the first: both modulo 65521. */
  lemma {:induction false} SumsAre(data: seq<Byte>)
    ensures Sums(data).0 == (1 + Total(data)) % 65521 && Sums(data).1 == (|data| + Weighted(data)) % 65521
  {
    if data != [] {
      var n := |data| - 1;
      var front, x := data[..n], data[n];
      assert data == front + [x];
      SumsAre(front);
      WeightedSnoc(front, x);
      NextSums(data, n, 1 + Total(front), n + Weighted(front));
      assert data[..n + 1] == data;
    }
  }

  /** The checksum of the nine letters of Wikipedia is 0x11E60398. */
  lemma KnownChecksum()
    ensures Checksum([87, 105, 107, 105, 112, 101, 100, 105, 97]) == 0x11E6_0398
  {
    hide Total, Weighted, Sums;
    var w: seq<Byte> := [87, 105, 107, 105, 112, 101, 100, 105, 97];
    SumsAre(w);
    FirstByte(w, 0); FirstByte(w, 1); FirstByte(w, 2); FirstByte(w, 3); FirstByte(w, 4);
    FirstByte(w, 5); FirstByte(w, 6); FirstByte(w, 7); FirstByte(w, 8);
    assert w[0..] == w && w[9..] == [];
    NoBytes();
  }

  lemma FirstByte(data: seq<Byte>, i: nat)
    requires i < |data|
    ensures Total(data[i..]) == data[i] + Total(data[i + 1..])
    ensures Weighted(data[i..]) == (|data| - i) * data[i] + Weighted(data[i + 1..])
  {
    assert data[i..][1..] == data[i + 1..];
  }

  lemma NoBytes()
    ensures Total([]) == 0 && Weighted([]) == 0
  {}
}
