/** BigNum_ShiftLeft and BigNum_ShiftRight (bignum.c:218-352). */
module BnShift {
  import opened Arith
  import opened BnValue
  import opened BnBasic

  function Pow2(n: nat): (p: nat)
    ensures p >= 1
  {
    if n == 0 then 1 else 2 * Pow2(n - 1)
  }

  lemma {:induction false} Pow2Add(m: nat, n: nat)
    ensures Pow2(m + n) == Pow2(m) * Pow2(n)
  {
    if m > 0 {
      Pow2Add(m - 1, n);
      assert 2 * (Pow2(m - 1) * Pow2(n)) == (2 * Pow2(m - 1)) * Pow2(n);
    }
  }

  lemma Pow2Word()
    ensures Pow2(32) == B
  {
    assert Pow2(8) == 256;
    Pow2Add(8, 8); Pow2Add(16, 16);
  }

  /** The words and the bits of a shift distance. */
  lemma Pow2Split(bits: nat)
    ensures Pow2(bits) == Pow(bits / 32) * Pow2(bits % 32)
  {
    hide Pow, Pow2;
    Pow2Words(bits / 32, bits % 32);
  }

  lemma {:induction false} Pow2Words(words: nat, bits: nat)
    ensures Pow2(32 * words + bits) == Pow(words) * Pow2(bits)
    decreases words
  {
    if words > 0 {
      Pow2Words(words - 1, bits);
      Pow2Add(32, 32 * (words - 1) + bits);
      Pow2Word();
      assert B * (Pow(words - 1) * Pow2(bits)) == (B * Pow(words - 1)) * Pow2(bits);
    }
  }

  /** Within a word, 2^s and 2^(32-s) are complementary. */
  lemma Complement(s: nat)
    requires s < 32
    ensures Pow2(s) * Pow2(32 - s) == B && Pow2(s) < B && Pow2(32 - s) <= B
  {
    Pow2Add(s, 32 - s);
    Pow2Word();
    assert Pow2(32 - s) >= 2;
    MulMono(2, Pow2(32 - s), Pow2(s));
    MulMono(1, Pow2(s), Pow2(32 - s));
  }

  // ----- bitwise or -----

  function BitOr(x: nat, y: nat): nat
    decreases x + y
  {
    if x == 0 && y == 0 then 0
    else 2 * BitOr(x / 2, y / 2) + (if x % 2 == 1 || y % 2 == 1 then 1 else 0)
  }

  lemma {:induction false} BitOrBound(x: nat, y: nat, k: nat)
    requires x < Pow2(k) && y < Pow2(k)
    ensures BitOr(x, y) < Pow2(k)
  {
    if k > 0 { BitOrBound(x / 2, y / 2, k - 1); }
  }

  /** On disjoint bit ranges, or is addition. */
  lemma {:induction false} BitOrDisjoint(x: nat, y: nat, k: nat)
    requires y < Pow2(k)
    ensures BitOr(x * Pow2(k), y) == x * Pow2(k) + y
  {
    if k == 0 {
      BitOrZero(x);
    } else {
      var z := x * Pow2(k - 1);
      assert x * Pow2(k) == 2 * z;
      assert (2 * z) / 2 == z && (2 * z) % 2 == 0;
      BitOrDisjoint(x, y / 2, k - 1);
    }
  }

  lemma {:induction false} BitOrZero(x: nat)
    ensures BitOr(x, 0) == x
  {
    if x > 0 { BitOrZero(x / 2); }
  }

  // ----- two-word windows -----

  /** (ULONG)((TwoWords << s) >> 32), on 64 bits. */
  function ShlWindow(hi: Word, lo: Word, p: nat): nat {
    ((hi * B + lo) * p) % (B * B) / B
  }

  lemma ShlWindowIs(hi: Word, lo: Word, s: nat)
    requires s < 32
    ensures var p := Pow2(s); ShlWindow(hi, lo, p) == (hi * p) % B + (lo * p) / B && ShlWindow(hi, lo, p) < B
  {
    var p, q := Pow2(s), Pow2(32 - s);
    Complement(s);
    ShlArith(hi, lo, p, q, (hi * p) / B, (hi * p) % B, (lo * p) / B, (lo * p) % B);
  }

  lemma ShlArith(hi: nat, lo: nat, p: nat, q: nat, h: nat, l: nat, m: nat, r: nat)
    requires p * q == B && 0 < p < B && 0 < q && lo < B && hi < B
    requires hi * p == B * h + l && l < B && lo * p == B * m + r && r < B
    ensures ((hi * B + lo) * p) % (B * B) / B == l + m && l + m < B
  {
    // l is a multiple of p below B, and m is below p
    assert l == p * (hi - q * h);
    var t := hi - q * h;
    assert t < q by { if t >= q { MulMono(q, t, p); } }
    assert l <= B - p by { MulMono(t, q - 1, p); }
    assert m < p by { if m >= p { MulMono(p, m, B); MulStrict(lo, B, p); } }
    assert (hi * B + lo) * p == (B * B) * h + (B * (l + m) + r);
    DivUnique((hi * B + lo) * p, B * B, h, B * (l + m) + r);
    DivUnique(B * (l + m) + r, B, l + m, r);
  }

  /** (ULONG)(TwoWords >> s) */
  function ShrWindow(hi: Word, lo: Word, p: nat): Word
    requires p > 0
  {
    ((hi * B + lo) / p) % B
  }

  lemma ShrWindowIs(hi: Word, lo: Word, s: nat)
    requires s < 32
    ensures Pow2(s) * ShrWindow(hi, lo, Pow2(s)) == B * (hi % Pow2(s)) + lo - lo % Pow2(s)
  {
    Complement(s);
    ShrAt(hi, lo, Pow2(s), Pow2(32 - s));
  }

  lemma ShrAt(hi: Word, lo: Word, p: nat, q: nat)
    requires p * q == B && 0 < p && 0 < q
    ensures p * ShrWindow(hi, lo, p) == B * (hi % p) + lo - lo % p
  {
    var h, g, m, r := hi / p, hi % p, lo / p, lo % p;
    DivMod(hi, p); DivMod(lo, p);
    ShrQuotient(hi, lo, p, q, m, r);
    ShrReduce(hi, p, q, h, g, m);
    ShrBack(p, q, g, m, r, lo, ShrWindow(hi, lo, p));
  }

  lemma DivMod(x: nat, p: nat)
    requires p > 0
    ensures x == p * (x / p) + x % p && 0 <= x % p < p && 0 <= x / p && 0 <= p * (x / p) <= x
  {}

  lemma ShrQuotient(hi: nat, lo: nat, p: nat, q: nat, m: nat, r: nat)
    requires p * q == B && 0 < p && lo == p * m + r && r < p
    ensures (hi * B + lo) / p == hi * q + m
  {
    assert hi * (p * q) == (hi * q) * p;
    DivUnique(hi * B + lo, p, hi * q + m, r);
  }

  lemma ShrReduce(hi: nat, p: nat, q: nat, h: nat, g: nat, m: nat)
    requires p * q == B && 0 < p && 0 < q && hi == p * h + g && g < p && p * m < B
    ensures (hi * q + m) % B == g * q + m
  {
    assert (p * h + g) * q == (p * q) * h + g * q;
    assert m < q by { if m >= q { MulMono(q, m, p); } }
    assert g * q <= B - q by { MulMono(g, p - 1, q); assert (p - 1) * q == p * q - q; }
    DivUnique(hi * q + m, B, h, g * q + m);
  }

  lemma ShrBack(p: nat, q: nat, g: nat, m: nat, r: nat, lo: nat, w: nat)
    requires p * q == B && lo == p * m + r && w == g * q + m
    ensures p * w == B * g + lo - r
  {
    assert p * (g * q + m) == (p * q) * g + p * m;
  }

  // ----- shifting left -----

  /** The word at position m, zero outside the number. */
  function WordAt(a: seq<Word>, m: int): Word {
    if 0 <= m < |a| then a[m] else 0
  }

  ghost predicate IsShl(s: seq<Word>, a: seq<Word>, skip: nat, f: nat, n: nat) {
    && skip + n <= |s|
    && (forall k | 0 <= k < skip :: s[k] == 0)
    && (forall m | 0 <= m < n :: s[skip + m] == ShlWindow(WordAt(a, m), WordAt(a, m - 1), f))
  }

  /** The number made of words 0 to m - 1 and zeros. */
  function Upto(a: seq<Word>, m: nat): nat {
    Value(a[..if m <= |a| then m else |a|])
  }

  lemma UptoNext(a: seq<Word>, m: nat)
    requires m <= |a|
    ensures Upto(a, m + 1) == Upto(a, m) + Pow(m) * WordAt(a, m)
  {
    if m < |a| { ValueNext(a, m); }
  }

  /** The words of the shifted number add up, with the bits that leave word m - 1 still in flight. */
  lemma {:induction false} ShlSum(s: seq<Word>, a: seq<Word>, skip: nat, bits: nat, f: nat, m: nat)
    requires bits < 32 && f == Pow2(bits) && m <= |a| + 1 && IsShl(s, a, skip, f, m)
    ensures Value(s[..skip + m]) + Pow(skip + m) * ((WordAt(a, m - 1) * f) / B) == (Pow(skip) * f) * Upto(a, m)
  {
    if m == 0 {
      ValueZeros(s[..skip], 0);
      assert s[..skip][..0] == [] && a[..0] == [];
      assert WordAt(a, -1) * f / B == 0;
    } else {
      var n := m - 1;
      ShlSum(s, a, skip, bits, f, n);
      assert s[skip + n] == ShlWindow(WordAt(a, n), WordAt(a, n - 1), f);
      ShlSumNext(s, a, skip, bits, f, n, WordAt(a, n), WordAt(a, n - 1));
    }
  }

  lemma ShlSumNext(s: seq<Word>, a: seq<Word>, skip: nat, bits: nat, f: nat, n: nat, hi: Word, lo: Word)
    requires bits < 32 && f == Pow2(bits) && n <= |a| && skip + n < |s|
    requires hi == WordAt(a, n) && s[skip + n] == ShlWindow(hi, lo, f)
    requires Value(s[..skip + n]) + Pow(skip + n) * ((lo * f) / B) == (Pow(skip) * f) * Upto(a, n)
    ensures Value(s[..skip + n + 1]) + Pow(skip + n + 1) * ((hi * f) / B) == (Pow(skip) * f) * Upto(a, n + 1)
  {
    hide Value, Pow, Pow2;
    ShlWindowIs(hi, lo, bits);
    UptoNext(a, n);
    ValueNext(s, skip + n);
    PowAdd(skip, n); PowNext(skip + n);
    DivMod(hi * f, B);
    ShlStep(Value(s[..skip + n]), Pow(skip), Pow(n), s[skip + n], (hi * f) / B, (lo * f) / B, (hi * f) % B,
            hi, f, Upto(a, n), Pow(skip + n), Upto(a, n + 1));
  }

  lemma ShlStep(low: int, ps: int, pm: int, w: int, up: int, down: int, l: int, hi: int, f: int, va: int,
      p: int, va': int)
    requires p == ps * pm && low + p * down == (ps * f) * va && w == l + down && hi * f == B * up + l
    requires va' == va + pm * hi
    ensures (low + p * w) + (B * p) * up == (ps * f) * va'
  {
    assert p * (hi * f) == p * (B * up + l);
  }

  /** The words that are not leading zeros; none for zero (bignum.c:235-237, 309-311). */
  method Trim(a: BigNum) returns (words: nat)
    ensures words <= |a| && (words > 0 ==> a[words - 1] != 0) && Value(a[..words]) == Value(a)
    ensures words == 0 <==> Value(a) == 0
  {
    words := |a|;
    while words >= 1 && a[words - 1] == 0
      invariant 0 <= words <= |a|
      invariant forall i | words <= i < |a| :: a[i] == 0
    {
      words := words - 1;
    }
    ValueZeros(a, words);
    if words > 0 {
      ValueTop(a[..words], words - 1);
      MulMono(1, a[words - 1], Pow(words - 1));
    }
  }

  /** The number a shift to the left makes: v * 2^bits with orValue or-ed into the lowest word. */
  function ShiftOr(v: nat, bits: nat, orValue: Word): nat {
    var x := v * Pow2(bits);
    x - x % B + BitOr(x % B, orValue)
  }

  /** Or-ing into vacated bits adds. */
  lemma ShiftOrAdds(v: nat, bits: nat, orValue: Word)
    requires orValue < Pow2(bits)
    ensures ShiftOr(v, bits, orValue) == v * Pow2(bits) + orValue
  {
    if bits < 32 {
      Complement(bits);
      VacatedBits(v, Pow2(bits), Pow2(32 - bits));
      BitOrDisjoint(v % Pow2(32 - bits), orValue, bits);
    } else {
      Pow2Add(32, bits - 32);
      Pow2Word();
      VacatedWord(v, Pow2(bits - 32), Pow2(bits));
      BitOrZeroLeft(orValue);
    }
  }

  lemma VacatedBits(v: nat, p: nat, q: nat)
    requires p * q == B && p > 0 && q > 0
    ensures (v * p) % B == (v % q) * p
  {
    DivMod(v, q);
    var h, t := v / q, v % q;
    assert (q * h + t) * p == (p * q) * h + t * p;
    assert t * p <= B - p by { MulMono(t, q - 1, p); assert (q - 1) * p == p * q - p; }
    DivUnique(v * p, B, h, t * p);
  }

  lemma VacatedWord(v: nat, r: nat, p: nat)
    requires p == B * r
    ensures (v * p) % B == 0
  {
    assert v * p == (v * r) * B;
    DivUnique(v * p, B, v * r, 0);
  }

  /** BigNum_ShiftLeft */
  method ShiftLeft(a: BigNum, bits: nat, orValue: Word) returns (r: BigNum)
    ensures Value(r) == ShiftOr(Value(a), bits, orValue) && Normal(r)
  {
    hide Value, Pow, Pow2;
    var words := Trim(a);
    if words == 0 {
      BitOrZeroLeft(orValue);
      r := CreateFromInteger(orValue);
    } else {
      var shiftBits, wordsToAdd := bits % 32, bits / 32 + 1;
      var num := new Word[words + wordsToAdd](i => 0);
      FillShifted(num, a[..words], shiftBits, wordsToAdd);
      ShiftedValue(num[..], a[..words], bits);
      OrLow(num, orValue);
      r := num[..];
      if r[|r| - 1] == 0 {
        r := CreateFromBigNum(r);
      }
    }
  }

  lemma {:induction false} BitOrZeroLeft(y: nat)
    ensures BitOr(0, y) == y
  {
    if y > 0 { BitOrZeroLeft(y / 2); }
  }

  lemma ShiftedValue(s: seq<Word>, a: seq<Word>, bits: nat)
    requires |s| == |a| + bits / 32 + 1 && IsShl(s, a, bits / 32, Pow2(bits % 32), |a| + 1)
    ensures Value(s) == Value(a) * Pow2(bits)
  {
    var skip, f := bits / 32, Pow2(bits % 32);
    ShlSum(s, a, skip, bits % 32, f, |a| + 1);
    Pow2Split(bits);
    assert s[..skip + (|a| + 1)] == s && a[..|a|] == a;
    assert WordAt(a, |a|) * f / B == 0;
  }

  /** bignum.c:328-339 */
  method FillShifted(num: array<Word>, a: seq<Word>, shiftBits: nat, wordsToAdd: nat)
    requires shiftBits < 32 && wordsToAdd > 0 && num.Length == |a| + wordsToAdd
    modifies num
    ensures IsShl(num[..], a, wordsToAdd - 1, Pow2(shiftBits), |a| + 1)
  {
    var words := num.Length;
    var i := words;
    while i >= 1
      invariant 0 <= i <= words
      invariant forall k | i <= k < words :: num[k] == ShiftedWord(a, wordsToAdd - 1, Pow2(shiftBits), k)
    {
      var hi: Word, lo: Word := 0, 0;
      if i >= wordsToAdd {
        if i < words { hi := a[i - wordsToAdd]; }
        if i > wordsToAdd { lo := a[i - wordsToAdd - 1]; }
      }
      ShlWindowIs(hi, lo, shiftBits);
      num[i - 1] := ShlWindow(hi, lo, Pow2(shiftBits));
      i := i - 1;
    }
    assert forall k | 0 <= k < words :: num[..][k] == ShiftedWord(a, wordsToAdd - 1, Pow2(shiftBits), k);
  }

  ghost function ShiftedWord(a: seq<Word>, skip: nat, f: nat, k: nat): nat {
    if k < skip then 0 else ShlWindow(WordAt(a, k - skip), WordAt(a, k - skip - 1), f)
  }

  /** bignum.c:341 */
  method OrLow(num: array<Word>, orValue: Word)
    requires num.Length >= 1
    modifies num
    ensures Value(num[..]) == old(Value(num[..])) - old(num[0]) + BitOr(old(num[0]), orValue)
    ensures old(num[0]) == old(Value(num[..])) % B
  {
    var w := BitOr(num[0], orValue);
    Pow2Word();
    BitOrBound(num[0], orValue, 32);
    DivUnique(Value(num[..]), B, Value(num[..][1..]), num[0]);
    ValueUpdate(num[..], 0, w);
    ghost var after := num[..][0 := w];
    num[0] := w;
    assert num[..] == after;
  }

  // ----- shifting right -----

  ghost predicate IsShr(s: seq<Word>, a: seq<Word>, f: nat, n: nat)
    requires f > 0
  {
    n <= |s| && forall k | 0 <= k < n :: s[k] == ShrWindow(WordAt(a, k + 1), WordAt(a, k), f)
  }

  /** The shifted words times 2^bits are the words, but for the bits that leave word 0 and those still
      to come from word m. */
  lemma {:induction false} ShrSum(s: seq<Word>, a: seq<Word>, bits: nat, f: nat, m: nat)
    requires 0 < |a| && bits < 32 && f == Pow2(bits) && m <= |a| && IsShr(s, a, f, m)
    ensures f * Value(s[..m]) + a[0] % f == Upto(a, m) + Pow(m) * (WordAt(a, m) % f)
  {
    if m == 0 {
      assert s[..0] == [] && a[..0] == [];
    } else {
      var n := m - 1;
      ShrSum(s, a, bits, f, n);
      ShrSumNext(s, a, bits, f, n, WordAt(a, n + 1), WordAt(a, n));
    }
  }

  lemma ShrSumNext(s: seq<Word>, a: seq<Word>, bits: nat, f: nat, n: nat, hi: Word, lo: Word)
    requires bits < 32 && f == Pow2(bits) && n < |a| && n < |s|
    requires lo == WordAt(a, n) && s[n] == ShrWindow(hi, lo, f)
    requires f * Value(s[..n]) + a[0] % f == Upto(a, n) + Pow(n) * (lo % f)
    ensures f * Value(s[..n + 1]) + a[0] % f == Upto(a, n + 1) + Pow(n + 1) * (hi % f)
  {
    ShrWindowIs(hi, lo, bits);
    UptoNext(a, n);
    ValueNext(s, n);
    ShrStep(f, Value(s[..n]), Value(s[..n + 1]), a[0] % f, Upto(a, n), Upto(a, n + 1), Pow(n), s[n], lo, lo % f,
            hi % f);
  }

  lemma ShrStep(f: int, vs: int, vs': int, r0: int, va: int, va': int, p: int, w: int, lo: int, rl: int, rh: int)
    requires f * vs + r0 == va + p * rl && vs' == vs + p * w && va' == va + p * lo && f * w == B * rh + lo - rl
    ensures f * vs' + r0 == va' + (B * p) * rh
  {
    assert f * (p * w) == p * (f * w);
    assert p * (f * w) == p * (B * rh) + p * lo - p * rl;
  }

  /** BigNum_ShiftRight */
  method ShiftRight(a: BigNum, bits: nat) returns (r: BigNum)
    ensures Value(r) == Value(a) / Pow2(bits) && Normal(r)
  {
    var total := Trim(a);
    ghost var t := a[..total];
    var shiftBits, wordsToSkip := bits % 32, bits / 32;
    var words := if total > wordsToSkip then total - wordsToSkip else 0;
    if words <= 1 {
      var word: Word := 0;
      if !(words == 0 || wordsToSkip >= |a|) {
        word := a[wordsToSkip];
      }
      assert word == WordAt(t, wordsToSkip);
      ShiftedOut(t, bits, word);
      r := CreateFromInteger(word / Pow2(shiftBits));
    } else {
      r := ShiftWords(a, total, bits);
    }
  }

  /** bignum.c:258-278 */
  method ShiftWords(a: BigNum, total: nat, bits: nat) returns (r: BigNum)
    requires bits / 32 + 1 < total <= |a|
    ensures Value(r) == Value(a[..total]) / Pow2(bits) && Normal(r)
  {
    var num := new Word[total - bits / 32](i => 0);
    FillDown(num, a[..total], bits / 32, bits % 32);
    ShiftedDown(num[..], a[..total], bits);
    r := num[..];
    if r[|r| - 1] == 0 {
      r := CreateFromBigNum(r);
    }
  }

  /** bignum.c:263-271 */
  method FillDown(num: array<Word>, a: seq<Word>, skip: nat, shiftBits: nat)
    requires num.Length + skip == |a|
    modifies num
    ensures IsShr(num[..], a[skip..], Pow2(shiftBits), num.Length)
  {
    var i := 0;
    while i < num.Length
      invariant 0 <= i <= num.Length
      invariant forall k | 0 <= k < i ::
          num[k] == ShrWindow(WordAt(a[skip..], k + 1), WordAt(a[skip..], k), Pow2(shiftBits))
    {
      var hi: Word := 0;
      if i < num.Length - 1 { hi := a[i + skip + 1]; }
      num[i] := ShrWindow(hi, a[i + skip], Pow2(shiftBits));
      i := i + 1;
    }
  }

  lemma ShiftedDown(s: seq<Word>, a: seq<Word>, bits: nat)
    requires bits / 32 < |a| && |s| == |a| - bits / 32
    requires IsShr(s, a[bits / 32..], Pow2(bits % 32), |s|)
    ensures Value(s) == Value(a) / Pow2(bits)
  {
    var skip, f := bits / 32, Pow2(bits % 32);
    var hi := a[skip..];
    ShrWhole(s, hi, bits % 32, f);
    Pow2Split(bits);
    ValueSplit(a, skip);
    ValueBound(a[..skip]);
    DownArith(Value(a), Value(a[..skip]), Pow(skip), f, Value(s), hi[0] % f, Value(hi));
  }

  lemma ShrWhole(s: seq<Word>, a: seq<Word>, bits: nat, f: nat)
    requires 0 < |a| == |s| && bits < 32 && f == Pow2(bits) && IsShr(s, a, f, |s|)
    ensures f * Value(s) + a[0] % f == Value(a)
  {
    assert s[..|a|] == s && a[..|a|] == a;
    ShrSum(s, a, bits, f, |a|);
    DivUnique(0, f, 0, 0);
    ShrNoRest(f * Value(s), a[0] % f, Value(a), Pow(|a|), WordAt(a, |a|) % f);
  }

  lemma ShrNoRest(x: int, r: int, v: int, p: int, rest: int)
    requires x + r == v + p * rest && rest == 0
    ensures x + r == v
  {}

  lemma DownArith(v: nat, low: nat, p: nat, f: nat, s: nat, r: nat, hi: nat)
    requires p > 0 && f > 0 && v == low + p * hi && low < p && f * s + r == hi && r < f
    ensures v / (p * f) == s
  {
    assert p * hi == (p * f) * s + p * r;
    assert p * r <= p * f - p by { MulMono(r, f - 1, p); assert p * (f - 1) == p * f - p; }
    DivUnique(v, p * f, s, low + p * r);
  }

  lemma ShiftedOut(a: seq<Word>, bits: nat, word: Word)
    requires |a| <= bits / 32 + 1 && word == WordAt(a, bits / 32)
    ensures Value(a) / Pow2(bits) == word / Pow2(bits % 32)
    ensures 0 <= word / Pow2(bits % 32) <= word
  {
    var skip, f := bits / 32, Pow2(bits % 32);
    Pow2Split(bits);
    DivMod(word, f);
    MulMono(1, f, word / f);
    if |a| == skip + 1 {
      ValueTop(a, skip);
      ValueBound(a[..skip]);
      DownArith(Value(a), Value(a[..skip]), Pow(skip), f, word / f, word % f, word);
    } else {
      ValueBound(a);
      PowMono(|a|, skip);
      DownArith(Value(a), Value(a), Pow(skip), f, 0, 0, 0);
    }
  }
}
