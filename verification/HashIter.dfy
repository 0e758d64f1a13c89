/** Iteration over the hash map (map.c:311-383). An iterator names its node by bucket and place in the chain;
    the code holds a pointer to it. */
module HashIter {
  import opened HashTable
  import opened HashMap
  import opened Wrappers

  /** map_iter_t: over all nodes, or over those of one key. */
  class Iter<K(!new)> {
    const keyed: bool          // a key size other than 0
    var key: Option<K>
    var bucketIdx: int
    var node: int              // -1 stands for a null pointer

    /** map_iter, map_key_iter */
    constructor (key: Option<K>)
      ensures keyed == key.Some? && this.key == key && bucketIdx == -1 && node == -1
    {
      this.keyed, this.key, bucketIdx, node := key.Some?, key, -1, -1;
    }
  }

  /** The iterator is before the first node, at a node, or past the last one. */
  predicate At<K, V>(b: seq<Chain<K, V>>, bucketIdx: int, node: int) {
    && -1 <= bucketIdx && -1 <= node
    && (node >= 0 ==> 0 <= bucketIdx < |b| && node < |b[bucketIdx]|)
  }

  function FlatFrom<K, V>(b: seq<Chain<K, V>>, i: int): Chain<K, V>
    requires i >= 0
  {
    if i <= |b| then Flat(b, i) else []
  }

  /** The nodes still to come. */
  function Rest<K, V>(b: seq<Chain<K, V>>, bucketIdx: int, node: int): Chain<K, V>
    requires At(b, bucketIdx, node)
  {
    (if node >= 0 then b[bucketIdx][node + 1..] else []) + FlatFrom(b, bucketIdx + 1)
  }

  /** The iterator has moved from where `rest` was to come to the first node of it, or to the end. */
  ghost predicate Moved<K, V>(b: seq<Chain<K, V>>, rest: Chain<K, V>, ok: bool, bucketIdx: int, node: int) {
    && At(b, bucketIdx, node) && (ok <==> rest != [])
    && if ok then node >= 0 && b[bucketIdx][node] == rest[0] && Rest(b, bucketIdx, node) == rest[1..]
       else node == -1 && Rest(b, bucketIdx, node) == []
  }

  /** map.c:357-364: to the first node of the next chain that has one. */
  method NextBucket<K(!new), V(!new)>(m: HashMap<K, V>, it: Iter<K>) returns (ok: bool)
    requires it.bucketIdx >= -1
    modifies it`bucketIdx, it`node
    ensures Moved(m.buckets[..], FlatFrom(m.buckets[..], old(it.bucketIdx) + 1), ok, it.bucketIdx, it.node)
    ensures it.bucketIdx > old(it.bucketIdx) && (!ok ==> it.bucketIdx >= m.buckets.Length)
  {
    ghost var b, rest := m.buckets[..], FlatFrom(m.buckets[..], it.bucketIdx + 1);
    while true
      invariant it.bucketIdx >= old(it.bucketIdx) && FlatFrom(b, it.bucketIdx + 1) == rest
      decreases |b| - it.bucketIdx
    {
      it.bucketIdx := it.bucketIdx + 1;
      if it.bucketIdx >= m.buckets.Length {
        it.node := -1;
        return false;
      }
      if |m.buckets[it.bucketIdx]| > 0 {
        it.node := 0;
        return true;
      }
    }
  }

  /** map_next without a key: map.c:335-368. */
  method NextOfAll<K(!new), V(!new)>(m: HashMap<K, V>, it: Iter<K>) returns (ok: bool)
    requires !it.keyed && At(m.buckets[..], it.bucketIdx, it.node)
    modifies it`bucketIdx, it`node, it`key
    ensures Moved(m.buckets[..], old(Rest(m.buckets[..], it.bucketIdx, it.node)), ok, it.bucketIdx, it.node)
    ensures it.bucketIdx > old(it.bucketIdx) || (ok && it.bucketIdx == old(it.bucketIdx) && it.node == old(it.node) + 1)
    ensures !ok ==> it.bucketIdx >= m.buckets.Length
    ensures ok ==> it.key == Some(m.buckets[it.bucketIdx][it.node].key)
  {
    ghost var rest := Rest(m.buckets[..], it.bucketIdx, it.node);
    ok := false;
    if it.node >= 0 {
      it.node := it.node + 1;
      ok := it.node < |m.buckets[it.bucketIdx]|;
      if !ok { it.node := -1; }
    }
    if !ok {
      assert rest == FlatFrom(m.buckets[..], it.bucketIdx + 1);
      ok := NextBucket(m, it);
    }
    if ok { it.key := Some(m.buckets[it.bucketIdx][it.node].key); }
  }

  lemma MovedTo<K, V>(b: seq<Chain<K, V>>, left: Chain<K, V>, bucketIdx: int, node: int)
    requires Moved(b, left, true, bucketIdx, node)
    ensures At(b, bucketIdx, node) && node >= 0 && left != [] && b[bucketIdx][node] == left[0]
    ensures Rest(b, bucketIdx, node) == left[1..]
  {}

  lemma MovedPast<K, V>(b: seq<Chain<K, V>>, left: Chain<K, V>, bucketIdx: int, node: int)
    requires Moved(b, left, false, bucketIdx, node)
    ensures left == []
  {}

  lemma AllToCome<K, V>(b: seq<Chain<K, V>>)
    ensures At(b, -1, -1) && Rest(b, -1, -1) == Flat(b, 0)
  {}

  lemma Counted<K(!new), V(!new)>(m: HashMap<K, V>)
    requires m.Valid()
    ensures m.nnodes == |Flat(m.buckets[..], 0)|
  {}

  /** A whole iteration visits every node of the map once, bucket by bucket. */
  method Visit<K(!new, ==), V(!new)>(m: HashMap<K, V>) returns (seen: Chain<K, V>)
    requires m.Valid()
    ensures seen == Flat(m.buckets[..], 0) && |seen| == m.nnodes
  {
    hide *;
    Counted(m);
    var it := new Iter<K>(None);
    ghost var b, left := m.buckets[..], Flat(m.buckets[..], 0);
    seen := [];
    AllToCome(b);
    var ok := NextOfAll(m, it);
    while ok
      invariant m.buckets[..] == b && Moved(b, left, ok, it.bucketIdx, it.node) && seen + left == Flat(b, 0)
      decreases |left|
    {
      MovedTo(b, left, it.bucketIdx, it.node);
      seen := seen + [m.buckets[it.bucketIdx][it.node]];
      left := left[1..];
      ok := NextOfAll(m, it);
    }
    MovedPast(b, left, it.bucketIdx, it.node);
  }

  // ----- the nodes of one key -----

  /** The values still to come under the key of the iterator; before the first one, all of them. */
  function KeyRest<K, V>(keys: Keys<K>, b: seq<Chain<K, V>>, key: K, bucketIdx: int, node: int): seq<V>
    requires At(b, bucketIdx, node)
  {
    if node >= 0 then Pick(keys, b[bucketIdx][node + 1..], key) else Held(keys, b, key)
  }

  /** The iterator has the key of its node. */
  ghost predicate KeyHash<K, V>(keys: Keys<K>, b: seq<Chain<K, V>>, key: K, bucketIdx: int, node: int)
    requires At(b, bucketIdx, node)
  {
    node >= 0 ==> b[bucketIdx][node].hash == keys.hash(key)
  }

  /** map_next with a key: map.c:337-343, 349-355, 366-367. From its first node on the iterator goes on with the
      key of the node it is at. */
  method NextOfKey<K(!new), V(!new)>(m: HashMap<K, V>, it: Iter<K>) returns (ok: bool)
    requires m.Valid() && Lawful(m.keys) && it.keyed && it.key.Some? && At(m.buckets[..], it.bucketIdx, it.node)
    requires KeyHash(m.keys, m.buckets[..], it.key.value, it.bucketIdx, it.node)
    modifies it`bucketIdx, it`node, it`key
    ensures it.key.Some? && At(m.buckets[..], it.bucketIdx, it.node) && (ok <==> it.node >= 0)
    ensures KeyHash(m.keys, m.buckets[..], it.key.value, it.bucketIdx, it.node)
    ensures ok ==> it.key.value == m.buckets[it.bucketIdx][it.node].key
    ensures old(it.node) >= 0 ==> it.bucketIdx == old(it.bucketIdx) && (ok ==> it.node > old(it.node))
    ensures ok <==> old(KeyRest(m.keys, m.buckets[..], it.key.value, it.bucketIdx, it.node)) != []
    ensures ok ==>
      [m.buckets[it.bucketIdx][it.node].value] + KeyRest(m.keys, m.buckets[..], it.key.value, it.bucketIdx, it.node)
      == old(KeyRest(m.keys, m.buckets[..], it.key.value, it.bucketIdx, it.node))
  {
    hide Flat, Pick, PowerOfTwo;
    var key, from := it.key.value, it.node + 1;
    var hash := m.keys.hash(key);
    if it.node < 0 {
      if m.buckets.Length == 0 { return false; }
      it.bucketIdx := BucketIdx(hash, m.buckets.Length);
    } else {
      hash := m.buckets[it.bucketIdx][it.node].hash;
    }
    var chain := m.buckets[it.bucketIdx];
    var i := m.GetMatch(chain, from, hash, key);
    it.node := i;
    ok := i >= 0;
    if from == 0 { assert chain[0..] == chain; }
    if ok {
      PickAt(m.keys, chain, from, i, key);
      it.key := Some(chain[i].key);
      SameKeyPick(m.keys, chain[i + 1..], key, chain[i].key);
    }
  }

  lemma SameKeyPick<K(!new), V>(keys: Keys<K>, s: Chain<K, V>, key: K, other: K)
    requires Lawful(keys) && keys.same(other, key)
    ensures Pick(keys, s, key) == Pick(keys, s, other) && keys.hash(key) == keys.hash(other)
  {
    if s != [] { SameMatches(keys, s, key, other); }
  }

  lemma PickAt<K, V>(keys: Keys<K>, chain: Chain<K, V>, from: nat, i: nat, key: K)
    requires from <= i < |chain| && Matches(keys, chain[i], key) && Pick(keys, chain[from..i], key) == []
    ensures Pick(keys, chain[from..], key) == [chain[i].value] + Pick(keys, chain[i + 1..], key)
  {
    assert chain[from..] == chain[from..i] + ([chain[i]] + chain[i + 1..]);
    PickConcat(keys, chain[from..i], [chain[i]] + chain[i + 1..], key);
    PickConcat(keys, [chain[i]], chain[i + 1..], key);
    PickOne(keys, chain[i], key);
  }

  /** Iterating over a key gives the values the map holds under it, in order. */
  method VisitKey<K(!new, ==), V(!new)>(m: HashMap<K, V>, key: K) returns (seen: seq<V>)
    requires m.Valid() && Lawful(m.keys)
    ensures seen == Held(m.keys, m.buckets[..], key)
  {
    var it := new Iter<K>(Some(key));
    ghost var b: seq<Chain<K, V>> := m.buckets[..];
    ghost var left := Held(m.keys, b, key);
    seen := [];
    hide Held, Pick, Placed, Flat, Lawful;
    var ok := NextOfKey(m, it);
    while ok
      invariant it.key.Some? && At(b, it.bucketIdx, it.node) && (ok <==> it.node >= 0) && (ok <==> left != [])
      invariant KeyHash(m.keys, b, it.key.value, it.bucketIdx, it.node)
      invariant ok ==>
        [b[it.bucketIdx][it.node].value] + KeyRest(m.keys, b, it.key.value, it.bucketIdx, it.node) == left
      invariant seen + left == Held(m.keys, b, key)
      decreases |left|
    {
      seen := seen + [m.buckets[it.bucketIdx][it.node].value];
      left := left[1..];
      ok := NextOfKey(m, it);
    }
  }

  // ----- erasing on the way -----

  /** The nodes before the one the iterator is at. */
  function Done<K, V>(b: seq<Chain<K, V>>, i: nat, node: nat): Chain<K, V>
    requires i < |b| && node <= |b[i]|
  {
    if i == 0 then b[0][..node] else Done(b, i - 1, |b[i - 1]|) + b[i][..node]
  }

  lemma {:induction false} FlatSplits<K, V>(b: seq<Chain<K, V>>, i: nat, node: nat)
    requires i < |b| && node <= |b[i]|
    ensures Flat(b, 0) == Done(b, i, node) + (b[i][node..] + Flat(b, i + 1))
  {
    assert b[i] == b[i][..node] + b[i][node..];
    if i > 0 {
      FlatSplits(b, i - 1, |b[i - 1]|);
      assert b[i - 1][|b[i - 1]|..] == [];
    }
  }

  lemma {:induction false} DoneSame<K, V>(b: seq<Chain<K, V>>, b': seq<Chain<K, V>>, i: nat, node: nat)
    requires i < |b| == |b'| && node <= |b[i]| && node <= |b'[i]| && b[i][..node] == b'[i][..node]
    requires forall j :: 0 <= j < i ==> b[j] == b'[j]
    ensures Done(b, i, node) == Done(b', i, node)
  {
    if i > 0 { DoneSame(b, b', i - 1, |b[i - 1]|); }
  }

  /** What an iterator needs to go on with map_next. */
  ghost predicate CanGoOn<K(!new), V>(keys: Keys<K>, b: seq<Chain<K, V>>, keyed: bool, key: Option<K>, bucketIdx: int,
      node: int)
  {
    && At(b, bucketIdx, node)
    && (keyed ==> Lawful(keys) && key.Some? && KeyHash(keys, b, key.value, bucketIdx, node))
  }

  /** The iterator over a key has moved from where `rest` was to come to the first of it, or to the end. */
  ghost predicate KeyMoved<K, V>(keys: Keys<K>, b: seq<Chain<K, V>>, rest: seq<V>, ok: bool, key: Option<K>,
      bucketIdx: int, node: int)
  {
    && At(b, bucketIdx, node) && key.Some? && (ok <==> node >= 0) && (ok <==> rest != [])
    && (ok ==> [b[bucketIdx][node].value] + KeyRest(keys, b, key.value, bucketIdx, node) == rest)
  }

  /** map_erase: map.c:372-383. The node goes, the nodes before and behind it stay, and the iterator is at the
      next one: of all nodes, or of those of its key. */
  method Erase<K(!new), V(!new)>(m: HashMap<K, V>, it: Iter<K>) returns (ok: bool)
    requires m.Valid() && CanGoOn(m.keys, m.buckets[..], it.keyed, it.key, it.bucketIdx, it.node) && it.node >= 0
    modifies it`bucketIdx, it`node, it`key, m`nnodes, m.buckets
    ensures m.Valid() && m.nnodes == old(m.nnodes) - 1 && m.buckets == old(m.buckets)
    ensures CanGoOn(m.keys, m.buckets[..], it.keyed, it.key, it.bucketIdx, it.node)
    ensures Flat(m.buckets[..], 0) ==
      old(Done(m.buckets[..], it.bucketIdx, it.node)) + old(Rest(m.buckets[..], it.bucketIdx, it.node))
    ensures !it.keyed ==>
      Moved(m.buckets[..], old(Rest(m.buckets[..], it.bucketIdx, it.node)), ok, it.bucketIdx, it.node)
    ensures it.keyed ==>
      KeyMoved(m.keys, m.buckets[..], old(KeyRest(m.keys, m.buckets[..], it.key.value, it.bucketIdx, it.node)), ok,
               it.key, it.bucketIdx, it.node)
  {
    hide Placed, Flat, Moved, Done, Rest, KeyRest, KeyHash, KeyMoved, Lawful;
    ghost var b: seq<Chain<K, V>> := m.buckets[..];
    var i: nat, j: nat := it.bucketIdx, it.node;
    ghost var keyRest: seq<V> := if it.keyed then KeyRest(m.keys, b, it.key.value, i, j) else [];
    TakenOne(m.keys, b, i, j);
    if it.keyed {
      ok := NextOfKey(m, it);
      ErasedKey(m.keys, b, i, j, ok, it.key.value, it.node, keyRest);
    } else {
      ok := NextOfAll(m, it);
      Erased(b, i, j, ok, it.bucketIdx, it.node);
    }
    var chain := m.buckets[i];
    m.buckets[i] := chain[..j] + chain[j + 1..];
    m.nnodes := m.nnodes - 1;
    assert m.buckets[..] == b[i := b[i][..j] + b[i][j + 1..]];
    // a pointer stays where it is; a place in the chain moves up
    if it.bucketIdx == i && it.node > j { it.node := it.node - 1; }
  }

  lemma ErasedKey<K, V>(keys: Keys<K>, b: seq<Chain<K, V>>, i: nat, j: nat, ok: bool, key: K, node: int, rest: seq<V>)
    requires At(b, i, j) && At(b, i, node) && (ok <==> node >= 0) && (ok ==> node > j) && (ok <==> rest != [])
    requires ok ==> [b[i][node].value] + KeyRest(keys, b, key, i, node) == rest
    requires KeyHash(keys, b, key, i, node)
    ensures var b': seq<Chain<K, V>> := b[i := b[i][..j] + b[i][j + 1..]];
      var node' := if node > j then node - 1 else node;
      && Flat(b', 0) == Done(b, i, j) + Rest(b, i, j)
      && KeyMoved(keys, b', rest, ok, Some(key), i, node') && KeyHash(keys, b', key, i, node')
  {
    hide Flat, Done;
    var b': seq<Chain<K, V>> := b[i := b[i][..j] + b[i][j + 1..]];
    ErasedFlat(b, b', i, j);
    if ok { ChainMoved(b[i], j, node); }
  }

  lemma ChainMoved<T>(chain: seq<T>, j: nat, n: nat)
    requires j < n < |chain|
    ensures var rest := chain[..j] + chain[j + 1..]; rest[n - 1] == chain[n] && rest[n..] == chain[n + 1..]
  {}

  lemma ErasedFlat<K, V>(b: seq<Chain<K, V>>, b': seq<Chain<K, V>>, i: nat, j: nat)
    requires i < |b| && j < |b[i]| && b' == b[i := b[i][..j] + b[i][j + 1..]]
    ensures Flat(b', 0) == Done(b, i, j) + Rest(b, i, j)
  {
    hide Flat, Done;
    FlatSplits(b', i, j);
    DoneSame(b, b', i, j);
    assert b'[i][j..] == b[i][j + 1..];
    FlatSame(b, b', i + 1);
  }

  lemma Erased<K, V>(b: seq<Chain<K, V>>, i: nat, j: nat, ok: bool, bucketIdx: int, node: int)
    requires i < |b| && j < |b[i]| && Moved(b, Rest(b, i, j), ok, bucketIdx, node)
    requires ok ==> bucketIdx > i || (bucketIdx == i && node == j + 1)
    requires !ok ==> bucketIdx >= |b|
    ensures var b': seq<Chain<K, V>> := b[i := b[i][..j] + b[i][j + 1..]];
      && Flat(b', 0) == Done(b, i, j) + Rest(b, i, j)
      && Moved(b', Rest(b, i, j), ok, bucketIdx, if bucketIdx == i && node > j then node - 1 else node)
      && At(b', bucketIdx, if bucketIdx == i && node > j then node - 1 else node)
  {
    hide Flat, Done;
    var b': seq<Chain<K, V>> := b[i := b[i][..j] + b[i][j + 1..]];
    ErasedFlat(b, b', i, j);
    if ok {
      FlatSame(b, b', bucketIdx + 1);
      if bucketIdx == i { ErasedHere(b, b', i, j); }
    }
  }

  lemma ErasedHere<K, V>(b: seq<Chain<K, V>>, b': seq<Chain<K, V>>, i: nat, j: nat)
    requires i < |b| && j + 1 < |b[i]| && b' == b[i := b[i][..j] + b[i][j + 1..]]
    ensures b'[i][j] == b[i][j + 1] && b'[i][j + 1..] == b[i][j + 2..]
  {}
}
