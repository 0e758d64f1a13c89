/** The bucket array of map.c as a value: what a lookup by key sees of it. */
module HashTable {
  /** A map_node_t, without the pointer to the next node of its chain. */
  datatype Node<K, V> = Node(hash: nat, key: K, value: V)

  type Chain<K, V> = seq<Node<K, V>>

  /** How keys are hashed and compared: func_hash_key and func_match_key. */
  datatype Keys<!K> = Keys(hash: K -> nat, same: (K, K) -> bool)

  /** Keys are compared by an equivalence, and keys that match have the same hash. */
  ghost predicate Lawful<K(!new)>(keys: Keys<K>) {
    && (forall a :: keys.same(a, a))
    && (forall a, b :: keys.same(a, b) ==> keys.same(b, a) && keys.hash(a) == keys.hash(b))
    && (forall a, b, c :: keys.same(a, b) && keys.same(b, c) ==> keys.same(a, c))
  }

  /** map.c:224-227 */
  predicate Matches<K, V>(keys: Keys<K>, n: Node<K, V>, k: K) { n.hash == keys.hash(k) && keys.same(n.key, k) }

  /** The values under a key in a chain, first node first. */
  function Pick<K, V>(keys: Keys<K>, s: Chain<K, V>, k: K): seq<V> {
    if s == [] then []
    else if Matches(keys, s[0], k) then [s[0].value] + Pick(keys, s[1..], k)
    else Pick(keys, s[1..], k)
  }

  /** The nodes of a list that go to bucket `i` of `n`. */
  function Going<K, V>(s: Chain<K, V>, i: nat, n: nat): Chain<K, V>
    requires n > 0
  {
    if s == [] then []
    else if s[0].hash % n == i then [s[0]] + Going(s[1..], i, n)
    else Going(s[1..], i, n)
  }

  function Rev<T>(s: seq<T>): (r: seq<T>)
    ensures |r| == |s|
  {
    if s == [] then [] else Rev(s[1..]) + [s[0]]
  }

  /** All chains from bucket `i` on, each one backwards: the list that map_resize builds. */
  function Unhooked<K, V>(b: seq<Chain<K, V>>, i: nat): Chain<K, V>
    requires i <= |b|
    decreases |b| - i
  {
    if i == |b| then [] else Rev(b[i]) + Unhooked(b, i + 1)
  }

  /** All nodes from bucket `i` on in the order of an iteration. */
  function Flat<K, V>(b: seq<Chain<K, V>>, i: nat): Chain<K, V>
    requires i <= |b|
    decreases |b| - i
  {
    if i == |b| then [] else b[i] + Flat(b, i + 1)
  }

  /** Every node carries the hash of its key and is in the bucket for it. */
  ghost predicate Placed<K, V>(keys: Keys<K>, b: seq<Chain<K, V>>) {
    forall i, j :: 0 <= i < |b| && 0 <= j < |b[i]| ==> b[i][j].hash == keys.hash(b[i][j].key) && b[i][j].hash % |b| == i
  }

  /** What the map holds under a key: the values of its bucket, first one first. */
  function Held<K, V>(keys: Keys<K>, b: seq<Chain<K, V>>, k: K): seq<V> {
    if |b| == 0 then [] else Pick(keys, b[keys.hash(k) % |b|], k)
  }

  function With<T>(s: seq<T>, x: T, append: bool): seq<T> { if append then s + [x] else [x] + s }

  /** What the map holds under a key after one more value went under `key`, last or first. */
  function HeldWith<K, V>(keys: Keys<K>, b: seq<Chain<K, V>>, key: K, value: V, append: bool, k: K): seq<V> {
    if keys.same(key, k) then With(Held(keys, b, k), value, append) else Held(keys, b, k)
  }

  /** What the map holds under a key after the first value went from under `key`. */
  function HeldWithout<K, V>(keys: Keys<K>, b: seq<Chain<K, V>>, key: K, k: K): seq<V> {
    if keys.same(key, k) && Held(keys, b, key) != [] then Held(keys, b, key)[1..] else Held(keys, b, k)
  }

  lemma {:induction false} PickConcat<K, V>(keys: Keys<K>, s: Chain<K, V>, t: Chain<K, V>, k: K)
    ensures Pick(keys, s + t, k) == Pick(keys, s, k) + Pick(keys, t, k)
  {
    if s == [] {
      assert s + t == t;
    } else {
      PickConcat(keys, s[1..], t, k);
      assert (s + t)[1..] == s[1..] + t;
    }
  }

  lemma {:induction false} RevConcat<T>(s: seq<T>, t: seq<T>)
    ensures Rev(s + t) == Rev(t) + Rev(s)
  {
    if s == [] {
      assert s + t == t;
    } else {
      RevConcat(s[1..], t);
      assert (s + t)[1..] == s[1..] + t;
    }
  }

  lemma {:induction false} RevRev<T>(s: seq<T>)
    ensures Rev(Rev(s)) == s
  {
    if s != [] {
      RevRev(s[1..]);
      RevConcat(Rev(s[1..]), [s[0]]);
    }
  }

  lemma {:induction false} PickRev<K, V>(keys: Keys<K>, s: Chain<K, V>, k: K)
    ensures Pick(keys, Rev(s), k) == Rev(Pick(keys, s, k))
  {
    if s != [] {
      PickRev(keys, s[1..], k);
      PickConcat(keys, Rev(s[1..]), [s[0]], k);
    }
  }

  /** The nodes that match a key all go to its bucket. */
  lemma {:induction false} PickGoing<K, V>(keys: Keys<K>, s: Chain<K, V>, k: K, n: nat)
    requires n > 0
    ensures Pick(keys, Going(s, keys.hash(k) % n, n), k) == Pick(keys, s, k)
  {
    if s != [] { PickGoing(keys, s[1..], k, n); }
  }

  lemma {:induction false} PickNone<K, V>(keys: Keys<K>, s: Chain<K, V>, k: K)
    requires forall j :: 0 <= j < |s| ==> !Matches(keys, s[j], k)
    ensures Pick(keys, s, k) == []
  {
    if s != [] { PickNone(keys, s[1..], k); }
  }

  /** Only the bucket of a key has nodes that match it. */
  lemma {:induction false} PickUnhooked<K, V>(keys: Keys<K>, b: seq<Chain<K, V>>, i: nat, k: K)
    requires Placed(keys, b) && i <= |b|
    ensures Pick(keys, Unhooked(b, i), k) == if |b| > 0 && keys.hash(k) % |b| >= i then Rev(Held(keys, b, k)) else []
    decreases |b| - i
  {
    if i < |b| {
      PickUnhooked(keys, b, i + 1, k);
      PickConcat(keys, Rev(b[i]), Unhooked(b, i + 1), k);
      PickRev(keys, b[i], k);
      if keys.hash(k) % |b| != i { PickNone(keys, b[i], k); }
    }
  }

  /** The buckets after map_resize. */
  ghost predicate Resized<K, V>(b: seq<Chain<K, V>>, b': seq<Chain<K, V>>) {
    |b'| > 0 && forall i :: 0 <= i < |b'| ==> b'[i] == Rev(Going(Unhooked(b, 0), i, |b'|))
  }

  /** A resize keeps what the map holds under every key, in order: every list is turned around twice. */
  lemma ResizeKeeps<K, V>(keys: Keys<K>, b: seq<Chain<K, V>>, b': seq<Chain<K, V>>, k: K)
    requires Placed(keys, b) && Resized(b, b')
    ensures Held(keys, b', k) == Held(keys, b, k)
  {
    var i := keys.hash(k) % |b'|;
    var nodes := Unhooked(b, 0);
    PickRev(keys, Going(nodes, i, |b'|), k);
    PickGoing(keys, nodes, k, |b'|);
    PickUnhooked(keys, b, 0, k);
    RevRev(Held(keys, b, k));
  }

  // ----- single changes -----

  /** The bucket array with a node put at the end, or at the front, of the chain it belongs to. */
  function Hooked<K, V>(b: seq<Chain<K, V>>, node: Node<K, V>, append: bool): seq<Chain<K, V>>
    requires |b| > 0
  {
    var i := node.hash % |b|;
    b[i := if append then b[i] + [node] else [node] + b[i]]
  }

  /** Under the keys that match the new one there is one more value, last or first; the others keep theirs. */
  lemma HookedHeld<K(!new), V>(keys: Keys<K>, b: seq<Chain<K, V>>, node: Node<K, V>, append: bool, k: K)
    requires Lawful(keys) && |b| > 0 && node.hash == keys.hash(node.key)
    ensures Held(keys, Hooked(b, node, append), k) ==
      if keys.same(node.key, k) then With(Held(keys, b, k), node.value, append) else Held(keys, b, k)
  {
    var i, j := node.hash % |b|, keys.hash(k) % |b|;
    if i == j {
      if append { PickConcat(keys, b[i], [node], k); } else { PickConcat(keys, [node], b[i], k); }
    }
    PickOne(keys, node, k);
    hide Pick;
  }

  lemma PickOne<K, V>(keys: Keys<K>, node: Node<K, V>, k: K)
    ensures Pick(keys, [node], k) == if Matches(keys, node, k) then [node.value] else []
  {}

  lemma HookedPlaced<K, V>(keys: Keys<K>, b: seq<Chain<K, V>>, node: Node<K, V>, append: bool)
    requires Placed(keys, b) && |b| > 0 && node.hash == keys.hash(node.key)
    ensures Placed(keys, Hooked(b, node, append))
  {
    var i := node.hash % |b|;
    var b': seq<Chain<K, V>> := Hooked(b, node, append);
    forall l: nat, j: nat | 0 <= l < |b'| && 0 <= j < |b'[l]|
      ensures b'[l][j].hash == keys.hash(b'[l][j].key) && b'[l][j].hash % |b'| == l
    {
      assert l == i && !append && j > 0 ==> b'[l][j] == b[l][j - 1];
    }
  }

  /** One chain replaced: the nodes of the map change by those of the chain. */
  lemma {:induction false} FlatUpdate<K, V>(b: seq<Chain<K, V>>, i: nat, c: Chain<K, V>, from: nat)
    requires from <= i < |b|
    ensures multiset(Flat(b[i := c], from)) + multiset(b[i]) == multiset(Flat(b, from)) + multiset(c)
    decreases i - from
  {
    var b': seq<Chain<K, V>> := b[i := c];
    assert Flat(b', from) == b'[from] + Flat(b', from + 1);
    assert Flat(b, from) == b[from] + Flat(b, from + 1);
    if from == i {
      FlatSame(b, b', i + 1);
      Exchange(b[i], c, Flat(b, i + 1));
    } else {
      FlatUpdate(b, i, c, from + 1);
      Prepend(b[from], Flat(b', from + 1), Flat(b, from + 1), multiset(b[i]), multiset(c));
    }
  }

  lemma Exchange<T>(s: seq<T>, t: seq<T>, rest: seq<T>)
    ensures multiset(t + rest) + multiset(s) == multiset(s + rest) + multiset(t)
  {}

  lemma Prepend<T>(s: seq<T>, x: seq<T>, y: seq<T>, m: multiset<T>, n: multiset<T>)
    requires multiset(x) + m == multiset(y) + n
    ensures multiset(s + x) + m == multiset(s + y) + n
  {
    assert multiset(s + x) + m == multiset(s) + (multiset(x) + m);
    assert multiset(s + y) + n == multiset(s) + (multiset(y) + n);
  }

  lemma {:induction false} FlatSame<K, V>(b: seq<Chain<K, V>>, b': seq<Chain<K, V>>, from: nat)
    requires from <= |b| == |b'| && forall j :: from <= j < |b| ==> b[j] == b'[j]
    ensures Flat(b, from) == Flat(b', from)
    decreases |b| - from
  {
    if from < |b| { FlatSame(b, b', from + 1); }
  }

  lemma HookedFlat<K, V>(b: seq<Chain<K, V>>, node: Node<K, V>, append: bool)
    requires |b| > 0
    ensures multiset(Flat(Hooked(b, node, append), 0)) == multiset(Flat(b, 0)) + multiset{node}
  {
    var i := node.hash % |b|;
    var c := if append then b[i] + [node] else [node] + b[i];
    assert multiset(c) == multiset(b[i]) + multiset{node};
    FlatUpdate(b, i, c, 0);
    CancelOne(multiset(Flat(Hooked(b, node, append), 0)), multiset(Flat(b, 0)), multiset(b[i]), multiset{node});
  }

  lemma CancelOne<T>(a: multiset<T>, b: multiset<T>, c: multiset<T>, d: multiset<T>)
    requires a + c == b + (c + d)
    ensures a == b + d
  {
    assert a == a + c - c;
    assert b + d == b + (c + d) - c;
  }

  lemma {:induction false} RevMembers<T>(s: seq<T>)
    ensures multiset(Rev(s)) == multiset(s)
  {
    if s != [] {
      RevMembers(s[1..]);
      assert s == [s[0]] + s[1..];
    }
  }

  lemma {:induction false} UnhookedMembers<K, V>(b: seq<Chain<K, V>>, i: nat)
    requires i <= |b|
    ensures multiset(Unhooked(b, i)) == multiset(Flat(b, i))
    decreases |b| - i
  {
    if i < |b| {
      UnhookedMembers(b, i + 1);
      RevMembers(b[i]);
    }
  }

  /** The chain without its first node for the key. */
  function Dropped<K, V>(keys: Keys<K>, s: Chain<K, V>, k: K): Chain<K, V> {
    if s == [] then [] else if Matches(keys, s[0], k) then s[1..] else [s[0]] + Dropped(keys, s[1..], k)
  }

  /** Dropping takes the first value under the matching keys, and nothing under the others. */
  lemma {:induction false} DroppedPick<K(!new), V>(keys: Keys<K>, s: Chain<K, V>, k: K, other: K)
    requires Lawful(keys) && Pick(keys, s, k) != []
    ensures Pick(keys, Dropped(keys, s, k), other) ==
      if keys.same(k, other) then Pick(keys, s, k)[1..] else Pick(keys, s, other)
    ensures keys.same(k, other) ==> Pick(keys, s, other) == Pick(keys, s, k)
  {
    if s != [] {
      SameMatches(keys, s, k, other);
      if !Matches(keys, s[0], k) {
        DroppedPick(keys, s[1..], k, other);
        PickOne(keys, s[0], other);
        PickConcat(keys, [s[0]], Dropped(keys, s[1..], k), other);
      }
    }
  }

  /** Keys that match each other match the same nodes. */
  lemma {:induction false} SameMatches<K(!new), V>(keys: Keys<K>, s: Chain<K, V>, k: K, other: K)
    requires Lawful(keys) && s != []
    ensures keys.same(k, other) ==> (Matches(keys, s[0], k) <==> Matches(keys, s[0], other))
    ensures Matches(keys, s[0], k) && Matches(keys, s[0], other) ==> keys.same(k, other)
    ensures keys.same(k, other) ==> Pick(keys, s, k) == Pick(keys, s, other)
  {
    if |s| > 1 { SameMatches(keys, s[1..], k, other); }
  }
}
