/** The hash map of map.c: an array of chains that is doubled as the map grows. A chain is the sequence of its
    nodes, and allocation succeeds. */
module HashMap {
  import opened Arith
  import opened HashTable
  import opened Wrappers

  ghost predicate PowerOfTwo(n: nat) { n == 1 || (n > 1 && n % 2 == 0 && PowerOfTwo(n / 2)) }

  /** The bitwise `&` of two words. */
  function And(a: nat, b: nat): nat {
    if a == 0 || b == 0 then 0 else 2 * And(a / 2, b / 2) + (if a % 2 == 1 && b % 2 == 1 then 1 else 0)
  }

  /** Below a power of two all bits are set: the mask keeps the remainder. */
  lemma {:induction false} MaskIsRemainder(a: nat, n: nat)
    requires PowerOfTwo(n)
    ensures And(a, n - 1) == a % n
    decreases n
  {
    hide And;
    if n == 1 || a == 0 {
      AndZero(a, n - 1);
      SmallRemainder(a, n);
    } else {
      MaskIsRemainder(a / 2, n / 2);
      AndStep(a, n - 1, a / 2, n / 2 - 1);
      HalfRemainder(a, n, a / 2, n / 2);
    }
  }

  lemma AndZero(a: nat, b: nat)
    requires a == 0 || b == 0
    ensures And(a, b) == 0
  {}

  lemma SmallRemainder(a: nat, n: nat)
    requires n == 1 || (a == 0 && n > 0)
    ensures a % n == 0
  {}

  lemma AndStep(a: nat, b: nat, a2: nat, b2: nat)
    requires a > 0 && a2 == a / 2 && b == 2 * b2 + 1
    ensures And(a, b) == 2 * And(a2, b2) + a % 2
  {
    assert b / 2 == b2;
  }

  lemma HalfRemainder(a: nat, n: nat, a2: nat, n2: nat)
    requires n2 > 0 && n == 2 * n2 && a2 == a / 2
    ensures a % n == 2 * (a2 % n2) + a % 2
  {
    var q, r := a2 / n2, a2 % n2;
    DivParts(a2, n2);
    assert q * n == 2 * (q * n2);
    DivUnique(a, n, q, 2 * r + a % 2);
  }

  /** map_bucket_idx: map.c:103-108. */
  function BucketIdx(hash: nat, n: nat): (r: nat)
    requires PowerOfTwo(n)
    ensures r == hash % n < n
  {
    MaskIsRemainder(hash, n);
    And(hash, n - 1)
  }

  class HashMap<K(!new, ==), V(!new)> {
    const keys: Keys<K>
    var buckets: array<Chain<K, V>>
    var nnodes: nat

    /** Every node is in its bucket, they are counted, and the number of buckets is 0 or a power of two. */
    ghost predicate Valid()
      reads this, buckets
    {
      && Placed(keys, buckets[..])
      && nnodes == |Flat(buckets[..], 0)|
      && (buckets.Length == 0 || PowerOfTwo(buckets.Length))
    }

    /** map_init */
    constructor (keys: Keys<K>)
      ensures this.keys == keys && Valid() && fresh(buckets) && nnodes == 0
      ensures forall k :: Held(keys, buckets[..], k) == []
    {
      this.keys := keys;
      this.buckets := new Chain<K, V>[0];
      this.nnodes := 0;
    }

    /** map_add_node: map.c:111-119. */
    static method AddNode(buckets: array<Chain<K, V>>, node: Node<K, V>, append: bool)
      requires PowerOfTwo(buckets.Length)
      modifies buckets
      ensures buckets[..] == Hooked(old(buckets[..]), node, append)
    {
      var n := BucketIdx(node.hash, buckets.Length);
      buckets[n] := if append then buckets[n] + [node] else [node] + buckets[n];
    }

    /** map.c:128-138: all nodes taken off their chains, each one put in front of the last. */
    method Unhook() returns (nodes: Chain<K, V>)
      ensures nodes == Unhooked(buckets[..], 0)
    {
      nodes := [];
      var i := buckets.Length;
      while i > 0
        invariant 0 <= i <= buckets.Length && nodes == Unhooked(buckets[..], i)
      {
        i := i - 1;
        var chain, j := buckets[i], 0;
        ghost var rest := nodes;
        assert chain[0..] == chain;
        while j < |chain|
          invariant 0 <= j <= |chain| && Rev(chain) + rest == Rev(chain[j..]) + nodes
        {
          assert chain[j..] == [chain[j]] + chain[j + 1..];
          assert Rev(chain[j + 1..]) + [chain[j]] + nodes == Rev(chain[j + 1..]) + ([chain[j]] + nodes);
          nodes := [chain[j]] + nodes;
          j := j + 1;
        }
        assert nodes == Rev(chain) + rest;
      }
    }

    /** map_resize: map.c:122-154. */
    method Resize(n: nat)
      requires Valid() && PowerOfTwo(n) && n > 0
      modifies this`buckets
      ensures Valid() && fresh(buckets) && buckets.Length == n && Resized(old(buckets[..]), buckets[..])
      ensures multiset(Flat(buckets[..], 0)) == multiset(Flat(old(buckets[..]), 0))
    {
      var grown := new Chain<K, V>[n](_ => []);
      var nodes := Unhook();
      UnhookedMembers(buckets[..], 0);
      ghost var was := buckets[..];
      EmptyFlat(grown[..], 0);
      Refill(grown, nodes, was);
      buckets := grown;
      SameSize(buckets[..], was);
    }

    /** map.c:145-151 */
    method Refill(to: array<Chain<K, V>>, nodes: Chain<K, V>, ghost was: seq<Chain<K, V>>)
      requires PowerOfTwo(to.Length) && forall i :: 0 <= i < to.Length ==> to[i] == []
      requires nodes == Unhooked(was, 0) && Placed(keys, was)
      modifies to
      ensures Resized(was, to[..]) && Placed(keys, to[..])
      ensures multiset(Flat(to[..], 0)) == multiset(nodes)
    {
      EmptyFlat(to[..], 0);
      hide Hooked, Placed, Refilled;
      assert Refilled(keys, to[..], []) by { NothingRefilled(keys, to[..]); }
      for j := 0 to |nodes|
        invariant Refilled(keys, to[..], nodes[..j])
      {
        assert nodes[..j + 1] == nodes[..j] + [nodes[j]];
        UnhookedHashes(keys, was, 0, nodes[j]);
        RefillStep(keys, to[..], nodes[..j], nodes[j]);
        AddNode(to, nodes[j], false);
      }
      assert nodes[..|nodes|] == nodes;
      AllRefilled(keys, was, to[..]);
    }

    /** map_add: map.c:191-218. */
    method Add(key: K, value: V, append: bool)
      requires Valid() && Lawful(keys)
      modifies this`buckets, this`nnodes, buckets
      ensures Valid() && nnodes == old(nnodes) + 1
      ensures forall k :: Held(keys, buckets[..], k) == HeldWith(keys, old(buckets[..]), key, value, append, k)
      ensures old(nnodes) <= 2 * old(buckets.Length) ==> nnodes <= 2 * buckets.Length
      ensures buckets.Length >= old(buckets.Length) && buckets.Length > 0
      ensures buckets.Length > old(buckets.Length) > 0 ==>
        old(nnodes) >= 2 * old(buckets.Length) && buckets.Length == 2 * old(buckets.Length)
      ensures old(buckets.Length) == 0 ==> buckets.Length == 1
    {
      var node := Node(keys.hash(key), key, value);
      ghost var was := buckets[..];
      hide Pick, With;
      if nnodes / 2 >= buckets.Length {
        var n := if buckets.Length > 0 then buckets.Length * 2 else 1;
        Doubled(buckets.Length);
        Resize(n);
        forall k ensures Held(keys, buckets[..], k) == Held(keys, was, k) { ResizeKeeps(keys, was, buckets[..], k); }
      }
      ghost var b := buckets[..];
      AddNode(buckets, node, append);
      nnodes := nnodes + 1;
      AddedOne(keys, b, node, append);
      forall k
        ensures Held(keys, buckets[..], k) == HeldWith(keys, was, key, value, append, k)
      {
        HookedHeld(keys, b, node, append, k);
      }
    }

    /** map_getmatch: map.c:221-233: the next node of a chain for the key, or -1. */
    method GetMatch(chain: Chain<K, V>, from: nat, hash: nat, key: K) returns (i: int)
      requires from <= |chain| && hash == keys.hash(key)
      ensures if i < 0 then i == -1 && Pick(keys, chain[from..], key) == []
        else from <= i < |chain| && Matches(keys, chain[i], key) && Pick(keys, chain[from..i], key) == []
    {
      i := from;
      while i < |chain|
        invariant from <= i <= |chain| && Pick(keys, chain[from..i], key) == []
      {
        if chain[i].hash == hash && keys.same(chain[i].key, key) { return; }
        PickConcat(keys, chain[from..i], [chain[i]], key);
        assert chain[from..i + 1] == chain[from..i] + [chain[i]];
        i := i + 1;
      }
      assert chain[from..|chain|] == chain[from..];
      i := -1;
    }

    /** map_get: map.c:258-263. */
    method Get(key: K) returns (r: Option<V>)
      requires Valid()
      ensures var held := Held(keys, buckets[..], key); r == if held == [] then None else Some(held[0])
    {
      if buckets.Length == 0 { return None; }
      var hash := keys.hash(key);
      var chain := buckets[BucketIdx(hash, buckets.Length)];
      var i := GetMatch(chain, 0, hash, key);
      assert chain[0..] == chain;
      if i < 0 { return None; }
      FirstPick(keys, chain, i, key);
      r := Some(chain[i].value);
    }

    /** map_take: map.c:273-290. */
    method Take(key: K) returns (r: Option<V>)
      requires Valid() && Lawful(keys)
      modifies this`nnodes, buckets
      ensures Valid() && nnodes == if r == None then old(nnodes) else old(nnodes) - 1
      ensures var held := old(Held(keys, buckets[..], key)); r == if held == [] then None else Some(held[0])
      ensures r == None ==> buckets[..] == old(buckets[..])
      ensures r != None ==> forall k :: Held(keys, buckets[..], k) == HeldWithout(keys, old(buckets[..]), key, k)
    {
      if buckets.Length == 0 { return None; }
      ghost var b := buckets[..];
      var hash := keys.hash(key);
      var n := BucketIdx(hash, buckets.Length);
      var chain := buckets[n];
      var i := GetMatch(chain, 0, hash, key);
      assert chain[0..] == chain && chain == b[n];
      if i < 0 { return None; }
      FirstPick(keys, chain, i, key);
      TakenOne(keys, b, n, i);
      r := Some(chain[i].value);
      hide Pick, Placed, Flat, Dropped, Held, Matches;
      buckets[n] := chain[..i] + chain[i + 1..];
      nnodes := nnodes - 1;
      assert buckets[..] == b[n := Dropped(keys, b[n], key)];
      forall k
        ensures Held(keys, buckets[..], k) == HeldWithout(keys, b, key, k)
      {
        TakenHeld(keys, b, n, key, k);
      }
    }

    /** map_clear: map.c:293-308. */
    method Clear()
      requires Valid()
      modifies this`buckets, this`nnodes
      ensures Valid() && fresh(buckets) && nnodes == 0 && forall k :: Held(keys, buckets[..], k) == []
    {
      buckets := new Chain<K, V>[0];
      nnodes := 0;
    }
  }

  lemma Doubled(n: nat)
    requires n == 0 || PowerOfTwo(n)
    ensures PowerOfTwo(if n > 0 then n * 2 else 1)
  {
    if n > 0 { assert n * 2 / 2 == n && n * 2 % 2 == 0; }
  }

  lemma AddedOne<K, V>(keys: Keys<K>, b: seq<Chain<K, V>>, node: Node<K, V>, append: bool)
    requires |b| > 0 && Placed(keys, b) && node.hash == keys.hash(node.key)
    ensures Placed(keys, Hooked(b, node, append)) && |Flat(Hooked(b, node, append), 0)| == |Flat(b, 0)| + 1
  {
    HookedPlaced(keys, b, node, append);
    HookedFlat(b, node, append);
    hide Hooked, Flat, Placed;
    Cardinality(Flat(b, 0));
    Cardinality(Flat(Hooked(b, node, append), 0));
  }

  lemma Cardinality<T>(s: seq<T>)
    ensures |multiset(s)| == |s|
  {}

  /** The first match is the first value, and taking its node out drops it. */
  lemma {:induction false} FirstPick<K, V>(keys: Keys<K>, chain: Chain<K, V>, i: nat, key: K)
    requires i < |chain| && Matches(keys, chain[i], key) && Pick(keys, chain[..i], key) == []
    ensures Pick(keys, chain, key) != [] && Pick(keys, chain, key)[0] == chain[i].value
    ensures Dropped(keys, chain, key) == chain[..i] + chain[i + 1..]
  {
    if i > 0 {
      assert chain[..i][1..] == chain[1..][..i - 1];
      FirstPick(keys, chain[1..], i - 1, key);
      assert chain[1..][i..] == chain[i + 1..];
    }
  }

  lemma TakenOne<K, V>(keys: Keys<K>, b: seq<Chain<K, V>>, n: nat, i: nat)
    requires Placed(keys, b) && n < |b| && i < |b[n]|
    ensures var b': seq<Chain<K, V>> := b[n := b[n][..i] + b[n][i + 1..]];
      Placed(keys, b') && |Flat(b', 0)| == |Flat(b, 0)| - 1
  {
    var c := b[n][..i] + b[n][i + 1..];
    var b': seq<Chain<K, V>> := b[n := c];
    forall l: nat, j: nat | l < |b'| && j < |b'[l]|
      ensures b'[l][j].hash == keys.hash(b'[l][j].key) && b'[l][j].hash % |b'| == l
    {
      assert l == n ==> b'[l][j] == b[l][if j < i then j else j + 1];
    }
    FlatUpdate(b, n, c, 0);
    hide Flat, Placed;
    Cardinality(Flat(b, 0));
    Cardinality(Flat(b', 0));
    Cardinality(c);
    Cardinality(b[n]);
    assert |multiset(Flat(b', 0)) + multiset(b[n])| == |multiset(Flat(b, 0)) + multiset(c)|;
  }

  lemma TakenHeld<K(!new), V>(keys: Keys<K>, b: seq<Chain<K, V>>, n: nat, key: K, k: K)
    requires Lawful(keys) && |b| > 0 && n == keys.hash(key) % |b| && Pick(keys, b[n], key) != []
    ensures Held(keys, b, key) != []
    ensures Held(keys, b[n := Dropped(keys, b[n], key)], k) ==
      if keys.same(key, k) then Held(keys, b, key)[1..] else Held(keys, b, k)
  {
    DroppedPick(keys, b[n], key, k);
    hide Pick, Dropped;
  }

  /** The new buckets hold the nodes of the list, the last ones in front. */
  ghost predicate Refilled<K, V>(keys: Keys<K>, b: seq<Chain<K, V>>, s: Chain<K, V>) {
    && |b| > 0 && Placed(keys, b) && multiset(Flat(b, 0)) == multiset(s)
    && forall i :: 0 <= i < |b| ==> b[i] == Rev(Going(s, i, |b|))
  }

  lemma NothingRefilled<K, V>(keys: Keys<K>, b: seq<Chain<K, V>>)
    requires |b| > 0 && forall i :: 0 <= i < |b| ==> b[i] == []
    ensures Refilled(keys, b, [])
  {
    EmptyFlat(b, 0);
  }

  lemma RefillStep<K, V>(keys: Keys<K>, b: seq<Chain<K, V>>, s: Chain<K, V>, node: Node<K, V>)
    requires Refilled(keys, b, s) && node.hash == keys.hash(node.key)
    ensures |Hooked(b, node, false)| == |b| && Refilled(keys, Hooked(b, node, false), s + [node])
  {
    HookedPlaced(keys, b, node, false);
    HookedFlat(b, node, false);
    forall i: nat | i < |b|
      ensures Hooked(b, node, false)[i] == Rev(Going(s + [node], i, |b|))
    {
      GoingOn(s, node, i, |b|);
    }
    hide Rev, Going, Flat, Placed;
  }

  lemma AllRefilled<K, V>(keys: Keys<K>, was: seq<Chain<K, V>>, b: seq<Chain<K, V>>)
    requires Refilled(keys, b, Unhooked(was, 0))
    ensures Resized(was, b) && Placed(keys, b) && multiset(Flat(b, 0)) == multiset(Unhooked(was, 0))
  {}

  lemma {:induction false} EmptyFlat<K, V>(b: seq<Chain<K, V>>, i: nat)
    requires i <= |b| && forall j :: 0 <= j < |b| ==> b[j] == []
    ensures Flat(b, i) == []
    decreases |b| - i
  {
    if i < |b| { EmptyFlat(b, i + 1); }
  }

  lemma SameSize<K, V>(a: seq<Chain<K, V>>, b: seq<Chain<K, V>>)
    requires multiset(Flat(a, 0)) == multiset(Flat(b, 0))
    ensures |Flat(a, 0)| == |Flat(b, 0)|
  {
    assert |multiset(Flat(a, 0))| == |Flat(a, 0)| && |multiset(Flat(b, 0))| == |Flat(b, 0)|;
  }

  /** One node more at the end of the list: put in front of its chain. */
  lemma {:induction false} GoingOn<K, V>(s: Chain<K, V>, node: Node<K, V>, i: nat, n: nat)
    requires n > 0
    ensures Going(s + [node], i, n) == Going(s, i, n) + (if node.hash % n == i then [node] else [])
    ensures Rev(Going(s + [node], i, n)) == (if node.hash % n == i then [node] else []) + Rev(Going(s, i, n))
  {
    if s != [] {
      GoingOn(s[1..], node, i, n);
      assert (s + [node])[1..] == s[1..] + [node];
    }
    RevConcat(Going(s, i, n), [node]);
  }

  lemma {:induction false} UnhookedHashes<K, V>(keys: Keys<K>, b: seq<Chain<K, V>>, i: nat, node: Node<K, V>)
    requires Placed(keys, b) && i <= |b| && node in Unhooked(b, i)
    ensures node.hash == keys.hash(node.key)
    decreases |b| - i
  {
    if node in Unhooked(b, i + 1) {
      UnhookedHashes(keys, b, i + 1, node);
    } else {
      RevMembers(b[i]);
      assert node in multiset(Rev(b[i]));
      assert node in multiset(b[i]);
    }
  }
}
