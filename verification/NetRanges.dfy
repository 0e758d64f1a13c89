/** The port and address maps of a firewall rule: ranges in a tree ordered by where they begin
    (netfw.c:90-272). A tree is the sequence of its ranges in order; a key is a port, or the 16 bytes of an
    address read as one number, which is how memcmp orders them. */
module NetRanges {
  import opened Wrappers

  datatype Range = Range(begin: nat, end: nat)

  // NETFW_MATCH_NONE ..
  const NONE: nat := 0
  const GLOBAL: nat := 1
  const RANGE: nat := 3
  const EXACT: nat := 4

  predicate Within(r: Range, key: nat) { r.begin <= key <= r.end }

  predicate Ordered(m: seq<Range>) { forall i, j :: 0 <= i < j < |m| ==> m[i].begin < m[j].begin }

  /** Ranges that are not empty, in the order of the tree. They may overlap. */
  predicate Tame(m: seq<Range>) { Ordered(m) && forall r :: r in m ==> r.begin <= r.end }

  /** Ranges that are not empty and do not overlap. */
  predicate Clean(m: seq<Range>) {
    && (forall i :: 0 <= i < |m| ==> m[i].begin <= m[i].end)
    && (forall i, j :: 0 <= i < j < |m| ==> m[i].end < m[j].begin)
  }

  /** rbtree_find_less_equal: the range that begins last, at the key or before it. */
  function Find(m: seq<Range>, key: nat): Option<Range> {
    if m == [] then None
    else if m[|m| - 1].begin <= key then Some(m[|m| - 1])
    else Find(m[..|m| - 1], key)
  }

  /** rbtree_insert: nothing happens when a range already begins there. */
  function Insert(m: seq<Range>, r: Range): seq<Range> {
    if m == [] then [r]
    else
      var last := m[|m| - 1];
      if last.begin < r.begin then m + [r]
      else if last.begin == r.begin then m
      else Insert(m[..|m| - 1], r) + [last]
  }

  function InsertAll(m: seq<Range>, src: seq<Range>): seq<Range> {
    if src == [] then m else Insert(InsertAll(m, src[..|src| - 1]), src[|src| - 1])
  }

  /** The level of a match with one range: netfw.c:178, 271. */
  function LevelOf(r: Range): nat { if r.begin == r.end then EXACT else RANGE }

  /** NetFw_MatchPort and NetFw_MatchAddress: netfw.c:167-179, 260-272. */
  function Match(m: seq<Range>, key: nat): nat {
    if |m| == 0 then GLOBAL else LevelAt(Find(m, key), key)
  }

  function LevelAt(found: Option<Range>, key: nat): nat {
    match found
    case None => NONE
    case Some(r) => if key < r.begin || r.end < key then NONE else LevelOf(r)
  }

  /** The range that the lookup in the tree finds. */
  lemma {:induction false} FindFinds(m: seq<Range>, key: nat)
    requires Ordered(m)
    ensures Find(m, key) == None ==> forall r :: r in m ==> key < r.begin
    ensures Find(m, key).Some? ==> var f := Find(m, key).value;
      f in m && f.begin <= key && forall r :: r in m && r.begin <= key ==> r.begin <= f.begin
  {
    if m != [] {
      var n := |m| - 1;
      assert forall r :: r in m ==> r in m[..n] || r == m[n];
      if m[n].begin > key { FindFinds(m[..n], key); }
    }
  }

  lemma CleanOrdered(m: seq<Range>)
    requires Clean(m)
    ensures Ordered(m)
  {}

  /** Looking up one range agrees with scanning all of them: a range with the key in it decides the level,
      and without one there is no match. */
  lemma LookupAgrees(m: seq<Range>, key: nat)
    requires Clean(m) && m != []
    ensures forall r :: r in m && Within(r, key) ==> Match(m, key) == LevelOf(r)
    ensures (forall r :: r in m ==> !Within(r, key)) ==> Match(m, key) == NONE
  {
    CleanOrdered(m);
    FindFinds(m, key);
    forall r | r in m && Within(r, key)
      ensures Find(m, key) == Some(r)
    {
      var f := Find(m, key).value;
      var i :| 0 <= i < |m| && m[i] == r;
      var j :| 0 <= j < |m| && m[j] == f;
      assert i < j ==> m[i].end < m[j].begin;
      assert j < i ==> m[j].end < m[i].begin;
    }
  }

  /** With overlapping ranges the lookup can miss a range that has the key in it. */
  lemma OverlapHides()
    ensures var m := [Range(1, 10), Range(5, 5)]; Ordered(m) && Within(m[0], 7) && Match(m, 7) == NONE
  {
    var m := [Range(1, 10), Range(5, 5)];
    assert m[1].begin <= 7;
  }

  // ----- merging -----

  /** netfw.c:152-158: some new range lies in the old range the lookup finds for it. */
  predicate Refused(m: seq<Range>, src: seq<Range>) {
    exists i :: 0 <= i < |src| && Covered(m, src[i])
  }

  predicate Covered(m: seq<Range>, r: Range) {
    var f := Find(m, r.begin);
    f.Some? && f.value.end >= r.end
  }

  /** What the lookups of two maps give together: the range that begins later, the one of the first map if both
      begin at the same key. */
  function Later(a: Option<Range>, b: Option<Range>): Option<Range> {
    if a.None? then b
    else if b.None? || b.value.begin <= a.value.begin then a
    else b
  }

  function Reached(r: Range, key: nat): Option<Range> { if r.begin <= key then Some(r) else None }

  lemma {:induction false} InsertTame(m: seq<Range>, r: Range)
    requires Tame(m) && r.begin <= r.end
    ensures Tame(Insert(m, r)) && forall s :: s in Insert(m, r) ==> s in m || s == r
  {
    if m != [] {
      var n := |m| - 1;
      assert m[n] in m;
      assert forall s :: s in m[..n] ==> s in m;
      if m[n].begin > r.begin {
        InsertTame(m[..n], r);
        var w := Insert(m[..n], r);
        forall i | 0 <= i < |w|
          ensures w[i].begin < m[n].begin
        {
          assert w[i] in w;
          if w[i] != r { var j :| 0 <= j < n && m[j] == w[i]; }
        }
      }
    }
  }

  lemma {:induction false} FindInsert(m: seq<Range>, r: Range, key: nat)
    requires Ordered(m)
    ensures Find(Insert(m, r), key) == Later(Find(m, key), Reached(r, key))
  {
    if m != [] {
      var n := |m| - 1;
      FindFinds(m, key);
      if m[n].begin < r.begin {
        assert (m + [r])[..n + 1] == m;
      } else if m[n].begin > r.begin {
        FindInsert(m[..n], r, key);
        assert (Insert(m[..n], r) + [m[n]])[..|Insert(m[..n], r)|] == Insert(m[..n], r);
      }
    }
  }

  /** A lookup after a merge gives the later of what the lookups in the two maps give. */
  lemma {:induction false} FindMerged(m: seq<Range>, src: seq<Range>, key: nat)
    requires Tame(m) && Tame(src)
    ensures Tame(InsertAll(m, src)) && forall s :: s in InsertAll(m, src) ==> s in m || s in src
    ensures Find(InsertAll(m, src), key) == Later(Find(m, key), Find(src, key))
  {
    if src != [] {
      var n := |src| - 1;
      var rest, r := src[..n], src[n];
      assert r in src && forall s :: s in rest ==> s in src;
      FindMerged(m, rest, key);
      InsertTame(InsertAll(m, rest), r);
      FindInsert(InsertAll(m, rest), r, key);
      FindFinds(rest, key);
      assert forall s :: s in rest ==> s.begin < r.begin;
    }
  }

  /** The range found for a key is also found for the keys between its begin and that key. */
  lemma FindBetween(m: seq<Range>, key: nat, earlier: nat)
    requires Ordered(m) && Find(m, key).Some? && Find(m, key).value.begin <= earlier <= key
    ensures Find(m, earlier) == Find(m, key)
  {
    FindFinds(m, key);
    FindFinds(m, earlier);
    SameBegin(m, Find(m, key).value, Find(m, earlier).value);
  }

  lemma SameBegin(m: seq<Range>, r: Range, s: Range)
    requires Ordered(m) && r in m && s in m && r.begin == s.begin
    ensures r == s
  {}

  /** A range is found for each key from its begin up to the next begin. */
  lemma FindSelf(m: seq<Range>, r: Range, key: nat)
    requires Ordered(m) && r in m && r.begin <= key && forall s :: s in m ==> s.begin <= r.begin || key < s.begin
    ensures Find(m, key) == Some(r)
  {
    FindFinds(m, key);
    SameBegin(m, r, Find(m, key).value);
  }

  /** The key matches after the merge exactly at the levels at which it matched in the two maps. */
  predicate SameLevels(m: seq<Range>, src: seq<Range>, key: nat) {
    var now, old0, old1 := Match(InsertAll(m, src), key), Match(m, key), Match(src, key);
    (old0 != NONE ==> now == old0) && (old1 != NONE ==> now == old1) && (now == NONE || now == old0 || now == old1)
  }

  /** The key matches after the merge if it matched in one of the two maps, and only then. */
  predicate SameKey(m: seq<Range>, src: seq<Range>, key: nat) {
    Match(InsertAll(m, src), key) != NONE <==> Match(m, key) != NONE || Match(src, key) != NONE
  }

  /** The new range found where an old one begins, if it has that key in it: from there on the old range
      hides it. */
  function Hidden(src: seq<Range>, o: Range): Option<Range> {
    var n := Find(src, o.begin);
    if n.Some? && o.begin <= n.value.end then n else None
  }

  ghost predicate BeginsIn(m: seq<Range>, o: Range) { exists s :: s in m && o.begin < s.begin <= o.end + 1 }

  /** Where a hidden new range goes on behind the old one, another range begins no later than just behind the
      old one. */
  ghost predicate Followed(m: seq<Range>, src: seq<Range>, o: Range) {
    var n := Hidden(src, o);
    n.Some? && o.end < n.value.end ==> BeginsIn(m, o) || BeginsIn(src, o)
  }

  /** No key that one of the maps matches stops matching. */
  ghost predicate KeepsKeys(m: seq<Range>, src: seq<Range>) { forall o :: o in m ==> Followed(m, src, o) }

  /** No old single key hides a new range. */
  predicate NoSingles(m: seq<Range>, src: seq<Range>) {
    forall o :: o in m && Hidden(src, o).Some? ==> o.begin < o.end
  }

  ghost predicate KeepsLevels(m: seq<Range>, src: seq<Range>) { KeepsKeys(m, src) && NoSingles(m, src) }

  /** An accepted new range that an old one hides has more than one key. */
  lemma HiddenIsRange(m: seq<Range>, src: seq<Range>, o: Range)
    requires Tame(m) && Tame(src) && !Refused(m, src) && o in m && Hidden(src, o).Some?
    ensures LevelOf(Hidden(src, o).value) == RANGE
  {
    var n := Hidden(src, o).value;
    FindFinds(src, o.begin);
    FindSelf(m, o, o.begin);
    var i :| 0 <= i < |src| && src[i] == n;
    assert !Covered(m, src[i]);
  }

  /** A new range that is found although an old one has the key goes on behind the old one. */
  lemma NewOnTop(m: seq<Range>, src: seq<Range>, key: nat)
    requires Tame(m) && Tame(src) && !Refused(m, src)
    requires Find(m, key).Some? && Find(src, key).Some?
    requires Find(m, key).value.begin < Find(src, key).value.begin && key <= Find(m, key).value.end
    ensures key < Find(src, key).value.end
  {
    var a, b := Find(m, key).value, Find(src, key).value;
    FindFinds(src, key);
    FindBetween(m, key, b.begin);
    var i :| 0 <= i < |src| && src[i] == b;
    assert !Covered(m, src[i]);
  }

  /** An old range that is found although a new one has the key has it as well. */
  lemma OldOnTop(m: seq<Range>, src: seq<Range>, key: nat)
    requires Tame(m) && Tame(src) && KeepsKeys(m, src)
    requires Find(m, key).Some? && Find(src, key).Some?
    requires Find(src, key).value.begin <= Find(m, key).value.begin && key <= Find(src, key).value.end
    ensures key <= Find(m, key).value.end && Hidden(src, Find(m, key).value) == Find(src, key)
  {
    var a := Find(m, key).value;
    FindFinds(m, key);
    FindFinds(src, key);
    FindBetween(src, key, a.begin);
    assert Followed(m, src, a);
  }

  lemma KeptAt(m: seq<Range>, src: seq<Range>, key: nat)
    requires Tame(m) && Tame(src) && m != [] && src != [] && !Refused(m, src) && KeepsKeys(m, src)
    ensures SameKey(m, src, key)
    ensures NoSingles(m, src) ==> SameLevels(m, src, key)
  {
    MergedNotEmpty(m, src);
    FindMerged(m, src, key);
    var a, b := Find(m, key), Find(src, key);
    if a.Some? && b.Some? {
      FindFinds(m, key);
      FindFinds(src, key);
      if a.value.begin < b.value.begin {
        if key <= a.value.end { NewOnTop(m, src, key); }
      } else if key <= b.value.end {
        OldOnTop(m, src, key);
        HiddenIsRange(m, src, a.value);
        assert NoSingles(m, src) ==> a.value.begin < a.value.end;
      }
    }
    assert Match(InsertAll(m, src), key) == LevelAt(Later(a, b), key);
    hide Find, InsertAll, Refused, KeepsKeys, NoSingles, Tame, Hidden;
  }

  lemma {:induction false} MergedNotEmpty(m: seq<Range>, src: seq<Range>)
    requires m != []
    ensures InsertAll(m, src) != []
  {
    if src != [] { MergedNotEmpty(m, src[..|src| - 1]); }
  }

  /** Just behind an old range that nothing follows the new one around it is lost. */
  lemma LosingKey(m: seq<Range>, src: seq<Range>) returns (key: nat)
    requires Tame(m) && Tame(src) && m != [] && src != [] && !KeepsKeys(m, src)
    ensures Match(InsertAll(m, src), key) == NONE && Match(src, key) != NONE
  {
    var o :| o in m && !Followed(m, src, o);
    var n := Hidden(src, o).value;
    key := o.end + 1;
    MergedNotEmpty(m, src);
    FindMerged(m, src, key);
    FindFinds(src, o.begin);
    FindSelf(m, o, key) by { assert forall s :: s in m && o.begin < s.begin <= o.end + 1 ==> BeginsIn(m, o); }
    FindSelf(src, n, key) by { assert forall s :: s in src && o.begin < s.begin <= o.end + 1 ==> BeginsIn(src, o); }
  }

  /** At an old single key the level of the new range around it is lost. */
  lemma LosingLevel(m: seq<Range>, src: seq<Range>) returns (key: nat)
    requires Tame(m) && Tame(src) && m != [] && src != [] && !Refused(m, src) && !NoSingles(m, src)
    ensures Match(InsertAll(m, src), key) == Match(m, key) == EXACT && Match(src, key) == RANGE
  {
    var o :| o in m && Hidden(src, o).Some? && o.begin == o.end;
    key := o.begin;
    MergedNotEmpty(m, src);
    FindMerged(m, src, key);
    FindFinds(src, key);
    FindSelf(m, o, key);
    HiddenIsRange(m, src, o);
  }

  /** When an accepted merge keeps all matches with their levels: exactly when every new range that an old one
      hides is only hidden by ranges of more than one key, and is found again, or over, behind them. */
  lemma MergeKeepsLevels(m: seq<Range>, src: seq<Range>)
    requires Tame(m) && Tame(src) && m != [] && src != [] && !Refused(m, src)
    ensures (forall key: nat :: SameLevels(m, src, key)) <==> KeepsLevels(m, src)
    ensures (forall key: nat :: SameKey(m, src, key)) <==> KeepsKeys(m, src)
  {
    if KeepsKeys(m, src) {
      forall key: nat
        ensures SameKey(m, src, key)
        ensures NoSingles(m, src) ==> SameLevels(m, src, key)
      {
        KeptAt(m, src, key);
      }
      if !NoSingles(m, src) {
        var key := LosingLevel(m, src);
        assert !SameLevels(m, src, key);
      }
    } else {
      var key := LosingKey(m, src);
      assert !SameKey(m, src, key) && !SameLevels(m, src, key);
    }
  }

  /** At this key an old range that begins no earlier hides the new one, and does not do in its place. */
  predicate HidesAt(m: seq<Range>, src: seq<Range>, key: nat) {
    var o, n := Find(m, key), Find(src, key);
    && o.Some? && n.Some? && n.value.begin <= o.value.begin && key <= n.value.end
    && (o.value.end < key || o.value.begin == o.value.end)
  }

  /** What a key matches after an accepted merge. A match of the old map always stays. */
  lemma MergedLevel(m: seq<Range>, src: seq<Range>, key: nat)
    requires Tame(m) && Tame(src) && m != [] && src != [] && !Refused(m, src)
    ensures var now, old0, new0 := Match(InsertAll(m, src), key), Match(m, key), Match(src, key);
      && (HidesAt(m, src, key) <==> new0 != NONE && now != new0)
      && (old0 != NONE ==> now == old0) && (old0 == NONE ==> now == NONE || now == new0)
  {
    MergedNotEmpty(m, src);
    FindMerged(m, src, key);
    var a, b := Find(m, key), Find(src, key);
    if a.Some? && b.Some? {
      FindFinds(m, key);
      FindFinds(src, key);
      if a.value.begin < b.value.begin {
        if key <= a.value.end { NewOnTop(m, src, key); }
      } else if key <= b.value.end {
        FindBetween(src, key, a.value.begin);
        HiddenIsRange(m, src, a.value);
      }
    }
    assert Match(InsertAll(m, src), key) == LevelAt(Later(a, b), key);
    hide Find, InsertAll, Refused, Tame, Hidden;
  }

  /** Ports 1 to 10 are added to port 5, and are lost from port 6 on. */
  lemma SurroundedLost()
    ensures var m, src := [Range(5, 5)], [Range(1, 10)];
      Tame(m) && Tame(src) && !Refused(m, src) && !KeepsKeys(m, src)
  {
    var m, src := [Range(5, 5)], [Range(1, 10)];
    assert m[..0] == [] && src[..0] == [];
    assert m[0] in m && Hidden(src, m[0]) == Some(src[0]);
    assert !Covered(m, src[0]) && !Followed(m, src, m[0]);
  }

  /** Ports 1 to 5 surround a range when they are added to ports 2 to 3 and 4 to 6, and nothing is lost. */
  lemma SurroundedKept()
    ensures var m, src := [Range(2, 3), Range(4, 6)], [Range(1, 5)];
      Tame(m) && Tame(src) && !Refused(m, src) && KeepsLevels(m, src)
  {
    var m, src := [Range(2, 3), Range(4, 6)], [Range(1, 5)];
    assert m[..1] == [m[0]] && m[..1][..0] == [] && src[..0] == [];
    assert forall o :: o in m <==> o == m[0] || o == m[1];
    assert BeginsIn(m, m[0]) && Followed(m, src, m[0]);
    assert Find(m[..1], 1) == None;
    assert !Covered(m, src[0]);
    assert Find(src, 4) == Some(src[0]);
    assert Followed(m, src, m[1]);
  }

  // ----- maps without overlaps -----

  predicate Overlap(o: Range, n: Range) { o.begin <= n.end && n.begin <= o.end }

  /** For maps without overlaps of their own: of two ranges that overlap, the old one has more than one key, and
      if the new one surrounds it and goes on behind it, the next old range begins right there. */
  ghost predicate FitsTogether(m: seq<Range>, src: seq<Range>) {
    forall o, n :: o in m && n in src && Overlap(o, n) ==>
      o.begin < o.end && (n.begin <= o.begin && o.end < n.end ==> exists s :: s in m && s.begin == o.end + 1)
  }

  lemma CleanFits(m: seq<Range>, src: seq<Range>)
    requires Clean(m) && Clean(src) && !Refused(m, src)
    ensures KeepsLevels(m, src) <==> FitsTogether(m, src)
  {
    if FitsTogether(m, src) {
      forall o | o in m
        ensures Followed(m, src, o) && (Hidden(src, o).Some? ==> o.begin < o.end)
      {
        FindFinds(src, o.begin);
      }
    }
    if KeepsLevels(m, src) {
      forall o, n | o in m && n in src && Overlap(o, n)
        ensures o.begin < o.end
        ensures n.begin <= o.begin && o.end < n.end ==> exists s :: s in m && s.begin == o.end + 1
      {
        if n.begin <= o.begin {
          CleanFinds(src, n, o.begin);
          assert Followed(m, src, o);
          if o.end < n.end { NextBegins(m, src, o, n); }
        } 
      }
    }
  }

  lemma CleanFinds(m: seq<Range>, r: Range, key: nat)
    requires Clean(m) && r in m && Within(r, key)
    ensures Find(m, key) == Some(r)
  {
    FindFinds(m, key);
    var f := Find(m, key).value;
    var i :| 0 <= i < |m| && m[i] == r;
    var j :| 0 <= j < |m| && m[j] == f;
    assert !(i < j) && !(j < i);
  }

  lemma NextBegins(m: seq<Range>, src: seq<Range>, o: Range, n: Range)
    requires Clean(m) && Clean(src) && o in m && n in src && n.begin <= o.begin && o.end < n.end
    requires BeginsIn(m, o) || BeginsIn(src, o)
    ensures exists s :: s in m && s.begin == o.end + 1
  {
    if s :| s in src && o.begin < s.begin <= o.end + 1 {
      CleanFinds(src, n, s.begin);
      CleanFinds(src, s, s.begin);
      assert false;
    } else {
      var s :| s in m && o.begin < s.begin <= o.end + 1;
      if s.begin <= o.end {
        CleanFinds(m, o, s.begin);
        CleanFinds(m, s, s.begin);
        assert false;
      }
    }
  }

  predicate Apart(m: seq<Range>, src: seq<Range>) { forall o, n :: o in m && n in src ==> !Overlap(o, n) }

  /** Maps that do not overlap at all are accepted, keep all their matches, and make a map without overlaps. */
  lemma ApartAccepted(m: seq<Range>, src: seq<Range>)
    requires Clean(m) && Clean(src) && Apart(m, src)
    ensures !Refused(m, src) && KeepsLevels(m, src) && Clean(InsertAll(m, src))
  {
    forall i | 0 <= i < |src|
      ensures !Covered(m, src[i])
    {
      FindFinds(m, src[i].begin);
      assert src[i] in src;
    }
    CleanFits(m, src);
    FindMerged(m, src, 0);
    var w := InsertAll(m, src);
    forall i, j | 0 <= i < j < |w|
      ensures w[i].end < w[j].begin
    {
      assert w[i] in w && w[j] in w;
      if w[j].begin <= w[i].end { OverlapSame(m, src, w[i], w[j]); }
    }
  }

  lemma OverlapSame(m: seq<Range>, src: seq<Range>, x: Range, y: Range)
    requires Clean(m) && Clean(src) && Apart(m, src) && (x in m || x in src) && (y in m || y in src)
    requires x.begin <= y.begin <= x.end
    ensures x == y
  {
    assert x in m && y in src ==> !Overlap(x, y);
    assert y in m && x in src ==> !Overlap(y, x);
    var both := if x in m && y in m then m else src;
    CleanFinds(both, x, y.begin);
    CleanFinds(both, y, y.begin);
  }

  /** NetFw_MergePortMaps, NetFw_MergeIPMaps: netfw.c:145-165, 238-258. */
  method MergeMaps(dst: seq<Range>, src: seq<Range>) returns (merged: seq<Range>, ok: bool)
    ensures ok == !Refused(dst, src)
    ensures merged == if ok then InsertAll(dst, src) else dst
  {
    for i := 0 to |src|
      invariant forall j :: 0 <= j < i ==> !Covered(dst, src[j])
    {
      var f := Find(dst, src[i].begin);
      if f.Some? && f.value.end >= src[i].end {
        assert Covered(dst, src[i]);
        return dst, false;
      }
    }
    merged := dst;
    for i := 0 to |src|
      invariant merged == InsertAll(dst, src[..i])
    {
      assert src[..i + 1][..i] == src[..i];
      merged := Insert(merged, src[i]);
    }
    assert src[..|src|] == src;
    ok := true;
  }

  /** NetFw_MatchPortMaps, NetFw_MatchIPMaps: netfw.c:127-143, 220-236. */
  method SameMaps(l: seq<Range>, r: seq<Range>) returns (same: bool)
    ensures same == (l == r)
  {
    var i := 0;
    while true
      invariant i <= |l| && i <= |r| && l[..i] == r[..i]
      decreases |l| - i
    {
      if (i < |l|) != (i < |r|) { return false; }
      if i == |l| && i == |r| { return true; }
      if l[i].begin != r[i].begin || l[i].end != r[i].end { return false; }
      i := i + 1;
    }
  }
}
