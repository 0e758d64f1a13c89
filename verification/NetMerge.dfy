/** When a new rule is merged into another, and what the list then is (netfw.c:145-165, 302-363). */
module NetMerge {
  import opened NetRanges
  import opened NetFirewall
  import opened NetRules
  import opened NetPriority

  /** The new range lies in the old range that is nearest to its begin. */
  ghost predicate Inside(m: seq<Range>, n: Range) { exists o :: Nearest(m, o, n.begin) && n.end <= o.end }

  ghost predicate NoneInside(m: seq<Range>, src: seq<Range>) { forall n :: n in src ==> !Inside(m, n) }

  lemma RefusedExact(m: seq<Range>, src: seq<Range>)
    requires Ordered(m)
    ensures Refused(m, src) <==> !NoneInside(m, src)
  {
    forall n | n in src
      ensures Covered(m, n) <==> Inside(m, n)
    {
      CoveredExact(m, n);
    }
    hide Covered, Inside;
    if Refused(m, src) {
      var i :| 0 <= i < |src| && Covered(m, src[i]);
      assert src[i] in src;
    }
    if n :| n in src && Inside(m, n) { var i :| 0 <= i < |src| && src[i] == n; }
  }

  lemma CoveredExact(m: seq<Range>, n: Range)
    requires Ordered(m)
    ensures Covered(m, n) <==> Inside(m, n)
  {
    FindFinds(m, n.begin);
    if Find(m, n.begin).Some? {
      var f := Find(m, n.begin).value;
      assert Nearest(m, f, n.begin);
      forall o | Nearest(m, o, n.begin)
        ensures o == f
      {
        SameBegin(m, o, f);
      }
    }
  }

  /** Rules of one level, action and protocol become one: without maps; with only ports, or only addresses, when no
      new range lies in an old one; with both, when one of the two maps agrees and the other one agrees too or has
      no new range in an old one. */
  ghost predicate BecomeOne(r: Rule, s: Rule) {
    && r.level == s.level && r.block == s.block && r.protocol == s.protocol
    && (|| (r.ports == s.ports == [] && r.ips == s.ips == [])
        || (r.ports != [] && s.ports != [] && r.ips == s.ips == [] && NoneInside(r.ports, s.ports))
        || (r.ports == s.ports == [] && r.ips != [] && s.ips != [] && NoneInside(r.ips, s.ips))
        || (HasBoth(r) && HasBoth(s) && r.ports == s.ports && (r.ips == s.ips || NoneInside(r.ips, s.ips)))
        || (HasBoth(r) && HasBoth(s) && r.ips == s.ips && NoneInside(r.ports, s.ports)))
  }

  lemma MergesExact(r: Rule, s: Rule)
    requires OrderedRule(r)
    ensures Merges(r, s) <==> BecomeOne(r, s)
  {
    RefusedExact(r.ports, s.ports);
    RefusedExact(r.ips, s.ips);
    hide Refused, NoneInside, InsertAll;
  }

  /** The old ranges, and the new ones that begin where no old one does. */
  ghost predicate Grown(m: seq<Range>, src: seq<Range>, w: seq<Range>) {
    Ordered(w) && forall q :: q in w <==> q in m || (q in src && forall o :: o in m ==> o.begin != q.begin)
  }

  lemma {:induction false} InsertMembers(m: seq<Range>, r: Range, q: Range)
    requires Ordered(m)
    ensures q in Insert(m, r) <==> q in m || (q == r && forall o :: o in m ==> o.begin != r.begin)
  {
    if m != [] {
      var n := |m| - 1;
      assert m == m[..n] + [m[n]];
      if m[n].begin > r.begin { InsertMembers(m[..n], r, q); } else { BeginsBefore(m, r); }
    }
  }

  /** Only the last range of the tree can begin there. */
  lemma BeginsBefore(m: seq<Range>, r: Range)
    requires Ordered(m) && m != [] && m[|m| - 1].begin <= r.begin
    ensures (exists o :: o in m && o.begin == r.begin) <==> m[|m| - 1].begin == r.begin
  {
    assert m[|m| - 1] in m;
  }

  lemma {:induction false} InsertGrows(m: seq<Range>, r: Range)
    requires Ordered(m)
    ensures Grown(m, [r], Insert(m, r))
  {
    forall q
      ensures q in Insert(m, r) <==> q in m || (q == r && forall o :: o in m ==> o.begin != r.begin)
    {
      InsertMembers(m, r, q);
    }
    if m != [] && m[|m| - 1].begin > r.begin {
      var n := |m| - 1;
      InsertGrows(m[..n], r);
      AllBefore(m, Insert(m[..n], r), r);
    }
    hide Insert;
  }

  lemma AllBefore(m: seq<Range>, w: seq<Range>, r: Range)
    requires m != [] && Ordered(m) && Grown(m[..|m| - 1], [r], w) && m[|m| - 1].begin > r.begin
    ensures Ordered(w + [m[|m| - 1]])
  {
    forall i | 0 <= i < |w|
      ensures w[i].begin < m[|m| - 1].begin
    {
      assert w[i] in w;
    }
  }

  lemma {:induction false} InsertAllGrows(m: seq<Range>, src: seq<Range>)
    requires Ordered(m) && Ordered(src)
    ensures Grown(m, src, InsertAll(m, src))
  {
    if src != [] {
      var n := |src| - 1;
      assert src == src[..n] + [src[n]];
      assert forall q :: q in src[..n] ==> q.begin < src[n].begin;
      var w := InsertAll(m, src[..n]);
      InsertAllGrows(m, src[..n]);
      InsertGrows(w, src[n]);
    }
  }

  lemma SameGrown(m: seq<Range>)
    requires Ordered(m)
    ensures Grown(m, m, m) && Grown([], [], [])
  {}

  /** The rule that two rules become. */
  ghost predicate Union(r: Rule, s: Rule, x: Rule) {
    && x.level == r.level && x.block == r.block && x.protocol == r.protocol
    && Grown(r.ports, s.ports, x.ports) && Grown(r.ips, s.ips, x.ips)
  }

  lemma JoinedIsUnion(r: Rule, s: Rule)
    requires OrderedRule(r) && OrderedRule(s) && Merges(r, s)
    ensures Union(r, s, Joined(r, s).value)
  {
    InsertAllGrows(r.ports, s.ports);
    InsertAllGrows(r.ips, s.ips);
    SameGrown(r.ports);
    SameGrown(r.ips);
    hide Grown, Refused, InsertAll, Ordered;
  }

  /** The first rule with which the new one becomes one. */
  ghost predicate FirstTaker(rules: seq<Rule>, s: Rule, i: nat) {
    i < |rules| && BecomeOne(rules[i], s) && forall j :: 0 <= j < i ==> !BecomeOne(rules[j], s)
  }

  /** A rule that becomes one with none comes last. */
  lemma {:induction false} NoneTakes(rules: seq<Rule>, s: Rule)
    requires AllOrdered(rules) && forall r :: r in rules ==> !BecomeOne(r, s)
    ensures Added(rules, s) == rules + [s]
  {
    hide BecomeOne, OrderedRule, Alike, Joined;
    if rules != [] {
      assert rules == [rules[0]] + rules[1..] && rules[0] in rules;
      MergesExact(rules[0], s);
      NoneTakes(rules[1..], s);
    }
  }

  lemma {:induction false} FirstTakes(rules: seq<Rule>, s: Rule, i: nat)
    requires AllOrdered(rules) && OrderedRule(s) && FirstTaker(rules, s, i)
    ensures Merges(rules[i], s) && Added(rules, s) == rules[i := Joined(rules[i], s).value]
    decreases i
  {
    hide BecomeOne, OrderedRule, Alike, Joined;
    var r, rest := rules[0], rules[1..];
    assert rules == [r] + rest && r in rules;
    MergesExact(r, s);
    if i > 0 {
      assert forall j :: 0 <= j < i - 1 ==> rest[j] == rules[j + 1];
      FirstTakes(rest, s, i - 1);
    }
  }

  /** The new rule joins the first one with which it becomes one, and the list is as long as before; if there is
      none it comes last. */
  lemma AddedExact(rules: seq<Rule>, s: Rule)
    requires AllOrdered(rules) && OrderedRule(s)
    ensures (forall r :: r in rules ==> !BecomeOne(r, s)) ==> Added(rules, s) == rules + [s]
    ensures forall i: nat | FirstTaker(rules, s, i) ::
      |Added(rules, s)| == |rules| && Union(rules[i], s, Added(rules, s)[i])
      && forall j :: 0 <= j < |rules| && j != i ==> Added(rules, s)[j] == rules[j]
  {
    hide BecomeOne, Union, OrderedRule, Alike, Joined, Added;
    if forall r :: r in rules ==> !BecomeOne(r, s) { NoneTakes(rules, s); }
    forall i: nat | FirstTaker(rules, s, i)
      ensures Merges(rules[i], s) && Added(rules, s) == rules[i := Joined(rules[i], s).value]
      ensures Union(rules[i], s, Joined(rules[i], s).value)
    {
      FirstTakes(rules, s, i);
      JoinedIsUnion(rules[i], s);
    }
  }

  /** The list grows exactly if no rule takes the new one. */
  lemma AddedLength(rules: seq<Rule>, s: Rule)
    requires AllOrdered(rules) && OrderedRule(s)
    ensures |Added(rules, s)| == |rules| + if exists r :: r in rules && BecomeOne(r, s) then 0 else 1
  {
    hide BecomeOne, OrderedRule, Union, Added;
    AddedExact(rules, s);
    if r :| r in rules && BecomeOne(r, s) {
      var k :| 0 <= k < |rules| && rules[k] == r;
      var i := FindTaker(rules, s, k);
    }
  }

  lemma FindTaker(rules: seq<Rule>, s: Rule, k: nat) returns (i: nat)
    requires k < |rules| && BecomeOne(rules[k], s)
    ensures FirstTaker(rules, s, i)
  {
    hide BecomeOne;
    i := k;
    if j :| 0 <= j < k && BecomeOne(rules[j], s) { i := FindTaker(rules, s, j); }
  }

  /** Rules of a kind with only ports, or only addresses, that do not overlap at all become one. */
  lemma ApartBecomeOne(r: Rule, s: Rule)
    requires r.level == s.level && r.block == s.block && r.protocol == s.protocol
    requires (r.ports == s.ports == [] && r.ips != [] && s.ips != [])
      || (r.ips == s.ips == [] && r.ports != [] && s.ports != [])
    requires Clean(r.ports) && Clean(s.ports) && Apart(r.ports, s.ports)
    requires Clean(r.ips) && Clean(s.ips) && Apart(r.ips, s.ips)
    ensures BecomeOne(r, s)
  {
    CleanOrdered(r.ports);
    CleanOrdered(r.ips);
    ApartAccepted(r.ports, s.ports);
    ApartAccepted(r.ips, s.ips);
    RefusedExact(r.ports, s.ports);
    RefusedExact(r.ips, s.ips);
    hide Clean, Apart, Refused, NoneInside;
  }
}
