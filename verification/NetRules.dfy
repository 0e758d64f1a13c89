/** The list of firewall rules, into which new rules are merged where possible (netfw.c:302-363). */
module NetRules {
  import opened NetRanges
  import opened NetFirewall
  import opened Wrappers

  /** A NETFW_RULE: its maps grow when other rules are merged into it. */
  class RuleNode {
    const level: nat
    const block: bool
    const protocol: int
    var ports: seq<Range>
    var ips: seq<Range>

    constructor (level: nat, block: bool, protocol: int, ports: seq<Range>, ips: seq<Range>)
      ensures Value() == Rule(level, block, protocol, ports, ips)
    {
      this.level, this.block, this.protocol, this.ports, this.ips := level, block, protocol, ports, ips;
    }

    function Value(): Rule
      reads this
    {
      Rule(level, block, protocol, ports, ips)
    }

    /** netfw.c:319-349: the maps of `r` are taken in, unless the tests or the merge refuse. */
    method Absorb(r: RuleNode) returns (ok: bool)
      requires Alike(Value(), r.Value())
      modifies this
      ensures ok == Joined(old(Value()), old(r.Value())).Some?
      ensures Value() == if ok then Joined(old(Value()), old(r.Value())).value else old(Value())
    {
      if |ports| != 0 && |ips| != 0 {
        var samePorts := SameMaps(ports, r.ports);
        var sameIps := SameMaps(ips, r.ips);
        if !samePorts && !sameIps {
          return false;
        } else if !samePorts {
          ports, ok := MergeMaps(ports, r.ports);
          return;
        } else if !sameIps {
          ips, ok := MergeMaps(ips, r.ips);
          return;
        }
      } else if |ports| != 0 {
        ports, ok := MergeMaps(ports, r.ports);
        return;
      } else if |ips| != 0 {
        ips, ok := MergeMaps(ips, r.ips);
        return;
      }
      ok := true;
    }
  }

  /** netfw.c:307-317 */
  predicate Alike(r: Rule, s: Rule) {
    && r.level == s.level && r.block == s.block && r.protocol == s.protocol
    && (r.ports == [] <==> s.ports == []) && (r.ips == [] <==> s.ips == [])
  }

  function JoinPorts(r: Rule, s: Rule): Option<Rule> {
    if Refused(r.ports, s.ports) then None else Some(r.(ports := InsertAll(r.ports, s.ports)))
  }

  function JoinIps(r: Rule, s: Rule): Option<Rule> {
    if Refused(r.ips, s.ips) then None else Some(r.(ips := InsertAll(r.ips, s.ips)))
  }

  /** One rule in place of two alike. */
  function Joined(r: Rule, s: Rule): Option<Rule> {
    if r.ports != [] && r.ips != [] then
      if r.ports != s.ports && r.ips != s.ips then None
      else if r.ports != s.ports then JoinPorts(r, s)
      else if r.ips != s.ips then JoinIps(r, s)
      else Some(r)
    else if r.ports != [] then JoinPorts(r, s)
    else if r.ips != [] then JoinIps(r, s)
    else Some(r)
  }

  /** The list after `s` is merged into the first rule that takes it, or else put at the end. */
  function Added(rules: seq<Rule>, s: Rule): seq<Rule> {
    if rules == [] then [s]
    else if Alike(rules[0], s) && Joined(rules[0], s).Some? then [Joined(rules[0], s).value] + rules[1..]
    else [rules[0]] + Added(rules[1..], s)
  }

  /** The walk along the list: the rules passed so far stay as they are. */
  ghost predicate Passed(rules: seq<Rule>, s: Rule, i: nat) {
    i <= |rules| && Added(rules, s) == rules[..i] + Added(rules[i..], s)
  }

  lemma PassOn(rules: seq<Rule>, s: Rule, i: nat)
    requires Passed(rules, s, i) && i < |rules| && !(Alike(rules[i], s) && Joined(rules[i], s).Some?)
    ensures Passed(rules, s, i + 1)
  {
    assert rules[i..][1..] == rules[i + 1..] && rules[..i + 1] == rules[..i] + [rules[i]];
  }

  lemma JoinHere(rules: seq<Rule>, s: Rule, i: nat)
    requires Passed(rules, s, i) && i < |rules| && Alike(rules[i], s) && Joined(rules[i], s).Some?
    ensures Added(rules, s) == rules[i := Joined(rules[i], s).value]
  {
    assert rules[i..][1..] == rules[i + 1..];
  }

  lemma AppendHere(rules: seq<Rule>, s: Rule)
    requires Passed(rules, s, |rules|)
    ensures Added(rules, s) == rules + [s]
  {
    assert rules[..|rules|] == rules && rules[|rules|..] == [];
  }

  function ValuesOf(nodes: seq<RuleNode>): seq<Rule>
    reads nodes
  {
    seq(|nodes|, i requires 0 <= i < |nodes| reads nodes => nodes[i].Value())
  }

  class RuleList {
    var rules: seq<RuleNode>

    constructor ()
      ensures rules == []
    {
      rules := [];
    }

    /** NetFw_AddRule */
    method AddRule(r: RuleNode)
      requires r !in rules && forall i, j :: 0 <= i < j < |rules| ==> rules[i] != rules[j]
      modifies this, rules
      ensures forall i, j :: 0 <= i < j < |rules| ==> rules[i] != rules[j]
      ensures ValuesOf(rules) == Added(old(ValuesOf(rules)), old(r.Value()))
    {
      ghost var was, s := ValuesOf(rules), r.Value();
      assert Passed(was, s, 0);
      hide Added, Passed, Joined;
      for i := 0 to |rules|
        invariant rules == old(rules) && ValuesOf(rules) == was && r.Value() == s && Passed(was, s, i)
      {
        var rule := rules[i];
        assert was[i] == rule.Value();
        if rule.level == r.level && rule.block == r.block && (|rule.ports| != 0) == (|r.ports| != 0)
           && (|rule.ips| != 0) == (|r.ips| != 0) && rule.protocol == r.protocol
        {
          var ok := rule.Absorb(r);
          if ok {
            JoinHere(was, s, i);
            assert ValuesOf(rules) == was[i := rule.Value()];
            return;
          }
          assert ValuesOf(rules) == was;
        }
        PassOn(was, s, i);
      }
      AppendHere(was, s);
      rules := rules + [r];
      assert ValuesOf(rules) == was + [s];
    }
  }

  // ----- what a merge does to the matches -----

  /** Rules as the parser and earlier merges leave them; the ranges of a map may overlap. */
  predicate TameRule(r: Rule) { Tame(r.ports) && Tame(r.ips) }

  predicate TakesPorts(r: Rule, s: Rule) { r.ports != [] && (r.ips == [] || r.ports != s.ports) }

  predicate TakesIps(r: Rule, s: Rule) { r.ips != [] && (r.ports == [] || (r.ports == s.ports && r.ips != s.ips)) }

  predicate Merges(r: Rule, s: Rule) { Alike(r, s) && Joined(r, s).Some? }

  /** The maps that are put together keep their matches. */
  ghost predicate Compatible(r: Rule, s: Rule) {
    (TakesPorts(r, s) ==> KeepsLevels(r.ports, s.ports)) && (TakesIps(r, s) ==> KeepsLevels(r.ips, s.ips))
  }

  lemma JoinedTame(r: Rule, s: Rule)
    requires TameRule(r) && TameRule(s) && Merges(r, s)
    ensures TameRule(Joined(r, s).value)
  {
    hide Tame, InsertAll, Refused, Find;
    FindMerged(r.ports, s.ports, 0);
    FindMerged(r.ips, s.ips, 0);
  }

  /** Traffic has the same results with the merged rule as with the two. */
  predicate SameMatch(r: Rule, s: Rule, t: Traffic)
    requires Merges(r, s)
  {
    var m := MatchRule(Joined(r, s).value, t);
    if MatchRule(r, t).Some? then m == MatchRule(r, t) && MatchRule(s, t) in {m, None}
    else m == MatchRule(s, t)
  }

  lemma JoinedMatches(r: Rule, s: Rule, t: Traffic)
    requires TameRule(r) && TameRule(s) && Merges(r, s) && Compatible(r, s)
    ensures SameMatch(r, s, t)
  {
    if TakesPorts(r, s) {
      KeptAt(r.ports, s.ports, t.port);
    } else if TakesIps(r, s) {
      KeptAt(r.ips, s.ips, t.ip);
    }
    hide InsertAll, Refused, Match, KeepsLevels;
  }

  /** A key that a map matches. */
  lemma SomeKey(m: seq<Range>) returns (key: nat)
    requires Tame(m)
    ensures Match(m, key) != NONE
  {
    if m == [] {
      key := 0;
    } else {
      key := m[0].begin;
      FindSelf(m, m[0], key);
    }
  }

  /** A key that matches after the merge at other levels than before. */
  lemma LostKey(m: seq<Range>, src: seq<Range>) returns (key: nat)
    requires Tame(m) && Tame(src) && m != [] && src != [] && !Refused(m, src) && !KeepsLevels(m, src)
    ensures var now := Match(InsertAll(m, src), key);
      Match(src, key) != NONE && now != Match(src, key) && (now == NONE || now == Match(m, key))
  {
    if KeepsKeys(m, src) {
      key := LosingLevel(m, src);
    } else {
      key := LosingKey(m, src);
    }
  }

  /** Every other merge loses a result of the new rule for some traffic. */
  lemma LostTraffic(r: Rule, s: Rule) returns (t: Traffic)
    requires TameRule(r) && TameRule(s) && Merges(r, s) && !Compatible(r, s)
    ensures MatchRule(s, t).Some? && MatchRule(Joined(r, s).value, t) != MatchRule(s, t)
  {
    var protocol := r.protocol;
    if TakesPorts(r, s) {
      var port := LostKey(r.ports, s.ports);
      var ip := SomeKey(s.ips);
      t := Traffic(port, ip, protocol);
    } else {
      var port := SomeKey(s.ports);
      var ip := LostKey(r.ips, s.ips);
      t := Traffic(port, ip, protocol);
    }
    hide InsertAll, Refused, Match, KeepsLevels;
  }

  /** When two rules are merged, no traffic can tell the merged rule from the two: exactly when the maps put
      together keep their matches. */
  lemma MergeExact(r: Rule, s: Rule)
    requires TameRule(r) && TameRule(s) && Merges(r, s)
    ensures (forall t :: SameMatch(r, s, t)) <==> Compatible(r, s)
  {
    if Compatible(r, s) {
      forall t
        ensures SameMatch(r, s, t)
      {
        JoinedMatches(r, s, t);
      }
    } else {
      var t := LostTraffic(r, s);
      assert !SameMatch(r, s, t);
    }
  }

  lemma GivesConcat(a: seq<Rule>, b: seq<Rule>, t: Traffic, x: RuleMatch)
    ensures Gives(a + b, t, x) <==> Gives(a, t, x) || Gives(b, t, x)
  {
    hide MatchRule;
    assert forall i :: 0 <= i < |a| ==> (a + b)[i] == a[i];
    assert forall i :: 0 <= i < |b| ==> (a + b)[|a| + i] == b[i];
  }

  lemma GivesOne(r: Rule, t: Traffic, x: RuleMatch)
    ensures Gives([r], t, x) <==> MatchRule(r, t) == Some(x)
  {
    hide MatchRule;
    assert [r][0] == r;
  }

  /** The rule that takes the new one in, if one does, is compatible with it. */
  ghost predicate AddKeeps(rules: seq<Rule>, s: Rule) {
    rules != [] ==>
      if Merges(rules[0], s) then Compatible(rules[0], s) else AddKeeps(rules[1..], s)
  }

  ghost predicate AllTame(rules: seq<Rule>) { forall r :: r in rules ==> TameRule(r) }

  /** NetFw_AddRule, merging or not, gives the same results as the old rules and the new one side by side. */
  lemma {:induction false} AddedGives(rules: seq<Rule>, s: Rule, t: Traffic, x: RuleMatch)
    requires TameRule(s) && AllTame(rules) && AddKeeps(rules, s)
    ensures Gives(Added(rules, s), t, x) <==> Gives(rules, t, x) || MatchRule(s, t) == Some(x)
  {
    GivesOne(s, t, x);
    if rules != [] {
      var r, rest := rules[0], rules[1..];
      assert rules == [r] + rest && r in rules;
      GivesConcat([r], rest, t, x);
      GivesOne(r, t, x);
      if Merges(r, s) {
        JoinedMatches(r, s, t);
        GivesConcat([Joined(r, s).value], rest, t, x);
        GivesOne(Joined(r, s).value, t, x);
      } else {
        AddedGives(rest, s, t, x);
        GivesConcat([r], Added(rest, s), t, x);
      }
      hide Gives, MatchRule, Joined;
    }
  }

  /** Traffic has the same set of results with the rule added as with the rule beside the old list. */
  ghost predicate SameSet(rules: seq<Rule>, s: Rule, t: Traffic) {
    forall x :: x in Matches(Added(rules, s), t) <==> x in Matches(rules + [s], t)
  }

  /** For every port, address and protocol, the set of results is that of the old list and the new rule. */
  lemma SameResults(rules: seq<Rule>, s: Rule, t: Traffic)
    requires TameRule(s) && AllTame(rules) && AddKeeps(rules, s)
    ensures SameSet(rules, s, t)
  {
    forall x
      ensures x in Matches(Added(rules, s), t) <==> x in Matches(rules + [s], t)
    {
      GivesMatches(Added(rules, s), t, x);
      GivesMatches(rules + [s], t, x);
      AddedGives(rules, s, t, x);
      GivesConcat(rules, [s], t, x);
      GivesOne(s, t, x);
    }
  }

  /** The rules stay such that the next one can be added, whatever the merge lost. */
  lemma {:induction false} AddedTame(rules: seq<Rule>, s: Rule)
    requires TameRule(s) && AllTame(rules)
    ensures AllTame(Added(rules, s))
  {
    hide TameRule, Joined, Alike;
    if rules != [] {
      assert rules == [rules[0]] + rules[1..] && rules[0] in rules;
      if Merges(rules[0], s) {
        JoinedTame(rules[0], s);
      } else {
        AddedTame(rules[1..], s);
      }
    }
  }

  /** A result that is lost when an incompatible rule is taken in by a rule that is alone. */
  lemma MergeLoses(r: Rule, s: Rule) returns (t: Traffic, x: RuleMatch)
    requires TameRule(r) && TameRule(s) && !AddKeeps([r], s)
    ensures x in Matches([r] + [s], t) && x !in Matches(Added([r], s), t)
  {
    t := LostTraffic(r, s);
    x := MatchRule(s, t).value;
    GivesMatches([r] + [s], t, x);
    assert ([r] + [s])[1] == s;
    assert Gives([r] + [s], t, x);
    var m := Joined(r, s).value;
    assert Added([r], s) == [m];
    GivesMatches([m], t, x);
    GivesOne(m, t, x);
  }

  /** When a rule can be added to another without changing any result. */
  lemma AddExact(r: Rule, s: Rule)
    requires TameRule(r) && TameRule(s)
    ensures (forall t :: SameSet([r], s, t)) <==> AddKeeps([r], s)
  {
    if AddKeeps([r], s) {
      forall t
        ensures SameSet([r], s, t)
      {
        SameResults([r], s, t);
      }
    } else {
      var t, x := MergeLoses(r, s);
      assert !SameSet([r], s, t);
    }
  }

  /** The merge takes the result of the new rule from this traffic. */
  predicate TakesAway(r: Rule, s: Rule, t: Traffic) {
    && MatchRule(s, t).Some?
    && ((TakesPorts(r, s) && HidesAt(r.ports, s.ports, t.port)) || (TakesIps(r, s) && HidesAt(r.ips, s.ips, t.ip)))
  }

  /** What the merged rule matches: what the old one did, and what the new one did unless it is taken away. */
  lemma MergedResult(r: Rule, s: Rule, t: Traffic)
    requires TameRule(r) && TameRule(s) && Merges(r, s)
    ensures var now := MatchRule(Joined(r, s).value, t);
      && (TakesAway(r, s, t) <==> MatchRule(s, t).Some? && now != MatchRule(s, t))
      && (MatchRule(r, t).Some? ==> now == MatchRule(r, t))
      && (MatchRule(r, t) == None ==> now == None || now == MatchRule(s, t))
  {
    if TakesPorts(r, s) {
      MergedLevel(r.ports, s.ports, t.port);
    } else if TakesIps(r, s) {
      MergedLevel(r.ips, s.ips, t.ip);
    }
    hide InsertAll, Refused, Match, HidesAt;
  }

  /** The rule that takes the new one in takes its result from this traffic. */
  predicate AddTakesAway(rules: seq<Rule>, s: Rule, t: Traffic) {
    rules != [] && if Merges(rules[0], s) then TakesAway(rules[0], s, t) else AddTakesAway(rules[1..], s, t)
  }

  /** What results a list gives after a rule is added. */
  lemma {:induction false} AddedResults(rules: seq<Rule>, s: Rule, t: Traffic, x: RuleMatch)
    requires TameRule(s) && AllTame(rules)
    ensures Gives(Added(rules, s), t, x) <==>
      Gives(rules, t, x) || (MatchRule(s, t) == Some(x) && !AddTakesAway(rules, s, t))
    ensures AddTakesAway(rules, s, t) ==> MatchRule(s, t).Some?
  {
    GivesOne(s, t, x);
    if rules != [] {
      var r, rest := rules[0], rules[1..];
      assert rules == [r] + rest && r in rules;
      GivesConcat([r], rest, t, x);
      GivesOne(r, t, x);
      if Merges(r, s) {
        MergedResult(r, s, t);
        GivesConcat([Joined(r, s).value], rest, t, x);
        GivesOne(Joined(r, s).value, t, x);
      } else {
        AddedResults(rest, s, t, x);
        GivesConcat([r], Added(rest, s), t, x);
      }
      hide Gives, MatchRule, Joined, TakesAway;
    }
  }

  /** When traffic has the same results after a rule is added to a list: exactly when the merge takes nothing
      from it, or an old rule gives the result that is taken as well. */
  lemma ListExact(rules: seq<Rule>, s: Rule, t: Traffic)
    requires TameRule(s) && AllTame(rules)
    ensures SameSet(rules, s, t) <==>
      (AddTakesAway(rules, s, t) ==> MatchRule(s, t).Some? && MatchRule(s, t).value in Matches(rules, t))
  {
    hide MatchRule, Matches, Added, AddTakesAway, Gives;
    forall x
      ensures x in Matches(rules + [s], t) <==> x in Matches(rules, t) || MatchRule(s, t) == Some(x)
      ensures x in Matches(Added(rules, s), t) <==>
        x in Matches(rules, t) || (MatchRule(s, t) == Some(x) && !AddTakesAway(rules, s, t))
      ensures AddTakesAway(rules, s, t) ==> MatchRule(s, t).Some?
    {
      GivesMatches(Added(rules, s), t, x);
      GivesMatches(rules + [s], t, x);
      GivesMatches(rules, t, x);
      AddedResults(rules, s, t, x);
      GivesConcat(rules, [s], t, x);
      GivesOne(s, t, x);
    }
    AddedResults(rules, s, t, RuleMatch(0, 0, 0, 0, 0, false));
    if AddTakesAway(rules, s, t) {
      var x := MatchRule(s, t).value;
      assert x in Matches(rules + [s], t);
    }
  }

  /** So merging does not change what is blocked either, where the matches are settled. */
  lemma SameVerdict(rules: seq<Rule>, s: Rule, t: Traffic)
    requires TameRule(s) && AllTame(rules) && AddKeeps(rules, s)
    requires Settled(Matches(rules + [s], t))
    ensures Blocks(Added(rules, s), t) == Blocks(rules + [s], t)
  {
    SameResults(rules, s, t);
    var a, b := Matches(Added(rules, s), t), Matches(rules + [s], t);
    hide Matches, Added;
    SameSettled(a, b);
    assert (a != [] ==> a[0] in b) && (b != [] ==> b[0] in a);
    if b != [] {
      SettledDecides(a);
      SettledDecides(b);
    }
  }

  lemma SameSettled(a: seq<RuleMatch>, b: seq<RuleMatch>)
    requires (forall x :: x in a <==> x in b) && Settled(b)
    ensures Settled(a) && (SomeTopBlocks(a) <==> SomeTopBlocks(b))
  {
    assert forall m :: Top(a, m) <==> Top(b, m);
    if SomeTopBlocks(b) {
      var m :| Top(b, m) && m.block && Outranks(b, m);
      assert Outranks(a, m);
    }
  }
}
