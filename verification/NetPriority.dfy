/** What the levels of a match mean for the rules themselves: which rule applies to traffic, which of two rules
    comes first, and what that makes of a whole list (netfw.c:167-179, 260-289, 374-441). */
module NetPriority {
  import opened NetRanges
  import opened NetFirewall
  import opened Wrappers

  // ----- one map -----

  /** Of the ranges that begin at the key or before it, the one that begins last. */
  ghost predicate Nearest(m: seq<Range>, r: Range, key: nat) {
    r in m && r.begin <= key && forall s :: s in m && s.begin <= key ==> s.begin <= r.begin
  }

  /** An empty map stands for all keys; in another one the nearest range has the key in it. */
  ghost predicate Reaches(m: seq<Range>, key: nat) { m == [] || exists r :: Nearest(m, r, key) && key <= r.end }

  /** The map has the key by itself. */
  predicate Names(m: seq<Range>, key: nat) { Range(key, key) in m }

  /** The level of every match: 0 for none, 1 for an empty map, 3 for a range, 4 for a single key. */
  lemma MatchMeans(m: seq<Range>, key: nat)
    requires Ordered(m)
    ensures Match(m, key) ==
      if !Reaches(m, key) then 0 else if m == [] then 1 else if Names(m, key) then 4 else 3
    ensures Names(m, key) ==> Reaches(m, key)
  {
    FindFinds(m, key);
    if Names(m, key) { assert Nearest(m, Range(key, key), key); }
    if m != [] && Find(m, key).Some? {
      var f := Find(m, key).value;
      forall r | Nearest(m, r, key)
        ensures r == f
      {
        SameBegin(m, r, f);
      }
      assert Nearest(m, f, key);
    }
  }

  /** Without overlaps it is any of the ranges. */
  lemma CleanReaches(m: seq<Range>, key: nat)
    requires Clean(m) && m != []
    ensures Reaches(m, key) <==> exists r :: r in m && Within(r, key)
  {
    if r :| r in m && Within(r, key) {
      CleanOrdered(m);
      CleanFinds(m, r, key);
      FindFinds(m, key);
      assert Nearest(m, r, key);
    }
  }

  // ----- two rules -----

  predicate OrderedRule(r: Rule) { Ordered(r.ports) && Ordered(r.ips) }

  ghost predicate Applies(r: Rule, t: Traffic) {
    Reaches(r.ports, t.port) && Reaches(r.ips, t.ip) && (r.protocol == ANY || r.protocol == t.protocol)
  }

  predicate HasBoth(r: Rule) { r.ports != [] && r.ips != [] }

  predicate NamesOne(r: Rule, t: Traffic) { Names(r.ports, t.port) || Names(r.ips, t.ip) }

  /** Which of two rules that apply comes first, whatever they do: the one of the higher program level; the one
      with ports and addresses; of two such the one that has the port or the address by itself; then the one with
      ports, with the port by itself, with addresses, with the address by itself. */
  predicate Higher(r: Rule, s: Rule, t: Traffic) {
    if r.level != s.level then r.level > s.level
    else if HasBoth(r) != HasBoth(s) then HasBoth(r)
    else if HasBoth(r) && NamesOne(r, t) != NamesOne(s, t) then NamesOne(r, t)
    else if (r.ports == []) != (s.ports == []) then s.ports == []
    else if Names(r.ports, t.port) != Names(s.ports, t.port) then Names(r.ports, t.port)
    else if (r.ips == []) != (s.ips == []) then s.ips == []
    else Names(r.ips, t.ip) && !Names(s.ips, t.ip)
  }

  /** Then a blocking rule comes before an allowing one, and a rule with a protocol before one without. */
  predicate Preferred(r: Rule, s: Rule, t: Traffic) {
    Higher(r, s, t)
    || (!Higher(s, r, t) && ((r.block && !s.block) || (r.protocol != ANY && s.protocol == ANY)))
  }

  /** A rule gives a match exactly if it applies. */
  lemma AppliesExact(r: Rule, t: Traffic)
    requires OrderedRule(r)
    ensures MatchRule(r, t).Some? <==> Applies(r, t)
    ensures Applies(r, t) ==>
      MatchRule(r, t).value.block == r.block && MatchRule(r, t).value.protocol == if r.protocol == ANY then 1 else 4
  {
    MatchMeans(r.ports, t.port);
    MatchMeans(r.ips, t.ip);
    hide Match, Reaches, Names;
  }

  /** Both rules match, and the match of the first is the better one. */
  predicate Better(r: Rule, s: Rule, t: Traffic) {
    MatchRule(r, t).Some? && MatchRule(s, t).Some? && IsBetter(MatchRule(r, t).value, MatchRule(s, t).value)
  }

  /** The comparison of the matches is that of the rules. */
  lemma PreferredExact(r: Rule, s: Rule, t: Traffic)
    requires OrderedRule(r) && OrderedRule(s) && Applies(r, t) && Applies(s, t)
    ensures MatchRule(r, t).Some? && MatchRule(s, t).Some?
    ensures Above(MatchRule(r, t).value, MatchRule(s, t).value) <==> Higher(r, s, t)
    ensures Better(r, s, t) <==> Preferred(r, s, t)
  {
    MatchMeans(r.ports, t.port);
    MatchMeans(r.ips, t.ip);
    MatchMeans(s.ports, t.port);
    MatchMeans(s.ips, t.ip);
    hide Match, Reaches, Names, Ordered;
  }

  /** A rule with ports and addresses comes before every rule of its program level that has not both. */
  lemma BothOverOne(r: Rule, s: Rule, t: Traffic)
    requires OrderedRule(r) && OrderedRule(s) && Applies(r, t) && Applies(s, t)
    requires r.level == s.level && HasBoth(r) && !HasBoth(s)
    ensures Better(r, s, t) && !Better(s, r, t)
  {
    PreferredExact(r, s, t);
    PreferredExact(s, r, t);
    hide MatchRule, IsBetter, Applies, Names, OrderedRule;
  }

  /** Of two rules with both, the one that has the port or the address by itself comes first. */
  lemma SingleOverRange(r: Rule, s: Rule, t: Traffic)
    requires OrderedRule(r) && OrderedRule(s) && Applies(r, t) && Applies(s, t)
    requires r.level == s.level && HasBoth(r) && HasBoth(s) && NamesOne(r, t) && !NamesOne(s, t)
    ensures Better(r, s, t) && !Better(s, r, t)
  {
    PreferredExact(r, s, t);
    PreferredExact(s, r, t);
    hide MatchRule, IsBetter, Applies, Names, OrderedRule;
  }

  /** A rule with a protocol comes before the same rule without one. */
  lemma ProtocolOverAny(r: Rule, t: Traffic)
    requires OrderedRule(r) && Applies(r, t) && r.protocol != ANY
    ensures var twin := r.(protocol := ANY);
      Applies(twin, t) && Better(r, twin, t) && !Better(twin, r, t)
  {
    var twin := r.(protocol := ANY);
    PreferredExact(r, twin, t);
    PreferredExact(twin, r, t);
    hide MatchRule, IsBetter, Names;
  }

  // ----- lists of rules -----

  predicate AllOrdered(rules: seq<Rule>) { forall r :: r in rules ==> OrderedRule(r) }

  /** The rule applies, and no rule that does is higher. */
  ghost predicate Highest(rules: seq<Rule>, r: Rule, t: Traffic) {
    r in rules && Applies(r, t) && forall s :: s in rules && Applies(s, t) ==> !Higher(s, r, t)
  }

  ghost predicate SomeHighestBlocks(rules: seq<Rule>, t: Traffic) {
    exists r :: Highest(rules, r, t) && r.block
  }

  /** Of the highest rules none blocks, or a blocking one has a protocol, or no allowing one has. */
  ghost predicate SettledRules(rules: seq<Rule>, t: Traffic) {
    SomeHighestBlocks(rules, t) ==>
      exists r :: Highest(rules, r, t) && r.block && (r.protocol == ANY ==> NoneAllowsByProtocol(rules, t))
  }

  ghost predicate NoneAllowsByProtocol(rules: seq<Rule>, t: Traffic) {
    forall s :: Highest(rules, s, t) && !s.block ==> s.protocol == ANY
  }

  /** The matches are those of the rules that apply. */
  lemma MatchOf(rules: seq<Rule>, t: Traffic, x: RuleMatch) returns (r: Rule)
    requires AllOrdered(rules) && x in Matches(rules, t)
    ensures r in rules && Applies(r, t) && MatchRule(r, t) == Some(x)
  {
    GivesMatches(rules, t, x);
    var i :| 0 <= i < |rules| && MatchRule(rules[i], t) == Some(x);
    r := rules[i];
    AppliesExact(r, t);
  }

  lemma HasMatch(rules: seq<Rule>, t: Traffic, r: Rule)
    requires AllOrdered(rules) && r in rules && Applies(r, t)
    ensures MatchRule(r, t).Some? && MatchRule(r, t).value in Matches(rules, t)
  {
    AppliesExact(r, t);
    var i :| 0 <= i < |rules| && rules[i] == r;
    assert Gives(rules, t, MatchRule(r, t).value);
    GivesMatches(rules, t, MatchRule(r, t).value);
  }

  lemma HighestIsTop(rules: seq<Rule>, t: Traffic, r: Rule)
    requires AllOrdered(rules) && r in rules && Applies(r, t)
    ensures MatchRule(r, t).Some? && (Highest(rules, r, t) <==> Top(Matches(rules, t), MatchRule(r, t).value))
  {
    hide MatchRule, Matches, Applies, Above, Higher, OrderedRule;
    HasMatch(rules, t, r);
    var m := MatchRule(r, t).value;
    if Highest(rules, r, t) {
      forall x | x in Matches(rules, t)
        ensures !Above(x, m)
      {
        var s := MatchOf(rules, t, x);
        PreferredExact(s, r, t);
      }
    }
    if Top(Matches(rules, t), m) {
      forall s | s in rules && Applies(s, t)
        ensures !Higher(s, r, t)
      {
        HasMatch(rules, t, s);
        PreferredExact(s, r, t);
      }
    }
  }

  lemma TopIsHighest(rules: seq<Rule>, t: Traffic, x: RuleMatch) returns (r: Rule)
    requires AllOrdered(rules) && Top(Matches(rules, t), x)
    ensures Highest(rules, r, t) && MatchRule(r, t) == Some(x)
    ensures x.block == r.block && x.protocol == if r.protocol == ANY then 1 else 4
  {
    hide MatchRule, Matches, Applies, Above, Highest, OrderedRule;
    r := MatchOf(rules, t, x);
    HighestIsTop(rules, t, r);
    AppliesExact(r, t);
  }

  lemma BlockersAreSame(rules: seq<Rule>, t: Traffic)
    requires AllOrdered(rules)
    ensures SomeHighestBlocks(rules, t) <==> SomeTopBlocks(Matches(rules, t))
  {
    hide MatchRule, Matches, Applies, Top, OrderedRule;
    var ms := Matches(rules, t);
    if r :| Highest(rules, r, t) && r.block {
      HighestIsTop(rules, t, r);
      AppliesExact(r, t);
      assert Top(ms, MatchRule(r, t).value);
    }
    if x :| Top(ms, x) && x.block { var r := TopIsHighest(rules, t, x); }
  }

  /** A blocking rule outranks the allowing ones of its height if it has a protocol or none of them has. */
  lemma OutranksIs(rules: seq<Rule>, t: Traffic, r: Rule, b: RuleMatch)
    requires AllOrdered(rules) && Highest(rules, r, t) && MatchRule(r, t) == Some(b)
    ensures Outranks(Matches(rules, t), b) <==> (r.protocol == ANY ==> NoneAllowsByProtocol(rules, t))
  {
    hide MatchRule, Matches, Top, Higher, OrderedRule;
    var ms := Matches(rules, t);
    AppliesExact(r, t);
    if Outranks(ms, b) && r.protocol == ANY {
      forall s | Highest(rules, s, t) && !s.block
        ensures s.protocol == ANY
      {
        HighestIsTop(rules, t, s);
        AppliesExact(s, t);
      }
    }
    if r.protocol == ANY ==> NoneAllowsByProtocol(rules, t) {
      forall a | Top(ms, a) && !a.block
        ensures a.protocol <= b.protocol
      {
        var s := TopIsHighest(rules, t, a);
      }
    }
  }

  /** The condition for the order to be irrelevant, in terms of the rules. */
  lemma SettledExact(rules: seq<Rule>, t: Traffic)
    requires AllOrdered(rules)
    ensures SettledRules(rules, t) <==> Settled(Matches(rules, t))
  {
    hide MatchRule, Matches, Applies, Higher, Top, Highest, Outranks, NoneAllowsByProtocol, OrderedRule;
    var ms := Matches(rules, t);
    BlockersAreSame(rules, t);
    if r :| Highest(rules, r, t) && r.block && (r.protocol == ANY ==> NoneAllowsByProtocol(rules, t)) {
      HighestApplies(rules, t, r);
      HighestIsTop(rules, t, r);
      AppliesExact(r, t);
      OutranksIs(rules, t, r, MatchRule(r, t).value);
    }
    if b :| Top(ms, b) && b.block && Outranks(ms, b) {
      var r := TopIsHighest(rules, t, b);
      OutranksIs(rules, t, r, b);
    }
  }

  lemma HighestApplies(rules: seq<Rule>, t: Traffic, r: Rule)
    requires Highest(rules, r, t)
    ensures r in rules && Applies(r, t)
  {}

  /** When the order does not matter, traffic is blocked exactly if one of the highest rules blocks. */
  lemma SettledVerdict(rules: seq<Rule>, t: Traffic)
    requires AllOrdered(rules) && SettledRules(rules, t)
    ensures Blocks(rules, t) <==> SomeHighestBlocks(rules, t)
  {
    hide MatchRule, Matches, Top, Highest, SettledRules, Best;
    SettledExact(rules, t);
    BlockersAreSame(rules, t);
    var ms := Matches(rules, t);
    if ms != [] {
      SettledDecides(ms);
    } else {
      assert !SomeTopBlocks(ms) by { NoTop(); }
    }
  }

  lemma NoTop()
    ensures !SomeTopBlocks([])
  {}

  // ----- when the order matters -----

  /** The match blocks, or has a protocol. */
  predicate Speaks(m: RuleMatch) { m.block || m.protocol == EXACT }

  ghost predicate LastToSpeak(ms: seq<RuleMatch>, k: nat) {
    k < |ms| && Top(ms, ms[k]) && Speaks(ms[k]) && forall j :: k < j < |ms| && Top(ms, ms[j]) ==> !Speaks(ms[j])
  }

  predicate TwoLevels(ms: seq<RuleMatch>) { forall m :: m in ms ==> m.protocol == GLOBAL || m.protocol == EXACT }

  /** From the last of the highest matches that blocks or has a protocol, the best match does what it does. */
  lemma {:induction false} LastSpeaks(ms: seq<RuleMatch>, k: nat, n: nat)
    requires !Settled(ms) && TwoLevels(ms) && LastToSpeak(ms, k) && k < n <= |ms|
    ensures var best := Best(ms[..n]); Top(ms, best) && best.block == ms[k].block && Speaks(best)
  {
    hide Settled, Best;
    var m := ms[n - 1];
    assert ms[..n] == ms[..n - 1] + [m];
    BestStep(ms, n);
    if n == k + 1 {
      if n > 1 {
        var before := Best(ms[..n - 1]);
        BestIsTop(ms[..n - 1]);
        assert before in ms && !Above(before, m);
        BetterMeans(m, before);
        if Level(m, before) {
          LevelTop(ms, before, m);
          if before.block { NoneSettles(ms, before); }
          if m.block { NoneSettles(ms, m); }
        }
      }
    } else {
      LastSpeaks(ms, k, n - 1);
      var before := Best(ms[..n - 1]);
      assert m in ms && !Above(m, before);
      BetterMeans(m, before);
      if Level(m, before) { LevelTop(ms, m, before); }
    }
  }

  lemma BestStep(ms: seq<RuleMatch>, n: nat)
    requires 0 < n <= |ms|
    ensures n == 1 ==> Best(ms[..n]) == ms[0]
    ensures n > 1 ==>
      var b := Best(ms[..n - 1]); Best(ms[..n]) == if IsBetter(ms[n - 1], b) then ms[n - 1] else b
  {
    assert ms[..n][..n - 1] == ms[..n - 1];
  }

  /** In unsettled matches no blocking one of the highest has a protocol. */
  lemma NoneSettles(ms: seq<RuleMatch>, b: RuleMatch)
    requires !Settled(ms) && TwoLevels(ms) && Top(ms, b) && b.block
    ensures b.protocol == GLOBAL
  {
    assert !Outranks(ms, b);
  }

  lemma {:induction false} MatchesTwoLevels(rules: seq<Rule>, t: Traffic)
    ensures TwoLevels(Matches(rules, t))
  {
    if rules != [] {
      var n := |rules| - 1;
      MatchesTwoLevels(rules[..n], t);
      assert MatchRule(rules[n], t).Some? ==> MatchRule(rules[n], t).value.protocol in {GLOBAL, EXACT};
    }
  }

  /** A highest rule behind which no other highest one blocks or has a protocol. */
  ghost predicate LastWord(front: seq<Rule>, r: Rule, back: seq<Rule>, t: Traffic) {
    var rules := front + [r] + back;
    Highest(rules, r, t) && (r.block || r.protocol != ANY)
    && forall s :: s in back && Highest(rules, s, t) ==> !s.block && s.protocol == ANY
  }

  /** When the order matters, the last of the highest rules that blocks or has a protocol decides. */
  lemma UnsettledVerdict(front: seq<Rule>, r: Rule, back: seq<Rule>, t: Traffic)
    requires var rules := front + [r] + back;
      AllOrdered(rules) && !SettledRules(rules, t) && LastWord(front, r, back, t)
    ensures Blocks(front + [r] + back, t) <==> r.block
  {
    hide MatchRule, Matches, Top, Highest, SettledRules, Best, Applies, OrderedRule;
    var rules := front + [r] + back;
    var ms := Matches(rules, t);
    HighestApplies(rules, t, r);
    HighestIsTop(rules, t, r);
    AppliesExact(r, t);
    var m := MatchRule(r, t).value;
    MatchesParts(front, r, back, t);
    var k := |Matches(front, t)|;
    assert ms[k] == m;
    forall j | k < j < |ms| && Top(ms, ms[j])
      ensures !Speaks(ms[j])
    {
      LaterIsSilent(front, r, back, t, ms[j]);
    }
    SettledExact(rules, t);
    MatchesTwoLevels(rules, t);
    LastSpeaks(ms, k, |ms|);
    assert ms[..|ms|] == ms;
  }

  lemma MatchesParts(front: seq<Rule>, r: Rule, back: seq<Rule>, t: Traffic)
    requires MatchRule(r, t).Some?
    ensures Matches(front + [r] + back, t) == Matches(front, t) + [MatchRule(r, t).value] + Matches(back, t)
  {
    MatchesConcat(front + [r], back, t);
    assert (front + [r])[..|front|] == front;
  }

  lemma LaterIsSilent(front: seq<Rule>, r: Rule, back: seq<Rule>, t: Traffic, x: RuleMatch)
    requires var rules := front + [r] + back;
      AllOrdered(rules) && LastWord(front, r, back, t) && Top(Matches(rules, t), x)
    requires x in Matches(back, t)
    ensures !Speaks(x)
  {
    hide MatchRule, Matches, Top, Highest, OrderedRule;
    var rules := front + [r] + back;
    assert forall s :: s in back ==> s in rules;
    var s := MatchOf(back, t, x);
    HighestIsTop(rules, t, s);
    AppliesExact(s, t);
  }

  /** When the order matters, some rule has the last word. */
  lemma SomeLastWord(rules: seq<Rule>, t: Traffic) returns (front: seq<Rule>, r: Rule, back: seq<Rule>)
    requires !SettledRules(rules, t)
    ensures rules == front + [r] + back && LastWord(front, r, back, t)
  {
    hide Highest;
    var b :| Highest(rules, b, t) && b.block;
    HighestApplies(rules, t, b);
    assert rules[..|rules|] == rules;
    front, r, back := LastWordBefore(rules, t, |rules|);
  }

  lemma LastWordBefore(rules: seq<Rule>, t: Traffic, n: nat) returns (front: seq<Rule>, r: Rule, back: seq<Rule>)
    requires n <= |rules| && exists r :: r in rules[..n] && Highest(rules, r, t) && (r.block || r.protocol != ANY)
    requires forall s :: s in rules[n..] && Highest(rules, s, t) ==> !s.block && s.protocol == ANY
    ensures rules == front + [r] + back && LastWord(front, r, back, t)
  {
    hide Highest;
    front, r, back := rules[..n - 1], rules[n - 1], rules[n..];
    assert rules == front + [r] + back && rules[..n] == front + [r];
    if !(Highest(rules, r, t) && (r.block || r.protocol != ANY)) {
      assert rules[n - 1..] == [r] + back;
      front, r, back := LastWordBefore(rules, t, n - 1);
    }
  }
}
