/** Which firewall rule decides about a connection (netfw.c:281-289, 365-441). */
module NetFirewall {
  import opened NetRanges
  import opened Wrappers

  /** IPPROTO_ANY */
  const ANY: int := -1

  /** A NETFW_RULE */
  datatype Rule = Rule(level: nat, block: bool, protocol: int, ports: seq<Range>, ips: seq<Range>)

  datatype RuleMatch = RuleMatch(prog: nat, port: nat, address: nat, endPoint: nat, protocol: nat, block: bool)

  /** What is tested: a port, an address and a protocol. */
  datatype Traffic = Traffic(port: nat, ip: nat, protocol: int)

  function MatchProtocol(protocol: int, test: int): nat {
    if protocol == ANY then GLOBAL else if protocol == test then EXACT else NONE
  }

  /** netfw.c:374-391 */
  function MatchRule(rule: Rule, t: Traffic): Option<RuleMatch> {
    var port := Match(rule.ports, t.port);
    if port == NONE then None
    else
      var address := Match(rule.ips, t.ip);
      if address == NONE then None
      else
        var protocol := MatchProtocol(rule.protocol, t.protocol);
        if protocol == NONE then None
        else
          var endPoint := if address > GLOBAL && port > GLOBAL then (if address > port then address else port) else 0;
          Some(RuleMatch(rule.level, port, address, endPoint, protocol, rule.block))
  }

  /** netfw.c:396-416 */
  predicate IsBetter(a: RuleMatch, b: RuleMatch) {
    if a.prog != b.prog then a.prog > b.prog
    else if a.endPoint != b.endPoint then a.endPoint > b.endPoint
    else if a.port != b.port then a.port > b.port
    else if a.address != b.address then a.address > b.address
    else if a.block && !b.block then true
    else if a.protocol != b.protocol then a.protocol > b.protocol
    else false
  }

  // ----- what the comparison means -----

  /** The four levels that come before block and protocol. */
  predicate Above(a: RuleMatch, b: RuleMatch) {
    || a.prog > b.prog
    || (a.prog == b.prog && a.endPoint > b.endPoint)
    || (a.prog == b.prog && a.endPoint == b.endPoint && a.port > b.port)
    || (a.prog == b.prog && a.endPoint == b.endPoint && a.port == b.port && a.address > b.address)
  }

  predicate Level(a: RuleMatch, b: RuleMatch) { !Above(a, b) && !Above(b, a) }

  lemma BetterMeans(a: RuleMatch, b: RuleMatch)
    ensures IsBetter(a, b) <==>
      Above(a, b) || (Level(a, b) && ((a.block && !b.block) || a.protocol > b.protocol))
  {}

  /** The comparison is no order: each of two rules can be better than the other. */
  lemma BothBetter()
    ensures var a, b := RuleMatch(1, 1, 1, 0, GLOBAL, true), RuleMatch(1, 1, 1, 0, EXACT, false);
      IsBetter(a, b) && IsBetter(b, a)
  {}

  /** The matches of the rules, in the order of the list. */
  function Matches(rules: seq<Rule>, t: Traffic): seq<RuleMatch> {
    if rules == [] then []
    else
      var rest := Matches(rules[..|rules| - 1], t);
      match MatchRule(rules[|rules| - 1], t)
      case None => rest
      case Some(m) => rest + [m]
  }

  ghost predicate Gives(rules: seq<Rule>, t: Traffic, x: RuleMatch) {
    exists i :: 0 <= i < |rules| && MatchRule(rules[i], t) == Some(x)
  }

  lemma {:induction false} GivesMatches(rules: seq<Rule>, t: Traffic, x: RuleMatch)
    ensures x in Matches(rules, t) <==> Gives(rules, t, x)
  {
    if rules != [] {
      var n := |rules| - 1;
      GivesMatches(rules[..n], t, x);
      assert forall i :: 0 <= i < n ==> rules[..n][i] == rules[i];
      hide MatchRule;
    }
  }

  /** The match that is left when each match replaces the best one so far if it is better. */
  function Best(ms: seq<RuleMatch>): RuleMatch
    requires ms != []
  {
    if |ms| == 1 then ms[0]
    else
      var b := Best(ms[..|ms| - 1]);
      if IsBetter(ms[|ms| - 1], b) then ms[|ms| - 1] else b
  }

  /** NetFw_BlockTraffic: netfw.c:418-441. */
  method BlockTraffic(rules: seq<Rule>, t: Traffic) returns (r: bool)
    ensures r == Blocks(rules, t)
  {
    var best := None;
    for i := 0 to |rules|
      invariant var ms := Matches(rules[..i], t); best == if ms == [] then None else Some(Best(ms))
    {
      assert rules[..i + 1][..i] == rules[..i];
      ghost var ms := Matches(rules[..i], t);
      var m := MatchRule(rules[i], t);
      if m.Some? {
        assert (ms + [m.value])[..|ms|] == ms;
        if best.None? || IsBetter(m.value, best.value) { best := m; }
      }
    }
    assert rules[..|rules|] == rules;
    r := best.Some? && best.value.block;
  }

  /** No match stands above. */
  ghost predicate Top(ms: seq<RuleMatch>, m: RuleMatch) { m in ms && forall x :: x in ms ==> !Above(x, m) }

  /** The match that decides is one of the highest by program, end point, port and address. */
  lemma {:induction false} BestIsTop(ms: seq<RuleMatch>)
    requires ms != []
    ensures Top(ms, Best(ms))
  {
    if |ms| > 1 {
      var n := |ms| - 1;
      BestIsTop(ms[..n]);
      assert forall x :: x in ms <==> x in ms[..n] || x == ms[n];
      BetterMeans(ms[n], Best(ms[..n]));
    }
  }

  ghost predicate SomeTopBlocks(ms: seq<RuleMatch>) { exists b :: Top(ms, b) && b.block }

  /** Of the highest matches, some blocking one has no allowing one above its protocol level, or none blocks.
      That is so in particular when all of them have the same protocol level. */
  ghost predicate Settled(ms: seq<RuleMatch>) {
    SomeTopBlocks(ms) ==> exists b :: Top(ms, b) && b.block && Outranks(ms, b)
  }

  ghost predicate Outranks(ms: seq<RuleMatch>, b: RuleMatch) {
    forall a :: Top(ms, a) && !a.block ==> a.protocol <= b.protocol
  }

  lemma SameProtocolSettles(ms: seq<RuleMatch>)
    requires forall a, b :: Top(ms, a) && Top(ms, b) ==> a.protocol == b.protocol
    ensures Settled(ms)
  {
    if SomeTopBlocks(ms) {
      var b :| Top(ms, b) && b.block;
      assert Outranks(ms, b);
    }
  }

  /** Once such a blocking match has been seen, the best match blocks. */
  lemma {:induction false} BestBlocks(ms: seq<RuleMatch>, n: nat, b: RuleMatch)
    requires n <= |ms| && Top(ms, b) && b.block && Outranks(ms, b) && b in ms[..n]
    ensures var best := Best(ms[..n]); Level(best, b) && best.block && best.protocol >= b.protocol
  {
    var m := ms[n - 1];
    assert m in ms && !Above(m, b);
    assert ms[..n] == ms[..n - 1] + [m];
    if n > 1 {
      var before := Best(ms[..n - 1]);
      BestIsTop(ms[..n - 1]);
      assert before in ms && !Above(before, b);
      BetterMeans(m, before);
      if b in ms[..n - 1] {
        BestBlocks(ms, n - 1, b);
        if Level(m, b) { assert Top(ms, m) by { LevelTop(ms, m, b); } }
      }
    }
  }

  lemma LevelTop(ms: seq<RuleMatch>, m: RuleMatch, b: RuleMatch)
    requires Top(ms, b) && m in ms && Level(m, b)
    ensures Top(ms, m)
  {
    forall x | x in ms
      ensures !Above(x, m)
    {
      assert !Above(x, b);
    }
  }

  lemma SettledDecides(ms: seq<RuleMatch>)
    requires ms != [] && Settled(ms)
    ensures Best(ms).block == SomeTopBlocks(ms)
  {
    BestIsTop(ms);
    if SomeTopBlocks(ms) {
      var b :| Top(ms, b) && b.block && Outranks(ms, b);
      assert ms[..|ms|] == ms;
      BestBlocks(ms, |ms|, b);
    }
  }

  /** With settled rules the order of the list does not matter: traffic is blocked exactly when some match of
      the highest tier blocks. */
  lemma EveryOrder(ms: seq<RuleMatch>, other: seq<RuleMatch>)
    requires ms != [] && Settled(ms) && multiset(ms) == multiset(other)
    ensures other != [] && Best(other).block == SomeTopBlocks(ms)
  {
    SameMembers(ms, other);
    assert forall m :: Top(ms, m) <==> Top(other, m);
    if SomeTopBlocks(ms) {
      var b :| Top(ms, b) && b.block && Outranks(ms, b);
      assert Outranks(other, b);
    }
    assert SomeTopBlocks(ms) <==> SomeTopBlocks(other);
    SettledDecides(other);
  }

  lemma SameMembers(ms: seq<RuleMatch>, other: seq<RuleMatch>)
    requires multiset(ms) == multiset(other)
    ensures |ms| == |other| && forall m :: m in ms <==> m in other
  {
    assert |multiset(ms)| == |ms| && |multiset(other)| == |other|;
    assert forall m :: m in ms <==> m in multiset(ms);
    assert forall m :: m in other <==> m in multiset(other);
  }

  /** An allowing match of the highest tier with the highest protocol level. */
  lemma {:induction false} StrongestAllowing(ms: seq<RuleMatch>, n: nat) returns (a: RuleMatch)
    requires n <= |ms| && exists x :: x in ms[..n] && Top(ms, x) && !x.block
    ensures a in ms[..n] && Top(ms, a) && !a.block
    ensures forall x :: x in ms[..n] && Top(ms, x) && !x.block ==> x.protocol <= a.protocol
  {
    var m := ms[n - 1];
    assert ms[..n] == ms[..n - 1] + [m];
    if exists x :: x in ms[..n - 1] && Top(ms, x) && !x.block {
      a := StrongestAllowing(ms, n - 1);
      if Top(ms, m) && !m.block && m.protocol > a.protocol { a := m; }
    } else {
      a := m;
    }
  }

  /** In unsettled rules the strongest allowing match is above every blocking one of the tier. */
  lemma Outranked(ms: seq<RuleMatch>, b: RuleMatch, a: RuleMatch)
    requires !Settled(ms) && Top(ms, b) && b.block
    requires forall x :: x in ms && Top(ms, x) && !x.block ==> x.protocol <= a.protocol
    ensures a.protocol > b.protocol
  {
    assert !Outranks(ms, b);
  }

  /** With unsettled matches the last one can decide against the others: the strongest allowing one lets the
      traffic through, and any blocking one blocks it. */
  lemma LastDecides(ms: seq<RuleMatch>, front: seq<RuleMatch>, last: RuleMatch)
    requires !Settled(ms) && multiset(front + [last]) == multiset(ms) && Top(ms, last)
    requires last.block || forall x :: x in ms && Top(ms, x) && !x.block ==> x.protocol <= last.protocol
    ensures Best(front + [last]).block == last.block
  {
    SameMembers(ms, front + [last]);
    var other :| Top(ms, other) && other.block != last.block;
    assert other in front + [last];
    assert other in front;
    BestIsTop(front);
    var best := Best(front);
    assert best in front + [last];
    assert (front + [last])[..|front|] == front;
    assert Level(best, other) by { assert !Above(best, other) && !Above(other, best); }
    assert Level(last, other) by { assert !Above(last, other) && !Above(other, last); }
    LevelTop(ms, best, other);
    BetterMeans(last, best);
    if best.block && !last.block { Outranked(ms, best, last); }
  }

  // ----- lists of rules -----

  lemma {:induction false} MatchesConcat(a: seq<Rule>, b: seq<Rule>, t: Traffic)
    ensures Matches(a + b, t) == Matches(a, t) + Matches(b, t)
  {
    if b == [] {
      assert a + b == a;
    } else {
      var n := |b| - 1;
      assert (a + b)[..|a| + n] == a + b[..n];
      MatchesConcat(a, b[..n], t);
    }
  }

  /** A rule taken out of the middle of a list takes its match with it. */
  lemma MatchesMiddle(x: seq<Rule>, r: Rule, y: seq<Rule>, t: Traffic)
    ensures multiset(Matches(x + [r] + y, t)) == multiset(Matches(x + y, t)) + multiset(Matches([r], t))
  {
    MatchesConcat(x + [r], y, t);
    MatchesConcat(x, [r], t);
    MatchesConcat(x, y, t);
  }

  lemma MultisetMiddle<T>(x: seq<T>, r: T, y: seq<T>)
    ensures multiset(x + [r] + y) == multiset(x + y) + multiset{r}
  {}

  lemma Cancel<T>(a: multiset<T>, b: multiset<T>, r: T)
    requires a + multiset{r} == b + multiset{r}
    ensures a == b
  {
    assert a == a + multiset{r} - multiset{r};
    assert b == b + multiset{r} - multiset{r};
  }

  /** The last rule of one list, found in a list of the same rules. */
  lemma FindLast(front: seq<Rule>, r: Rule, other: seq<Rule>) returns (x: seq<Rule>, y: seq<Rule>)
    requires multiset(front + [r]) == multiset(other)
    ensures other == x + [r] + y && multiset(front) == multiset(x + y)
  {
    assert r in front + [r];
    assert r in multiset(front + [r]);
    assert r in multiset(other);
    var i :| 0 <= i < |other| && other[i] == r;
    x, y := other[..i], other[i + 1..];
    assert other == x + [r] + y;
    MultisetMiddle(x, r, y);
    MultisetMiddle(front, r, []);
    assert front + [r] + [] == front + [r] && front + [] == front;
    Cancel(multiset(front), multiset(x + y), r);
  }

  /** The same rules in another order have the same matches in another order. */
  lemma {:induction false} MatchesPermuted(rules: seq<Rule>, other: seq<Rule>, t: Traffic)
    requires multiset(rules) == multiset(other)
    ensures multiset(Matches(rules, t)) == multiset(Matches(other, t))
    decreases |rules|
  {
    if rules == [] {
      assert |multiset(other)| == |other|;
    } else {
      var front, r := rules[..|rules| - 1], rules[|rules| - 1];
      assert rules == front + [r];
      var x, y := FindLast(front, r, other);
      MatchesPermuted(front, x + y, t);
      hide Matches;
      MatchesMiddle(x, r, y, t);
      MatchesMiddle(front, r, [], t);
      assert front + [r] + [] == rules && front + [] == front;
    }
  }

  ghost predicate Blocks(rules: seq<Rule>, t: Traffic) {
    var ms := Matches(rules, t);
    ms != [] && Best(ms).block
  }

  /** Settled traffic meets the same fate whatever the order of the rules: it is blocked exactly when a rule
      of the highest tier blocks. */
  lemma OrderDoesNotMatter(rules: seq<Rule>, other: seq<Rule>, t: Traffic)
    requires multiset(rules) == multiset(other) && Settled(Matches(rules, t))
    ensures Blocks(rules, t) == Blocks(other, t) == SomeTopBlocks(Matches(rules, t))
  {
    MatchesPermuted(rules, other, t);
    var ms := Matches(rules, t);
    SameMembers(ms, Matches(other, t));
    if ms != [] {
      EveryOrder(ms, ms);
      EveryOrder(ms, Matches(other, t));
    }
  }

  /** The rules with the one of a given match moved to the end. */
  lemma MovedLast(rules: seq<Rule>, t: Traffic, m: RuleMatch) returns (front: seq<Rule>, r: Rule)
    requires m in Matches(rules, t)
    ensures multiset(front + [r]) == multiset(rules) && MatchRule(r, t) == Some(m)
  {
    GivesMatches(rules, t, m);
    var i :| 0 <= i < |rules| && MatchRule(rules[i], t) == Some(m);
    front, r := rules[..i] + rules[i + 1..], rules[i];
    assert rules == rules[..i] + [r] + rules[i + 1..];
  }

  /** The order of rules whose last one decides. */
  lemma DecidedBy(rules: seq<Rule>, t: Traffic, m: RuleMatch) returns (order: seq<Rule>)
    requires !Settled(Matches(rules, t)) && Top(Matches(rules, t), m)
    requires m.block || var ms := Matches(rules, t);
      forall x :: x in ms && Top(ms, x) && !x.block ==> x.protocol <= m.protocol
    ensures multiset(order) == multiset(rules) && Blocks(order, t) == m.block
  {
    var front, r := MovedLast(rules, t, m);
    order := front + [r];
    MatchesPermuted(rules, order, t);
    assert order[..|front|] == front;
    LastDecides(Matches(rules, t), Matches(front, t), m);
  }

  /** Unsettled traffic is let through by one order of the rules and blocked by another. */
  lemma SomeOrderFails(rules: seq<Rule>, t: Traffic) returns (letting: seq<Rule>, blocking: seq<Rule>)
    requires !Settled(Matches(rules, t))
    ensures multiset(letting) == multiset(blocking) == multiset(rules)
    ensures !Blocks(letting, t) && Blocks(blocking, t)
  {
    var ms := Matches(rules, t);
    var b :| Top(ms, b) && b.block;
    assert ms[..|ms|] == ms;
    assert !Outranks(ms, b);
    var a := StrongestAllowing(ms, |ms|);
    letting := DecidedBy(rules, t, a);
    blocking := DecidedBy(rules, t, b);
  }

  /** The order of the rules is irrelevant exactly for settled matches. */
  lemma OrderMatters(rules: seq<Rule>, t: Traffic)
    ensures Settled(Matches(rules, t)) <==>
      forall other :: multiset(other) == multiset(rules) ==> Blocks(other, t) == Blocks(rules, t)
  {
    if Settled(Matches(rules, t)) {
      forall other | multiset(other) == multiset(rules)
        ensures Blocks(other, t) == Blocks(rules, t)
      {
        OrderDoesNotMatter(rules, other, t);
      }
    } else {
      var letting, blocking := SomeOrderFails(rules, t);
      assert Blocks(letting, t) != Blocks(blocking, t);
    }
  }
}
