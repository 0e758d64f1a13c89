/** What the constant parts of a pattern have to do with its meaning (pattern.c:124-280, 418-474). */
module PatternParts {
  import opened WildCompare
  import opened Wrappers

  /** A constant part, whether exactly two stars stand in front of it, and whether it has `__hex` in it. */
  datatype Constant = Constant(text: string, noBs: bool, hex: bool)

  /** The entry of the cons array for a part with `stars` stars in front of it. */
  function Entry(text: string, stars: nat): Constant { Constant(text, stars == 2, First("__hex", text, 0).Some?) }

  predicate Starless(p: string) { forall k :: 0 <= k < |p| ==> p[k] != '*' }

  /** The length of what comes before the first star. */
  function Upto(p: string): (n: nat)
    ensures n <= |p| && Starless(p[..n]) && (n < |p| ==> p[n] == '*')
  {
    if p == "" || p[0] == '*' then 0 else 1 + Upto(p[1..])
  }

  /** The constant parts of a pattern in front of which `stars` stars have been seen. */
  function Split(p: string, stars: nat): seq<Constant>
    decreases |p|
  {
    if p == "" then []
    else if p[0] == '*' then Split(p[1..], stars + 1)
    else [Entry(p[..Upto(p)], stars)] + Split(p[Upto(p)..], 0)
  }

  predicate HeadStar(p: string) { p != "" && p[0] == '*' }

  predicate TailStar(p: string) { p != "" && p[|p| - 1] == '*' }

  /** The parts occur one after the other in `s` from `i` on, and the last one ends at `e`. */
  ghost predicate Embeds(parts: seq<Constant>, s: string, i: nat, e: nat)
    requires i <= |s|
    decreases |parts|
  {
    if parts == [] then i == e
    else exists j :: i <= j <= |s| && PartAt(parts, s, j, e)
  }

  ghost predicate PartAt(parts: seq<Constant>, s: string, j: nat, e: nat)
    requires parts != [] && j <= |s|
    decreases |parts|, 0
  {
    Fits(parts[0].text, s[j..]) && Embeds(parts[1..], s, j + |parts[0].text|, e)
  }

  /** The number of stars in front does not change the texts. */
  lemma {:induction false} SameTexts(p: string, m: nat, n: nat, s: string, i: nat, e: nat)
    requires i <= |s|
    ensures Embeds(Split(p, m), s, i, e) <==> Embeds(Split(p, n), s, i, e)
    decreases |p|
  {
    if p != "" {
      if p[0] == '*' {
        SameTexts(p[1..], m + 1, n + 1, s, i, e);
      } else {
        var a, b := Split(p, m), Split(p, n);
        assert a[0].text == b[0].text && a[1..] == b[1..];
        assert forall j :: i <= j <= |s| ==> (PartAt(a, s, j, e) <==> PartAt(b, s, j, e));
      }
    }
  }

  lemma PartIs(parts: seq<Constant>, s: string, j: nat, e: nat)
    requires parts != [] && j <= |s| && PartAt(parts, s, j, e)
    ensures j + |parts[0].text| <= |s| && Fits(parts[0].text, s[j..])
    ensures Embeds(parts[1..], s, j + |parts[0].text|, e)
  {}

  lemma GlobOfNothing()
    ensures Glob("", "")
  {}

  /** Parts in their order make the pattern match, if the last one ends the string or a star ends the pattern. */
  lemma {:induction false} EmbedsGlob(p: string, s: string, i: nat, e: nat)
    requires i <= |s| && Embeds(Split(p, 0), s, i, e) && (e == |s| || TailStar(p)) && (p == "" || p[0] == '*')
    ensures Glob(p, s[i..])
    decreases |p|
  {
    hide Glob, Fits, First;
    if p == "" {
      assert s[i..] == "";
      GlobOfNothing();
    } else {
      var q := p[1..];
      assert p == ['*'] + q;
      SameTexts(q, 1, 0, s, i, e);
      if q == "" {
        assert p == "*";
        StarTakesAll(s[i..]);
      } else if q[0] == '*' {
        assert TailStar(p) ==> TailStar(q);
        EmbedsGlob(q, s, i, e);
        StarTakesNone(q, s[i..]);
      } else {
        var parts, n := Split(q, 0), Upto(q);
        var j :| i <= j <= |s| && PartAt(parts, s, j, e);
        PartIs(parts, s, j, e);
        assert parts[1..] == Split(q[n..], 0);
        assert TailStar(p) ==> TailStar(q[n..]) by { assert Starless(q[..n]); }
        EmbedsGlob(q[n..], s, j + n, e);
        PartGlob(q, n, s, i, j);
      }
    }
  }

  /** A star, a part that fits at `j`, and what follows it. */
  lemma PartGlob(q: string, n: nat, s: string, i: nat, j: nat)
    requires n <= |q| && i <= j && j + n <= |s| && Fits(q[..n], s[j..]) && Glob(q[n..], s[j + n..])
    ensures Glob(['*'] + q, s[i..])
  {
    assert q == q[..n] + q[n..] && s[j..][n..] == s[j + n..];
    FitsGlob(q[..n], q[n..], s[j..]);
    StarTakesNone(q, s[j..]);
    assert s[i..][j - i..] == s[j..];
    StarAbsorbs(q, s[i..], j - i);
  }

  /** A match puts the parts into the string in their order. */
  lemma {:induction false} GlobEmbeds(p: string, s: string, i: nat) returns (e: nat)
    requires i <= |s| && Glob(p, s[i..]) && (p == "" || p[0] == '*')
    ensures Embeds(Split(p, 0), s, i, e) && (e == |s| || TailStar(p))
    decreases |p|
  {
    if p == "" {
      e := i;
    } else {
      var q := p[1..];
      assert p == ['*'] + q;
      hide Glob, Fits;
      if q == "" {
        e := i;
      } else if q[0] == '*' {
        StarTwice(q, s[i..]);
        e := GlobEmbeds(q, s, i);
      } else {
        var parts, n := Split(q, 0), Upto(q);
        var j := GlobPart(q, n, s, i);
        e := GlobEmbeds(q[n..], s, j + n);
        assert parts[1..] == Split(q[n..], 0);
        assert PartAt(parts, s, j, e);
      }
      SameTexts(q, 1, 0, s, i, e);
    }
  }

  /** Where the part behind a star fits, and the rest matches. */
  lemma GlobPart(q: string, n: nat, s: string, i: nat) returns (j: nat)
    requires n <= |q| && i <= |s| && Starless(q[..n]) && Glob(['*'] + q, s[i..])
    ensures i <= j && j + n <= |s| && Fits(q[..n], s[j..]) && Glob(q[n..], s[j + n..])
  {
    var k := StarSplits(q, s[i..]);
    j := i + k;
    assert s[i..][k..] == s[j..] && q == q[..n] + q[n..];
    FitsGlob(q[..n], q[n..], s[j..]);
    assert s[j..][n..] == s[j + n..];
  }

  /** Two stars mean no more than one. */
  lemma StarTwice(q: string, s: string)
    requires q != "" && q[0] == '*' && Glob(['*'] + q, s)
    ensures Glob(q, s)
  {
    var k := StarSplits(q, s);
    assert q == ['*'] + q[1..];
    StarAbsorbs(q[1..], s, k);
  }

  // ----- the leftmost places -----

  /** The first place at `i` or after it where a part fits. */
  function First(n: string, s: string, i: nat): (r: Option<nat>)
    requires i <= |s|
    ensures r.Some? ==> i <= r.value && r.value + |n| <= |s|
    decreases |s| - i
  {
    if FitsAt(n, s, i) then Some(i) else if i == |s| then None else First(n, s, i + 1)
  }

  predicate FitsAt(n: string, s: string, i: nat)
    requires i <= |s|
  {
    i + |n| <= |s| && forall k :: 0 <= k < |n| ==> One(n[k], s[i + k])
  }

  lemma {:induction false} FirstIs(n: string, s: string, i: nat)
    requires i <= |s|
    ensures First(n, s, i).Some? ==> var f := First(n, s, i).value;
      i <= f <= |s| && FitsAt(n, s, f) && forall j :: i <= j < f ==> !FitsAt(n, s, j)
    ensures First(n, s, i).None? ==> forall j :: i <= j <= |s| ==> !FitsAt(n, s, j)
    decreases |s| - i
  {
    if !FitsAt(n, s, i) && i < |s| { FirstIs(n, s, i + 1); }
  }

  /** Where the last part ends when every part is put at the first place that the ones before it leave. */
  function LeftEnd(parts: seq<Constant>, s: string, i: nat): Option<nat>
    requires i <= |s|
    decreases |parts|
  {
    if parts == [] then Some(i)
    else
      match First(parts[0].text, s, i)
      case None => None
      case Some(j) => LeftEnd(parts[1..], s, j + |parts[0].text|)
  }

  lemma FitsIsAt(n: string, s: string, i: nat)
    requires i <= |s| && Starless(n)
    ensures Fits(n, s[i..]) <==> FitsAt(n, s, i)
  {
    if i + |n| <= |s| { assert forall k :: 0 <= k < |n| ==> s[i..][k] == s[i + k]; }
  }

  predicate Texts(parts: seq<Constant>) {
    forall i :: 0 <= i < |parts| ==> Starless(parts[i].text) && parts[i].text != ""
  }

  lemma {:induction false} SplitTexts(p: string, stars: nat)
    ensures Texts(Split(p, stars))
    decreases |p|
  {
    if p != "" {
      if p[0] == '*' { SplitTexts(p[1..], stars + 1); } else { SplitTexts(p[Upto(p)..], 0); }
    }
  }

  /** The leftmost places are places. */
  lemma {:induction false} LeftEndEmbeds(parts: seq<Constant>, s: string, i: nat)
    requires i <= |s| && Texts(parts) && LeftEnd(parts, s, i).Some?
    ensures Embeds(parts, s, i, LeftEnd(parts, s, i).value)
    decreases |parts|
  {
    if parts != [] {
      var n := parts[0].text;
      FirstIs(n, s, i);
      var j := First(n, s, i).value;
      FitsIsAt(n, s, j);
      LeftEndEmbeds(parts[1..], s, j + |n|);
      assert PartAt(parts, s, j, LeftEnd(parts, s, i).value);
    }
  }

  /** And no places end before them: if the parts can be placed at all, they can be placed leftmost. */
  lemma {:induction false} LeftEndLeast(parts: seq<Constant>, s: string, i: nat, j: nat, e: nat)
    requires i <= j <= |s| && Texts(parts) && Embeds(parts, s, j, e)
    ensures LeftEnd(parts, s, i).Some? && LeftEnd(parts, s, i).value <= e
    decreases |parts|
  {
    if parts != [] {
      var n := parts[0].text;
      var l :| j <= l <= |s| && PartAt(parts, s, l, e);
      FitsIsAt(n, s, l);
      FirstIs(n, s, i);
      var f := First(n, s, i).value;
      LeftEndLeast(parts[1..], s, f + |n|, l + |n|, e);
    }
  }

  // ----- the search that Pattern_Match2 makes -----

  /** The first place for a part; with exactly two stars in front of it, no backslash may come before it. */
  function Place(n: string, noBs: bool, s: string, i: nat): (r: Option<nat>)
    requires i <= |s|
    ensures r.Some? ==> i <= r.value && r.value + |n| <= |s| && r == First(n, s, i)
  {
    var f := First(n, s, i);
    if noBs && f.Some? && Crosses(s, i, f.value) then None else f
  }

  /** A backslash lies in `s` between two places. */
  predicate Crosses(s: string, i: nat, j: nat)
    requires i <= j <= |s|
  {
    '\\' in s[i..j]
  }

  /** No part has exactly two stars in front of it. */
  predicate Plain(parts: seq<Constant>) { forall i :: 0 <= i < |parts| ==> !parts[i].noBs }

  /** Each part is tried at the first place left for it, and then at the first place behind that one. The
      result is one more than where the last part ends, or 0. */
  function Attempt(parts: seq<Constant>, s: string, i: nat, tail: bool): nat
    requires i <= |s| && Texts(parts)
    decreases |parts|, |s| - i
  {
    if parts == [] then if i != |s| && !tail then 0 else i + 1
    else
      match Place(parts[0].text, parts[0].noBs, s, i)
      case None => 0
      case Some(j) =>
        var e := j + |parts[0].text|;
        var r := Attempt(parts[1..], s, e, tail);
        if r != 0 then r else Attempt(parts, s, e, tail)
  }

  lemma AttemptOnce(parts: seq<Constant>, s: string, i: nat, tail: bool)
    requires i <= |s| && Texts(parts) && parts != []
    ensures Place(parts[0].text, parts[0].noBs, s, i) == None ==> Attempt(parts, s, i, tail) == 0
    ensures Place(parts[0].text, parts[0].noBs, s, i).Some? ==>
      var e := Place(parts[0].text, parts[0].noBs, s, i).value + |parts[0].text|;
      var r := Attempt(parts[1..], s, e, tail);
      Attempt(parts, s, i, tail) == if r != 0 then r else Attempt(parts, s, e, tail)
  {}

  /** A place for the parts from `j` on is one from `i` on. */
  lemma EmbedsEarlier(parts: seq<Constant>, s: string, i: nat, j: nat, e: nat)
    requires parts != [] && i <= j <= |s| && Embeds(parts, s, j, e)
    ensures Embeds(parts, s, i, e)
  {
    var l :| j <= l <= |s| && PartAt(parts, s, l, e);
  }

  lemma PartEmbeds(parts: seq<Constant>, s: string, i: nat, j: nat, e: nat)
    requires parts != [] && i <= j && j + |parts[0].text| <= |s|
    requires Fits(parts[0].text, s[j..]) && Embeds(parts[1..], s, j + |parts[0].text|, e)
    ensures Embeds(parts, s, i, e)
  {
    assert PartAt(parts, s, j, e);
  }

  /** What the search finds are places for the parts. */
  lemma {:induction false} AttemptSound(parts: seq<Constant>, s: string, i: nat, tail: bool)
    requires i <= |s| && Texts(parts) && Attempt(parts, s, i, tail) != 0
    ensures var e := Attempt(parts, s, i, tail) - 1; Embeds(parts, s, i, e) && (tail || e == |s|)
    decreases |parts|, |s| - i
  {
    hide FitsAt, Fits, First, Place, Attempt, Embeds;
    if parts == [] {
      NoParts(parts, s, i, tail);
    } else {
      var n := parts[0].text;
      AttemptOnce(parts, s, i, tail);
      FirstIs(n, s, i);
      var j := First(n, s, i).value;
      var r := Attempt(parts[1..], s, j + |n|, tail);
      FitsIsAt(n, s, j);
      if r != 0 {
        AttemptSound(parts[1..], s, j + |n|, tail);
        PartEmbeds(parts, s, i, j, r - 1);
      } else {
        AttemptSound(parts, s, j + |n|, tail);
        EmbedsEarlier(parts, s, i, j + |n|, Attempt(parts, s, i, tail) - 1);
      }
    }
  }

  lemma NoParts(parts: seq<Constant>, s: string, i: nat, tail: bool)
    requires i <= |s| && parts == []
    ensures Attempt(parts, s, i, tail) == if i != |s| && !tail then 0 else i + 1
    ensures forall e: nat :: Embeds(parts, s, i, e) <==> i == e
  {}

  lemma NoneStays(parts: seq<Constant>, s: string, i: nat, j: nat)
    requires i <= j <= |s| && Texts(parts) && LeftEnd(parts, s, i) == None
    ensures LeftEnd(parts, s, j) == None
  {
    if LeftEnd(parts, s, j).Some? {
      LeftEndEmbeds(parts, s, j);
      LeftEndLeast(parts, s, i, j, LeftEnd(parts, s, j).value);
    }
  }

  /** When the pattern ends with a star, the first places decide, and trying again finds nothing. */
  lemma {:induction false} AttemptTail(parts: seq<Constant>, s: string, i: nat)
    requires i <= |s| && Texts(parts) && Plain(parts)
    ensures Attempt(parts, s, i, true) == match LeftEnd(parts, s, i) case None => 0 case Some(e) => e + 1
    decreases |parts|, |s| - i
  {
    if parts != [] {
      FirstIs(parts[0].text, s, i);
      if First(parts[0].text, s, i).Some? {
        var e := First(parts[0].text, s, i).value + |parts[0].text|;
        AttemptTail(parts[1..], s, e);
        if LeftEnd(parts[1..], s, e) == None {
          NoneStays(parts, s, i, e);
          AttemptTail(parts, s, e);
        }
      }
    }
  }

  /** No two places of the text overlap in any string. */
  predicate NoOverlap(n: string) {
    forall d :: 0 < d < |n| ==> Clash(n, d)
  }

  predicate Clash(n: string, d: nat) {
    exists k :: 0 <= k < |n| - d && n[k + d] != n[k] && n[k + d] != '?' && n[k] != '?'
  }

  lemma ClashMeans(n: string, d: nat, s: string, i: nat)
    requires Clash(n, d) && i + d <= |s| && FitsAt(n, s, i)
    ensures !FitsAt(n, s, i + d)
  {
    var k :| 0 <= k < |n| - d && n[k + d] != n[k] && n[k + d] != '?' && n[k] != '?';
    assert s[i + (k + d)] == n[k + d];
  }

  /** The first part can be moved to the first place it fits. */
  lemma FirstPlace(parts: seq<Constant>, s: string, i: nat, e: nat) returns (f: nat, l: nat)
    requires i <= |s| && Texts(parts) && parts != [] && Plain(parts) && Embeds(parts, s, i, e)
    ensures Place(parts[0].text, parts[0].noBs, s, i) == Some(f) && f <= l <= |s| && FitsAt(parts[0].text, s, f)
    ensures FitsAt(parts[0].text, s, l) && Embeds(parts[1..], s, l + |parts[0].text|, e)
    ensures |parts| > 1 ==> Embeds(parts[1..], s, f + |parts[0].text|, e)
  {
    var n := parts[0].text;
    l :| i <= l <= |s| && PartAt(parts, s, l, e);
    FitsIsAt(n, s, l);
    FirstIs(n, s, i);
    f := First(n, s, i).value;
    if |parts| > 1 { EmbedsEarlier(parts[1..], s, f + |n|, l + |n|, e); }
  }

  lemma LastEnds(rest: seq<Constant>, s: string, i: nat)
    requires |rest| == 1 && Texts(rest) && i <= |s| && Embeds(rest, s, i, |s|)
    ensures i + |rest[0].text| <= |s| && FitsAt(rest[0].text, s, |s| - |rest[0].text|)
  {
    var j :| i <= j <= |s| && PartAt(rest, s, j, |s|);
    PartIs(rest, s, j, |s|);
    FitsIsAt(rest[0].text, s, j);
    NoParts(rest[1..], s, j + |rest[0].text|, false);
    assert j == |s| - |rest[0].text|;
  }

  /** A search for the last part that misses the place at the end has stopped at one that overlaps it. */
  lemma {:induction false} Overlapped(rest: seq<Constant>, s: string, i: nat, last: nat) returns (x: nat)
    requires |rest| == 1 && Texts(rest) && Plain(rest) && i <= last && last + |rest[0].text| == |s|
    requires FitsAt(rest[0].text, s, last) && Attempt(rest, s, i, false) == 0
    ensures i <= x < last < x + |rest[0].text| && FitsAt(rest[0].text, s, x)
    decreases |s| - i
  {
    var w := rest[0].text;
    hide Attempt, First, FitsAt;
    FirstIs(w, s, i);
    AttemptOnce(rest, s, i, false);
    x := First(w, s, i).value;
    NoParts(rest[1..], s, x + |w|, false);
    if x + |w| <= last { x := Overlapped(rest, s, x + |w|, last); }
  }
}
