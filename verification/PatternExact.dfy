/** For which patterns the search by constant parts misses a match, and a string that it misses
    (pattern.c:431-471). */
module PatternExact {
  import opened CString
  import opened WildCompare
  import opened PatternParts
  import opened PatternRecover
  import opened PatternNarrow
  import opened PatternBackslash
  import opened Pattern
  import opened Wrappers

  // ----- a string that is missed -----

  /** A string that a part fits. */
  function Filled(n: string, fill: char): (r: string)
    ensures |r| == |n|
  {
    seq(|n|, i requires 0 <= i < |n| => if n[i] == '?' then fill else n[i])
  }

  /** A string that a part fits at 0 and, if nothing clashes, at `d` as well. */
  function Twice(w: string, d: nat, fill: char): (r: string)
    requires d <= |w|
    ensures |r| == |w| + d
  {
    seq(|w| + d, i requires 0 <= i < |w| + d =>
      if i < |w| && w[i] != '?' then w[i]
      else if d <= i && w[i - d] != '?' then w[i - d]
      else fill)
  }

  lemma TwiceFits(w: string, d: nat, fill: char)
    requires d < |w| && !Clash(w, d)
    ensures FitsAt(w, Twice(w, d, fill), 0) && FitsAt(w, Twice(w, d, fill), d)
  {
    var r := Twice(w, d, fill);
    forall k | 0 <= k < |w|
      ensures One(w[k], r[d + k])
    {
      if d + k < |w| { assert !(w[k + d] != w[k] && w[k + d] != '?' && w[k] != '?'); }
    }
  }

  /** What stands at and behind the place of the first part: the part, what is known behind it, and the rest of
      the last one, twice. */
  function Line(parts: seq<Constant>, gaps: seq<nat>, d: nat, fill: char): string
    requires parts != [] && |gaps| == |parts| - 1 && d <= |parts[|parts| - 1].text|
  {
    if |parts| == 1 then Twice(parts[0].text, d, fill)
    else Filled(parts[0].text, fill) + Filled(Marks(gaps[0]), fill) + Line(parts[1..], gaps[1..], d, fill)
  }

  /** The line stands in `s` at `c`, and from `i` on there is nothing but `fill` before it. */
  ghost predicate Stands(parts: seq<Constant>, gaps: seq<nat>, d: nat, fill: char, s: string, i: nat, c: nat)
    requires parts != [] && |gaps| == |parts| - 1 && d <= |parts[|parts| - 1].text|
  {
    i <= c <= |s| && s[c..] == Line(parts, gaps, d, fill) && forall k :: i <= k < c ==> s[k] == fill
  }

  /** The first part stands in front, and the others in the same way behind it. */
  lemma StandsBehind(parts: seq<Constant>, gaps: seq<nat>, d: nat, fill: char, s: string, i: nat, c: nat)
    requires |parts| > 1 && |gaps| == |parts| - 1 && d <= |parts[|parts| - 1].text|
    requires Stands(parts, gaps, d, fill, s, i, c)
    ensures var e := c + |parts[0].text|; Stands(parts[1..], gaps[1..], d, fill, s, e, e + gaps[0])
    ensures var n := parts[0].text; FitsAt(n, s, c) && forall k :: 0 <= k < |n| ==> s[c + k] == Filled(n, fill)[k]
  {
    var n, g, rest := Filled(parts[0].text, fill), Filled(Marks(gaps[0]), fill), Line(parts[1..], gaps[1..], d, fill);
    var e := c + |n|;
    assert s[c..] == n + g + rest;
    assert s[e + |g|..] == s[c..][|n| + |g|..] == rest;
    forall k | 0 <= k < |n|
      ensures s[c + k] == n[k]
    {
      assert s[c..][k] == n[k];
    }
    forall k | e <= k < e + |g|
      ensures s[k] == fill
    {
      assert s[c..][k - c] == g[k - e];
    }
  }

  /** The last part has places at the front of the line and at its end. */
  lemma LastStands(parts: seq<Constant>, d: nat, fill: char, s: string, i: nat, c: nat)
    requires |parts| == 1 && 0 < d < |parts[0].text| && !Clash(parts[0].text, d) && Stands(parts, [], d, fill, s, i, c)
    ensures var w := parts[0].text; |s| == c + |w| + d && FitsAt(w, s, c) && FitsAt(w, s, c + d)
  {
    var w := parts[0].text;
    TwiceFits(w, d, fill);
    assert forall k :: 0 <= k < |w| + d ==> s[c + k] == s[c..][k];
    forall k | 0 <= k < |w|
      ensures One(w[k], s[c + k]) && One(w[k], s[c + d + k])
    {
      assert s[c..][d + k] == s[c + (d + k)];
    }
  }

  /** So the parts have their places. */
  lemma {:induction false} LineEmbeds(parts: seq<Constant>, gaps: seq<nat>, d: nat, fill: char, s: string, i: nat,
      c: nat)
    requires parts != [] && Texts(parts) && |gaps| == |parts| - 1
    requires var w := parts[|parts| - 1].text; 0 < d < |w| && !Clash(w, d)
    requires Stands(parts, gaps, d, fill, s, i, c)
    ensures Embeds(parts, s, i, |s|)
    decreases |parts|
  {
    hide FitsAt, Fits, Embeds, Clash, Line;
    var n := parts[0].text;
    if |parts| == 1 {
      LastStands(parts, d, fill, s, i, c);
      FitsIsAt(n, s, c + d);
      NoParts(parts[1..], s, |s|, false);
      PartEmbeds(parts, s, i, c + d, |s|);
    } else {
      StandsBehind(parts, gaps, d, fill, s, i, c);
      FitsIsAt(n, s, c);
      LineEmbeds(parts[1..], gaps[1..], d, fill, s, c + |n|, c + |n| + gaps[0]);
      PartEmbeds(parts, s, i, c, |s|);
    }
  }

  // ----- where the parts are found -----

  lemma {:induction false} FirstLetter(n: string) returns (a: nat)
    requires HasLetter(n)
    ensures a < |n| && n[a] != '?' && forall k :: 0 <= k < a ==> n[k] == '?'
  {
    a := 0;
    if n[0] == '?' {
      var k :| 0 <= k < |n| && n[k] != '?';
      assert n[1..][k - 1] == n[k];
      var b := FirstLetter(n[1..]);
      a := b + 1;
      assert forall k :: 0 < k < a ==> n[k] == n[1..][k - 1];
    }
  }

  /** No letter up to `k`. */
  predicate MarksTo(n: string, k: int) { forall l :: 0 <= l <= k && l < |n| ==> n[l] == '?' }

  /** A part with a letter is not found before a line that starts with it. */
  lemma FoundInLine(n: string, s: string, i: nat, c: nat, fill: char, j: nat)
    requires HasLetter(n) && fill !in n && i <= j < c && c + |n| <= |s| && forall k :: i <= k < c ==> s[k] == fill
    requires forall k :: 0 <= k < |n| && MarksTo(n, k) ==> s[c + k] == fill
    ensures !FitsAt(n, s, j)
  {
    var a := FirstLetter(n);
    assert n[a] in n;
    assert MarksTo(n, j + a - c);
    assert s[j + a] == fill by {
      if j + a >= c { assert s[c + (j + a - c)] == fill; }
    }
  }

  lemma FoundAt(n: string, noBs: bool, s: string, i: nat, c: nat)
    requires i <= c <= |s| && FitsAt(n, s, c) && forall j :: i <= j < c ==> !FitsAt(n, s, j)
    ensures Place(n, noBs, s, i) == None || Place(n, noBs, s, i) == Some(c)
  {
    FirstIs(n, s, i);
  }

  /** The place of the first part: where the line starts. */
  lemma FirstInLine(parts: seq<Constant>, gaps: seq<nat>, d: nat, fill: char, s: string, i: nat, c: nat)
    requires parts != [] && Texts(parts) && |gaps| == |parts| - 1
    requires var w := parts[|parts| - 1].text; 0 < d < |w| && !Clash(w, d)
    requires Stands(parts, gaps, d, fill, s, i, c)
    requires fill !in parts[0].text && (i == c || HasLetter(parts[0].text))
    ensures Place(parts[0].text, parts[0].noBs, s, i) in {None, Some(c)}
    ensures c + |parts[0].text| <= |s|
  {
    var n := parts[0].text;
    if |parts| == 1 {
      LastStands(parts, d, fill, s, i, c);
      forall k | 0 <= k < |n| && MarksTo(n, k)
        ensures s[c + k] == fill
      {
        assert s[c + k] == s[c..][k] == Twice(n, d, fill)[k];
        assert n[k] == '?' && (k >= d ==> n[k - d] == '?');
      }
    } else {
      StandsBehind(parts, gaps, d, fill, s, i, c);
      PlaceInside(n, s, c);
      forall k | 0 <= k < |n| && MarksTo(n, k)
        ensures s[c + k] == fill
      {
        assert n[k] == '?';
      }
    }
    forall j | i <= j < c
      ensures !FitsAt(n, s, j)
    {
      FoundInLine(n, s, i, c, fill, j);
    }
    FoundAt(n, parts[0].noBs, s, i, c);
  }

  // ----- why a second try does not help -----

  lemma EndsBefore(parts: seq<Constant>, s: string, i: nat)
    requires parts != [] && Texts(parts) && i <= |s| && Embeds(parts, s, i, |s|)
    ensures i + |parts[|parts| - 1].text| <= |s|
    decreases |parts|
  {
    hide Fits;
    var l :| i <= l <= |s| && PartAt(parts, s, l, |s|);
    PartIs(parts, s, l, |s|);
    if |parts| > 1 { EndsBefore(parts[1..], s, l + |parts[0].text|); } else { LastEnds(parts, s, i); }
  }

  /** Where a string holds no more than what is known, places of parts in it are sure places. */
  lemma {:induction false} EmbedsSure(parts: seq<Constant>, s: string, e: nat, h: string, fill: char, i: nat)
    requires parts != [] && Texts(parts) && e + |h| + |parts[|parts| - 1].text| == |s|
    requires (forall k :: 0 <= k < |parts| ==> fill !in parts[k].text)
    requires forall k :: 0 <= k < |h| ==> s[e + k] == Filled(h, fill)[k]
    requires e <= i <= |s| && Embeds(parts, s, i, |s|)
    ensures i <= e + |h| && SurePlaces(parts[..|parts| - 1], h, i - e)
    decreases |parts|
  {
    hide Fits, FitsAt, Embeds;
    EndsBefore(parts, s, i);
    if |parts| > 1 {
      var n, rest, pre := parts[0].text, parts[1..], parts[..|parts| - 1];
      var l := FirstPart(parts, s, i, |s|);
      FitsIsAt(n, s, l);
      EndsBefore(rest, s, l + |n|);
      SureHere(n, s, e, h, fill, l);
      EmbedsSure(rest, s, e, h, fill, l + |n|);
      assert pre[0] == parts[0] && pre[1..] == rest[..|rest| - 1];
      assert SurelyAt(pre[0].text, h, l - e) && SurePlaces(pre[1..], h, l - e + |n|);
    } else {
      assert parts[..0] == [];
    }
  }

  lemma SureHere(n: string, s: string, e: nat, h: string, fill: char, l: nat)
    requires fill !in n && e <= l && l + |n| <= e + |h| <= |s| && FitsAt(n, s, l)
    requires forall k :: 0 <= k < |h| ==> s[e + k] == Filled(h, fill)[k]
    ensures SurelyAt(n, h, l - e)
  {
    forall k | 0 <= k < |n|
      ensures n[k] == '?' || (n[k] == h[l - e + k] && h[l - e + k] != '?')
    {
      assert One(n[k], s[l + k]) && s[e + (l - e + k)] == Filled(h, fill)[l - e + k] && n[k] in n;
    }
  }

  /** A gap, a part and what is known behind it, put together. */
  lemma JoinKnown(s: string, e: nat, g: nat, n: string, h: string, fill: char)
    requires e + g + |n| + |h| <= |s| && forall k :: e <= k < e + g ==> s[k] == fill
    requires forall k :: 0 <= k < |n| ==> s[e + g + k] == Filled(n, fill)[k]
    requires forall k :: 0 <= k < |h| ==> s[e + g + |n| + k] == Filled(h, fill)[k]
    ensures var all := Marks(g) + (n + h); forall k :: 0 <= k < |all| ==> s[e + k] == Filled(all, fill)[k]
  {
    var all := Marks(g) + (n + h);
    forall k | 0 <= k < |all|
      ensures s[e + k] == Filled(all, fill)[k]
    {
      if g <= k < g + |n| {
        assert s[e + g + (k - g)] == Filled(n, fill)[k - g];
      } else if k >= g + |n| {
        assert s[e + g + |n| + (k - g - |n|)] == Filled(h, fill)[k - g - |n|];
      }
    }
  }

  /** What stands behind the place of the first part is what is known of it. */
  lemma {:induction false} BehindStands(parts: seq<Constant>, gaps: seq<nat>, d: nat, fill: char, s: string, i: nat,
      c: nat)
    requires |parts| > 1 && |gaps| == |parts| - 1
    requires var w := parts[|parts| - 1].text; 0 < d < |w| && !Clash(w, d)
    requires Stands(parts, gaps, d, fill, s, i, c)
    ensures var w, e := parts[|parts| - 1].text, c + |parts[0].text|;
      var h := Behind(parts[..|parts| - 1], gaps, w[..d]);
      e + |h| + |w| == |s| && forall k :: 0 <= k < |h| ==> s[e + k] == Filled(h, fill)[k]
    decreases |parts|
  {
    hide FitsAt, Clash, Line, Filled;
    var w, e, g, rest := parts[|parts| - 1].text, c + |parts[0].text|, gaps[0], parts[1..];
    var pre := parts[..|parts| - 1];
    StandsBehind(parts, gaps, d, fill, s, i, c);
    if |parts| == 2 {
      assert gaps[1..] == [];
      LastStands(rest, d, fill, s, e, e + g);
      TwiceStarts(rest, d, fill, s, e, e + g);
      JoinKnown(s, e, g, "", w[..d], fill);
      assert "" + w[..d] == w[..d];
    } else {
      BehindStands(rest, gaps[1..], d, fill, s, e, e + g);
      StandsBehind(rest, gaps[1..], d, fill, s, e, e + g);
      assert pre[1..] == rest[..|rest| - 1] && pre[1] == rest[0];
      JoinKnown(s, e, g, rest[0].text, Behind(pre[1..], gaps[1..], w[..d]), fill);
    }
  }

  lemma TwiceStarts(parts: seq<Constant>, d: nat, fill: char, s: string, i: nat, c: nat)
    requires |parts| == 1 && d < |parts[0].text| && Stands(parts, [], d, fill, s, i, c)
    ensures c + d <= |s| && forall k :: 0 <= k < d ==> s[c + k] == Filled(parts[0].text[..d], fill)[k]
  {
    forall k | 0 <= k < d
      ensures s[c + k] == Filled(parts[0].text[..d], fill)[k]
    {
      assert s[c + k] == s[c..][k];
    }
  }

  /** No try finds the place of the last part at the end. */
  lemma {:induction false} LineMissed(parts: seq<Constant>, gaps: seq<nat>, d: nat, fill: char, s: string, i: nat,
      c: nat)
    requires parts != [] && Texts(parts) && |gaps| == |parts| - 1 && Tight(parts, gaps)
    requires forall k :: 0 <= k < |parts| ==> fill !in parts[k].text
    requires var w := parts[|parts| - 1].text;
      0 < d < |w| && !Clash(w, d) && (|parts| > 1 ==> !Rescued(parts[..|parts| - 1], gaps, w[..d]))
    requires Stands(parts, gaps, d, fill, s, i, c) && (i == c || HasLetter(parts[0].text))
    ensures Attempt(parts, s, i, false) == 0
    decreases |parts|
  {
    hide FitsAt, First, Place, Embeds, Attempt, Clash, Line, Rescued, HasLetter;
    AttemptOnce(parts, s, i, false);
    FirstInLine(parts, gaps, d, fill, s, i, c);
    var e := c + |parts[0].text|;
    if |parts| == 1 {
      LastStands(parts, d, fill, s, i, c);
      NoParts(parts[1..], s, e, false);
      TooShort(parts, s, e);
    } else {
      StandsBehind(parts, gaps, d, fill, s, i, c);
      RestNotRescued(parts, gaps, d);
      LineMissed(parts[1..], gaps[1..], d, fill, s, e, e + gaps[0]);
      SecondTry(parts, gaps, d, fill, s, i, c);
    }
  }

  lemma RestNotRescued(parts: seq<Constant>, gaps: seq<nat>, d: nat)
    requires |parts| > 1 && |gaps| == |parts| - 1 && d <= |parts[|parts| - 1].text|
    requires !Rescued(parts[..|parts| - 1], gaps, parts[|parts| - 1].text[..d])
    ensures |parts| > 2 ==> !Rescued(parts[1..][..|parts| - 2], gaps[1..], parts[|parts| - 1].text[..d])
  {
    assert parts[..|parts| - 1][1..] == parts[1..][..|parts| - 2];
  }

  /** Behind the first place of the first part there is no way to place all of them. */
  lemma SecondTry(parts: seq<Constant>, gaps: seq<nat>, d: nat, fill: char, s: string, i: nat, c: nat)
    requires |parts| > 1 && Texts(parts) && |gaps| == |parts| - 1
    requires forall k :: 0 <= k < |parts| ==> fill !in parts[k].text
    requires var w := parts[|parts| - 1].text;
      0 < d < |w| && !Clash(w, d) && !Rescued(parts[..|parts| - 1], gaps, w[..d])
    requires Stands(parts, gaps, d, fill, s, i, c) && c + |parts[0].text| <= |s|
    ensures Attempt(parts, s, c + |parts[0].text|, false) == 0
  {
    hide FitsAt, First, Place, Embeds, Attempt, Clash, Line, Stands, Behind;
    var e, h := c + |parts[0].text|, Behind(parts[..|parts| - 1], gaps, parts[|parts| - 1].text[..d]);
    BehindStands(parts, gaps, d, fill, s, i, c);
    if Attempt(parts, s, e, false) != 0 {
      AttemptSound(parts, s, e, false);
      EmbedsSure(parts, s, e, h, fill, e);
    }
  }

  lemma TooShort(parts: seq<Constant>, s: string, i: nat)
    requires parts != [] && Texts(parts) && i <= |s| < i + |parts[0].text|
    ensures Attempt(parts, s, i, false) == 0
  {
    FirstIs(parts[0].text, s, i);
  }

  // ----- the exact conditions -----

  /** The search finds every match of a pattern. */
  ghost predicate Complete(p: string) {
    forall s :: Terminated(s) ==> (Result(p, s) != 0 <==> Glob(p, s))
  }

  /** Patterns with a star that do not end with one. */
  predicate Starred(p: string) {
    p != "" && !TailStar(p) && Split(p, 0) != [] && (HeadStar(p) || |Split(p, 0)| > 1)
  }

  /** The string that a pattern misses. */
  lemma Missed(p: string, gaps: seq<nat>, d: nat, fill: char) returns (s: string)
    requires Starred(p) && fill !in p
    requires var parts := Split(p, 0);
      var w := parts[|parts| - 1].text;
      && |gaps| == |parts| - 1 && 0 < d < |w| && !Clash(w, d) && Tight(parts, gaps)
      && (|parts| > 1 ==> !Rescued(parts[..|parts| - 1], gaps, w[..d]))
    ensures Glob(p, s) && Result(p, s) == 0
    ensures Terminated(p) && fill != '\0' ==> Terminated(s)
  {
    hide Split, Embeds, Attempt, FitsAt, Glob, Rescued, Tight;
    var parts := Split(p, 0);
    SplitTexts(p, 0);
    PartsFrom(p, 0, fill);
    s := Line(parts, gaps, d, fill);
    assert s[0..] == s;
    assert Stands(parts, gaps, d, fill, s, 0, 0);
    LineMissed(parts, gaps, d, fill, s, 0, 0);
    LineEmbeds(parts, gaps, d, fill, s, 0, 0);
    if Terminated(p) && fill != '\0' {
      PartsTerminated(p, 0);
      LineTerminated(parts, gaps, d, fill);
    }
    if HeadStar(p) {
      EmbedsGlob(p, s, 0, |s|);
    } else {
      HeadPart(p, s);
      StandsBehind(parts, gaps, d, fill, s, 0, 0);
      RestSound(p, s, |s|);
    }
  }

  lemma {:induction false} LineTerminated(parts: seq<Constant>, gaps: seq<nat>, d: nat, fill: char)
    requires parts != [] && |gaps| == |parts| - 1 && d <= |parts[|parts| - 1].text|
    requires fill != '\0' && AllTerminated(parts)
    ensures Terminated(Line(parts, gaps, d, fill))
    decreases |parts|
  {
    if |parts| > 1 { LineTerminated(parts[1..], gaps[1..], d, fill); }
  }

  /** Parts have no characters but those of the pattern. */
  lemma {:induction false} PartsFrom(p: string, stars: nat, c: char)
    requires c !in p
    ensures forall i :: 0 <= i < |Split(p, stars)| ==> c !in Split(p, stars)[i].text
    decreases |p|
  {
    if p != "" {
      if p[0] == '*' { PartsFrom(p[1..], stars + 1, c); } else { PartsFrom(p[Upto(p)..], 0, c); }
    }
  }

  lemma RecoversComplete(p: string)
    requires Starred(p) && Plain(Split(p, 0)) && Recovers(Split(p, 0))
    ensures Complete(p)
  {
    forall s | Terminated(s)
      ensures Result(p, s) != 0 <==> Glob(p, s)
    {
      MatchComplete(p, s);
    }
  }

  /** With a star and none at the end: the search finds all matches if and only if the parts recover. `fill` is
      any character that the pattern does not use. */
  lemma RecoverExact(p: string, fill: char)
    requires Terminated(p) && Starred(p) && Plain(Split(p, 0)) && fill !in p && fill != '\0'
    ensures Complete(p) <==> Recovers(Split(p, 0))
  {
    hide Split, Rescued, Complete, Tight, Clash;
    var parts := Split(p, 0);
    if Recovers(parts) {
      RecoversComplete(p);
    } else {
      var m, w := |parts| - 1, parts[|parts| - 1].text;
      var d :| 0 < d < |w| && !Clash(w, d)
        && !(m > 0 && forall gaps: seq<nat> ::
               |gaps| == m && Within(gaps, Longest(parts)) ==> Rescued(parts[..m], gaps, w[..d]));
      var gaps: seq<nat> := [];
      if m > 0 {
        gaps :| |gaps| == m && !Rescued(parts[..m], gaps, w[..d]);
        Narrowed(parts, gaps, m, d);
      }
      NarrowTight(parts, gaps);
      var s := Missed(p, Narrow(parts, gaps, m), d, fill);
      NotComplete(p, s);
    }
  }

  lemma NotComplete(p: string, s: string)
    requires Terminated(s) && Glob(p, s) && Result(p, s) == 0
    ensures !Complete(p)
  {}

  /** Of all patterns, the search is complete for exactly those that end with a star, have none, or have parts
      that recover. */
  lemma CompleteExact(p: string, fill: char)
    requires p != "" && Terminated(p) && Plain(Split(p, 0)) && fill !in p && fill != '\0'
    ensures Complete(p) <==> Searchable(p)
  {
    hide Split, Complete, Recovers;
    if Starred(p) {
      RecoverExact(p, fill);
    } else {
      OnlyStars(p, 0);
      SearchableComplete(p);
    }
  }

  lemma SearchableComplete(p: string)
    requires p != "" && Plain(Split(p, 0)) && Searchable(p)
    ensures Complete(p)
  {
    hide Split, Searchable;
    forall s | Terminated(s)
      ensures Result(p, s) != 0 <==> Glob(p, s)
    {
      MatchComplete(p, s);
    }
  }

  /** A pattern without parts is all stars. */
  lemma {:induction false} OnlyStars(p: string, stars: nat)
    requires p != ""
    ensures Split(p, stars) == [] ==> TailStar(p)
    decreases |p|
  {
    if |p| > 1 && p[0] == '*' { OnlyStars(p[1..], stars + 1); }
  }

  // ----- patterns whose last overlaps are caught -----

  /** The part surely fits with its end at `y` in `w`; in front of `w` there may be question marks of it. */
  predicate EndsAt(u: string, w: string, y: nat) {
    0 < y <= |w| && forall k :: 0 <= k < |u| && u[k] != '?' ==> |u| <= k + y && u[k] == w[k + y - |u|]
  }

  predicate SurelyEnds(u: string, w: string) { exists y: nat | y <= |w| :: EndsAt(u, w, y) }

  /** A part that begins with a letter ends in a string only where it lies in it. */
  lemma LetterFirst(u: string, w: string)
    requires u != "" && u[0] != '?' && SurelyEnds(u, w)
    ensures SurelyIn(u, w)
  {
    var y: nat :| y <= |w| && EndsAt(u, w, y);
    assert SurelyAt(u, w, y - |u|);
  }

  lemma {:induction false} LastLetter(n: string) returns (t: nat)
    requires HasLetter(n)
    ensures t < |n| && n[t] != '?' && forall k :: t < k < |n| ==> n[k] == '?'
  {
    t := |n| - 1;
    if n[t] == '?' {
      var k :| 0 <= k < |n| && n[k] != '?';
      assert n[..t][k] == n[k];
      t := LastLetter(n[..t]);
    }
  }

  lemma NoLetterEnds(u: string, w: string)
    requires !HasLetter(u) && w != ""
    ensures SurelyEnds(u, w)
  {
    assert EndsAt(u, w, 1);
  }

  /** Behind a gap as wide as the part itself, it can only end in `b`. */
  lemma EndsBehind(x: string, u: string, b: string, t: nat, j: nat)
    requires t < |u| && u[t] != '?' && SurelyAt(u, x + Marks(|u|) + b, j) && j + t >= |x|
    ensures SurelyEnds(u, b)
  {
    var h, o := x + Marks(|u|) + b, |x| + |u|;
    assert h[j + t] == u[t];
    var y := j + |u| - o;
    forall k | 0 <= k < |u| && u[k] != '?'
      ensures |u| <= k + y && u[k] == b[k + y - |u|]
    {
      assert h[j + k] == u[k];
    }
    assert EndsAt(u, b, y);
  }

  /** The characters of the parts before the last one. */
  function Room(parts: seq<Constant>): nat {
    if |parts| <= 1 then 0 else |parts[0].text| + Room(parts[1..])
  }

  lemma {:induction false} LastSure(parts: seq<Constant>, h: string, i: nat) returns (j: nat)
    requires parts != [] && SurePlaces(parts, h, i)
    ensures i + Room(parts) <= j <= |h| && SurelyAt(parts[|parts| - 1].text, h, j)
    decreases |parts|
  {
    var n := parts[0].text;
    j :| i <= j <= |h| && SurelyAt(n, h, j) && SurePlaces(parts[1..], h, j + |n|);
    if |parts| > 1 { j := LastSure(parts[1..], h, j + |n|); }
  }

  /** No gap behind any part but the last, and one as wide as that part behind it. */
  predicate Wide(parts: seq<Constant>, gaps: seq<nat>) {
    && |parts| == |gaps| > 0 && gaps[|gaps| - 1] == |parts[|parts| - 1].text|
    && forall k :: 0 <= k < |gaps| - 1 ==> gaps[k] == 0
  }

  lemma {:induction false} WideBehind(parts: seq<Constant>, gaps: seq<nat>, b: string) returns (x: string)
    requires |parts| > 1 && Wide(parts, gaps)
    ensures var u := parts[|parts| - 1].text; Behind(parts, gaps, b) == x + u + Marks(|u|) + b
    ensures |x| + |parts[0].text| == Room(parts)
    decreases |parts|
  {
    var u, rest, later := parts[|parts| - 1].text, parts[1..], gaps[1..];
    if |parts| == 2 {
      x := "";
      assert Behind(parts, gaps, b) == Marks(0) + (u + (Marks(|u|) + b));
    } else {
      var more := WideBehind(rest, later, b);
      x := rest[0].text + more;
      assert Behind(parts, gaps, b) == Marks(0) + (rest[0].text + (more + u + Marks(|u|) + b));
    }
  }

  /** With such gaps only a part that ends before the second place of the last one is another way out. */
  lemma WideNoPlaces(parts: seq<Constant>, gaps: seq<nat>, b: string)
    requires Wide(parts, gaps) && Texts(parts) && b != "" && !SurelyEnds(parts[|parts| - 1].text, b)
    ensures !SurePlaces(parts, Behind(parts, gaps, b), 0)
  {
    hide SurelyEnds, Behind;
    var u, h := parts[|parts| - 1].text, Behind(parts, gaps, b);
    if !HasLetter(u) { NoLetterEnds(u, b); }
    if SurePlaces(parts, h, 0) {
      var t := LastLetter(u);
      var j := LastSure(parts, h, 0);
      if |parts| == 1 {
        OneBehind(parts, gaps, b);
        EndsBehind("", u, b, t, j);
      } else {
        var x := WideBehind(parts, gaps, b);
        PastIt(x, u, b, t, j);
        EndsBehind(x + u, u, b, t, j);
      }
    }
  }

  lemma OneBehind(parts: seq<Constant>, gaps: seq<nat>, b: string)
    requires |parts| == |gaps| == 1
    ensures Behind(parts, gaps, b) == "" + Marks(gaps[0]) + b
  {}

  /** A place behind the one the part has ends behind its last letter. */
  lemma PastIt(x: string, u: string, b: string, t: nat, j: nat)
    requires t < |u| && u[t] != '?' && forall k :: t < k < |u| ==> u[k] == '?'
    requires j > |x| && SurelyAt(u, x + u + Marks(|u|) + b, j)
    ensures j + t >= |x + u|
  {
    var h := x + u + Marks(|u|) + b;
    assert h[j + t] == u[t];
    forall q | |x| + t < q < |x + u|
      ensures h[q] == '?'
    {
      assert h[q] == u[q - |x|];
    }
  }

  lemma {:induction false} WideNotRescued(parts: seq<Constant>, gaps: seq<nat>, b: string)
    requires Wide(parts, gaps) && Texts(parts) && b != "" && !SurelyEnds(parts[|parts| - 1].text, b)
    ensures !Rescued(parts, gaps, b)
    decreases |parts|
  {
    hide SurelyEnds, Behind, SurePlaces;
    WideNoPlaces(parts, gaps, b);
    if |parts| > 1 { WideNotRescued(parts[1..], gaps[1..], b); }
  }

  lemma TwoRescued(u: Constant, b: string)
    requires Rescued([u], [0], b)
    ensures SurelyIn(u.text, b)
  {
    assert Behind([u], [0], b) == b;
    var j: nat :| j <= |b| && SurelyAt(u.text, b, j);
  }

  /** Of one or two parts, or of more of which the one before the last does not rely on question marks at its
      front: where it surely ends between the places of the last part, it also surely lies there. */
  predicate Measured(p: string) {
    var parts := Split(p, 0);
    Starred(p) && (|parts| > 2 ==>
      var u, w := parts[|parts| - 2].text, parts[|parts| - 1].text;
      forall d :: 0 < d < |w| && !Clash(w, d) && SurelyEnds(u, w[..d]) ==> SurelyIn(u, w[..d]))
  }

  /** For these the search is complete exactly when the part before the last one catches every overlap of the
      last one; for a single part behind a star, when it cannot overlap itself. */
  lemma SearchExact(p: string, fill: char)
    requires Terminated(p) && Measured(p) && Plain(Split(p, 0)) && fill !in p && fill != '\0'
    ensures Complete(p) <==> Catches(Split(p, 0))
  {
    hide Split, Rescued, Complete, Clash, SurelyEnds, SurelyIn;
    var parts := Split(p, 0);
    SplitTexts(p, 0);
    RecoverExact(p, fill);
    if Catches(parts) {
      CatchesRecovers(parts);
    } else {
      var m, w := |parts| - 1, parts[|parts| - 1].text;
      var d :| 0 < d < |w| && !Clash(w, d) && !(m > 0 && SurelyIn(parts[m - 1].text, w[..d]));
      if m > 0 { var gaps := Uncaught(parts, d); }
    }
  }

  /** Gaps for an overlap that is not caught. */
  lemma Uncaught(parts: seq<Constant>, d: nat) returns (gaps: seq<nat>)
    requires |parts| > 1 && Texts(parts) && 0 < d < |parts[|parts| - 1].text|
    requires !SurelyIn(parts[|parts| - 2].text, parts[|parts| - 1].text[..d])
    requires |parts| > 2 ==> !SurelyEnds(parts[|parts| - 2].text, parts[|parts| - 1].text[..d])
    ensures |gaps| == |parts| - 1 && Within(gaps, Longest(parts))
    ensures !Rescued(parts[..|parts| - 1], gaps, parts[|parts| - 1].text[..d])
  {
    hide Rescued, SurelyIn, SurelyEnds, Longest;
    var m, w := |parts| - 1, parts[|parts| - 1].text;
    if m == 1 {
      gaps := [0];
      assert parts[..1] == [parts[0]];
      if Rescued(parts[..1], gaps, w[..d]) { TwoRescued(parts[0], w[..d]); }
    } else {
      var u := parts[m - 1].text;
      gaps := seq(m, k requires 0 <= k < m => if k == m - 1 then |u| else 0);
      assert Wide(parts[..m], gaps);
      WideNotRescued(parts[..m], gaps, w[..d]);
    }
  }

  /** For a single part behind a star: exactly when no two of its places overlap. */
  lemma OnePartExact(w: string, fill: char)
    requires w != "" && Starless(w) && Terminated(w) && fill !in w && fill != '\0' && fill != '*'
    ensures Complete(['*'] + w) <==> NoOverlap(w)
  {
    hide Split;
    PartBehindStar(w, "");
    NoSplit();
    assert ['*'] + w + "" == ['*'] + w;
    SearchExact(['*'] + w, fill);
  }

  /** With a part before it the last one may overlap itself: the search finds all matches of `*b*bb`, and not of
      `*bb` (see SearchMisses). */
  lemma CaughtOverlap()
    ensures Complete("*b*bb") && !NoOverlap("bb")
  {
    hide Split, Upto, First, Result, Glob, Recovers;
    var parts := [Entry("b", 1), Entry("bb", 1)];
    CaughtSplit();
    assert "bb"[..1] == "b";
    assert SurelyAt("b", "b", 0) && SurelyIn("b", "b");
    assert !Clash("bb", 1);
    CatchesRecovers(parts);
    RecoversComplete("*b*bb");
  }

  lemma CaughtSplit()
    ensures Split("*b*bb", 0) == [Entry("b", 1), Entry("bb", 1)]
  {
    hide Split, Upto, First;
    NoSplit();
    PartBehindStar("bb", "");
    assert ['*'] + "bb" + "" == "*bb";
    PartBehindStar("b", "*bb");
    assert ['*'] + "b" + "*bb" == "*b*bb";
  }

  /** Question marks at the front of the part before the last one can make up for an overlap that it does not
      catch: the search finds all matches of `*?*??*bb`. */
  lemma MarksRecover()
    ensures Complete("*?*??*bb") && !Catches(Split("*?*??*bb", 0))
  {
    hide Split, Upto, First, Result, Glob;
    var parts := [Entry("?", 1), Entry("??", 1), Entry("bb", 1)];
    MarksSplit();
    assert "bb"[..1] == "b" && !Clash("bb", 1);
    assert !SurelyIn("??", "b");
    forall d, gaps: seq<nat> | 0 < d < 2 && |gaps| == 2
      ensures Rescued(parts[..2], gaps, "bb"[..d])
    {
      assert parts[..2] == [parts[0], parts[1]] && gaps == [gaps[0], gaps[1]];
      MarksRescued(parts[0], parts[1], gaps[0], gaps[1]);
    }
    assert Recovers(parts);
    RecoversComplete("*?*??*bb");
  }

  lemma MarksRescued(one: Constant, two: Constant, g: nat, g': nat)
    requires one.text == "?" && two.text == "??"
    ensures Rescued([one, two], [g, g'], "b")
  {
    var pre, gaps := [one, two], [g, g'];
    assert pre[1..] == [two] && gaps[1..] == [g'];
    var h' := Behind([two], [g'], "b");
    assert h' == Marks(g') + "b";
    if g' > 0 {
      OnePlace(two, h', 0, 0);
    } else {
      var h := Behind(pre, gaps, "b");
      assert h == Marks(g) + ("??" + h');
      OnePlace(two, h, 1, 1);
      assert SurelyAt(pre[0].text, h, 0) && SurePlaces(pre[1..], h, 0 + |pre[0].text|);
    }
  }

  lemma OnePlace(c: Constant, h: string, i: nat, j: nat)
    requires i <= j && SurelyAt(c.text, h, j)
    ensures SurePlaces([c], h, i)
  {
    assert SurelyAt([c][0].text, h, j) && SurePlaces([c][1..], h, j + |[c][0].text|);
  }

  lemma MarksSplit()
    ensures Split("*?*??*bb", 0) == [Entry("?", 1), Entry("??", 1), Entry("bb", 1)]
  {
    hide Split, Upto, First;
    MarksSplitEnd();
    PartBehindStar("?", "*??*bb");
    assert ['*'] + "?" + "*??*bb" == "*?*??*bb";
  }

  lemma MarksSplitEnd()
    ensures Split("*??*bb", 0) == [Entry("??", 1), Entry("bb", 1)]
  {
    hide Split, Upto, First;
    PartBehindStar("bb", "");
    assert ['*'] + "bb" + "" == "*bb";
    PartBehindStar("??", "*bb");
    assert ['*'] + "??" + "*bb" == "*??*bb";
    NoSplit();
  }

  lemma NoSplit()
    ensures Split("", 0) == []
  {}

  /** A star, a part, and the end or another star. */
  lemma PartBehindStar(n: string, rest: string)
    requires n != "" && Starless(n) && (rest == "" || rest[0] == '*')
    ensures Split(['*'] + n + rest, 0) == [Entry(n, 1)] + Split(rest, 0)
  {
    hide Split;
    OnePiece(1, n, rest, 0);
    assert Stars(1) + (n + rest) == ['*'] + n + rest;
  }
}
