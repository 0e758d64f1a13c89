/** When the search by constant parts recovers from a place that overlaps the last part (pattern.c:431-471). */
module PatternRecover {
  import opened WildCompare
  import opened PatternParts

  /** The part fits inside `w` at `y`, whatever stands for the question marks of `w`. */
  predicate SurelyAt(u: string, w: string, y: nat) {
    y + |u| <= |w| && forall k :: 0 <= k < |u| ==> u[k] == '?' || (u[k] == w[y + k] && w[y + k] != '?')
  }

  predicate SurelyIn(u: string, w: string) { exists y: nat | y <= |w| :: SurelyAt(u, w, y) }

  /** Whenever two places of the last part can overlap, the part before it has a place of its own between where
      they start. */
  predicate Catches(parts: seq<Constant>)
    requires parts != []
  {
    var w := parts[|parts| - 1].text;
    forall d :: 0 < d < |w| && !Clash(w, d) ==> |parts| > 1 && SurelyIn(parts[|parts| - 2].text, w[..d])
  }

  // ----- a second try of any part -----

  function Marks(n: nat): (r: string)
    ensures |r| == n
  {
    seq(n, _ => '?')
  }

  /** What is known of the string behind the place of the first part: a gap and the next part, and so on, and
      behind the gap of the last one `between`. A question mark is a character that is not known. */
  function Behind(parts: seq<Constant>, gaps: seq<nat>, between: string): string
    requires parts != [] && |gaps| == |parts|
  {
    Marks(gaps[0]) + if |parts| == 1 then between else parts[1].text + Behind(parts[1..], gaps[1..], between)
  }

  /** The parts surely have places one after the other in `h` from `i` on. */
  ghost predicate SurePlaces(parts: seq<Constant>, h: string, i: nat)
    decreases |parts|
  {
    parts == [] || exists j: nat | i <= j <= |h| ::
      SurelyAt(parts[0].text, h, j) && SurePlaces(parts[1..], h, j + |parts[0].text|)
  }

  /** One of the parts surely has another place behind the one it has, with the parts after it, before the
      second place of the last part. */
  ghost predicate Rescued(parts: seq<Constant>, gaps: seq<nat>, between: string)
    requires |gaps| == |parts|
    decreases |parts|
  {
    parts != [] && (SurePlaces(parts, Behind(parts, gaps, between), 0)
                    || (|parts| > 1 && Rescued(parts[1..], gaps[1..], between)))
  }

  /** The length of the longest part. */
  function Longest(parts: seq<Constant>): (n: nat)
    ensures forall k :: 0 <= k < |parts| ==> |parts[k].text| <= n
  {
    if parts == [] then 0
    else
      var n := Longest(parts[1..]);
      assert forall k :: 0 < k < |parts| ==> parts[k] == parts[1..][k - 1];
      if |parts[0].text| > n then |parts[0].text| else n
  }

  predicate Within(gaps: seq<nat>, n: nat) { forall k :: 0 <= k < |gaps| ==> gaps[k] <= n }

  /** However the parts are spread, a place that overlaps the one of the last part is not the last word. Wider
      gaps than the longest part need not be looked at. */
  ghost predicate Recovers(parts: seq<Constant>)
    requires parts != []
  {
    var m, w := |parts| - 1, parts[|parts| - 1].text;
    forall d :: 0 < d < |w| && !Clash(w, d) ==>
      m > 0 && forall gaps: seq<nat> ::
        |gaps| == m && Within(gaps, Longest(parts)) ==> Rescued(parts[..m], gaps, w[..d])
  }

  lemma SurelyInMore(u: string, h: string, y: nat, more: string)
    requires SurelyAt(u, h, y)
    ensures SurelyAt(u, more + h, |more| + y)
  {
    forall k | 0 <= k < |u|
      ensures u[k] == '?' || (u[k] == (more + h)[|more| + y + k] && (more + h)[|more| + y + k] != '?')
    {
      assert (more + h)[|more| + (y + k)] == h[y + k];
    }
  }

  /** What the part before the last one catches by itself is recovered. */
  lemma {:induction false} CaughtRescued(parts: seq<Constant>, gaps: seq<nat>, between: string)
    requires parts != [] && |gaps| == |parts| && SurelyIn(parts[|parts| - 1].text, between)
    ensures Rescued(parts, gaps, between)
    decreases |parts|
  {
    if |parts| == 1 {
      var u := parts[0].text;
      var y: nat :| y <= |between| && SurelyAt(u, between, y);
      SurelyInMore(u, between, y, Marks(gaps[0]));
      assert parts[1..] == [];
      assert SurePlaces(parts[1..], Behind(parts, gaps, between), gaps[0] + y + |u|);
    } else {
      CaughtRescued(parts[1..], gaps[1..], between);
    }
  }

  lemma CatchesRecovers(parts: seq<Constant>)
    requires parts != [] && Catches(parts)
    ensures Recovers(parts)
  {
    var m, w := |parts| - 1, parts[|parts| - 1].text;
    forall d, gaps: seq<nat> | 0 < d < |w| && !Clash(w, d) && |gaps| == m
      ensures m > 0 && Rescued(parts[..m], gaps, w[..d])
    {
      assert parts[..m][m - 1] == parts[m - 1];
      CaughtRescued(parts[..m], gaps, w[..d]);
    }
  }

  // ----- wider gaps -----

  /** A place behind the front of a gap moves with the end of the gap. */
  lemma SureShifted(u: string, x: string, n: nat, wider: nat, y: string, j: nat)
    requires n <= wider && j >= |x| && SurelyAt(u, x + Marks(n) + y, j)
    ensures SurelyAt(u, x + Marks(wider) + y, j + wider - n)
  {
    var h, h' := x + Marks(n) + y, x + Marks(wider) + y;
    forall k | 0 <= k < |u|
      ensures u[k] == '?' || (u[k] == h'[j + wider - n + k] && h'[j + wider - n + k] != '?')
    {
      assert u[k] == '?' || (u[k] == h[j + k] && h[j + k] != '?');
    }
  }

  /** A place that ends in the gap or before it stays. */
  lemma SureStays(u: string, x: string, n: nat, wider: nat, y: string, j: nat)
    requires n <= wider && j + |u| <= |x| + n && SurelyAt(u, x + Marks(n) + y, j)
    ensures SurelyAt(u, x + Marks(wider) + y, j)
  {
    var h, h' := x + Marks(n) + y, x + Marks(wider) + y;
    forall k | 0 <= k < |u|
      ensures u[k] == '?' || (u[k] == h'[j + k] && h'[j + k] != '?')
    {
      assert u[k] == '?' || (u[k] == h[j + k] && h[j + k] != '?');
    }
  }

  lemma SureEarlier(parts: seq<Constant>, h: string, i: nat, later: nat)
    requires i <= later && SurePlaces(parts, h, later)
    ensures SurePlaces(parts, h, i)
  {}

  lemma {:induction false} AllShifted(parts: seq<Constant>, x: string, n: nat, wider: nat, y: string, i: nat)
    requires n <= wider && i >= |x| && SurePlaces(parts, x + Marks(n) + y, i)
    ensures SurePlaces(parts, x + Marks(wider) + y, i + wider - n)
    decreases |parts|
  {
    if parts != [] {
      var u, h, h' := parts[0].text, x + Marks(n) + y, x + Marks(wider) + y;
      var j: nat :| i <= j <= |h| && SurelyAt(u, h, j) && SurePlaces(parts[1..], h, j + |u|);
      SureShifted(u, x, n, wider, y, j);
      AllShifted(parts[1..], x, n, wider, y, j + |u|);
      assert SurePlaces(parts[1..], h', j + wider - n + |u|);
    }
  }

  /** A gap as wide as the parts can be widened. */
  lemma {:induction false} Widened(parts: seq<Constant>, x: string, n: nat, wider: nat, y: string, i: nat)
    requires n <= wider && (forall k :: 0 <= k < |parts| ==> |parts[k].text| <= n)
    requires SurePlaces(parts, x + Marks(n) + y, i)
    ensures SurePlaces(parts, x + Marks(wider) + y, i)
    decreases |parts|
  {
    if parts != [] {
      var u, h, h' := parts[0].text, x + Marks(n) + y, x + Marks(wider) + y;
      var j: nat :| i <= j <= |h| && SurelyAt(u, h, j) && SurePlaces(parts[1..], h, j + |u|);
      if j >= |x| {
        AllShifted(parts, x, n, wider, y, j);
        SureEarlier(parts, h', i, j + wider - n);
      } else {
        SureStays(u, x, n, wider, y, j);
        assert forall k :: 0 <= k < |parts[1..]| ==> parts[1..][k] == parts[k + 1];
        Widened(parts[1..], x, n, wider, y, j + |u|);
      }
    }
  }

  /** The gaps of `more` are those of `gaps`, or wider where `gaps` are as wide as the parts. */
  predicate Wider(gaps: seq<nat>, more: seq<nat>, n: nat) {
    |gaps| == |more| && forall k :: 0 <= k < |gaps| ==> gaps[k] == more[k] || n <= gaps[k] <= more[k]
  }

  lemma {:induction false} AllWidened(parts: seq<Constant>, spread: seq<Constant>, gaps: seq<nat>, more: seq<nat>,
      n: nat, between: string, x: string, i: nat)
    requires (forall k :: 0 <= k < |parts| ==> |parts[k].text| <= n) && spread != [] && |gaps| == |spread|
    requires Wider(gaps, more, n) && SurePlaces(parts, x + Behind(spread, gaps, between), i)
    ensures SurePlaces(parts, x + Behind(spread, more, between), i)
    decreases |spread|
  {
    var y := if |spread| == 1 then between else spread[1].text + Behind(spread[1..], gaps[1..], between);
    assert x + Behind(spread, gaps, between) == x + Marks(gaps[0]) + y;
    if gaps[0] != more[0] { Widened(parts, x, gaps[0], more[0], y, i); }
    if |spread| == 1 {
      assert x + Marks(more[0]) + y == x + Behind(spread, more, between);
    } else {
      var x' := x + Marks(more[0]) + spread[1].text;
      assert x + Marks(more[0]) + y == x' + Behind(spread[1..], gaps[1..], between);
      AllWidened(parts, spread[1..], gaps[1..], more[1..], n, between, x', i);
      assert x' + Behind(spread[1..], more[1..], between) == x + Behind(spread, more, between);
    }
  }

  lemma {:induction false} RescuedWider(parts: seq<Constant>, gaps: seq<nat>, more: seq<nat>, n: nat, between: string)
    requires (forall k :: 0 <= k < |parts| ==> |parts[k].text| <= n) && |gaps| == |parts| && Wider(gaps, more, n)
    requires Rescued(parts, gaps, between)
    ensures Rescued(parts, more, between)
    decreases |parts|
  {
    hide Behind, SurePlaces;
    if SurePlaces(parts, Behind(parts, gaps, between), 0) {
      NothingInFront(Behind(parts, gaps, between));
      NothingInFront(Behind(parts, more, between));
      AllWidened(parts, parts, gaps, more, n, between, "", 0);
    } else {
      assert forall k :: 0 <= k < |parts[1..]| ==> parts[1..][k] == parts[k + 1];
      RescuedWider(parts[1..], gaps[1..], more[1..], n, between);
    }
  }

  lemma NothingInFront(h: string)
    ensures "" + h == h
  {}

  /** Parts that recover do so with gaps of any width. */
  lemma RecoversAll(parts: seq<Constant>, gaps: seq<nat>, d: nat)
    requires |parts| > 1 && Recovers(parts) && |gaps| == |parts| - 1
    requires var w := parts[|parts| - 1].text; 0 < d < |w| && !Clash(w, d)
    ensures Rescued(parts[..|parts| - 1], gaps, parts[|parts| - 1].text[..d])
  {
    hide Rescued;
    var n, w := Longest(parts), parts[|parts| - 1].text;
    var narrow: seq<nat> := seq(|gaps|, k requires 0 <= k < |gaps| => if gaps[k] > n then n else gaps[k]);
    assert Within(narrow, n) && Wider(narrow, gaps, n);
    RescuedWider(parts[..|parts| - 1], narrow, gaps, n, w[..d]);
  }

  // ----- why the search then finds every match -----

  lemma SurelyFits(u: string, h: string, y: nat, s: string, at: nat)
    requires SurelyAt(u, h, y) && at <= |s| && FitsAt(h, s, at)
    ensures FitsAt(u, s, at + y)
  {
    forall k | 0 <= k < |u|
      ensures One(u[k], s[at + y + k])
    {
      assert One(h[y + k], s[at + (y + k)]);
    }
  }

  /** Sure places are places, with the last part at the end of the string. */
  lemma {:induction false} SureEmbeds(parts: seq<Constant>, h: string, i: nat, s: string, at: nat)
    requires parts != [] && Texts(parts) && i <= |h| && SurePlaces(parts[..|parts| - 1], h, i)
    requires at + |h| + |parts[|parts| - 1].text| == |s| && FitsAt(h, s, at)
    requires FitsAt(parts[|parts| - 1].text, s, at + |h|)
    ensures Embeds(parts, s, at + i, |s|)
    decreases |parts|
  {
    hide FitsAt, Fits, Embeds;
    var n, rest := parts[0].text, parts[1..];
    if |parts| == 1 {
      FitsIsAt(n, s, at + |h|);
      NoParts(rest, s, |s|, false);
      PartEmbeds(parts, s, at + i, at + |h|, |s|);
    } else {
      var pre := parts[..|parts| - 1];
      var j: nat :| i <= j <= |h| && SurelyAt(pre[0].text, h, j) && SurePlaces(pre[1..], h, j + |pre[0].text|);
      SurelyFits(n, h, j, s, at);
      FitsIsAt(n, s, at + j);
      assert pre[1..] == rest[..|rest| - 1];
      SureEmbeds(rest, h, j + |n|, s, at);
      PartEmbeds(parts, s, at + i, at + j, |s|);
    }
  }

  /** The parts have places, and the search has failed: the gaps between the last places it tried, and the
      shift by which the place it tried for the last part misses the one at the end. */
  lemma {:induction false} Failure(parts: seq<Constant>, s: string, i: nat) returns (gaps: seq<nat>, d: nat, e: nat)
    requires |parts| > 1 && Texts(parts) && Plain(parts) && i <= |s| && Embeds(parts, s, i, |s|)
    requires Attempt(parts, s, i, false) == 0
    ensures var m, w := |parts| - 1, parts[|parts| - 1].text;
      && 0 < d < |w| && !Clash(w, d) && |gaps| == m && !Rescued(parts[..m], gaps, w[..d])
      && i + |parts[0].text| <= e <= |s| && FitsAt(parts[0].text, s, e - |parts[0].text|)
      && e + |Behind(parts[..m], gaps, w[..d])| + |w| == |s|
      && FitsAt(Behind(parts[..m], gaps, w[..d]), s, e) && FitsAt(w, s, |s| - |w|)
    decreases |parts|, |s| - i
  {
    hide FitsAt, Fits, First, Embeds, Attempt, Clash, Rescued, Behind;
    var n, rest := parts[0].text, parts[1..];
    var f, l := FirstPlace(parts, s, i, |s|);
    AttemptOnce(parts, s, i, false);
    e := f + |n|;
    PlaceInside(n, s, f);
    if Embeds(parts, s, e, |s|) {
      gaps, d, e := Failure(parts, s, e);
    } else if |parts| == 2 {
      gaps, d := FailureAtLast(parts, s, e);
    } else {
      var e2;
      gaps, d, e2 := Failure(rest, s, e);
      gaps := FailureBefore(parts, s, e, gaps, d, e2);
    }
  }

  lemma PlaceInside(n: string, s: string, i: nat)
    requires i <= |s| && FitsAt(n, s, i)
    ensures i + |n| <= |s|
  {}

  lemma FailureAtLast(parts: seq<Constant>, s: string, e: nat) returns (gaps: seq<nat>, d: nat)
    requires |parts| == 2 && Texts(parts) && Plain(parts) && e <= |s|
    requires Embeds(parts[1..], s, e, |s|) && Attempt(parts[1..], s, e, false) == 0 && !Embeds(parts, s, e, |s|)
    ensures var w := parts[1].text;
      && 0 < d < |w| && !Clash(w, d) && |gaps| == 1 && !Rescued(parts[..1], gaps, w[..d])
      && e + |Behind(parts[..1], gaps, w[..d])| + |w| == |s|
      && FitsAt(Behind(parts[..1], gaps, w[..d]), s, e) && FitsAt(w, s, |s| - |w|)
  {
    hide Fits, First, Embeds, Attempt;
    var w := parts[1].text;
    LastEnds(parts[1..], s, e);
    var last := |s| - |w|;
    var x := Overlapped(parts[1..], s, e, last);
    d, gaps := last - x, [x - e];
    if Clash(w, d) { ClashMeans(w, d, s, x); }
    var h := Behind(parts[..1], gaps, w[..d]);
    assert h == Marks(x - e) + w[..d];
    forall k | 0 <= k < |h|
      ensures One(h[k], s[e + k])
    {
      if k >= x - e { assert h[k] == w[k - (x - e)] && One(w[k - (x - e)], s[x + (k - (x - e))]); }
    }
    if SurePlaces(parts[..1], h, 0) { SureEmbeds(parts, h, 0, s, e); }
  }

  lemma FailureBefore(parts: seq<Constant>, s: string, e: nat, later: seq<nat>, d: nat, e2: nat)
    returns (gaps: seq<nat>)
    requires |parts| > 2 && Texts(parts) && e <= |s| && !Embeds(parts, s, e, |s|)
    requires var rest, m, w := parts[1..], |parts| - 1, parts[|parts| - 1].text;
      && 0 < d < |w| && |later| == m - 1 && !Rescued(rest[..m - 1], later, w[..d])
      && e + |rest[0].text| <= e2 <= |s| && FitsAt(rest[0].text, s, e2 - |rest[0].text|)
      && e2 + |Behind(rest[..m - 1], later, w[..d])| + |w| == |s|
      && FitsAt(Behind(rest[..m - 1], later, w[..d]), s, e2) && FitsAt(w, s, |s| - |w|)
    ensures var m, w := |parts| - 1, parts[|parts| - 1].text;
      && |gaps| == m && !Rescued(parts[..m], gaps, w[..d])
      && e + |Behind(parts[..m], gaps, w[..d])| + |w| == |s|
      && FitsAt(Behind(parts[..m], gaps, w[..d]), s, e)
  {
    hide Embeds, Fits;
    var rest, m, w := parts[1..], |parts| - 1, parts[|parts| - 1].text;
    var n, h2 := rest[0].text, Behind(rest[..m - 1], later, w[..d]);
    var gap := e2 - |n| - e;
    gaps := [gap] + later;
    assert gaps[1..] == later && parts[..m][1..] == rest[..m - 1] && parts[..m][1] == rest[0];
    var h := Behind(parts[..m], gaps, w[..d]);
    assert h == Marks(gap) + (n + h2);
    forall k | 0 <= k < |h|
      ensures One(h[k], s[e + k])
    {
      if gap <= k < gap + |n| {
        assert h[k] == n[k - gap] && One(n[k - gap], s[e2 - |n| + (k - gap)]);
      } else if k >= gap + |n| {
        assert h[k] == h2[k - gap - |n|] && One(h2[k - gap - |n|], s[e2 + (k - gap - |n|)]);
      }
    }
    if SurePlaces(parts[..m], h, 0) { SureEmbeds(parts, h, 0, s, e); }
  }

  /** Without a star at the end, the search finds every match of parts that recover. */
  lemma AttemptComplete(parts: seq<Constant>, s: string, i: nat)
    requires i <= |s| && Texts(parts) && Plain(parts) && Embeds(parts, s, i, |s|)
    requires parts != [] ==> Recovers(parts)
    ensures Attempt(parts, s, i, false) != 0
  {
    hide FitsAt, Fits, First, Embeds, Attempt, Clash, Rescued, Behind, Longest;
    if Attempt(parts, s, i, false) == 0 {
      if parts == [] {
        NoParts(parts, s, i, false);
      } else if |parts| == 1 {
        var w := parts[0].text;
        LastEnds(parts, s, i);
        var x := Overlapped(parts, s, i, |s| - |w|);
        if Clash(w, |s| - |w| - x) { ClashMeans(w, |s| - |w| - x, s, x); }
      } else {
        var gaps, d, e := Failure(parts, s, i);
        RecoversAll(parts, gaps, d);
      }
    }
  }
}
