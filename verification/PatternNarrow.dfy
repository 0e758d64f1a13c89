/** Gaps from which no part recovers can be chosen without room before the parts of question marks only, so that
    the search finds those where the line has them (pattern.c:431-471). */
module PatternNarrow {
  import opened PatternParts
  import opened PatternRecover

  /** The part has a character that is no question mark. */
  predicate HasLetter(n: string) { exists k :: 0 <= k < |n| && n[k] != '?' }

  /** There is room only before parts with a letter. */
  predicate Tight(parts: seq<Constant>, gaps: seq<nat>)
    requires |gaps| == |parts| - 1
  {
    forall k :: 0 <= k < |gaps| ==> HasLetter(parts[k + 1].text) || gaps[k] == 0
  }

  // ----- before a last part of question marks -----

  lemma {:induction false} SureInPrefix(parts: seq<Constant>, h: string, more: string, i: nat)
    requires i <= |h| && h <= more && SurePlaces(parts, h, i)
    ensures SurePlaces(parts, more, i)
    decreases |parts|
  {
    if parts != [] {
      var n := parts[0].text;
      var j: nat :| i <= j <= |h| && SurelyAt(n, h, j) && SurePlaces(parts[1..], h, j + |n|);
      SureInPrefix(parts[1..], h, more, j + |n|);
      assert SurelyAt(n, more, j);
    }
  }

  lemma {:induction false} NarrowPrefix(parts: seq<Constant>, gaps: seq<nat>, between: string)
    requires parts != [] && |gaps| == |parts| && !HasLetter(between)
    ensures Behind(parts, gaps[|parts| - 1 := 0], between) <= Behind(parts, gaps, between)
    decreases |parts|
  {
    if |parts| > 1 {
      assert gaps[|parts| - 1 := 0][1..] == gaps[1..][|parts| - 2 := 0];
      NarrowPrefix(parts[1..], gaps[1..], between);
    }
  }

  lemma {:induction false} NarrowLast(parts: seq<Constant>, gaps: seq<nat>, between: string)
    requires parts != [] && |gaps| == |parts| && !HasLetter(between)
    requires Rescued(parts, gaps[|parts| - 1 := 0], between)
    ensures Rescued(parts, gaps, between)
    decreases |parts|
  {
    hide HasLetter;
    var narrow: seq<nat> := gaps[|parts| - 1 := 0];
    if SurePlaces(parts, Behind(parts, narrow, between), 0) {
      NarrowPrefix(parts, gaps, between);
      SureInPrefix(parts, Behind(parts, narrow, between), Behind(parts, gaps, between), 0);
    } else {
      assert narrow[1..] == gaps[1..][|parts| - 2 := 0];
      NarrowLast(parts[1..], gaps[1..], between);
    }
  }

  // ----- before any other part of question marks -----

  lemma {:induction false} SureBehind(parts: seq<Constant>, x: string, y: string, i: nat)
    requires SurePlaces(parts, y, i)
    ensures SurePlaces(parts, x + y, |x| + i)
    decreases |parts|
  {
    if parts != [] {
      var u := parts[0].text;
      var j: nat :| i <= j <= |y| && SurelyAt(u, y, j) && SurePlaces(parts[1..], y, j + |u|);
      SurelyInMore(u, y, j, x);
      SureBehind(parts[1..], x, y, j + |u|);
      assert SurePlaces(parts[1..], x + y, |x| + j + |u|);
    }
  }

  lemma {:induction false} SureWithin(parts: seq<Constant>, x: string, y: string, i: nat)
    requires SurePlaces(parts, x + y, |x| + i)
    ensures SurePlaces(parts, y, i)
    decreases |parts|
  {
    if parts != [] {
      var u := parts[0].text;
      var j: nat :| |x| + i <= j <= |x + y| && SurelyAt(u, x + y, j) && SurePlaces(parts[1..], x + y, j + |u|);
      assert SurelyAt(u, y, j - |x|);
      SureWithin(parts[1..], x, y, j - |x| + |u|);
      assert SurePlaces(parts[1..], y, j - |x| + |u|);
    }
  }

  lemma {:induction false} SureWithout(parts: seq<Constant>, n: nat, h: string, i: nat)
    requires n <= |parts| && SurePlaces(parts, h, i)
    ensures SurePlaces(parts[n..], h, i)
    decreases n
  {
    if n > 0 {
      var j: nat :| i <= j <= |h| && SurelyAt(parts[0].text, h, j) && SurePlaces(parts[1..], h, j + |parts[0].text|);
      SureEarlier(parts[1..], h, i, j + |parts[0].text|);
      SureWithout(parts[1..], n - 1, h, i);
      assert parts[1..][n - 1..] == parts[n..];
    }
  }

  /** The places that the other parts have behind the first one. */
  lemma {:induction false} OwnPlaces(parts: seq<Constant>, gaps: seq<nat>, between: string)
    requires parts != [] && |gaps| == |parts|
    ensures SurePlaces(parts[1..], Behind(parts, gaps, between), 0)
    decreases |parts|
  {
    if |parts| > 1 {
      var u, y, h := parts[1].text, Behind(parts[1..], gaps[1..], between), Behind(parts, gaps, between);
      OwnPlaces(parts[1..], gaps[1..], between);
      assert h == (Marks(gaps[0]) + u) + y;
      SureBehind(parts[2..], Marks(gaps[0]) + u, y, 0);
      assert parts[1..][0] == parts[1] && parts[1..][1..] == parts[2..];
      assert SurelyAt(u, h, gaps[0]);
      assert SurePlaces(parts[1..][1..], h, gaps[0] + |u|);
    }
  }

  /** A part of question marks has a place anywhere in a gap that is wide enough, and the others behind it. */
  lemma MarksPlace(parts: seq<Constant>, x: string, wider: nat, y: string, i: nat)
    requires parts != [] && !HasLetter(parts[0].text) && |parts[0].text| <= wider && i <= |x|
    requires SurePlaces(parts[1..], y, 0)
    ensures SurePlaces(parts, x + Marks(wider) + y, i)
  {
    var u, h := parts[0].text, x + Marks(wider) + y;
    SureBehind(parts[1..], x + Marks(wider), y, 0);
    var j := |x| + wider - |u|;
    assert SurelyAt(u, h, j) && SurePlaces(parts[1..], h, j + |u|);
  }

  /** Places that the parts have with no more room than the part of question marks, they also have with more room
      in front of it; or that part and those after it have places behind it. */
  lemma {:induction false} MoreRoom(parts: seq<Constant>, n: nat, x: string, wider: nat, y: string, i: nat)
    requires n < |parts| && !HasLetter(parts[n].text) && |parts[n].text| <= wider && SurePlaces(parts[n + 1..], y, 0)
    requires SurePlaces(parts, x + Marks(|parts[n].text|) + y, i)
    ensures SurePlaces(parts, x + Marks(wider) + y, i) || SurePlaces(parts[n..], y, 0)
    decreases n
  {
    hide HasLetter, SurelyAt;
    var k, u := |parts[n].text|, parts[0].text;
    var h := x + Marks(k) + y;
    if n == 0 {
      if i <= |x| {
        MarksPlace(parts, x, wider, y, i);
      } else {
        AllShifted(parts, x, k, wider, y, i);
        SureEarlier(parts, x + Marks(wider) + y, i, i + wider - k);
      }
    } else {
      var j: nat :| i <= j <= |h| && SurelyAt(u, h, j) && SurePlaces(parts[1..], h, j + |u|);
      assert parts[1..][n - 1] == parts[n] && parts[1..][n - 1..] == parts[n..] && parts[1..][n..] == parts[n + 1..];
      if j + |u| <= |x| + k {
        SureStays(u, x, k, wider, y, j);
        MoreRoom(parts[1..], n - 1, x, wider, y, j + |u|);
      } else {
        var z := j + |u| - |x| - k;
        SureWithin(parts[1..], x + Marks(k), y, z);
        SureEarlier(parts[1..], y, 0, z);
        SureWithout(parts[1..], n - 1, y, 0);
      }
    }
  }

  /** What is known before the gap in front of part `t + 1`. */
  function Before(parts: seq<Constant>, gaps: seq<nat>, t: nat): string
    requires t < |parts| == |gaps|
  {
    if t == 0 then "" else Marks(gaps[0]) + parts[1].text + Before(parts[1..], gaps[1..], t - 1)
  }

  lemma MarksJoin(g: nat, u: string, y: string)
    requires !HasLetter(u)
    ensures Marks(g) + (u + y) == "" + Marks(g + |u|) + y
  {}

  lemma {:induction false} BehindCut(parts: seq<Constant>, gaps: seq<nat>, t: nat, g: nat, between: string)
    requires t + 1 < |parts| == |gaps| && !HasLetter(parts[t + 1].text)
    ensures Behind(parts, gaps[t := g], between) == Before(parts, gaps, t) + Marks(g + |parts[t + 1].text|)
                                                    + Behind(parts[t + 1..], gaps[t + 1..], between)
    decreases t
  {
    hide HasLetter;
    var u, y := parts[t + 1].text, Behind(parts[t + 1..], gaps[t + 1..], between);
    if t == 0 {
      assert gaps[0 := g][1..] == gaps[1..];
      MarksJoin(g, u, y);
    } else {
      BehindCut(parts[1..], gaps[1..], t - 1, g, between);
      assert gaps[t := g][1..] == gaps[1..][t - 1 := g];
      assert parts[1..][t..] == parts[t + 1..] && gaps[1..][t..] == gaps[t + 1..];
      Grouped(Marks(gaps[0]), parts[1].text, Before(parts[1..], gaps[1..], t - 1), Marks(g + |u|), y);
    }
  }

  lemma Grouped(a: string, b: string, c: string, d: string, e: string)
    ensures a + (b + (c + d + e)) == a + b + c + d + e
  {}

  lemma {:induction false} RescuedAt(parts: seq<Constant>, n: nat, gaps: seq<nat>, between: string)
    requires n < |parts| == |gaps| && SurePlaces(parts[n..], Behind(parts[n..], gaps[n..], between), 0)
    ensures Rescued(parts, gaps, between)
    decreases n
  {
    hide Behind, SurePlaces;
    if n > 0 {
      assert parts[1..][n - 1..] == parts[n..] && gaps[1..][n - 1..] == gaps[n..];
      RescuedAt(parts[1..], n - 1, gaps[1..], between);
    } else {
      assert parts[0..] == parts && gaps[0..] == gaps;
    }
  }

  lemma {:induction false} NarrowInner(parts: seq<Constant>, gaps: seq<nat>, t: nat, between: string)
    requires t + 1 < |parts| == |gaps| && !HasLetter(parts[t + 1].text)
    requires Rescued(parts, gaps[t := 0], between)
    ensures Rescued(parts, gaps, between)
    decreases t
  {
    hide Behind, SurePlaces, HasLetter;
    var narrow: seq<nat> := gaps[t := 0];
    if SurePlaces(parts, Behind(parts, narrow, between), 0) {
      var k, y := |parts[t + 1].text|, Behind(parts[t + 1..], gaps[t + 1..], between);
      BehindCut(parts, gaps, t, 0, between);
      BehindCut(parts, gaps, t, gaps[t], between);
      assert gaps[t := gaps[t]] == gaps;
      OwnPlaces(parts[t + 1..], gaps[t + 1..], between);
      assert parts[t + 1..][1..] == parts[t + 2..];
      MoreRoom(parts, t + 1, Before(parts, gaps, t), gaps[t] + k, y, 0);
      if SurePlaces(parts[t + 1..], y, 0) { RescuedAt(parts, t + 1, gaps, between); }
    } else if t == 0 {
      assert narrow[1..] == gaps[1..];
    } else {
      assert narrow[1..] == gaps[1..][t - 1 := 0];
      NarrowInner(parts[1..], gaps[1..], t - 1, between);
    }
  }

  /** Gaps without room before parts of question marks. */
  function Narrow(parts: seq<Constant>, gaps: seq<nat>, n: nat): (r: seq<nat>)
    requires |gaps| == |parts| - 1 && n <= |gaps|
    ensures |r| == |gaps|
    ensures forall k :: 0 <= k < |gaps| ==> r[k] == if k < n && !HasLetter(parts[k + 1].text) then 0 else gaps[k]
  {
    seq(|gaps|, k requires 0 <= k < |gaps| => if k < n && !HasLetter(parts[k + 1].text) then 0 else gaps[k])
  }

  /** What is not rescued is not rescued with narrower gaps either. */
  lemma {:induction false} Narrowed(parts: seq<Constant>, gaps: seq<nat>, n: nat, d: nat)
    requires |gaps| == |parts| - 1 && n <= |gaps| && d <= |parts[|parts| - 1].text|
    requires !Rescued(parts[..|parts| - 1], gaps, parts[|parts| - 1].text[..d])
    ensures !Rescued(parts[..|parts| - 1], Narrow(parts, gaps, n), parts[|parts| - 1].text[..d])
    decreases n
  {
    hide HasLetter, Rescued;
    var m, w := |parts| - 1, parts[|parts| - 1].text;
    if n == 0 {
      assert Narrow(parts, gaps, n) == gaps;
    } else {
      var wider, r := Narrow(parts, gaps, n - 1), Narrow(parts, gaps, n);
      Narrowed(parts, gaps, n - 1, d);
      if HasLetter(parts[n].text) {
        assert r == wider;
      } else {
        assert r == wider[n - 1 := 0];
        if Rescued(parts[..m], r, w[..d]) {
          if n < m {
            NarrowInner(parts[..m], wider, n - 1, w[..d]);
          } else {
            NoLetterFront(w, d);
            NarrowLast(parts[..m], wider, w[..d]);
          }
        }
      }
    }
  }

  lemma NoLetterFront(w: string, d: nat)
    requires d <= |w| && !HasLetter(w)
    ensures !HasLetter(w[..d])
  {}

  lemma NarrowTight(parts: seq<Constant>, gaps: seq<nat>)
    requires |gaps| == |parts| - 1
    ensures Tight(parts, Narrow(parts, gaps, |gaps|))
  {
    hide HasLetter;
  }
}
