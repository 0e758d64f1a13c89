/** What two stars mean: the part behind them is not looked for beyond a backslash (pattern.c:198-239, 646-665). */
module PatternBackslash {
  import opened WildCompare
  import opened PatternParts
  import opened Pattern
  import opened Wrappers

  // ----- which parts are marked -----

  /** A part with the number of stars in front of it. */
  datatype Piece = Piece(stars: nat, text: string)

  function Stars(n: nat): (r: string)
    ensures |r| == n && forall k :: 0 <= k < |r| ==> r[k] == '*'
  {
    seq(n, _ => '*')
  }

  /** The pattern made of pieces, and of stars at its end. */
  function Written(ps: seq<Piece>, tail: nat): string {
    if ps == [] then Stars(tail) else Stars(ps[0].stars) + (ps[0].text + Written(ps[1..], tail))
  }

  predicate Sound(ps: seq<Piece>) {
    && (forall k :: 0 <= k < |ps| ==> ps[k].text != "" && Starless(ps[k].text))
    && (forall k :: 0 < k < |ps| ==> ps[k].stars > 0)
  }

  predicate HexAt(t: string, i: nat) { i + 5 <= |t| && t[i..i + 5] == "__hex" }

  ghost predicate HasHex(t: string) { exists i: nat :: HexAt(t, i) }

  /** The parts are the texts in their order; exactly those behind two stars are marked, and those with `__hex`. */
  ghost predicate Marked(ps: seq<Piece>, parts: seq<Constant>) {
    && |parts| == |ps|
    && forall k :: 0 <= k < |ps| ==>
         parts[k].text == ps[k].text && (parts[k].noBs <==> ps[k].stars == 2) && (parts[k].hex <==> HasHex(ps[k].text))
  }

  lemma HexIs(t: string)
    ensures First("__hex", t, 0).Some? <==> HasHex(t)
  {
    FirstIs("__hex", t, 0);
    forall i: nat | i <= |t|
      ensures FitsAt("__hex", t, i) <==> HexAt(t, i)
    {
      HexFits(t, i);
    }
    assert forall i: nat :: HexAt(t, i) ==> i <= |t|;
  }

  lemma HexFits(t: string, i: nat)
    requires i <= |t|
    ensures FitsAt("__hex", t, i) <==> HexAt(t, i)
  {
    if i + 5 <= |t| {
      var u := t[i..i + 5];
      assert u[0] == t[i] && u[1] == t[i + 1] && u[2] == t[i + 2] && u[3] == t[i + 3] && u[4] == t[i + 4];
      if FitsAt("__hex", t, i) {
        assert One("__hex"[0], t[i + 0]) && One("__hex"[1], t[i + 1]) && One("__hex"[2], t[i + 2]);
        assert One("__hex"[3], t[i + 3]) && One("__hex"[4], t[i + 4]);
        assert u == "__hex";
      }
    }
  }

  lemma {:induction false} SkipStars(n: nat, q: string, stars: nat)
    ensures Split(Stars(n) + q, stars) == Split(q, stars + n)
    decreases n
  {
    hide First;
    if n == 0 {
      assert Stars(0) + q == q;
    } else {
      assert (Stars(n) + q)[1..] == Stars(n - 1) + q;
      SkipStars(n - 1, q, stars + 1);
    }
  }

  lemma {:induction false} UptoText(n: string, rest: string)
    requires Starless(n) && (rest == "" || rest[0] == '*')
    ensures Upto(n + rest) == |n|
  {
    if n == "" { assert n + rest == rest; } else { UptoText(n[1..], rest); assert (n + rest)[1..] == n[1..] + rest; }
  }

  lemma {:induction false} NoPieces(tail: nat, stars: nat)
    ensures Split(Stars(tail), stars) == []
  {
    SkipStars(tail, "", stars);
    assert Stars(tail) + "" == Stars(tail);
  }

  /** Stars, a text, and the end or another star. */
  lemma OnePiece(stars: nat, n: string, rest: string, before: nat)
    requires n != "" && Starless(n) && (rest == "" || rest[0] == '*')
    ensures Split(Stars(stars) + (n + rest), before) == [Entry(n, before + stars)] + Split(rest, 0)
  {
    hide First;
    SkipStars(stars, n + rest, before);
    UptoText(n, rest);
    assert (n + rest)[..|n|] == n && (n + rest)[|n|..] == rest;
  }

  /** Cutting a pattern gives the pieces it was made of. */
  lemma {:induction false} SplitWritten(ps: seq<Piece>, tail: nat)
    requires Sound(ps)
    ensures Marked(ps, Split(Written(ps, tail), 0))
    decreases |ps|
  {
    hide First, HasHex, Split, Upto;
    if ps == [] {
      NoPieces(tail, 0);
    } else {
      var n, rest := ps[0].text, ps[1..];
      NextWritten(rest, tail);
      OnePiece(ps[0].stars, n, Written(rest, tail), 0);
      HexIs(n);
      SplitWritten(rest, tail);
      assert forall k :: 0 < k < |ps| ==> ps[k] == rest[k - 1];
    }
  }

  lemma NextWritten(rest: seq<Piece>, tail: nat)
    requires rest != [] ==> rest[0].stars > 0
    ensures Written(rest, tail) == "" || Written(rest, tail)[0] == '*'
  {}

  // ----- where a marked part is found -----

  /** The first place where the part fits, unless it is marked and a backslash lies before that. */
  lemma PlaceMeans(n: string, noBs: bool, s: string, i: nat, l: nat)
    requires i <= l <= |s|
    ensures Place(n, noBs, s, i) == Some(l) <==>
      && FitsAt(n, s, l) && (forall j :: i <= j < l ==> !FitsAt(n, s, j))
      && (noBs ==> forall k :: i <= k < l ==> s[k] != '\\')
  {
    FirstIs(n, s, i);
    CrossesMeans(s, i, l);
  }

  lemma CrossesMeans(s: string, i: nat, l: nat)
    requires i <= l <= |s|
    ensures Crosses(s, i, l) <==> exists k :: i <= k < l && s[k] == '\\'
  {
    if k :| i <= k < l && s[k] == '\\' { assert s[i..l][k - i] == '\\'; }
  }

  predicate Clear(s: string, i: nat, j: nat)
    requires i <= j <= |s|
  {
    forall k :: i <= k < j ==> s[k] != '\\'
  }

  /** The parts occur one after the other from `i` on, with no backslash between a marked part and the one before. */
  ghost predicate Strictly(parts: seq<Constant>, s: string, i: nat)
    requires i <= |s|
    decreases |parts|
  {
    parts == [] || exists j :: i <= j <= |s| && StrictAt(parts, s, i, j)
  }

  ghost predicate StrictAt(parts: seq<Constant>, s: string, i: nat, j: nat)
    requires parts != [] && i <= j <= |s|
    decreases |parts|, 0
  {
    FitsAt(parts[0].text, s, j) && (parts[0].noBs ==> Clear(s, i, j)) && Strictly(parts[1..], s, j + |parts[0].text|)
  }

  /** No part can fit over a backslash. */
  predicate Bare(parts: seq<Constant>) {
    forall k :: 0 <= k < |parts| ==> '\\' !in parts[k].text && '?' !in parts[k].text
  }

  lemma BareClear(n: string, s: string, j: nat)
    requires '\\' !in n && '?' !in n && j <= |s| && FitsAt(n, s, j)
    ensures j + |n| <= |s| && Clear(s, j, j + |n|)
  {
    forall k | j <= k < j + |n|
      ensures s[k] != '\\'
    {
      assert One(n[k - j], s[j + (k - j)]) && n[k - j] in n;
    }
  }

  lemma ClearJoin(s: string, i: nat, j: nat, k: nat)
    requires i <= j <= k <= |s|
    ensures Clear(s, i, k) <==> Clear(s, i, j) && Clear(s, j, k)
  {}

  lemma StrictEarlier(parts: seq<Constant>, s: string, i: nat, j: nat)
    requires i <= j <= |s| && Clear(s, i, j) && Strictly(parts, s, j)
    ensures Strictly(parts, s, i)
  {
    if parts != [] {
      var l :| j <= l <= |s| && StrictAt(parts, s, j, l);
      ClearJoin(s, i, j, l);
      assert StrictAt(parts, s, i, l);
    }
  }

  lemma BareRest(parts: seq<Constant>)
    requires Texts(parts) && Bare(parts) && parts != []
    ensures Texts(parts[1..]) && Bare(parts[1..]) && '\\' !in parts[0].text && '?' !in parts[0].text
    ensures parts[0].text != ""
  {}

  /** What the search finds keeps to that meaning, if no part can fit over a backslash. */
  lemma {:induction false} AttemptStrict(parts: seq<Constant>, s: string, i: nat, tail: bool)
    requires i <= |s| && Texts(parts) && Bare(parts) && Attempt(parts, s, i, tail) != 0
    ensures Strictly(parts, s, i)
    decreases |parts|, |s| - i
  {
    hide FitsAt, First, Place, Attempt, Clear;
    if parts != [] {
      var n, rest := parts[0].text, parts[1..];
      AttemptOnce(parts, s, i, tail);
      BareRest(parts);
      var f := Place(n, parts[0].noBs, s, i).value;
      PlaceClear(n, parts[0].noBs, s, i);
      BareClear(n, s, f);
      var e := f + |n|;
      if Attempt(rest, s, e, tail) != 0 {
        AttemptStrict(rest, s, e, tail);
        assert StrictAt(parts, s, i, f);
      } else {
        AttemptStrict(parts, s, e, tail);
        var j :| e <= j <= |s| && StrictAt(parts, s, e, j);
        if parts[0].noBs { ClearJoin(s, i, f, e); ClearJoin(s, i, e, j); }
        assert StrictAt(parts, s, i, j);
      }
    }
  }

  lemma PlaceClear(n: string, noBs: bool, s: string, i: nat)
    requires i <= |s| && Place(n, noBs, s, i).Some?
    ensures var f := Place(n, noBs, s, i).value;
      i <= f <= |s| && FitsAt(n, s, f) && (noBs ==> Clear(s, i, f)) && forall j :: i <= j < f ==> !FitsAt(n, s, j)
  {
    PlaceMeans(n, noBs, s, i, Place(n, noBs, s, i).value);
  }

  /** With a star at the end the search finds such places if there are any. */
  lemma {:induction false} StrictFound(parts: seq<Constant>, s: string, i: nat)
    requires i <= |s| && Texts(parts) && Bare(parts) && Strictly(parts, s, i)
    ensures Attempt(parts, s, i, true) != 0
    decreases |parts|, |s| - i
  {
    hide FitsAt, First, Place, Attempt, Clear;
    if parts == [] {
      NoParts(parts, s, i, true);
    } else {
      var n, rest := parts[0].text, parts[1..];
      AttemptOnce(parts, s, i, true);
      BareRest(parts);
      var j :| i <= j <= |s| && StrictAt(parts, s, i, j);
      PlaceBefore(n, parts[0].noBs, s, i, j);
      PlaceClear(n, parts[0].noBs, s, i);
      var f := Place(n, parts[0].noBs, s, i).value;
      BareClear(n, s, j);
      BareClear(n, s, f);
      var e := f + |n|;
      if e > j {
        ClearJoin(s, j, e, j + |n|);
        StrictEarlier(rest, s, e, j + |n|);
        StrictFound(rest, s, e);
      } else {
        if parts[0].noBs { ClearJoin(s, i, e, j); }
        assert StrictAt(parts, s, e, j);
        StrictFound(parts, s, e);
      }
    }
  }

  lemma PlaceBefore(n: string, noBs: bool, s: string, i: nat, j: nat)
    requires i <= j <= |s| && FitsAt(n, s, j) && (noBs ==> Clear(s, i, j))
    ensures Place(n, noBs, s, i).Some? && Place(n, noBs, s, i).value <= j
  {
    FirstIs(n, s, i);
    CrossesMeans(s, i, First(n, s, i).value);
  }

  /** For patterns with a star at the end and no backslash or question mark in a part, the answer is not 0 exactly
      when the parts occur in their order, with no backslash between a part behind exactly two stars and the one
      before it, and the first one also at the start if no star is there. */
  lemma StarsMean(p: string, s: string)
    requires p != "" && TailStar(p) && Bare(Split(p, 0))
    ensures Result(p, s) != 0 <==>
      Strictly(Split(p, 0), s, 0) && (HeadStar(p) || Split(p, 0) == [] || FitsAt(Split(p, 0)[0].text, s, 0))
  {
    hide Split, Attempt, Strictly, FitsAt;
    SplitTexts(p, 0);
    var parts := Split(p, 0);
    if Strictly(parts, s, 0) { StrictFound(parts, s, 0); }
    if Attempt(parts, s, 0, true) != 0 { AttemptStrict(parts, s, 0, true); }
  }

  /** Over a part that is a backslash itself the search goes on beyond it: `*a**\**c*` finds `a\\c`, in which
      another backslash lies before the c or before the last one. */
  lemma CrossesOver()
    ensures Result("*a**\\**c*", "a\\\\c") != 0 && !Strictly(Split("*a**\\**c*", 0), "a\\\\c", 0)
  {
    hide Attempt, Place, First, Split, Strictly, StrictAt;
    var p, s := "*a**\\**c*", "a\\\\c";
    var a, b, c := Entry("a", 1), Entry("\\", 2), Entry("c", 2);
    CrossesSplit();
    assert [a, b, c][1..] == [b, c] && [b, c][1..] == [c] && [c][1..] == [];
    PlaceMeans("c", true, s, 3, 3);
    PlaceMeans("\\", true, s, 2, 2);
    PlaceMeans("\\", true, s, 1, 1);
    PlaceMeans("a", false, s, 0, 0);
    NoParts([], s, 4, true);
    AttemptOnce([c], s, 3, true);
    AttemptOnce([b, c], s, 2, true);
    AttemptOnce([b, c], s, 1, true);
    AttemptOnce([a, b, c], s, 0, true);
    NotStrict(a, b, c);
  }

  lemma StrictPlace(c: Constant, rest: seq<Constant>, s: string, i: nat) returns (j: nat)
    requires i <= |s| && Strictly([c] + rest, s, i) && |c.text| == 1 && c.text[0] != '?'
    ensures i <= j < |s| && s[j] == c.text[0] && (c.noBs ==> Clear(s, i, j)) && Strictly(rest, s, j + 1)
  {
    var parts := [c] + rest;
    assert parts[0] == c && parts[1..] == rest;
    j :| i <= j <= |s| && StrictAt(parts, s, i, j);
    assert One(c.text[0], s[j + 0]);
  }

  lemma NotStrict(a: Constant, b: Constant, c: Constant)
    requires a.text == "a" && b.text == "\\" && b.noBs && c.text == "c" && c.noBs
    ensures !Strictly([a, b, c], "a\\\\c", 0)
  {
    hide Strictly, StrictAt;
    var s := "a\\\\c";
    if Strictly([a, b, c], s, 0) {
      assert [a, b, c] == [a] + [b, c] && [b, c] == [b] + [c] && [c] == [c] + [];
      var i := StrictPlace(a, [b, c], s, 0);
      var j := StrictPlace(b, [c], s, i + 1);
      assert s[1] == '\\' && s[2] == '\\';
      var k := StrictPlace(c, [], s, j + 1);
    }
  }

  lemma CrossesSplit()
    ensures Split("*a**\\**c*", 0) == [Entry("a", 1), Entry("\\", 2), Entry("c", 2)]
  {
    hide First, Split;
    OnePiece(2, "c", "*", 0);
    NoPieces(1, 0);
    assert Stars(1) == "*";
    assert Stars(2) + ("c" + "*") == "**c*";
    OnePiece(2, "\\", "**c*", 0);
    assert Stars(2) + ("\\" + "**c*") == "**\\**c*";
    OnePiece(1, "a", "**\\**c*", 0);
    assert Stars(1) + ("a" + "**\\**c*") == "*a**\\**c*";
  }
}
