/** Patterns with stars and question marks (pattern.c:124-280, 369-474, 646-665). */
module Pattern {
  import opened CString
  import opened WildCompare
  import opened PatternParts
  import opened PatternRecover
  import opened Wrappers

  /** The loop at pattern.c:652-656. */
  method CompareAt(h: string, i: nat, n: string) returns (r: bool)
    requires Terminated(h) && Terminated(n) && i <= |h|
    ensures r == FitsAt(n, h, i)
  {
    var k := 0;
    while k < |n|
      invariant 0 <= k <= |n| && i + k <= |h| && forall l :: 0 <= l < k ==> One(n[l], h[i + l])
    {
      if At(h, i + k) != n[k] && (At(h, i + k) == '\0' || n[k] != '?') { return false; }
      k := k + 1;
    }
    r := true;
  }

  /** Pattern_wcsnstr_ex: the first place at `from` or after it where `n` fits, looked for up to the first
      backslash if `noBs` says so. */
  method Wcsnstr(h: string, from: nat, n: string, noBs: bool) returns (r: Option<nat>)
    requires Terminated(h) && Terminated(n) && from <= |h| && n != ""
    ensures r == Place(n, noBs, h, from)
  {
    var i := from;
    while At(h, i) != '\0'
      invariant from <= i <= |h| && First(n, h, from) == First(n, h, i)
      invariant noBs ==> !Crosses(h, from, i)
      decreases |h| - i
    {
      if h[i] == n[0] || n[0] == '?' {
        var fits := CompareAt(h, i, n);
        if fits { return Some(i); }
      }
      assert h[from..i + 1] == h[from..i] + [h[i]];
      if noBs && h[i] == '\\' {
        BackslashStops(n, h, i);
        assert forall j :: i < j <= |h| ==> h[i] in h[from..j] by {
          forall j | i < j <= |h| ensures h[i] in h[from..j] { assert h[from..j][i - from] == h[i]; }
        }
        return None;
      }
      i := i + 1;
    }
    r := None;
  }

  lemma BackslashStops(n: string, h: string, i: nat)
    requires i < |h| && !FitsAt(n, h, i)
    ensures First(n, h, i).Some? ==> First(n, h, i).value > i
  {}

  /** Some part has `__hex` in it. */
  predicate AnyHex(parts: seq<Constant>) { exists i :: 0 <= i < |parts| && parts[i].hex }

  /** A PATTERN object. */
  class Pattern {
    var cons: seq<Constant>
    var starMissing: bool
    var starAtHead: bool
    var starAtTail: bool
    var haveAQmark: bool
    ghost const source: string

    /** What the fields say of the string the pattern was made from. */
    ghost predicate Valid()
      reads this
    {
      && Terminated(source) && source != ""
      && cons == Split(source, 0)
      && starAtHead == HeadStar(source) && starAtTail == TailStar(source)
      && starMissing == (|cons| <= 1 && !starAtHead && !starAtTail && !AnyHex(cons))
      && (starMissing ==> haveAQmark == ('?' in source))
    }

    /** Pattern_Create: the string is cut at its stars. The code looks at the character before the end, and
        goes on to search the string, so it must not be empty or missing. */
    constructor (text: string)
      requires Terminated(text) && text != "" && |text| <= 0xFFFF
      ensures Valid() && source == text
    {
      source := text;
      cons := [];
      starMissing, haveAQmark := false, false;
      starAtHead := text[0] == '*';
      starAtTail := text[|text| - 1] == '*';
      new;
      var anyHex := Cut(text);
      if |cons| <= 1 && !starAtHead && !starAtTail && !anyHex {
        starMissing := true;
        haveAQmark := '?' in text;
      }
    }

    /** pattern.c:198-239 */
    method Cut(text: string) returns (anyHex: bool)
      requires Terminated(text) && cons == []
      modifies this`cons
      ensures cons == Split(text, 0) && anyHex == AnyHex(cons)
    {
      hide Split, First, AnyHex;
      anyHex := false;
      NoHex();
      var i: nat, more := 0, true;
      assert text[0..] == text;
      while more
        invariant i <= |text| && anyHex == AnyHex(cons)
        invariant Split(text, 0) == cons + if more then Split(text[i..], if |cons| > 0 then 1 else 0) else []
        decreases |text| - i, more
      {
        var j, startCount := SkipStars(text, i, if |cons| > 0 then 1 else 0);
        var i2 := FindStar(text, j);
        ghost var seen, rest := cons, if i2 < |text| then Split(text[i2 + 1..], 1) else [];
        if i2 != j {
          NextPart(text, j, i2, startCount);
          PartTerminated(text, j, i2);
          var hex := Wcsnstr(text[j..i2], 0, "__hex", false);
          var part := Constant(text[j..i2], startCount == 2, hex.Some?);
          cons := cons + [part];
          Regroup(seen, part, rest);
          OneMoreHex(seen, part);
          anyHex := anyHex || hex.Some?;
        } else {
          NoPart(text, j, startCount);
        }
        assert Split(text, 0) == cons + rest;
        more := i2 < |text|;
        i := if more then i2 + 1 else i2;
      }
    }

    /** pattern.c:201-205 */
    method SkipStars(text: string, i: nat, count: nat) returns (j: nat, startCount: nat)
      requires Terminated(text) && i <= |text|
      ensures i <= j <= |text| && Split(text[i..], count) == Split(text[j..], startCount)
      ensures j < |text| ==> text[j] != '*'
    {
      hide Split;
      j, startCount := i, count;
      while At(text, j) == '*'
        invariant i <= j <= |text| && Split(text[i..], count) == Split(text[j..], startCount)
        decreases |text| - j
      {
        StarSkipped(text, j, startCount);
        j := j + 1;
        startCount := startCount + 1;
      }
    }

    /** `wcschr(iptr, L'*')`, or the end of the string. */
    method FindStar(text: string, i: nat) returns (j: nat)
      requires Terminated(text) && i <= |text|
      ensures j == i + Upto(text[i..])
    {
      j := i;
      while At(text, j) != '\0' && At(text, j) != '*'
        invariant i <= j <= |text| && i + Upto(text[i..]) == j + Upto(text[j..])
        decreases |text| - j
      {
        assert text[j..][1..] == text[j + 1..];
        j := j + 1;
      }
    }

    /** Whether the first part has to be at the start of the string: pattern.c:447-448. */
    ghost predicate Misplaced(s: string, strIndex: nat, conIndex: nat)
      reads this
    {
      strIndex == 0 && conIndex < |cons| && !starAtHead && !FitsAt(cons[conIndex].text, s, 0)
    }

    /** Pattern_Match2, for patterns whose parts have no `__hex` in them. */
    method Match2(s: string, strIndex: nat, conIndex: nat) returns (r: nat)
      requires Terminated(s) && strIndex <= |s| && conIndex <= |cons| && Texts(cons[conIndex..])
      requires !AnyHex(cons) && AllTerminated(cons)
      ensures r == if Misplaced(s, strIndex, conIndex) then 0 else Attempt(cons[conIndex..], s, strIndex, starAtTail)
      decreases |cons| - conIndex
    {
      hide Attempt, First, FitsAt, Terminated, Place, AnyHex, Texts, AllTerminated;
      ghost var parts := cons[conIndex..];
      if conIndex == |cons| {
        NoParts(parts, s, strIndex, starAtTail);
        return if strIndex != |s| && !starAtTail then 0 else strIndex + 1;
      }
      var n, noBs := cons[conIndex].text, cons[conIndex].noBs;
      NextTexts(cons, conIndex);
      var i := strIndex;
      while true
        invariant i <= |s| && (i == strIndex || (i > 0 && !Misplaced(s, strIndex, conIndex)))
        invariant Attempt(parts, s, strIndex, starAtTail) == Attempt(parts, s, i, starAtTail)
        decreases |s| - i
      {
        var ptr := Wcsnstr(s, i, n, noBs);
        AttemptOnce(parts, s, i, starAtTail);
        if ptr.None? { return 0; }
        if i == 0 { FoundAtStart(n, noBs, s); }
        if i == 0 && ptr.value > 0 && !starAtHead { return 0; }
        i := ptr.value + |n|;
        r := Match2(s, i, conIndex + 1);
        if r != 0 { return r; }
      }
    }

    /** Pattern_MatchX */
    method MatchX(s: string) returns (r: nat)
      requires Valid() && Terminated(s) && !AnyHex(cons)
      ensures r == Result(source, s)
    {
      PartsTerminated(source, 0);
      SplitTexts(source, 0);
      assert cons[0..] == cons;
      if starMissing {
        r := 0;
        if |cons| == 0 { return; }
        var n := cons[0].text;
        if |s| != |n| { return 0; }
        OnlyConstant(source);
        EqualOrFits(n, s);
        if haveAQmark {
          var x := Wcsnstr(s, 0, n, false);
          FirstIs(n, s, 0);
          if x != Some(0) { return 0; }
        } else if s != n {
          return 0;
        }
        return |s|;
      }
      hide Attempt, Split, First, FitsAt, AnyHex;
      r := Match2(s, 0, 0);
    }
  }

  /** What Pattern_MatchX answers. */
  function Result(p: string, s: string): nat {
    var parts := Split(p, 0);
    SplitTexts(p, 0);
    if |parts| <= 1 && !HeadStar(p) && !TailStar(p) then
      if parts == [] || |s| != |parts[0].text| || !FitsAt(parts[0].text, s, 0) then 0 else |s|
    else if !HeadStar(p) && parts != [] && !FitsAt(parts[0].text, s, 0) then 0
    else Attempt(parts, s, 0, TailStar(p))
  }

  lemma {:induction false} PartsTerminated(p: string, stars: nat)
    requires Terminated(p)
    ensures forall i :: 0 <= i < |Split(p, stars)| ==> Terminated(Split(p, stars)[i].text)
    decreases |p|
  {
    if p != "" {
      if p[0] == '*' { PartsTerminated(p[1..], stars + 1); } else { PartsTerminated(p[Upto(p)..], 0); }
    }
  }

  lemma {:induction false} SplitSome(p: string, stars: nat)
    requires p != "" && !TailStar(p)
    ensures Split(p, stars) != []
    decreases |p|
  {
    if p[0] == '*' { SplitSome(p[1..], stars + 1); }
  }

  /** A pattern of one part with no star around it has no star at all. */
  lemma OnlyConstant(p: string)
    requires p != "" && |Split(p, 0)| <= 1 && !HeadStar(p) && !TailStar(p)
    ensures Upto(p) == |p| && Split(p, 0) == [Entry(p, 0)]
  {
    var n := Upto(p);
    assert p[..|p|] == p;
    if n < |p| { SplitSome(p[n..], 0); }
  }

  ghost predicate AllTerminated(parts: seq<Constant>) { forall i :: 0 <= i < |parts| ==> Terminated(parts[i].text) }

  lemma NextTexts(cons: seq<Constant>, i: nat)
    requires i < |cons| && Texts(cons[i..]) && AllTerminated(cons)
    ensures Texts(cons[i + 1..]) && cons[i].text != "" && Terminated(cons[i].text)
    ensures cons[i..][0] == cons[i] && cons[i..][1..] == cons[i + 1..]
  {
    assert cons[i..][1..] == cons[i + 1..];
  }

  lemma FoundAtStart(n: string, noBs: bool, s: string)
    requires Place(n, noBs, s, 0).Some?
    ensures Place(n, noBs, s, 0).value == 0 <==> FitsAt(n, s, 0)
  {
    FirstIs(n, s, 0);
  }

  lemma NoHex()
    ensures !AnyHex([])
  {}

  lemma OneMoreHex(parts: seq<Constant>, part: Constant)
    ensures AnyHex(parts + [part]) == (AnyHex(parts) || part.hex)
  {
    var more := parts + [part];
    assert more[|parts|] == part && forall i :: 0 <= i < |parts| ==> more[i] == parts[i];
  }

  lemma PartTerminated(text: string, i: nat, j: nat)
    requires i <= j <= |text| && Terminated(text)
    ensures Terminated(text[i..j]) && Terminated("__hex")
  {}

  lemma EqualOrFits(n: string, s: string)
    requires |s| == |n|
    ensures '?' !in n ==> (FitsAt(n, s, 0) <==> s == n)
  {
    assert forall k :: 0 <= k < |n| ==> n[k] in n;
  }

  lemma NextPart(text: string, i: nat, j: nat, stars: nat)
    requires i < j <= |text| && j == i + Upto(text[i..]) && text[i] != '*'
    ensures Split(text[i..], stars) == [Entry(text[i..j], stars)]
      + if j < |text| then Split(text[j + 1..], 1) else []
  {
    var q := text[i..];
    assert q[..j - i] == text[i..j] && q[j - i..] == text[j..];
    if j < |text| { assert text[j..][1..] == text[j + 1..]; }
  }

  lemma StarSkipped(text: string, j: nat, stars: nat)
    requires j < |text| && text[j] == '*'
    ensures Split(text[j..], stars) == Split(text[j + 1..], stars + 1)
  {
    hide First;
    assert text[j..][1..] == text[j + 1..];
  }

  lemma NoPart(text: string, j: nat, stars: nat)
    requires j <= |text| && Upto(text[j..]) == 0 && (j < |text| ==> text[j] != '*')
    ensures j == |text| && Split(text[j..], stars) == []
  {
    var q := text[j..];
    assert |q| == |text| - j;
  }

  lemma Regroup(a: seq<Constant>, c: Constant, b: seq<Constant>)
    ensures a + ([c] + b) == (a + [c]) + b
  {}

  // ----- what the answer means -----

  /** A pattern that starts with a constant part: the part, and what follows it. */
  lemma HeadPart(p: string, s: string)
    requires p != "" && !HeadStar(p)
    ensures var n := Upto(p); var parts := Split(p, 0);
      && n > 0 && parts != [] && parts[0].text == p[..n] && parts[1..] == Split(p[n..], 0)
      && (p[n..] == "" || p[n..][0] == '*') && (p[n..] != "" ==> TailStar(p[n..]) == TailStar(p))
      && (Glob(p, s) <==> FitsAt(p[..n], s, 0) && Glob(p[n..], s[n..]))
  {
    var n := Upto(p);
    assert p == p[..n] + p[n..] && s[0..] == s;
    FitsGlob(p[..n], p[n..], s);
    FitsIsAt(p[..n], s, 0);
    if p[n..] != "" { assert p[n..][|p[n..]| - 1] == p[|p| - 1]; }
  }

  /** For a pattern without a star. */
  lemma StarMissingMeans(p: string, s: string)
    requires p != "" && |Split(p, 0)| <= 1 && !HeadStar(p) && !TailStar(p)
    ensures Result(p, s) == if Glob(p, s) then |s| else 0
    ensures Glob(p, s) ==> s != ""
  {
    OnlyConstant(p);
    HeadPart(p, s);
    assert p[..|p|] == p && p[|p|..] == "";
    hide Split, FitsAt;
    if FitsAt(p, s, 0) { FitsLength(p, s); }
  }

  lemma FitsLength(p: string, s: string)
    requires FitsAt(p, s, 0)
    ensures |p| <= |s|
  {}

  /** An answer other than 0 is right: the pattern matches. */
  lemma MatchSound(p: string, s: string)
    requires p != "" && Result(p, s) != 0
    ensures Glob(p, s)
  {
    var parts, tail := Split(p, 0), TailStar(p);
    SplitTexts(p, 0);
    if |parts| <= 1 && !HeadStar(p) && !tail {
      StarMissingMeans(p, s);
    } else {
      AttemptSound(parts, s, 0, tail);
      var e := Result(p, s) - 1;
      assert s[0..] == s;
      if HeadStar(p) {
        EmbedsGlob(p, s, 0, e);
      } else {
        HeadPart(p, s);
        RestSound(p, s, e);
      }
    }
  }

  /** The first part fits at the start; the others have places behind some place of it. */
  lemma RestSound(p: string, s: string, e: nat)
    requires p != "" && !HeadStar(p) && Embeds(Split(p, 0), s, 0, e) && (TailStar(p) || e == |s|)
    requires FitsAt(p[..Upto(p)], s, 0) && (|Split(p, 0)| > 1 || TailStar(p))
    ensures Glob(p[Upto(p)..], s[Upto(p)..])
  {
    hide Glob, Fits, FitsAt, Split, Embeds;
    var n, parts := Upto(p), Split(p, 0);
    HeadPart(p, s);
    var l := FirstPart(parts, s, 0, e);
    var q := p[n..];
    RestSome(p);
    EmbedsGlob(q, s, l + n, e);
    assert q == ['*'] + q[1..] && s[n..][l..] == s[l + n..];
    StarAbsorbs(q[1..], s[n..], l);
  }

  lemma FirstPart(parts: seq<Constant>, s: string, i: nat, e: nat) returns (l: nat)
    requires parts != [] && i <= |s| && Embeds(parts, s, i, e)
    ensures i <= l && l + |parts[0].text| <= |s| && Embeds(parts[1..], s, l + |parts[0].text|, e)
    ensures Fits(parts[0].text, s[l..])
  {
    l :| i <= l <= |s| && PartAt(parts, s, l, e);
    PartIs(parts, s, l, e);
  }

  lemma RestSome(p: string)
    requires p != "" && !HeadStar(p) && (|Split(p, 0)| > 1 || TailStar(p))
    ensures p[Upto(p)..] != ""
  {
    assert p[..|p|] == p;
    assert Split("", 0) == [];
  }

  /** The patterns for which the search misses nothing: with a star at the end, with no star at all, or with
      parts that recover wherever places of the last one overlap. */
  ghost predicate Searchable(p: string) {
    var parts := Split(p, 0);
    TailStar(p) || (|parts| <= 1 && !HeadStar(p)) || (parts != [] && Recovers(parts))
  }

  /** A match places the parts, the first one at the start unless a star is there. */
  lemma GlobPlaces(p: string, s: string) returns (e: nat)
    requires p != "" && Glob(p, s)
    ensures Embeds(Split(p, 0), s, 0, e) && (TailStar(p) || e == |s|)
    ensures !HeadStar(p) ==> Split(p, 0) != [] && FitsAt(Split(p, 0)[0].text, s, 0)
  {
    assert s[0..] == s;
    if HeadStar(p) {
      e := GlobEmbeds(p, s, 0);
    } else {
      HeadPart(p, s);
      var n := Upto(p);
      e := GlobEmbeds(p[n..], s, n);
      FitsIsAt(p[..n], s, 0);
      hide Glob;
      assert PartAt(Split(p, 0), s, 0, e);
    }
  }

  /** For such patterns the answer is 0 only when the pattern does not match. */
  lemma MatchComplete(p: string, s: string)
    requires p != "" && Plain(Split(p, 0)) && Searchable(p)
    ensures Result(p, s) != 0 <==> Glob(p, s)
  {
    var parts, tail := Split(p, 0), TailStar(p);
    SplitTexts(p, 0);
    if Result(p, s) != 0 {
      MatchSound(p, s);
    } else if |parts| <= 1 && !HeadStar(p) && !tail {
      StarMissingMeans(p, s);
    } else if Glob(p, s) {
      var e := GlobPlaces(p, s);
      Found(p, s, e);
    }
  }

  lemma Found(p: string, s: string, e: nat)
    requires Texts(Split(p, 0)) && Embeds(Split(p, 0), s, 0, e) && (TailStar(p) || e == |s|)
    requires Plain(Split(p, 0)) && (!TailStar(p) ==> Split(p, 0) != [] && Recovers(Split(p, 0)))
    ensures Attempt(Split(p, 0), s, 0, TailStar(p)) != 0
  {
    var parts := Split(p, 0);
    hide Split, Embeds, Attempt, Recovers;
    if TailStar(p) {
      AttemptTail(parts, s, 0);
      LeftEndLeast(parts, s, 0, 0, e);
    } else {
      AttemptComplete(parts, s, 0);
    }
  }

  /** With a star at the end the answer also tells where the leftmost parts end: no way to place them ends
      before that. */
  lemma MatchLeftmost(p: string, s: string)
    requires p != "" && TailStar(p) && Plain(Split(p, 0)) && Result(p, s) != 0
    ensures var parts, e := Split(p, 0), Result(p, s) - 1;
      LeftEnd(parts, s, 0) == Some(e) && Embeds(parts, s, 0, e)
      && forall d: nat :: Embeds(parts, s, 0, d) ==> e <= d
  {
    var parts := Split(p, 0);
    SplitTexts(p, 0);
    hide Split, Embeds, Attempt;
    AttemptTail(parts, s, 0);
    LeftEndEmbeds(parts, s, 0);
    forall d: nat | Embeds(parts, s, 0, d)
      ensures Result(p, s) - 1 <= d
    {
      LeftEndLeast(parts, s, 0, 0, d);
    }
  }

  /** Without one the search can miss a match: after `bb` at the start of `bbb` it goes on behind it. */
  lemma SearchMisses()
    ensures Glob("*bb", "bbb") && Result("*bb", "bbb") == 0
  {
    var parts := Split("*bb", 0);
    assert "*bb"[1..] == "bb" && "bb"[1..] == "b" && "b"[1..] == "";
    assert Upto("") == 0 && Upto("b") == 1 && Upto("bb") == 2;
    assert "bb"[..2] == "bb" && "bb"[2..] == "" && Split("", 0) == [];
    assert parts == [Entry("bb", 1)];
    assert First("bb", "bbb", 0) == Some(0);
    assert !FitsAt("bb", "bbb", 2) && !FitsAt("bb", "bbb", 3);
    assert First("bb", "bbb", 3) == None;
    assert First("bb", "bbb", 2) == None;
    AttemptOnce(parts, "bbb", 0, false);
    AttemptOnce(parts, "bbb", 2, false);
    NoParts(parts[1..], "bbb", 2, false);
    assert "bbb"[1..] == "bb";
    assert Glob("", "") && Glob("b", "b") && Glob("bb", "bb");
    StarTakesNone("bb", "bb");
    assert ['*'] + "bb" == "*bb";
    StarAbsorbs("bb", "bbb", 1);
  }
}
