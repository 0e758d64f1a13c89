/** The wildcard comparison of SbieUtils.cpp:23-60: `*` stands for any characters, `?` for any one. */
module WildCompare {
  import opened CString

  /** What a pattern means. */
  predicate Glob(p: string, s: string)
    decreases |p| + |s|
  {
    if p == "" then s == ""
    else if p[0] == '*' then Glob(p[1..], s) || (s != "" && Glob(p, s[1..]))
    else s != "" && One(p[0], s[0]) && Glob(p[1..], s[1..])
  }

  predicate One(p: char, c: char) { p == '?' || p == c }

  /** The pattern `p`, which has no star, takes the first characters of `s`. */
  ghost predicate Fits(p: string, s: string) {
    |p| <= |s| && forall k :: 0 <= k < |p| ==> p[k] != '*' && One(p[k], s[k])
  }

  lemma {:induction false} FitsGlob(p: string, q: string, s: string)
    requires forall k :: 0 <= k < |p| ==> p[k] != '*'
    ensures Glob(p + q, s) <==> Fits(p, s) && Glob(q, s[|p|..])
  {
    if p == "" {
      assert p + q == q && s[0..] == s;
    } else {
      assert (p + q)[0] == p[0] && (p + q)[1..] == p[1..] + q;
      if s != "" {
        FitsGlob(p[1..], q, s[1..]);
        assert Fits(p, s) <==> One(p[0], s[0]) && Fits(p[1..], s[1..]);
        if |p| <= |s| { assert s[1..][|p| - 1..] == s[|p|..]; }
      }
    }
  }

  /** A star takes any characters in front of what it could take. */
  lemma {:induction false} StarAbsorbs(q: string, s: string, k: nat)
    requires k <= |s| && Glob(['*'] + q, s[k..])
    ensures Glob(['*'] + q, s)
  {
    assert (['*'] + q)[0] == '*' && (['*'] + q)[1..] == q;
    if k == 0 {
      assert s[0..] == s;
    } else {
      assert s[1..][k - 1..] == s[k..];
      StarAbsorbs(q, s[1..], k - 1);
    }
  }

  /** A star in front of `q` matches when `q` matches some rest. */
  lemma {:induction false} StarSplits(q: string, s: string) returns (k: nat)
    requires Glob(['*'] + q, s)
    ensures k <= |s| && Glob(q, s[k..])
  {
    assert (['*'] + q)[0] == '*' && (['*'] + q)[1..] == q;
    if Glob(q, s) {
      assert s[0..] == s;
      return 0;
    }
    var j := StarSplits(q, s[1..]);
    assert s[1..][j..] == s[j + 1..];
    return j + 1;
  }

  /** It is enough to come back to the last star: when the characters `p` between two stars fit at the
      front, giving the first star more characters gains nothing. */
  lemma LastStar(p: string, q: string, s: string)
    requires Fits(p, s)
    ensures Glob(['*'] + p + (['*'] + q), s) <==> Glob(['*'] + q, s[|p|..])
  {
    var r := ['*'] + q;
    assert ['*'] + p + r == ['*'] + (p + r);
    FitsGlob(p, r, s);
    assert s[0..] == s;
    if Glob(r, s[|p|..]) { StarTakesNone(p + r, s); }
    if Glob(['*'] + (p + r), s) {
      var k := StarSplits(p + r, s);
      FitsGlob(p, r, s[k..]);
      assert s[k..][|p|..] == s[|p|..][k..];
      StarAbsorbs(q, s[|p|..], k);
    }
  }

  lemma StarTakesNone(q: string, s: string)
    requires Glob(q, s)
    ensures Glob(['*'] + q, s)
  {
    assert (['*'] + q)[0] == '*' && (['*'] + q)[1..] == q;
  }

  /** At the end of the string, too. */
  lemma AtEnd(p: string, q: string, s: string)
    requires Fits(p, s) && |p| == |s|
    ensures Glob(['*'] + p + q, s) <==> Glob(q, "")
  {
    assert ['*'] + p + q == ['*'] + (p + q);
    FitsGlob(p, q, s);
    if Glob(q, "") {
      assert s[|p|..] == "";
      StarTakesNone(p + q, s);
    }
    if Glob(['*'] + (p + q), s) {
      var k := StarSplits(p + q, s);
      FitsGlob(p, q, s[k..]);
      assert s[k..][|p|..] == "";
    }
  }

  /** Where the characters after the star do not fit, the star takes one more. */
  lemma Mismatch(p: string, q: string, s: string)
    requires s != "" && Fits(p, s) && |p| < |s|
    requires q == "" || (q[0] != '*' && !One(q[0], s[|p|]))
    ensures Glob(['*'] + p + q, s) <==> Glob(['*'] + p + q, s[1..])
  {
    assert ['*'] + p + q == ['*'] + (p + q);
    FitsGlob(p, q, s);
    assert s[|p|..] != "" && s[|p|..][0] == s[|p|];
    assert (['*'] + (p + q))[1..] == p + q;
  }

  /** What is known of the scan: the characters from `mp` to `w` fit those from `back` to `s`, and the whole
      comparison comes down to a star, and what follows it, against the string from `back` on. */
  ghost predicate Resumed(wild: string, str: string, mp: nat, w: nat, back: nat, s: nat) {
    && mp <= w <= |wild| && back <= s <= |str| && w - mp == s - back
    && Fits(wild[mp..w], str[back..])
    && (Glob(wild, str) <==> Glob(['*'] + wild[mp..], str[back..]))
  }

  lemma OneMore(wild: string, str: string, mp: nat, w: nat, back: nat, s: nat)
    requires Resumed(wild, str, mp, w, back, s) && w < |wild| && s < |str|
    requires wild[w] != '*' && One(wild[w], str[s])
    ensures Resumed(wild, str, mp, w + 1, back, s + 1)
  {
    assert wild[mp..w + 1] == wild[mp..w] + [wild[w]];
  }

  lemma NextStar(wild: string, str: string, mp: nat, w: nat, back: nat, s: nat)
    requires Resumed(wild, str, mp, w, back, s) && w < |wild| && wild[w] == '*'
    ensures Resumed(wild, str, w + 1, w + 1, s, s)
  {
    var p, q := wild[mp..w], wild[w + 1..];
    assert ['*'] + wild[mp..] == ['*'] + p + (['*'] + q);
    LastStar(p, q, str[back..]);
    assert str[back..][|p|..] == str[s..];
    assert wild[w + 1..w + 1] == "";
  }

  lemma Restart(wild: string, str: string, mp: nat, w: nat, back: nat, s: nat)
    requires Resumed(wild, str, mp, w, back, s) && s < |str|
    requires w == |wild| || (wild[w] != '*' && !One(wild[w], str[s]))
    ensures Resumed(wild, str, mp, mp, back + 1, back + 1)
  {
    var p, q, r := wild[mp..w], wild[w..], str[back..];
    assert r[|p|] == str[s];
    Mismatch(p, q, r);
    assert ['*'] + p + q == ['*'] + wild[mp..];
    assert r[1..] == str[back + 1..];
    assert wild[mp..mp] == "";
  }

  lemma Ended(wild: string, str: string, mp: nat, w: nat, back: nat)
    requires Resumed(wild, str, mp, w, back, |str|)
    ensures Glob(wild, str) <==> Glob(wild[w..], "")
  {
    var p, q, r := wild[mp..w], wild[w..], str[back..];
    assert ['*'] + p + q == ['*'] + wild[mp..];
    AtEnd(p, q, r);
  }

  lemma {:induction false} StarTakesAll(s: string)
    ensures Glob("*", s)
  {
    if s != "" { StarTakesAll(s[1..]); }
  }

  /** SbieUtils.cpp:23-60: true exactly when the pattern means the string. */
  method WildCmpEx(wild: string, str: string) returns (r: bool)
    requires Terminated(wild) && Terminated(str)
    ensures r == Glob(wild, str)
  {
    hide Glob, Fits;
    var w: nat, s: nat, differs := SkipCommon(wild, str);
    if differs { return false; }
    var mp: nat, cp: nat := w, s;               // not read before they are set
    ghost var starred := false;
    while At(str, s) != '\0'
      invariant w <= |wild| && s <= |str|
      invariant !starred ==> (Glob(wild, str) <==> Glob(wild[w..], str[s..]))
      invariant !starred && s < |str| ==> w < |wild| && wild[w] == '*'
      invariant starred ==> cp > 0 && Resumed(wild, str, mp, w, cp - 1, s)
      decreases !starred, |str| + 1 - cp, |wild| - w
    {
      if At(wild, w) == '*' {
        StarMet(wild, str, starred, mp, w, cp, s);
        w := w + 1;
        if At(wild, w) == '\0' {
          assert ['*'] + wild[w..] == "*";
          StarTakesAll(str[s..]);
          return true;
        }
        starred, mp, cp := true, w, s + 1;
      } else if At(wild, w) == At(str, s) || At(wild, w) == '?' {
        OneMore(wild, str, mp, w, cp - 1, s);
        w, s := w + 1, s + 1;
      } else {
        Restart(wild, str, mp, w, cp - 1, s);
        w, s, cp := mp, cp, cp + 1;
      }
    }
    RestOfPattern(wild, str, starred, mp, w, cp);
    r := OnlyStars(wild, w);
  }

  /** The first loop: up to a star, both must agree. */
  method SkipCommon(wild: string, str: string) returns (w: nat, s: nat, differs: bool)
    requires Terminated(wild) && Terminated(str)
    ensures w <= |wild| && s <= |str|
    ensures differs ==> !Glob(wild, str)
    ensures !differs ==> (Glob(wild, str) <==> Glob(wild[w..], str[s..]))
    ensures !differs && s < |str| ==> w < |wild| && wild[w] == '*'
  {
    w, s := 0, 0;
    while At(str, s) != '\0' && At(wild, w) != '*'
      invariant w <= |wild| && s <= |str| && (Glob(wild, str) <==> Glob(wild[w..], str[s..]))
      decreases |str| - s
    {
      if At(wild, w) != At(str, s) && At(wild, w) != '?' { return w, s, true; }
      w, s := w + 1, s + 1;
    }
    return w, s, false;
  }

  /** The last loop: what is left of the pattern may only be stars. */
  method OnlyStars(wild: string, from: nat) returns (r: bool)
    requires Terminated(wild) && from <= |wild|
    ensures r == Glob(wild[from..], "")
  {
    var w: nat := from;
    while At(wild, w) == '*'
      invariant w <= |wild| && (Glob(wild[from..], "") <==> Glob(wild[w..], ""))
      decreases |wild| - w
    {
      w := w + 1;
    }
    r := At(wild, w) == '\0';
  }

  lemma StarMet(wild: string, str: string, starred: bool, mp: nat, w: nat, cp: nat, s: nat)
    requires w < |wild| && s <= |str| && wild[w] == '*'
    requires if starred then cp > 0 && Resumed(wild, str, mp, w, cp - 1, s)
      else (Glob(wild, str) <==> Glob(wild[w..], str[s..]))
    ensures Resumed(wild, str, w + 1, w + 1, s, s)
  {
    if starred {
      NextStar(wild, str, mp, w, cp - 1, s);
    } else {
      assert wild[w..] == ['*'] + wild[w + 1..];
      assert wild[w + 1..w + 1] == "";
    }
  }

  lemma RestOfPattern(wild: string, str: string, starred: bool, mp: nat, w: nat, cp: nat)
    requires w <= |wild|
    requires if starred then cp > 0 && Resumed(wild, str, mp, w, cp - 1, |str|)
      else (Glob(wild, str) <==> Glob(wild[w..], str[|str|..]))
    ensures Glob(wild, str) <==> Glob(wild[w..], "")
  {
    if starred { Ended(wild, str, mp, w, cp - 1); } else { assert str[|str|..] == ""; }
  }
}
