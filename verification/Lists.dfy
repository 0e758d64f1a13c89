/** The doubly linked lists of list.c as sequences of elements that occur once. */
module Lists {
  ghost predicate Distinct<T>(s: seq<T>) { forall i, j :: 0 <= i < j < |s| ==> s[i] != s[j] }

  /** List_Remove: list.c:111-136. */
  function Unlink<T(==)>(s: seq<T>, x: T): seq<T> {
    if s == [] then [] else if s[0] == x then s[1..] else [s[0]] + Unlink(s[1..], x)
  }

  /** Only `x` leaves, and the others keep their order. */
  lemma {:induction false} UnlinkAt<T>(s: seq<T>, i: nat)
    requires Distinct(s) && i < |s|
    ensures Unlink(s, s[i]) == s[..i] + s[i + 1..]
  {
    if i > 0 {
      UnlinkAt(s[1..], i - 1);
      assert s[..i] == [s[0]] + s[1..][..i - 1];
      assert s[1..][i..] == s[i + 1..];
    }
  }

  lemma UnlinkMembers<T>(s: seq<T>, x: T)
    requires Distinct(s) && x in s
    ensures Distinct(Unlink(s, x)) && (forall y :: y in Unlink(s, x) <==> y in s && y != x)
  {
    var i :| 0 <= i < |s| && s[i] == x;
    UnlinkAt(s, i);
    assert forall j :: 0 <= j < |s| && j != i ==> s[j] == Unlink(s, x)[if j < i then j else j - 1];
  }

  lemma LinkMembers<T>(s: seq<T>, x: T)
    requires Distinct(s) && x !in s
    ensures Distinct([x] + s) && (forall y :: y in [x] + s <==> y in s || y == x)
  {}

  /** Elements of the second sequence, in its order. */
  predicate Subsequence<T(==)>(a: seq<T>, b: seq<T>) {
    a == [] || (b != [] && ((a[0] == b[0] && Subsequence(a[1..], b[1..])) || Subsequence(a, b[1..])))
  }

  lemma {:induction false} SubsequenceSelf<T>(a: seq<T>)
    ensures Subsequence(a, a)
  {
    if a != [] { SubsequenceSelf(a[1..]); }
  }

  lemma {:induction false} SubsequenceOf<T>(a: seq<T>, b: seq<T>, c: seq<T>)
    requires Subsequence(a, b) && Subsequence(b, c)
    ensures Subsequence(a, c)
    decreases |c|
  {
    if a != [] {
      if Subsequence(b, c[1..]) {
        SubsequenceOf(a, b, c[1..]);
      } else if a[0] == b[0] && Subsequence(a[1..], b[1..]) {
        SubsequenceOf(a[1..], b[1..], c[1..]);
      } else {
        SubsequenceOf(a, b[1..], c[1..]);
      }
    }
  }

  lemma SubsequenceFront<T>(x: T, a: seq<T>, b: seq<T>)
    requires Subsequence(a, b)
    ensures Subsequence([x] + a, [x] + b)
  {
    assert ([x] + a)[1..] == a && ([x] + b)[1..] == b;
  }

  /** List_Remove keeps the order. */
  lemma {:induction false} UnlinkInOrder<T>(s: seq<T>, x: T)
    ensures Subsequence(Unlink(s, x), s)
  {
    if s != [] {
      if s[0] == x { SubsequenceSelf(s[1..]); } else { UnlinkInOrder(s[1..], x); }
    }
  }
}
