/**
  The like toggle of `POST /api/articles/:id/like`: look the caller up with
  `indexOf`; when found, `splice` that one position out, otherwise `push`
  the caller onto the end.
 */
module Likes {

  /** No element occurs twice. */
  predicate NoDup<T(==)>(s: seq<T>) {
    forall i, j :: 0 <= i < j < |s| ==> s[i] != s[j]
  }

  /** `Array.prototype.indexOf`: the first position holding `x`, or -1 when there is none. */
  function IndexOf<T(==)>(s: seq<T>, x: T): (i: int)
    ensures -1 <= i < |s|
    ensures i == -1 <==> x !in s
    ensures 0 <= i ==> s[i] == x
    ensures forall j :: 0 <= j < i ==> s[j] != x
  {
    if |s| == 0 then -1
    else if s[0] == x then 0
    else
      var j := IndexOf(s[1..], x);
      if j == -1 then -1 else j + 1
  }

  /** `splice(i, 1)`: the sequence without position `i`. */
  function RemoveAt<T>(s: seq<T>, i: nat): (r: seq<T>)
    requires i < |s|
    ensures |r| == |s| - 1
    ensures forall j :: 0 <= j < i ==> r[j] == s[j]
    ensures forall j :: i <= j < |r| ==> r[j] == s[j + 1]
    ensures multiset(r) == multiset(s) - multiset{s[i]}
  {
    assert s == s[..i] + [s[i]] + s[i + 1..];
    s[..i] + s[i + 1..]
  }

  /**
    One like toggle. When `x` is absent it is appended; when present its first
    occurrence is removed and the order of everything else is kept. Either way
    exactly one copy of `x` is added or taken away and no other element's count
    changes.
   */
  function Toggle<T(==)>(s: seq<T>, x: T): (r: seq<T>)
    ensures x !in s ==> r == s + [x]
    ensures x in s ==> |r| == |s| - 1 && r == RemoveAt(s, IndexOf(s, x))
    ensures x in s ==> multiset(r) == multiset(s) - multiset{x}
    ensures x !in s ==> multiset(r) == multiset(s) + multiset{x}
  {
    var i := IndexOf(s, x);
    if i > -1 then RemoveAt(s, i) else s + [x]
  }

  /** Removing one position from a duplicate-free sequence drops that element entirely. */
  lemma RemoveAtNoDup<T>(s: seq<T>, i: nat)
    requires i < |s| && NoDup(s)
    ensures NoDup(RemoveAt(s, i))
    ensures s[i] !in RemoveAt(s, i)
    ensures forall y :: y != s[i] ==> (y in RemoveAt(s, i) <==> y in s)
  {
    var r := RemoveAt(s, i);
    forall y | y != s[i] && y in s
      ensures y in r
    {
      var k :| 0 <= k < |s| && s[k] == y;
      if k < i { assert r[k] == y; } else { assert r[k - 1] == y; }
    }
  }

  /** On a duplicate-free sequence the toggle flips membership of `x` and of nothing else. */
  lemma ToggleFlipsMembership<T>(s: seq<T>, x: T)
    requires NoDup(s)
    ensures x in Toggle(s, x) <==> x !in s
    ensures forall y :: y != x ==> (y in Toggle(s, x) <==> y in s)
  {
    if x in s {
      RemoveAtNoDup(s, IndexOf(s, x));
    }
  }

  /** The toggle never introduces a duplicate. */
  lemma TogglePreservesNoDup<T>(s: seq<T>, x: T)
    requires NoDup(s)
    ensures NoDup(Toggle(s, x))
  {
    if x in s {
      RemoveAtNoDup(s, IndexOf(s, x));
    } else {
      var r := s + [x];
      forall i, j | 0 <= i < j < |r|
        ensures r[i] != r[j]
      {
        if j == |s| { assert r[i] == s[i]; }
      }
    }
  }

  /** Two toggles starting from a state without `x` restore the exact sequence. */
  lemma ToggleTwiceFromAbsent<T>(s: seq<T>, x: T)
    requires x !in s
    ensures Toggle(Toggle(s, x), x) == s
  {
    var t := s + [x];
    assert IndexOf(t, x) == |s| by {
      assert t[|s|] == x && t[..|s|] == s;
    }
    assert RemoveAt(t, |s|) == s;
  }

  /**
    Two toggles starting from a duplicate-free state holding `x` keep the same
    elements with the same counts, but `x` moves to the end.
   */
  lemma ToggleTwiceFromPresent<T>(s: seq<T>, x: T)
    requires x in s && NoDup(s)
    ensures Toggle(Toggle(s, x), x) == RemoveAt(s, IndexOf(s, x)) + [x]
    ensures multiset(Toggle(Toggle(s, x), x)) == multiset(s)
  {
    var t := RemoveAt(s, IndexOf(s, x));
    RemoveAtNoDup(s, IndexOf(s, x));
    assert Toggle(s, x) == t && x !in t;
    assert Toggle(t, x) == t + [x];
    calc {
      multiset(t + [x]);
      multiset(t) + multiset{x};
      multiset(s) - multiset{x} + multiset{x};
      { assert x in multiset(s); }
      multiset(s);
    }
  }
}
