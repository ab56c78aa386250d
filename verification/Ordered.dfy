/** Ascending iteration over finite sets: what `BTreeSet` and `BTreeMap` iteration delivers. */
module Ordered {

  ghost predicate StrictTotalOrder<T(!new)>(lt: (T, T) -> bool) {
    && (forall x :: !lt(x, x))
    && (forall x, y, z :: lt(x, y) && lt(y, z) ==> lt(x, z))
    && (forall x, y :: lt(x, y) || x == y || lt(y, x))
  }

  ghost predicate Ascending<T(!new)>(s: seq<T>, lt: (T, T) -> bool) {
    forall i, j :: 0 <= i < j < |s| ==> lt(s[i], s[j])
  }

  /** `r` lists exactly the members of `s`, each once, in ascending order. */
  ghost predicate Lists<T(!new)>(r: seq<T>, s: set<T>, lt: (T, T) -> bool) {
    Ascending(r, lt) && forall x :: x in r <==> x in s
  }

  predicate NatLess(x: nat, y: nat) {
    x < y
  }

  lemma {:induction false} HasLeast<T(!new)>(s: set<T>, lt: (T, T) -> bool)
    requires StrictTotalOrder(lt) && s != {}
    ensures exists x :: x in s && forall y :: y in s ==> !lt(y, x)
    decreases |s|
  {
    var x :| x in s;
    if exists y :: y in s && lt(y, x) {
      var below := set y | y in s && lt(y, x);
      var y :| y in s && lt(y, x);
      assert y in below && x !in below && below < s;
      SmallerSet(below, s);
      HasLeast(below, lt);
      var z :| z in below && forall y :: y in below ==> !lt(y, z);
      assert forall u :: u in s && lt(u, z) ==> u in below;
    }
  }

  lemma SmallerSet<T>(a: set<T>, b: set<T>)
    requires a < b
    ensures |a| < |b|
  {
    assert b == a + (b - a);
    assert b - a != {};
  }

  /** The ascending listing of a set is unique. */
  lemma {:induction false} ListingIsUnique<T(!new)>(r: seq<T>, r': seq<T>, s: set<T>, lt: (T, T) -> bool)
    requires StrictTotalOrder(lt) && Lists(r, s, lt) && Lists(r', s, lt)
    ensures r == r'
    decreases |r|
  {
    assert r' != [] ==> r'[0] in s;
    if r != [] {
      assert r[0] in s && r'  != [];
      assert r'[0] in s && r[0] in r' && r'[0] in r;
      assert r[0] == r'[0];
      TailLists(r, s, lt);
      TailLists(r', s, lt);
      ListingIsUnique(r[1..], r'[1..], s - {r[0]}, lt);
      assert r == [r[0]] + r[1..] && r' == [r'[0]] + r'[1..];
    }
  }

  lemma TailLists<T(!new)>(r: seq<T>, s: set<T>, lt: (T, T) -> bool)
    requires StrictTotalOrder(lt) && Lists(r, s, lt) && r != []
    ensures Lists(r[1..], s - {r[0]}, lt)
  {
    assert r == [r[0]] + r[1..];
    forall x | x in r[1..] ensures x != r[0] {
      var i :| 0 <= i < |r[1..]| && r[1..][i] == x;
      assert lt(r[0], r[i + 1]);
    }
  }

  /** Iterating a set in ascending order. */
  method Listing<T(!new, ==)>(s: set<T>, lt: (T, T) -> bool) returns (r: seq<T>)
    requires StrictTotalOrder(lt)
    ensures Lists(r, s, lt)
  {
    r := [];
    var rest := s;
    while rest != {}
      invariant rest <= s && Lists(r, s - rest, lt)
      invariant forall x, y :: x in r && y in rest ==> lt(x, y)
      decreases |rest|
    {
      HasLeast(rest, lt);
      var least :| least in rest && forall y :: y in rest ==> !lt(y, least);
      r := r + [least];
      rest := rest - {least};
    }
  }
}
