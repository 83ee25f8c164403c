/** Facts about sequences and their multisets. */
module Sequences {

  function RemoveAt<T>(s: seq<T>, i: nat): (r: seq<T>)
    requires i < |s|
    ensures |r| == |s| - 1
  {
    s[..i] + s[i + 1..]
  }

  lemma MultisetRemoveAt<T>(s: seq<T>, i: nat)
    requires i < |s|
    ensures multiset(RemoveAt(s, i)) == multiset(s) - multiset{s[i]}
  {
    assert s == s[..i] + ([s[i]] + s[i + 1..]);
  }

  lemma RemoveLast<T>(s: seq<T>)
    requires |s| > 0
    ensures RemoveAt(s, |s| - 1) == s[..|s| - 1]
    ensures s == RemoveAt(s, |s| - 1) + [s[|s| - 1]]
  {
  }

  /** Equal multisets: every element of one sequence is found in the other. */
  lemma FindIn<T>(s: seq<T>, t: seq<T>, x: T) returns (i: nat)
    requires multiset(s) == multiset(t) && x in s
    ensures i < |t| && t[i] == x
  {
    assert x in multiset(s);
    assert x in multiset(t);
    i :| 0 <= i < |t| && t[i] == x;
  }

  ghost function Some<T>(s: set<T>): (x: T)
    requires s != {}
    ensures x in s
  {
    var x :| x in s;
    x
  }

  function Map<T, U>(f: T -> U, s: seq<T>): (r: seq<U>)
    ensures |r| == |s| && forall i :: 0 <= i < |s| ==> r[i] == f(s[i])
  {
    seq(|s|, i requires 0 <= i < |s| => f(s[i]))
  }

  lemma MapRemoveAt<T, U>(f: T -> U, s: seq<T>, i: nat)
    requires i < |s|
    ensures multiset(Map(f, s)) == multiset(Map(f, RemoveAt(s, i))) + multiset{f(s[i])}
  {
    MultisetRemoveAt(Map(f, s), i);
    assert RemoveAt(Map(f, s), i) == Map(f, RemoveAt(s, i));
  }

  lemma {:induction false} MapKeepsMultisets<T, U>(f: T -> U, s: seq<T>, t: seq<T>)
    requires multiset(s) == multiset(t)
    ensures multiset(Map(f, s)) == multiset(Map(f, t))
    decreases |s|
  {
    hide Map;
    if |s| == 0 {
      assert |multiset(t)| == 0;
      assert s == t;
    } else {
      var last := |s| - 1;
      var i := FindIn(s, t, s[last]);
      MultisetRemoveAt(s, last);
      MultisetRemoveAt(t, i);
      MapKeepsMultisets(f, RemoveAt(s, last), RemoveAt(t, i));
      MapRemoveAt(f, s, last);
      MapRemoveAt(f, t, i);
    }
  }

  lemma MapConcatenation<T, U>(f: T -> U, s: seq<T>, t: seq<T>)
    ensures Map(f, s + t) == Map(f, s) + Map(f, t)
  {
  }

  /** The elements of the set, each once, in some order. */
  ghost predicate Lists<T>(s: seq<T>, items: set<T>) {
    multiset(s) == multiset(items)
  }

  lemma {:induction false} SomeListing<T>(items: set<T>) returns (s: seq<T>)
    ensures Lists(s, items)
    decreases items
  {
    if items == {} {
      s := [];
    } else {
      var x := Some(items);
      s := SomeListing(items - {x});
      assert multiset(items) == multiset(items - {x}) + multiset{x};
      s := s + [x];
    }
  }

  lemma ListedItems<T>(s: seq<T>, items: set<T>)
    requires Lists(s, items)
    ensures forall x :: x in s <==> x in items
  {
    forall x
      ensures x in s <==> x in items
    {
      assert x in s <==> x in multiset(s);
      assert x in items <==> x in multiset(items);
    }
  }

  lemma ListedOnce<T>(s: seq<T>, items: set<T>, i: nat, j: nat)
    requires Lists(s, items) && i < |s| && j < |s| && i != j
    ensures s[i] != s[j]
  {
    var rest, k := RemoveAt(s, i), if j < i then j else j - 1;
    MultisetRemoveAt(s, i);
    assert rest[k] == s[j] && s[j] in rest;
    assert s[j] in multiset(rest);
  }

  /** Listings of two sets and of their union share a listing of the items that only the second one has. */
  lemma UnionListing<T>(b: seq<T>, union: seq<T>, a: seq<T>, both: seq<T>, first: set<T>, second: set<T>)
    returns (rest: seq<T>)
    requires Lists(a, first) && Lists(b, second) && Lists(union, first + second) && Lists(both, first * second)
    ensures multiset(b) == multiset(both + rest) && multiset(union) == multiset(a + rest)
    ensures forall x :: x in rest ==> x in second
  {
    rest := SomeListing(second - first);
    ListedItems(rest, second - first);
    assert multiset(second) == multiset(first * second) + multiset(second - first);
    assert multiset(first + second) == multiset(first) + multiset(second - first);
  }
}
