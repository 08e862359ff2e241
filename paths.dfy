/** Sequence helpers for ant paths: the set of hosts on a path, the
    "no host twice" property, and the reversal that the backward ant
    applies to a path in place (java.util.Collections.reverse). */
module Paths {

  /** The hosts that occur on a path. */
  function Elems<T>(s: seq<T>): set<T>
  {
    set x | x in s
  }

  /** No element occurs twice. */
  ghost predicate NoDup<T>(s: seq<T>)
  {
    forall i, j :: 0 <= i < j < |s| ==> s[i] != s[j]
  }

  /** The elements of `s` in the opposite order. */
  function Reverse<T>(s: seq<T>): (r: seq<T>)
    ensures |r| == |s|
    ensures forall k :: 0 <= k < |s| ==> r[k] == s[|s| - 1 - k]
  {
    if s == [] then [] else Reverse(s[1..]) + [s[0]]
  }

  /** Reversal keeps the same hosts and keeps a duplicate-free path duplicate-free. */
  lemma ReverseElems<T>(s: seq<T>)
    ensures Elems(Reverse(s)) == Elems(s)
    ensures NoDup(s) ==> NoDup(Reverse(s))
  {
    var r := Reverse(s);
    forall x | x in r ensures x in s {
      var k :| 0 <= k < |r| && r[k] == x;
      assert s[|s| - 1 - k] == x;
    }
    forall x | x in s ensures x in r {
      var k :| 0 <= k < |s| && s[k] == x;
      assert r[|s| - 1 - k] == x;
    }
  }

  /** Appending an element that is not yet present keeps a path duplicate-free. */
  lemma AppendFresh<T>(s: seq<T>, x: T)
    requires x !in s
    ensures NoDup(s) ==> NoDup(s + [x])
    ensures Elems(s + [x]) == Elems(s) + {x}
  {
  }

  /** Reversing twice gives the path back. */
  lemma ReverseReverse<T>(s: seq<T>)
    ensures Reverse(Reverse(s)) == s
  {
    var r := Reverse(Reverse(s));
    assert forall k :: 0 <= k < |s| ==> r[k] == s[k];
  }

  /** Two updates of the same key, one after the other, are one update. */
  lemma UpdateCompose<K, V>(o: map<K, V>, mid: map<K, V>, n: map<K, V>, k: K)
    requires k in mid && mid == o[k := mid[k]]
    requires k in n && n == mid[k := n[k]]
    ensures n == o[k := n[k]]
  {
  }
}
