/** Finite sets of integers in ascending order. */
module SortedSets {

  lemma {:induction false} LeastExists(s: set<int>)
    requires s != {}
    ensures exists m :: m in s && forall x :: x in s ==> m <= x
  {
    assert (forall x :: x !in s) ==> s == {};
    var y :| y in s;
    if s == {y} {
      assert forall x :: x in s ==> y <= x;
    } else {
      LeastExists(s - {y});
      var m :| m in s - {y} && forall x :: x in s - {y} ==> m <= x;
      var n := if m < y then m else y;
      assert n in s && forall x :: x in s ==> n <= x by {
        forall x | x in s ensures n <= x { if x != y { assert x in s - {y}; } }
      }
    }
  }

  function Least(s: set<int>): (m: int)
    requires s != {}
    ensures m in s && forall x :: x in s ==> m <= x
  {
    LeastExists(s);
    var m :| m in s && forall x :: x in s ==> m <= x;
    m
  }

  // lsort -integer
  function SortedKeys(s: set<int>): (keys: seq<int>)
    ensures forall x :: x in keys <==> x in s
    ensures forall i, j :: 0 <= i < j < |keys| ==> keys[i] < keys[j]
  {
    if s == {} then [] else
      var rest := SortedKeys(s - {Least(s)});
      assert forall i :: 0 <= i < |rest| ==> rest[i] in s - {Least(s)};
      [Least(s)] + rest
  }

  predicate Ascending(keys: seq<int>) {
    forall i, j :: 0 <= i < j < |keys| ==> keys[i] < keys[j]
  }

  // The first key, and those from position i on.
  function FirstAndFrom(keys: seq<int>, i: nat): set<int>
    requires 1 <= i <= |keys|
  {
    set k | k in keys && (k == keys[0] || (i < |keys| && k >= keys[i]))
  }

  lemma FirstAndFromStep(keys: seq<int>, i: nat)
    requires Ascending(keys) && 1 <= i < |keys|
    ensures keys[i] in FirstAndFrom(keys, i) && FirstAndFrom(keys, i + 1) == FirstAndFrom(keys, i) - {keys[i]}
  {
    forall k | k in keys && k > keys[i] ensures i + 1 < |keys| && k >= keys[i + 1] {
      var j :| 0 <= j < |keys| && keys[j] == k;
      assert j > i;
    }
  }

  lemma FirstAndFromEnds(s: set<int>)
    requires s != {}
    ensures var keys := SortedKeys(s);
            && |keys| >= 1 && keys[0] == Least(s) && Ascending(keys)
            && FirstAndFrom(keys, 1) == s && FirstAndFrom(keys, |keys|) == {Least(s)}
  {
    var keys := SortedKeys(s);
    assert keys[0] == Least(s) && keys[0] in keys;
    forall k | k in s && k != keys[0] ensures 1 < |keys| && k >= keys[1] {
      var j :| 0 <= j < |keys| && keys[j] == k;
    }
  }
}
