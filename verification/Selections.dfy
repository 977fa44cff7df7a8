/** Choosing elements of a sequence by their positions. */
module Selections {

  ghost predicate Ascending(picks: seq<nat>) {
    forall i, j :: 0 <= i < j < |picks| ==> picks[i] < picks[j]
  }

  // The positions in order, all of them and no others.
  ghost predicate Lists(picks: seq<nat>, places: set<nat>) {
    Ascending(picks) && forall k :: k in picks <==> k in places
  }

  // t is what s has at these positions.
  ghost predicate Chosen<T>(s: seq<T>, places: set<nat>, t: seq<T>) {
    exists picks :: Lists(picks, places) && ChosenAt(s, picks, t)
  }

  ghost predicate ChosenAt<T>(s: seq<T>, picks: seq<nat>, t: seq<T>) {
    |picks| == |t| && forall j :: 0 <= j < |t| ==> picks[j] < |s| && t[j] == s[picks[j]]
  }

  // One more position at the end, chosen or not.
  lemma ListsNext(picks: seq<nat>, places: set<nat>, n: nat)
    requires Lists(picks, places) && forall k <- places :: k < n
    ensures Lists(picks + [n], places + {n})
  {
    forall i | 0 <= i < |picks| ensures picks[i] < n { assert picks[i] in picks; }
  }

  // The positions chosen leave nothing open.
  lemma {:induction false} ListsUnique(picks: seq<nat>, picks': seq<nat>, places: set<nat>)
    requires Lists(picks, places) && Lists(picks', places)
    ensures picks == picks'
    decreases |picks|
  {
    if picks != [] && picks' != [] {
      var n, n' := |picks| - 1, |picks'| - 1;
      assert picks[n] in picks' && picks'[n'] in picks;
      assert picks[n] == picks'[n'];
      ListsFront(picks, places);
      ListsFront(picks', places);
      ListsUnique(picks[..n], picks'[..n'], places - {picks[n]});
    } else {
      ListsNone(picks, places);
      ListsNone(picks', places);
    }
  }

  lemma ListsNone(picks: seq<nat>, places: set<nat>)
    requires Lists(picks, places)
    ensures picks == [] <==> places == {}
  {
    if picks != [] {
      assert picks[0] in picks;
    } else {
      assert forall k :: k in places ==> k in picks;
    }
  }

  lemma ListsFront(picks: seq<nat>, places: set<nat>)
    requires Lists(picks, places) && picks != []
    ensures Lists(picks[..|picks| - 1], places - {picks[|picks| - 1]})
  {
    var n := |picks| - 1;
    forall k ensures k in picks[..n] <==> k in places - {picks[n]} {
      if k in picks && k != picks[n] {
        var i :| 0 <= i < |picks| && picks[i] == k;
        assert picks[..n][i] == k;
      }
    }
  }

  // So what is chosen is determined.
  lemma ChosenUnique<T>(s: seq<T>, places: set<nat>, t: seq<T>, t': seq<T>)
    requires Chosen(s, places, t) && Chosen(s, places, t')
    ensures t == t'
  {
    var picks :| Lists(picks, places) && ChosenAt(s, picks, t);
    var picks' :| Lists(picks', places) && ChosenAt(s, picks', t');
    ListsUnique(picks, picks', places);
  }
}
