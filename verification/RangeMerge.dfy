/** The merging stack behind both class compilers: alternatives are sequences of
    ranges, and a new one is merged into its neighbour while they differ in one
    adjacent position only. */
module RangeMerge {
  import opened Unicode

  type Alt = seq<Range>

  // An alternative on the stack; closed stops further merging into it.
  datatype Item = Item(closed: bool, alt: Alt)

  ghost predicate Matches(a: Alt, w: seq<int>) {
    |a| == |w| && forall i :: 0 <= i < |a| ==> a[i].start <= w[i] <= a[i].end
  }

  // In how many alternatives a sequence is matched.
  ghost function Ways(s: seq<Item>, w: seq<int>): nat {
    if s == [] then 0
    else Ways(s[..|s| - 1], w) + if Matches(s[|s| - 1].alt, w) then 1 else 0
  }

  // Equal everywhere but in position i, where t goes on where p ends.
  predicate DiffersAt(p: Alt, t: Alt, i: nat) {
    && |p| == |t| && i < |p| && p[i].end + 1 == t[i].start
    && forall k :: 0 <= k < |p| && k != i ==> p[k] == t[k]
  }

  function Extend(p: Alt, t: Alt, i: nat): Alt
    requires DiffersAt(p, t, i)
  {
    p[i := Range(p[i].start, t[i].end)]
  }

  ghost predicate NonEmpty(a: Alt) {
    forall i :: 0 <= i < |a| ==> a[i].start <= a[i].end
  }

  ghost predicate Mergeable(p: Alt, t: Alt) {
    exists i :: DiffersAt(p, t, i)
  }

  // Merging loses nothing, gains nothing and duplicates nothing.
  lemma ExtendMatches(p: Alt, t: Alt, i: nat, w: seq<int>)
    requires DiffersAt(p, t, i) && NonEmpty(p) && NonEmpty(t)
    ensures Matches(Extend(p, t, i), w) <==> Matches(p, w) || Matches(t, w)
    ensures !(Matches(p, w) && Matches(t, w))
    ensures NonEmpty(Extend(p, t, i))
  {
    var e := Extend(p, t, i);
    if Matches(e, w) {
      assert e[i].start <= w[i] <= e[i].end;
      if w[i] <= p[i].end {
        assert forall k :: 0 <= k < |p| && k != i ==> p[k] == e[k];
      } else {
        assert forall k :: 0 <= k < |t| && k != i ==> t[k] == e[k];
      }
    }
  }

  // At most one position qualifies, so the order of the tests is free.
  lemma DiffersOnce(p: Alt, t: Alt, i: nat, j: nat)
    requires NonEmpty(t) && DiffersAt(p, t, i) && DiffersAt(p, t, j)
    ensures i == j
  {
  }

  // ----- The stack as a value --------------------------------------------------

  ghost predicate AllNonEmpty(s: seq<Item>) {
    forall k :: 0 <= k < |s| ==> NonEmpty(s[k].alt)
  }

  // The two neighbours would still be merged if they were on top.
  ghost predicate Pending(p: Item, t: Item) {
    !p.closed && Mergeable(p.alt, t.alt)
  }

  ghost predicate CanMerge(s: seq<Item>) {
    |s| >= 2 && Pending(s[|s| - 2], s[|s| - 1])
  }

  ghost function MergeTop(s: seq<Item>): seq<Item>
    requires CanMerge(s)
  {
    var p, t := s[|s| - 2].alt, s[|s| - 1].alt;
    var i :| DiffersAt(p, t, i);
    s[..|s| - 2] + [Item(false, Extend(p, t, i))]
  }

  ghost function MergeAll(s: seq<Item>): seq<Item>
    decreases |s|
  {
    if CanMerge(s) then MergeAll(MergeTop(s)) else s
  }

  function Single(w: seq<int>): Alt {
    seq(|w|, i requires 0 <= i < |w| => Range(w[i], w[i]))
  }

  ghost function Push(s: seq<Item>, a: Alt): seq<Item> {
    MergeAll(s + [Item(false, a)])
  }

  function Finalized(s: seq<Item>): seq<Item> {
    if s == [] then s else s[|s| - 1 := s[|s| - 1].(closed := true)]
  }

  // The stack after a list of codes; a gap before a code closes what came before.
  ghost function Build(codes: seq<nat>, enc: nat -> seq<int>): seq<Item> {
    if codes == [] then []
    else
      var n := |codes| - 1;
      var s := Build(codes[..n], enc);
      Push(if n > 0 && codes[n] > codes[n - 1] + 1 then Finalized(s) else s, Single(enc(codes[n])))
  }

  // ----- Exactly the pushed sequences ------------------------------------------

  lemma WaysSnoc(s: seq<Item>, t: Item, w: seq<int>)
    ensures Ways(s + [t], w) == Ways(s, w) + if Matches(t.alt, w) then 1 else 0
  {
    assert (s + [t])[..|s|] == s;
  }

  lemma MergeTopWays(s: seq<Item>, w: seq<int>)
    requires CanMerge(s) && AllNonEmpty(s)
    ensures AllNonEmpty(MergeTop(s)) && Ways(MergeTop(s), w) == Ways(s, w)
  {
    var m := |s|;
    var p, t := s[m - 2].alt, s[m - 1].alt;
    assert s == (s[..m - 2] + [s[m - 2]]) + [s[m - 1]];
    WaysSnoc(s[..m - 2] + [s[m - 2]], s[m - 1], w);
    WaysSnoc(s[..m - 2], s[m - 2], w);
    var e := MergeTop(s)[m - 2];
    WaysSnoc(s[..m - 2], e, w);
    var i :| DiffersAt(p, t, i) && e == Item(false, Extend(p, t, i));
    ExtendMatches(p, t, i, w);
  }

  lemma {:induction false} MergeAllWays(s: seq<Item>, w: seq<int>)
    requires AllNonEmpty(s)
    ensures AllNonEmpty(MergeAll(s)) && Ways(MergeAll(s), w) == Ways(s, w)
    decreases |s|
  {
    if CanMerge(s) {
      MergeTopWays(s, w);
      MergeAllWays(MergeTop(s), w);
    }
  }

  lemma FinalizedWays(s: seq<Item>, w: seq<int>)
    ensures Ways(Finalized(s), w) == Ways(s, w)
    ensures AllNonEmpty(s) ==> AllNonEmpty(Finalized(s))
  {
    if s != [] {
      assert Finalized(s)[..|s| - 1] == s[..|s| - 1];
    }
  }

  // How many of the codes are encoded as w.
  ghost function Uses(codes: seq<nat>, enc: nat -> seq<int>, w: seq<int>): nat {
    if codes == [] then 0
    else Uses(codes[..|codes| - 1], enc, w) + if enc(codes[|codes| - 1]) == w then 1 else 0
  }

  lemma SingleMatches(v: seq<int>, w: seq<int>)
    ensures NonEmpty(Single(v)) && (Matches(Single(v), w) <==> v == w)
  {
  }

  lemma PushWays(s: seq<Item>, v: seq<int>, w: seq<int>)
    requires AllNonEmpty(s)
    ensures AllNonEmpty(Push(s, Single(v))) && Ways(Push(s, Single(v)), w) == Ways(s, w) + if v == w then 1 else 0
  {
    hide MergeAll, Ways, Matches;
    SingleMatches(v, w);
    WaysSnoc(s, Item(false, Single(v)), w);
    MergeAllWays(s + [Item(false, Single(v))], w);
  }

  /** A sequence is matched by as many alternatives as there are codes encoded so. */
  lemma {:induction false} BuildWays(codes: seq<nat>, enc: nat -> seq<int>, w: seq<int>)
    ensures AllNonEmpty(Build(codes, enc)) && Ways(Build(codes, enc), w) == Uses(codes, enc, w)
  {
    hide Ways, Push, AllNonEmpty, Finalized;
    if codes != [] {
      var n := |codes| - 1;
      BuildWays(codes[..n], enc, w);
      var s := Build(codes[..n], enc);
      FinalizedWays(s, w);
      PushWays(if n > 0 && codes[n] > codes[n - 1] + 1 then Finalized(s) else s, enc(codes[n]), w);
    } else {
      NoneWays(w);
    }
  }

  lemma NoneWays(w: seq<int>)
    ensures Ways([], w) == 0 && AllNonEmpty([])
  {
  }

  lemma {:induction false} UsesZero(codes: seq<nat>, enc: nat -> seq<int>, w: seq<int>)
    ensures Uses(codes, enc, w) == 0 <==> forall i :: 0 <= i < |codes| ==> enc(codes[i]) != w
  {
    if codes != [] {
      UsesZero(codes[..|codes| - 1], enc, w);
    }
  }

  // For codes with distinct encodings: one alternative for each, none for anything else.
  lemma {:induction false} UsesDistinct(codes: seq<nat>, enc: nat -> seq<int>, w: seq<int>)
    requires forall i, j :: 0 <= i < j < |codes| ==> enc(codes[i]) != enc(codes[j])
    ensures Uses(codes, enc, w) == if exists i :: 0 <= i < |codes| && enc(codes[i]) == w then 1 else 0
  {
    if codes != [] {
      var n := |codes| - 1;
      UsesDistinct(codes[..n], enc, w);
      UsesZero(codes[..n], enc, w);
      if enc(codes[n]) == w {
        assert forall i :: 0 <= i < n ==> codes[..n][i] == codes[i];
      }
    }
  }

  // ----- No neighbours left to merge --------------------------------------------

  ghost predicate Settled(s: seq<Item>) {
    forall k :: 0 < k < |s| ==> !Pending(s[k - 1], s[k])
  }

  lemma {:induction false} MergeAllSettles(s: seq<Item>)
    requires |s| > 0 && Settled(s[..|s| - 1])
    ensures Settled(MergeAll(s))
    decreases |s|
  {
    if CanMerge(s) {
      var u := MergeTop(s);
      assert u[..|u| - 1] == s[..|s| - 1][..|s| - 2];
      MergeAllSettles(u);
    } else {
      forall k | 0 < k < |s| ensures !Pending(s[k - 1], s[k]) {
        if k < |s| - 1 { assert s[..|s| - 1][k - 1] == s[k - 1] && s[..|s| - 1][k] == s[k]; }
      }
    }
  }

  /** Neighbouring alternatives are never mergeable, unless a gap keeps them apart. */
  lemma {:induction false} BuildSettled(codes: seq<nat>, enc: nat -> seq<int>)
    ensures Settled(Build(codes, enc))
  {
    if codes != [] {
      var n := |codes| - 1;
      BuildSettled(codes[..n], enc);
      var s := Build(codes[..n], enc);
      var s' := if n > 0 && codes[n] > codes[n - 1] + 1 then Finalized(s) else s;
      assert (s' + [Item(false, Single(enc(codes[n])))])[..|s'|] == s';
      MergeAllSettles(s' + [Item(false, Single(enc(codes[n])))]);
    }
  }

  predicate Contiguous(codes: seq<nat>) {
    forall i :: 0 <= i < |codes| ==> codes[i] == codes[0] + i
  }

  ghost predicate AllOpen(s: seq<Item>) {
    forall k :: 0 <= k < |s| ==> !s[k].closed
  }

  lemma {:induction false} MergeAllOpen(s: seq<Item>)
    requires AllOpen(s)
    ensures AllOpen(MergeAll(s))
    decreases |s|
  {
    if CanMerge(s) {
      MergeAllOpen(MergeTop(s));
    }
  }

  lemma {:induction false} ContiguousOpen(codes: seq<nat>, enc: nat -> seq<int>)
    requires Contiguous(codes)
    ensures AllOpen(Build(codes, enc))
  {
    if codes != [] {
      var n := |codes| - 1;
      ContiguousOpen(codes[..n], enc);
      MergeAllOpen(Build(codes[..n], enc) + [Item(false, Single(enc(codes[n])))]);
    }
  }

  // ----- The stack as the code works it -------------------------------------------

  predicate EqAt(p: Alt, t: Alt, i: nat): (b: bool)
    requires i < |p| == |t|
    ensures b <==> p[i] == t[i]
  {
    p[i].start == t[i].start && p[i].end == t[i].end
  }

  predicate UpAt(p: Alt, t: Alt, i: nat)
    requires i < |p| == |t|
  {
    p[i].end + 1 == t[i].start
  }

  predicate GoodLength(n: nat) { n in {1, 2, 3, 4, 6} }

  // The merge test, one case per length; `at` is the position to extend.
  method Merging2(p: Alt, t: Alt) returns (ok: bool, at: nat)
    requires |p| == |t| == 2
    ensures ok ==> DiffersAt(p, t, at)
    ensures !ok ==> !Mergeable(p, t)
  {
    if EqAt(p, t, 0) && UpAt(p, t, 1) { return true, 1; }
    if UpAt(p, t, 0) && EqAt(p, t, 1) { return true, 0; }
    return false, 0;
  }

  method Merging3(p: Alt, t: Alt) returns (ok: bool, at: nat)
    requires |p| == |t| == 3
    ensures ok ==> DiffersAt(p, t, at)
    ensures !ok ==> !Mergeable(p, t)
  {
    if EqAt(p, t, 0) && EqAt(p, t, 1) && UpAt(p, t, 2) { return true, 2; }
    if EqAt(p, t, 0) && UpAt(p, t, 1) && EqAt(p, t, 2) { return true, 1; }
    if UpAt(p, t, 0) && EqAt(p, t, 1) && EqAt(p, t, 2) { return true, 0; }
    return false, 0;
  }

  method Merging4(p: Alt, t: Alt) returns (ok: bool, at: nat)
    requires |p| == |t| == 4
    ensures ok ==> DiffersAt(p, t, at)
    ensures !ok ==> !Mergeable(p, t)
  {
    if EqAt(p, t, 0) && EqAt(p, t, 1) && EqAt(p, t, 2) && UpAt(p, t, 3) { return true, 3; }
    if EqAt(p, t, 0) && EqAt(p, t, 1) && UpAt(p, t, 2) && EqAt(p, t, 3) { return true, 2; }
    if EqAt(p, t, 0) && UpAt(p, t, 1) && EqAt(p, t, 2) && EqAt(p, t, 3) { return true, 1; }
    if UpAt(p, t, 0) && EqAt(p, t, 1) && EqAt(p, t, 2) && EqAt(p, t, 3) { return true, 0; }
    return false, 0;
  }

  lemma SixWays(p: Alt, t: Alt)
    requires |p| == |t| == 6
    ensures Mergeable(p, t) <==> DiffersAt(p, t, 0) || DiffersAt(p, t, 1) || DiffersAt(p, t, 2) ||
                                 DiffersAt(p, t, 3) || DiffersAt(p, t, 4) || DiffersAt(p, t, 5)
  {
  }

  lemma SixAt(p: Alt, t: Alt, i: nat)
    requires |p| == |t| == 6 && i < 6
    ensures DiffersAt(p, t, i) <==>
            && UpAt(p, t, i)
            && (i == 0 || EqAt(p, t, 0)) && (i == 1 || EqAt(p, t, 1)) && (i == 2 || EqAt(p, t, 2))
            && (i == 3 || EqAt(p, t, 3)) && (i == 4 || EqAt(p, t, 4)) && (i == 5 || EqAt(p, t, 5))
  {
  }

  method Merging6(p: Alt, t: Alt) returns (ok: bool, at: nat)
    requires |p| == |t| == 6
    ensures ok ==> DiffersAt(p, t, at)
    ensures !ok ==> !Mergeable(p, t)
  {
    SixWays(p, t);
    SixAt(p, t, 0); SixAt(p, t, 1); SixAt(p, t, 2); SixAt(p, t, 3); SixAt(p, t, 4); SixAt(p, t, 5);
    hide DiffersAt, Mergeable, EqAt, UpAt;
    var e0, e1, e2 := EqAt(p, t, 0), EqAt(p, t, 1), EqAt(p, t, 2);
    var e3, e4, e5 := EqAt(p, t, 3), EqAt(p, t, 4), EqAt(p, t, 5);
    if e0 && e1 && e2 && e3 && e4 && UpAt(p, t, 5) { return true, 5; }
    if e0 && e1 && e2 && e3 && UpAt(p, t, 4) && e5 { return true, 4; }
    if e0 && e1 && e2 && UpAt(p, t, 3) && e4 && e5 { return true, 3; }
    if e0 && e1 && UpAt(p, t, 2) && e3 && e4 && e5 { return true, 2; }
    if e0 && UpAt(p, t, 1) && e2 && e3 && e4 && e5 { return true, 1; }
    if UpAt(p, t, 0) && e1 && e2 && e3 && e4 && e5 { return true, 0; }
    return false, 0;
  }

  method Merging(p: Alt, t: Alt) returns (ok: bool, at: nat)
    requires |p| == |t| && GoodLength(|p|)
    ensures ok ==> DiffersAt(p, t, at)
    ensures !ok ==> !Mergeable(p, t)
  {
    match |p| {
      case 1 => ok, at := UpAt(p, t, 0), 0;
      case 2 => ok, at := Merging2(p, t);
      case 3 => ok, at := Merging3(p, t);
      case 4 => ok, at := Merging4(p, t);
      case 6 => ok, at := Merging6(p, t);
    }
  }

  class MergeState {
    var stack: seq<Item>

    ghost predicate Valid()
      reads this
    {
      forall k :: 0 <= k < |stack| ==> NonEmpty(stack[k].alt) && GoodLength(|stack[k].alt|)
    }

    constructor ()
      ensures Valid() && stack == []
    {
      stack := [];
    }

    method Finalize()
      requires Valid()
      modifies this
      ensures Valid() && stack == Finalized(old(stack))
    {
      if stack != [] {
        stack := stack[|stack| - 1 := stack[|stack| - 1].(closed := true)];
      }
    }

    // Merge the two topmost alternatives, if they can be.
    method Merge2() returns (merged: bool)
      requires Valid()
      modifies this
      ensures Valid()
      ensures merged == old(CanMerge(stack))
      ensures stack == if merged then MergeTop(old(stack)) else old(stack)
    {
      var depth := |stack|;
      if depth < 2 { return false; }
      var top, prev := stack[depth - 1], stack[depth - 2];
      if prev.closed { return false; }
      if |prev.alt| != |top.alt| { return false; }
      var ok, at := Merging(prev.alt, top.alt);
      if !ok { return false; }
      MergeTopAt(stack, at);
      ExtendNonEmpty(prev.alt, top.alt, at);
      stack := stack[..depth - 2] + [Item(prev.closed, Extend(prev.alt, top.alt, at))];
      return true;
    }

    method Merge(current: Alt)
      requires Valid() && NonEmpty(current) && GoodLength(|current|)
      modifies this
      ensures Valid() && stack == Push(old(stack), current)
    {
      stack := stack + [Item(false, current)];
      var more := Merge2();
      while more
        invariant Valid()
        invariant MergeAll(stack) == Push(old(stack), current)
        invariant !more ==> !CanMerge(stack)
        decreases |stack|, more
      {
        more := Merge2();
      }
    }
  }

  lemma ExtendNonEmpty(p: Alt, t: Alt, i: nat)
    requires DiffersAt(p, t, i) && NonEmpty(p) && NonEmpty(t)
    ensures NonEmpty(Extend(p, t, i)) && |Extend(p, t, i)| == |p|
  {
  }

  lemma MergeTopAt(s: seq<Item>, at: nat)
    requires CanMerge(s) && AllNonEmpty(s) && DiffersAt(s[|s| - 2].alt, s[|s| - 1].alt, at)
    ensures MergeTop(s) == s[..|s| - 2] + [Item(false, Extend(s[|s| - 2].alt, s[|s| - 1].alt, at))]
  {
    var p, t := s[|s| - 2].alt, s[|s| - 1].alt;
    forall i | DiffersAt(p, t, i) ensures i == at { DiffersOnce(p, t, i, at); }
  }
}
