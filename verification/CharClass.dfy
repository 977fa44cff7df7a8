/** Character classes as arrays of codepoint ranges: normalisation in place, and complement. */
module CharClass {
  import opened Unicode

  ghost predicate Member(s: seq<Range>, x: int) {
    exists i :: 0 <= i < |s| && s[i].start <= x <= s[i].end
  }

  ghost predicate SameSet(s: seq<Range>, t: seq<Range>) {
    forall x :: Member(s, x) <==> Member(t, x)
  }

  // Every range is non-empty.
  ghost predicate NonEmpty(s: seq<Range>) {
    forall i :: 0 <= i < |s| ==> s[i].start <= s[i].end
  }

  // Sorted, with a gap between neighbours.
  ghost predicate Canonical(s: seq<Range>) {
    NonEmpty(s) && forall i, j :: 0 <= i < j < |s| ==> s[i].end + 1 < s[j].start
  }

  // ----- The canonical form is unique -------------------------------------------

  lemma MemberTail(s: seq<Range>, x: int)
    requires Canonical(s) && s != []
    ensures Member(s[1..], x) <==> Member(s, x) && s[0].end < x
    ensures Member(s, x) ==> s[0].start <= x
    ensures s[0].start <= x <= s[0].end ==> Member(s, x)
    ensures !Member(s, s[0].end + 1)
  {
    if Member(s[1..], x) {
      var i :| 0 <= i < |s[1..]| && s[1..][i].start <= x <= s[1..][i].end;
      assert s[i + 1] == s[1..][i];
    }
    if Member(s, x) && s[0].end < x {
      var i :| 0 <= i < |s| && s[i].start <= x <= s[i].end;
      assert s[1..][i - 1] == s[i];
    }
  }

  /** Two canonical classes with the same members are the same ranges. */
  lemma {:induction false} CanonicalUnique(s: seq<Range>, t: seq<Range>)
    requires Canonical(s) && Canonical(t) && SameSet(s, t)
    ensures s == t
    decreases |s|
  {
    if s == [] {
      if t != [] { MemberTail(t, t[0].start); }
    } else {
      MemberTail(s, s[0].start);
      assert t != [];
      SameHead(s, t);
      forall x ensures Member(s[1..], x) <==> Member(t[1..], x) {
        MemberTail(s, x);
        MemberTail(t, x);
      }
      CanonicalUnique(s[1..], t[1..]);
      assert s == [s[0]] + s[1..] && t == [t[0]] + t[1..];
    }
  }

  lemma SameHead(s: seq<Range>, t: seq<Range>)
    requires Canonical(s) && Canonical(t) && SameSet(s, t) && s != [] && t != []
    ensures s[0] == t[0]
  {
    MemberTail(s, s[0].start);
    MemberTail(t, t[0].start);
    MemberTail(t, s[0].start);
    MemberTail(s, t[0].start);
    MemberTail(s, t[0].end + 1);
    MemberTail(t, s[0].end + 1);
  }

  // ----- Sorting ------------------------------------------------------------------

  function Compare(a: Range, b: Range): int {
    if a.start < b.start then -1
    else if a.start > b.start then 1
    else if a.end < b.end then -1
    else if a.end > b.end then 1
    else 0
  }

  ghost predicate SortedBy(s: seq<Range>) {
    forall i, j :: 0 <= i < j < |s| ==> Compare(s[i], s[j]) <= 0
  }

  function Insert(x: Range, s: seq<Range>): (t: seq<Range>)
    ensures multiset(t) == multiset(s) + multiset{x}
  {
    if s == [] then [x]
    else if Compare(x, s[0]) <= 0 then [x] + s
    else
      assert s == [s[0]] + s[1..];
      [s[0]] + Insert(x, s[1..])
  }

  lemma {:induction false} InsertSorted(x: Range, s: seq<Range>)
    requires SortedBy(s)
    ensures SortedBy(Insert(x, s))
  {
    if s != [] && Compare(x, s[0]) > 0 {
      InsertSorted(x, s[1..]);
      var t := Insert(x, s[1..]);
      forall j | 0 <= j < |t| ensures Compare(s[0], t[j]) <= 0 {
        assert t[j] in multiset(t);
        if t[j] != x { assert t[j] in s[1..]; }
      }
    }
  }

  function Sorted(s: seq<Range>): (t: seq<Range>)
    ensures multiset(t) == multiset(s) && |t| == |s|
    ensures SortedBy(t)
  {
    if s == [] then []
    else
      assert s == [s[0]] + s[1..];
      var rest := Sorted(s[1..]);
      InsertSorted(s[0], rest);
      var t := Insert(s[0], rest);
      assert |multiset(t)| == |t| && |multiset(s)| == |s|;
      t
  }

  lemma HeadLeast(s: seq<Range>, t: seq<Range>)
    requires SortedBy(s) && multiset(s) == multiset(t) && s != [] && t != []
    ensures Compare(s[0], t[0]) <= 0
  {
    assert t[0] in multiset(s);
    var j :| 0 <= j < |s| && s[j] == t[0];
  }

  /** The order leaves a sort no choice, so any qsort gives what Sorted gives. */
  lemma {:induction false} SortUnique(s: seq<Range>, t: seq<Range>)
    requires SortedBy(s) && SortedBy(t) && multiset(s) == multiset(t)
    ensures s == t
  {
    assert |s| == |multiset(s)| == |multiset(t)| == |t|;
    if s != [] {
      HeadLeast(s, t);
      HeadLeast(t, s);
      assert s == [s[0]] + s[1..] && t == [t[0]] + t[1..];
      assert multiset(s[1..]) == multiset(s) - multiset{s[0]};
      assert multiset(t[1..]) == multiset(t) - multiset{t[0]};
      SortUnique(s[1..], t[1..]);
    }
  }

  lemma SameMultisetSameSet(s: seq<Range>, t: seq<Range>)
    requires multiset(s) == multiset(t)
    ensures SameSet(s, t) && (NonEmpty(s) ==> NonEmpty(t))
  {
    forall x | x in s ensures x in t { assert x in multiset(s); }
    forall x | x in t ensures x in s { assert x in multiset(t); }
    forall i | NonEmpty(s) && 0 <= i < |t| ensures t[i].start <= t[i].end { assert t[i] in s; }
    forall x ensures Member(s, x) <==> Member(t, x) {
      if Member(s, x) {
        var i :| 0 <= i < |s| && s[i].start <= x <= s[i].end;
        assert s[i] in t;
      }
      if Member(t, x) {
        var i :| 0 <= i < |t| && t[i].start <= x <= t[i].end;
        assert t[i] in s;
      }
    }
  }

  // ----- The class object ------------------------------------------------------------

  class SCR {
    var cr: array<Range>
    var n: nat
    var canon: bool

    ghost predicate Valid()
      reads this, cr
    {
      n <= cr.Length && NonEmpty(cr[..n]) && (canon ==> Canonical(cr[..n]))
    }

    ghost function Ranges(): seq<Range>
      reads this, cr
      requires Valid()
    {
      cr[..n]
    }

    constructor (size: nat)
      ensures Valid() && fresh(cr) && Ranges() == [] && !canon && cr.Length == if size < 1 then 1 else size
    {
      cr := new Range[if size < 1 then 1 else size](_ => Range(0, 0));
      n, canon := 0, false;
    }

    method AddRange(first: int, last: int)
      requires Valid() && n < cr.Length && first <= last
      modifies this`n, this`canon, cr
      ensures Valid() && Ranges() == old(Ranges()) + [Range(first, last)] && !canon
    {
      cr[n] := Range(first, last);
      n := n + 1;
      canon := false;
    }

    // The library's qsort with `compare`.
    method Sort()
      requires Valid()
      modifies cr
      ensures cr[..n] == Sorted(old(cr[..n])) && n == old(n)
      ensures !canon ==> Valid()
    {
      var s := Sorted(cr[..n]);
      SameMultisetSameSet(cr[..n], s);
      for i := 0 to n
        invariant cr[..i] == s[..i]
      {
        cr[i] := s[i];
      }
    }

    // The second phase: merge the sorted ranges towards the front.
    method Compact(ghost s: seq<Range>)
      requires 1 < n <= cr.Length && cr[..n] == s && SortedBy(s) && NonEmpty(s)
      modifies this`n, cr
      ensures 1 <= n <= old(n) <= cr.Length
      ensures Canonical(cr[..n]) && SameSet(cr[..n], s)
    {
      hide Canonical, SameSet, SortedBy, NonEmpty, Compacted;
      var previous := 0;
      CompactStart(s);
      assert cr[..1] == [s[0]];
      for current := 1 to n
        invariant 0 <= previous < current && n == |s|
        invariant forall k :: current <= k < n ==> cr[k] == s[k]
        invariant Compacted(s, current, cr[..previous + 1])
      {
        ghost var before := cr[..previous + 1];
        CompactKeeps(s, current, before);
        if cr[previous].start == cr[current].start {
          cr[previous] := Range(cr[previous].start, cr[current].end);
        } else if cr[current].start <= cr[previous].end + 1 {
          cr[previous] := Range(cr[previous].start,
                             if cr[previous].end > cr[current].end then cr[previous].end else cr[current].end);
        } else {
          previous := previous + 1;
          cr[previous] := cr[current];
        }
        assert cr[..previous + 1] == CompactStep(before, s[current]);
      }
      assert s[..|s|] == s;
      CompactEnd(s, cr[..previous + 1]);
      n := previous + 1;
    }

    method Norm()
      requires Valid()
      modifies this`n, this`canon, cr
      ensures Valid() && canon && Canonical(Ranges()) && SameSet(Ranges(), old(Ranges())) && n <= old(n)
    {
      if canon { return; }
      if n > 1 {
        Sort();
        SameMultisetSameSet(old(cr[..n]), cr[..n]);
        Compact(cr[..n]);
      }
      canon := true;
    }

    /** The complement over all codepoints, or over the supplementary ones (smp). */
    method Complement(smp: bool) returns (ncr: SCR)
      requires Valid() && Within(cr[..n], Floor(smp))
      modifies this`n, this`canon, cr
      ensures Valid() && SameSet(Ranges(), old(Ranges()))
      ensures fresh(ncr) && ncr.Valid() && ncr.canon && Canonical(ncr.Ranges())
      ensures IsComplement(ncr.Ranges(), Ranges(), Floor(smp)) <==> !(smp && old(n) == 0)
      ensures n > 0 ==> ncr.n == Predicted(Ranges(), Floor(smp))
    {
      if n == 0 {
        ncr := new SCR(1);
        ncr.AddRange(0, UNI_MAX);
        ncr.canon := true;
        EmptyComplement(ncr.Ranges(), Ranges(), smp);
      } else {
        ncr := ComplementRanges(smp);
      }
    }

    // The same for a class with at least one range.
    method ComplementRanges(smp: bool) returns (ncr: SCR)
      requires Valid() && n > 0 && Within(cr[..n], Floor(smp))
      modifies this`n, this`canon, cr
      ensures Valid() && SameSet(Ranges(), old(Ranges()))
      ensures fresh(ncr) && ncr.Valid() && ncr.canon && Canonical(ncr.Ranges())
      ensures IsComplement(ncr.Ranges(), Ranges(), Floor(smp))
      ensures n > 0 && ncr.n == Predicted(Ranges(), Floor(smp))
    {
      ghost var s0 := cr[..n];
      Norm();
      ghost var s := cr[..n];
      ComplementFacts(s0, s, Floor(smp));
      hide IsComplement, SameSet, Canonical, Predicted, NonEmpty, Gaps;
      var nc := n + 1;
      if cr[0].start == Floor(smp) { nc := nc - 1; }
      if cr[n - 1].end == UNI_MAX { nc := nc - 1; }
      ncr := new SCR(nc);
      if nc == 0 {
        assert Gaps(s, Floor(smp)) == [] == ncr.cr[..0];
      } else {
        var store := FillGaps(ncr, s, Floor(smp));
        ncr.n := store;
      }
      ncr.canon := true;
    }

    // The store loop: the gaps below, between and above the ranges.
    method FillGaps(ncr: SCR, ghost s: seq<Range>, floor: int) returns (store: nat)
      requires n <= cr.Length && s == cr[..n] && cr != ncr.cr && |Gaps(s, floor)| <= ncr.cr.Length
      modifies ncr.cr
      ensures store == |Gaps(s, floor)| && ncr.cr[..store] == Gaps(s, floor)
    {
      hide Gaps;
      var cmin := floor;
      store := 0;
      ghost var all, out := Gaps(s, floor), [];
      for current := 0 to n
        invariant cr[..n] == s
        invariant store == |out| <= ncr.cr.Length && out == ncr.cr[..store]
        invariant all == out + Gaps(s[current..], cmin)
      {
        assert cr[current] == s[current] && s[current..][1..] == s[current + 1..];
        ghost var rest := Gaps(s[current + 1..], cr[current].end + 1);
        GapsStep(s[current..], cmin);
        if cr[current].start > cmin {
          assert all == (out + [Range(cmin, cr[current].start - 1)]) + rest;
          ncr.cr[store] := Range(cmin, cr[current].start - 1);
          store := store + 1;
          out := out + [Range(cmin, cr[current].start - 1)];
        } else {
          assert all == out + rest;
        }
        cmin := cr[current].end + 1;
      }
      GapsEnd(cmin);
      if cmin <= UNI_MAX {
        ncr.cr[store] := Range(cmin, UNI_MAX);
        store := store + 1;
      }
    }
  }

  function Floor(smp: bool): int { if smp then UNI_BMP + 1 else 0 }

  // t has exactly the codepoints from floor upwards that s has not.
  ghost predicate IsComplement(t: seq<Range>, s: seq<Range>, floor: int) {
    forall x :: Member(t, x) <==> floor <= x <= UNI_MAX && !Member(s, x)
  }

  // The gaps in sorted ranges, from floor up to the last codepoint.
  function Gaps(s: seq<Range>, floor: int): seq<Range> {
    if s == [] then (if floor <= UNI_MAX then [Range(floor, UNI_MAX)] else [])
    else (if s[0].start > floor then [Range(floor, s[0].start - 1)] else []) + Gaps(s[1..], s[0].end + 1)
  }

  ghost predicate Within(s: seq<Range>, floor: int) {
    forall i :: 0 <= i < |s| ==> floor <= s[i].start && s[i].end <= UNI_MAX
  }

  // The count the code predicts: one more than the ranges, less one for each end touched.
  function Predicted(s: seq<Range>, floor: int): int
    requires s != []
  {
    |s| + 1 - (if s[0].start == floor then 1 else 0) - (if s[|s| - 1].end == UNI_MAX then 1 else 0)
  }

  lemma GapsStep(s: seq<Range>, floor: int)
    requires s != []
    ensures Gaps(s, floor) ==
            (if s[0].start > floor then [Range(floor, s[0].start - 1)] else []) + Gaps(s[1..], s[0].end + 1)
  {
  }

  lemma GapsEnd(floor: int)
    ensures Gaps([], floor) == if floor <= UNI_MAX then [Range(floor, UNI_MAX)] else []
  {
  }

  lemma BoundsKept(s: seq<Range>, t: seq<Range>, floor: int)
    requires Within(s, floor) && NonEmpty(t) && SameSet(s, t)
    ensures Within(t, floor) && (s != [] && NonEmpty(s) ==> t != [])
  {
    forall i | 0 <= i < |t| ensures floor <= t[i].start && t[i].end <= UNI_MAX {
      assert Member(t, t[i].start) && Member(t, t[i].end);
    }
    if s != [] && NonEmpty(s) {
      assert Member(s, s[0].start);
      assert Member(t, s[0].start);
    }
  }

  lemma MemberCons(r: Range, s: seq<Range>, x: int)
    ensures Member([r] + s, x) <==> r.start <= x <= r.end || Member(s, x)
  {
    if Member(s, x) {
      var i :| 0 <= i < |s| && s[i].start <= x <= s[i].end;
      assert ([r] + s)[i + 1] == s[i];
    }
    if r.start <= x <= r.end { assert ([r] + s)[0] == r; }
  }

  lemma {:induction false} GapsCanonical(s: seq<Range>, floor: int)
    requires Canonical(s) && Within(s, floor)
    ensures Canonical(Gaps(s, floor)) && Within(Gaps(s, floor), floor)
  {
    if s != [] {
      GapsCanonical(s[1..], s[0].end + 1);
    }
  }

  lemma {:induction false} GapsMember(s: seq<Range>, floor: int, x: int)
    requires Canonical(s) && Within(s, floor)
    ensures Member(Gaps(s, floor), x) <==> floor <= x <= UNI_MAX && !Member(s, x)
  {
    if s != [] {
      GapsMember(s[1..], s[0].end + 1, x);
      MemberTail(s, x);
      var rest := Gaps(s[1..], s[0].end + 1);
      if s[0].start > floor {
        MemberCons(Range(floor, s[0].start - 1), rest, x);
      } else {
        assert Gaps(s, floor) == rest;
      }
    } else if floor <= UNI_MAX {
      assert Gaps(s, floor)[0] == Range(floor, UNI_MAX);
    }
  }

  lemma GapsComplement(s: seq<Range>, floor: int)
    requires Canonical(s) && Within(s, floor)
    ensures Canonical(Gaps(s, floor)) && Within(Gaps(s, floor), floor)
    ensures IsComplement(Gaps(s, floor), s, floor)
  {
    GapsCanonical(s, floor);
    forall x ensures Member(Gaps(s, floor), x) <==> floor <= x <= UNI_MAX && !Member(s, x) {
      GapsMember(s, floor, x);
    }
  }

  lemma {:induction false} GapsCount(s: seq<Range>, floor: int)
    requires Canonical(s) && s != [] && Within(s, floor)
    ensures |Gaps(s, floor)| == Predicted(s, floor)
    decreases |s|
  {
    if |s| > 1 {
      GapsCount(s[1..], s[0].end + 1);
    }
  }

  lemma ComplementFacts(s0: seq<Range>, s: seq<Range>, floor: int)
    requires s0 != [] && NonEmpty(s0) && Within(s0, floor) && Canonical(s) && SameSet(s, s0)
    ensures s != [] && Canonical(Gaps(s, floor)) && NonEmpty(Gaps(s, floor)) && IsComplement(Gaps(s, floor), s, floor)
    ensures |Gaps(s, floor)| == Predicted(s, floor) ==
            |s| + 1 - (if s[0].start == floor then 1 else 0) - (if s[|s| - 1].end == UNI_MAX then 1 else 0)
  {
    BoundsKept(s0, s, floor);
    GapsComplement(s, floor);
    GapsCount(s, floor);
  }

  lemma EmptyComplement(t: seq<Range>, s: seq<Range>, smp: bool)
    requires t == [Range(0, UNI_MAX)] && s == []
    ensures Canonical(t)
    ensures IsComplement(t, s, Floor(smp)) <==> !smp
  {
    assert forall x :: Member(t, x) <==> 0 <= x <= UNI_MAX by {
      assert t[0] == Range(0, UNI_MAX);
    }
    assert forall x :: !Member(s, x);
    assert Member(t, 0);
  }

  /** Complementing twice gives back the normalised class. */
  lemma ComplementTwice(s: seq<Range>, floor: int)
    requires Canonical(s) && Within(s, floor)
    ensures Gaps(Gaps(s, floor), floor) == s
  {
    GapsComplement(s, floor);
    var g := Gaps(s, floor);
    GapsComplement(g, floor);
    forall x ensures Member(Gaps(g, floor), x) <==> Member(s, x) {
      if Member(s, x) {
        var i :| 0 <= i < |s| && s[i].start <= x <= s[i].end;
      }
      assert Member(g, x) <==> floor <= x <= UNI_MAX && !Member(s, x);
    }
    CanonicalUnique(Gaps(g, floor), s);
  }

  // One step of the merge: the next sorted range goes into the last one, or behind it.
  ghost function CompactStep(out: seq<Range>, next: Range): seq<Range>
    requires out != []
  {
    var m := |out| - 1;
    if next.start == out[m].start || next.start <= out[m].end + 1 then
      out[m := Range(out[m].start, if next.start == out[m].start || next.end > out[m].end then next.end else out[m].end)]
    else out + [next]
  }

  // out is the canonical form of the first k sorted ranges.
  ghost predicate Compacted(s: seq<Range>, k: nat, out: seq<Range>)
    requires 1 <= k <= |s|
  {
    && out != [] && Canonical(out) && SameSet(out, s[..k])
    && (out[|out| - 1].start < s[k - 1].start || out[|out| - 1] == s[k - 1])
  }

  lemma CompactStart(s: seq<Range>)
    requires s != [] && NonEmpty(s)
    ensures Compacted(s, 1, [s[0]])
  {
    assert s[..1] == [s[0]];
  }

  lemma CompactEnd(s: seq<Range>, out: seq<Range>)
    requires s != [] && Compacted(s, |s|, out)
    ensures Canonical(out) && SameSet(out, s)
  {
    assert s[..|s|] == s;
  }

  lemma MemberSnoc(s: seq<Range>, r: Range, x: int)
    ensures Member(s + [r], x) <==> Member(s, x) || r.start <= x <= r.end
  {
    if Member(s, x) {
      var i :| 0 <= i < |s| && s[i].start <= x <= s[i].end;
      assert (s + [r])[i] == s[i];
    }
    if r.start <= x <= r.end { assert (s + [r])[|s|] == r; }
  }

  lemma CompactKeeps(s: seq<Range>, k: nat, out: seq<Range>)
    requires 1 <= k < |s| && SortedBy(s) && NonEmpty(s) && Compacted(s, k, out)
    ensures Compacted(s, k + 1, CompactStep(out, s[k]))
  {
    var out', m := CompactStep(out, s[k]), |out| - 1;
    assert Compare(s[k - 1], s[k]) <= 0;
    forall x ensures Member(out', x) <==> Member(s[..k + 1], x) {
      assert s[..k + 1] == s[..k] + [s[k]];
      MemberSnoc(s[..k], s[k], x);
      MemberSnoc(out, s[k], x);
      assert out == out[..m] + [out[m]] && Member(out, x) <==> Member(s[..k], x);
      MemberSnoc(out[..m], out[m], x);
      if |out'| == |out| {
        assert out' == out[..m] + [out'[m]];
        MemberSnoc(out[..m], out'[m], x);
      }
    }
  }
}
