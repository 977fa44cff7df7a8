/** How many alternatives one contiguous range of codepoints needs in plain UTF-8:
    at most 2n-1 of each encoded length n. */
module ClassBound {
  import opened Unicode
  import opened Utf
  import opened CharClass
  import opened RangeMerge
  import opened ClassCompiler

  // All values of a continuation byte.
  const FULL := Range(0x80, 0xBF)

  // The last position whose range is not full (or the lead byte).
  function Level(a: Alt): (l: nat)
    requires a != []
    ensures l < |a| && (forall k :: l < k < |a| ==> a[k] == FULL) && (l > 0 ==> a[l] != FULL)
  {
    var n := |a| - 1;
    if n == 0 || a[n] != FULL then n else Level(a[..n])
  }

  ghost predicate SingleBefore(a: Alt, m: nat)
    requires m <= |a|
  {
    forall k :: 0 <= k < m ==> a[k].start == a[k].end
  }

  // Fixed bytes, then one range, then full ranges.
  ghost predicate IsBlock(a: Alt) {
    && a != [] && RangeMerge.NonEmpty(a) && SingleBefore(a, Level(a))
    && forall k :: 0 < k < |a| ==> 0x80 <= a[k].start && a[k].end <= 0xBF
  }

  // b starts where a ends: counting up carries into position i.
  ghost predicate CarryAt(a: Alt, b: Alt, i: nat) {
    && |a| == |b| && i < |a| && b[i].start == a[i].end + 1
    && (forall k :: 0 <= k < i ==> a[k].end == b[k].start)
    && (forall k :: i < k < |a| ==> a[k].end == 0xBF && b[k].start == 0x80)
  }

  ghost predicate Follows(a: Alt, b: Alt) {
    exists i: nat :: CarryAt(a, b, i)
  }

  // Blocks that start late come first, blocks that end early come last.
  function Rank(a: Alt): int
    requires a != []
  {
    if a[Level(a)].start == 0x80 then Level(a) else -(Level(a) as int)
  }

  // ----- Merging blocks gives blocks ------------------------------------------------

  lemma ExtendBlock(a: Alt, b: Alt, m: nat, c: nat)
    requires DiffersAt(a, b, m) && CarryAt(a, b, c) && IsBlock(a) && IsBlock(b)
    ensures IsBlock(Extend(a, b, m)) && m == c
  {
    var e := Extend(a, b, m);
    assert forall k :: m < k < |e| ==> e[k] == FULL;
  }

  lemma RankRises(a: Alt, b: Alt, c: nat)
    requires CarryAt(a, b, c) && IsBlock(a) && IsBlock(b) && !DiffersAt(a, b, c)
    ensures Rank(a) < Rank(b)
  {
    var i, j := Level(a), Level(b);
    if i == c == j {
      forall k | 0 <= k < |a| && k != c ensures a[k] == b[k] {
        if k > c { assert a[k] == FULL && b[k] == FULL; }
      }
    }
  }

  // ----- The shape of the stack for one contiguous range --------------------------------

  ghost predicate Joined(a: Alt, b: Alt) {
    |a| < |b| || Follows(a, b)
  }

  ghost predicate Shape(s: seq<Item>) {
    && (forall k :: 0 <= k < |s| ==> IsBlock(s[k].alt))
    && (forall k :: 0 < k < |s| ==> Joined(s[k - 1].alt, s[k].alt))
  }

  // The last alternative ends with the encoding w.
  ghost predicate EndsIn(s: seq<Item>, w: seq<int>) {
    s != [] && |s[|s| - 1].alt| == |w| && forall k :: 0 <= k < |w| ==> s[|s| - 1].alt[k].end == w[k]
  }

  lemma JoinExtend(p: Alt, a: Alt, b: Alt, i: nat)
    requires Joined(p, a) && DiffersAt(a, b, i)
    ensures Joined(p, Extend(a, b, i))
  {
    var e := Extend(a, b, i);
    assert forall k :: 0 <= k < |e| ==> e[k].start == a[k].start;
    if |p| == |a| {
      var d: nat :| CarryAt(p, a, d);
      assert CarryAt(p, e, d);
    }
  }

  // Everything about the merged alternative that the stack needs to know.
  lemma MergedBlock(a: Alt, b: Alt, i: nat)
    requires DiffersAt(a, b, i) && IsBlock(a) && IsBlock(b) && Joined(a, b)
    ensures var e := Extend(a, b, i);
            |e| == |b| && IsBlock(e) && forall k :: 0 <= k < |b| ==> e[k].end == b[k].end
  {
    var c: nat :| CarryAt(a, b, c);
    ExtendBlock(a, b, i, c);
  }

  lemma MergeTopShape(s: seq<Item>, w: seq<int>)
    requires CanMerge(s) && Shape(s) && EndsIn(s, w)
    ensures Shape(MergeTop(s)) && EndsIn(MergeTop(s), w)
  {
    hide CarryAt, IsBlock, Joined, Extend, DiffersAt;
    var m := |s|;
    var a, b := s[m - 2].alt, s[m - 1].alt;
    var i :| DiffersAt(a, b, i) && MergeTop(s) == s[..m - 2] + [Item(false, Extend(a, b, i))];
    assert Joined(a, b);
    MergedBlock(a, b, i);
    if m > 2 {
      assert Joined(s[m - 3].alt, a);
      JoinExtend(s[m - 3].alt, a, b, i);
    }
  }

  lemma {:induction false} MergeAllShape(s: seq<Item>, w: seq<int>)
    requires Shape(s) && EndsIn(s, w)
    ensures Shape(MergeAll(s)) && EndsIn(MergeAll(s), w)
    decreases |s|
  {
    hide Shape, EndsIn, CanMerge, MergeTop;
    if CanMerge(s) {
      MergeTopShape(s, w);
      assert |MergeTop(s)| < |s| by { MergeTopShorter(s); }
      MergeAllShape(MergeTop(s), w);
    }
  }

  lemma MergeTopShorter(s: seq<Item>)
    requires CanMerge(s)
    ensures |MergeTop(s)| == |s| - 1
  {
  }

  // One codepoint up, in digits.
  lemma NextDigits(c: nat)
    requires 0 < c
    ensures c % 64 != 0 ==> (c - 1) % 64 == c % 64 - 1 && (c - 1) / 64 == c / 64
    ensures c % 64 == 0 ==> (c - 1) % 64 == 63 && (c - 1) / 64 == c / 64 - 1
  {
    assert c == 64 * (c / 64) + c % 64;
  }

  lemma CarryJoins(v: seq<int>, w: seq<int>, i: nat)
    requires |v| == |w| && i < |v| && w[i] == v[i] + 1
    requires forall k :: 0 <= k < i ==> v[k] == w[k]
    requires forall k :: i < k < |v| ==> v[k] == 0xBF && w[k] == 0x80
    ensures Joined(Single(v), Single(w))
  {
    assert CarryAt(Single(v), Single(w), i);
  }

  lemma Next2(c: nat)
    requires 0x80 < c < 0x800
    ensures Joined(Single(Encode(c - 1, PLAIN)), Single(Encode(c, PLAIN)))
  {
    EncodeDigits(c - 1, PLAIN);
    EncodeDigits(c, PLAIN);
    hide Encode, Joined;
    NextDigits(c);
    CarryJoins(Encode(c - 1, PLAIN), Encode(c, PLAIN), if c % 64 != 0 then 1 else 0);
  }

  lemma Next3(c: nat)
    requires 0x800 < c < 0x10000
    ensures Joined(Single(Encode(c - 1, PLAIN)), Single(Encode(c, PLAIN)))
  {
    EncodeDigits(c - 1, PLAIN);
    EncodeDigits(c, PLAIN);
    hide Encode, Joined;
    NextDigits(c);
    NextDigits(c / 64);
    assert c / 4096 == c / 64 / 64 && (c - 1) / 4096 == (c - 1) / 64 / 64;
    CarryJoins(Encode(c - 1, PLAIN), Encode(c, PLAIN), if c % 64 != 0 then 2 else if c / 64 % 64 != 0 then 1 else 0);
  }

  // The four base-64 digits, one codepoint down.
  lemma PreviousDigits(c: nat)
    requires 0 < c
    ensures var d := c - 1;
      if c % 64 != 0 then
        d / 262144 == c / 262144 && d / 4096 % 64 == c / 4096 % 64 && d / 64 % 64 == c / 64 % 64 && d % 64 == c % 64 - 1
      else if c / 64 % 64 != 0 then
        d / 262144 == c / 262144 && d / 4096 % 64 == c / 4096 % 64 && d / 64 % 64 == c / 64 % 64 - 1 && d % 64 == 63
      else if c / 4096 % 64 != 0 then
        d / 262144 == c / 262144 && d / 4096 % 64 == c / 4096 % 64 - 1 && d / 64 % 64 == 63 && d % 64 == 63
      else
        d / 262144 == c / 262144 - 1 && d / 4096 % 64 == 63 && d / 64 % 64 == 63 && d % 64 == 63
  {
    NextDigits(c);
    if c / 64 > 0 { NextDigits(c / 64); }
    if c / 4096 > 0 { NextDigits(c / 4096); }
    assert c / 4096 == c / 64 / 64 && (c - 1) / 4096 == (c - 1) / 64 / 64;
    assert c / 262144 == c / 4096 / 64 && (c - 1) / 262144 == (c - 1) / 4096 / 64;
  }

  function FourBytes(d3: int, d2: int, d1: int, d0: int): seq<int> {
    [d3 + 0xF0, d2 + 0x80, d1 + 0x80, d0 + 0x80]
  }

  lemma FourDigits(c: nat)
    requires 0x10000 <= c <= UNI_MAX
    ensures Encode(c, PLAIN) == FourBytes(c / 262144, c / 4096 % 64, c / 64 % 64, c % 64)
  {
    EncodeDigits(c, PLAIN);
  }

  lemma Next4(c: nat)
    requires 0x10000 < c <= UNI_MAX
    ensures Joined(Single(Encode(c - 1, PLAIN)), Single(Encode(c, PLAIN)))
  {
    FourDigits(c - 1);
    FourDigits(c);
    PreviousDigits(c);
    hide Encode, Joined;
    CarryJoins(Encode(c - 1, PLAIN), Encode(c, PLAIN),
               if c % 64 != 0 then 3 else if c / 64 % 64 != 0 then 2 else if c / 4096 % 64 != 0 then 1 else 0);
  }

  lemma NextEncoding(c: nat)
    requires 0 < c <= UNI_MAX
    ensures Joined(Single(Encode(c - 1, PLAIN)), Single(Encode(c, PLAIN)))
  {
    if c < 0x80 {
      CarryJoins([c - 1], [c], 0);
    } else if c in {0x80, 0x800, 0x10000} {
    } else if c < 0x800 {
      Next2(c);
    } else if c < 0x10000 {
      Next3(c);
    } else {
      Next4(c);
    }
  }

  lemma SingleBlock(c: nat)
    requires c <= UNI_MAX
    ensures IsBlock(Single(Encode(c, PLAIN)))
  {
    var w := Encode(c, PLAIN);
    EncodeDigits(c, PLAIN);
    assert forall k :: 0 < k < |w| ==> 0x80 <= w[k] <= 0xBF;
  }

  // Only the ends of an alternative decide what may follow it.
  lemma SameEnds(a: Alt, a': Alt, b: Alt)
    requires Joined(a, b) && |a| == |a'| && forall k :: 0 <= k < |a| ==> a[k].end == a'[k].end
    ensures Joined(a', b)
  {
    if |a| == |b| {
      var i: nat :| CarryAt(a, b, i);
      assert CarryAt(a', b, i);
    }
  }

  lemma PushShape(s: seq<Item>, c: nat)
    requires 0 < c <= UNI_MAX && Shape(s) && EndsIn(s, Encode(c - 1, PLAIN))
    ensures var s' := s + [Item(false, Single(Encode(c, PLAIN)))]; Shape(s') && EndsIn(s', Encode(c, PLAIN))
  {
    SingleBlock(c);
    NextEncoding(c);
    hide Encode, IsBlock, Joined;
    SameEnds(Single(Encode(c - 1, PLAIN)), s[|s| - 1].alt, Single(Encode(c, PLAIN)));
  }

  lemma {:induction false} BuildShape(codes: seq<nat>)
    requires codes != [] && Contiguous(codes) && codes[|codes| - 1] <= UNI_MAX
    ensures var s := Build(codes, Encoder(PLAIN)); Shape(s) && EndsIn(s, Encode(codes[|codes| - 1], PLAIN))
  {
    var n := |codes| - 1;
    var c := codes[n];
    var a := Item(false, Single(Encode(c, PLAIN)));
    if n == 0 {
      SingleBlock(c);
      assert Build(codes[..0], Encoder(PLAIN)) == [];
      assert [] + [a] == [a];
      MergeAllShape([a], Encode(c, PLAIN));
    } else {
      hide Shape, EndsIn, Encode;
      BuildShape(codes[..n]);
      var s := Build(codes[..n], Encoder(PLAIN));
      PushShape(s, c);
      MergeAllShape(s + [a], Encode(c, PLAIN));
    }
  }

  // ----- Counting ---------------------------------------------------------------------

  function CountLength(s: seq<Item>, n: nat): nat {
    if s == [] then 0
    else CountLength(s[..|s| - 1], n) + if |s[|s| - 1].alt| == n then 1 else 0
  }

  // Ranks rise, so the last alternative's rank bounds how many there are of its length.
  ghost predicate Bounded(s: seq<Item>, n: nat)
    requires s != [] && s[|s| - 1].alt != []
  {
    var a := s[|s| - 1].alt;
    if n == |a| then CountLength(s, n) <= n + Rank(a)
    else if n > |a| then CountLength(s, n) == 0
    else CountLength(s, n) <= 2 * n - 1
  }

  lemma {:induction false} CountBound(s: seq<Item>, n: nat)
    requires s != [] && Shape(s) && AllOpen(s) && Settled(s) && n > 0
    ensures Bounded(s, n)
  {
    var m := |s| - 1;
    var b := s[m].alt;
    if m == 0 {
      assert CountLength(s[..0], n) == 0;
      assert Rank(b) >= -(|b| - 1);
    } else {
      CountBound(s[..m], n);
      var a := s[m - 1].alt;
      assert Joined(a, b);
      if |a| == |b| {
        var i: nat :| CarryAt(a, b, i);
        assert !Pending(s[m - 1], s[m]);
        RankRises(a, b, i);
      }
    }
  }

  /** One contiguous range in plain UTF-8: at most 2n-1 alternatives of length n. */
  lemma RangeBound(codes: seq<nat>, n: nat)
    requires codes != [] && Contiguous(codes) && codes[|codes| - 1] <= UNI_MAX && n > 0
    ensures CountLength(Build(codes, Encoder(PLAIN)), n) <= 2 * n - 1
  {
    var s := Build(codes, Encoder(PLAIN));
    BuildShape(codes);
    BuildSettled(codes, Encoder(PLAIN));
    ContiguousOpen(codes, Encoder(PLAIN));
    CountBound(s, n);
  }

  function CountAlts(a: seq<Alt>, n: nat): nat {
    if a == [] then 0 else CountAlts(a[..|a| - 1], n) + if |a[|a| - 1]| == n then 1 else 0
  }

  lemma {:induction false} CountAltsIs(s: seq<Item>, n: nat)
    ensures CountAlts(Alts(s), n) == CountLength(s, n)
  {
    if s != [] {
      CountAltsIs(s[..|s| - 1], n);
      assert Alts(s)[..|s| - 1] == Alts(s[..|s| - 1]);
    }
  }

  lemma OneRangeCodes(r: Range)
    requires 0 <= r.start <= r.end <= UNI_MAX
    ensures InPlane([r])
    ensures Codes([r]) == Span(r.start, r.end + 1) && Contiguous(Codes([r]))
  {
    assert [r][..0] == [];
  }

  /** The compiled alternatives of one range: few, and no two neighbours mergeable. */
  lemma CompiledRange(r: Range, a: seq<Alt>, n: nat)
    requires 0 <= r.start <= r.end <= UNI_MAX && n > 0
    requires InPlane([r]) && a == Alts(Build(Codes([r]), Encoder(PLAIN)))
    ensures CountAlts(a, n) <= 2 * n - 1
    ensures forall k :: 0 < k < |a| ==> !Mergeable(a[k - 1], a[k])
  {
    OneRangeCodes(r);
    var codes := Codes([r]);
    var s := Build(codes, Encoder(PLAIN));
    RangeBound(codes, n);
    CountAltsIs(s, n);
    BuildSettled(codes, Encoder(PLAIN));
    ContiguousOpen(codes, Encoder(PLAIN));
    forall k | 0 < k < |a| ensures !Mergeable(a[k - 1], a[k]) {
      assert !Pending(s[k - 1], s[k]);
    }
  }
}
