/** Compilation of character classes: to alternatives of byte ranges (ASBR) and to
    alternatives of surrogate ranges (ASSR). */
module ClassCompiler {
  import opened Unicode
  import opened Utf
  import opened CharClass
  import opened RangeMerge

  // The codepoints first, first+1, ..., one for each up to (not including) next.
  function Span(first: nat, next: nat): seq<nat>
    requires first <= next
  {
    seq(next - first, i requires 0 <= i < next - first => first + i)
  }

  // All codepoints of a class, range after range.
  ghost function Codes(s: seq<Range>): seq<nat>
    requires InPlane(s)
  {
    if s == [] then []
    else Codes(s[..|s| - 1]) + Span(s[|s| - 1].start, s[|s| - 1].end + 1)
  }

  ghost predicate InPlane(s: seq<Range>) {
    forall i :: 0 <= i < |s| ==> 0 <= s[i].start <= s[i].end <= UNI_MAX
  }

  ghost function Encoder(flags: Flags): nat -> seq<int> {
    (c: nat) => Encode(c, flags)
  }

  ghost function Splitter(): nat -> seq<int> {
    (c: nat) => ToChar(c)
  }

  function Alts(s: seq<Item>): seq<Alt> {
    seq(|s|, i requires 0 <= i < |s| => s[i].alt)
  }

  lemma SpanSnoc(first: nat, next: nat)
    requires first <= next
    ensures Span(first, next + 1) == Span(first, next) + [next]
  {
  }

  lemma BuildSnoc(codes: seq<nat>, c: nat, enc: nat -> seq<int>)
    ensures Build(codes + [c], enc) ==
            Push(if codes != [] && c > codes[|codes| - 1] + 1 then Finalized(Build(codes, enc)) else Build(codes, enc),
                 Single(enc(c)))
  {
    assert (codes + [c])[..|codes|] == codes;
  }

  lemma EncodeLength(c: nat, flags: Flags)
    ensures |Encode(c, flags)| in {1, 2, 3, 4, 6} && |ToChar(c)| in {1, 2}
  {
  }

  // The stack, emptied from the top into the alternatives from the end.
  method Unload(state: MergeState) returns (a: array<Alt>)
    modifies state
    ensures fresh(a) && a[..] == Alts(old(state.stack))
  {
    ghost var s := state.stack;
    var depth := |state.stack|;
    a := new Alt[depth](_ => []);
    while depth > 0
      invariant 0 <= depth <= |s| == a.Length && state.stack == s[..depth]
      invariant forall k :: depth <= k < |s| ==> a[k] == s[k].alt
    {
      depth := depth - 1;
      a[depth] := state.stack[depth].alt;
      state.stack := state.stack[..depth];
    }
  }

  ghost function Last(codes: seq<nat>): nat {
    if codes == [] then 0 else codes[|codes| - 1]
  }

  // One codepoint: close the stack on a gap, encode, merge.
  method FeedBytes(state: MergeState, current: SBR, codepoint: nat, lastcode: nat, flags: Flags, ghost done: seq<nat>)
    requires state.Valid() && current.br.Length == MAX_BYTES
    requires state.stack == Build(done, Encoder(flags)) && lastcode == Last(done)
    modifies state, current`n, current.br
    ensures state.Valid()
    ensures state.stack == Build(done + [codepoint], Encoder(flags))
  {
    if codepoint > lastcode + 1 {
      state.Finalize();
    }
    current.ToUtf(codepoint, flags);
    EncodeLength(codepoint, flags);
    var a := current.br[..current.n];
    assert a == Single(Encoder(flags)(codepoint));
    state.Merge(a);
    BuildSnoc(done, codepoint, Encoder(flags));
    assert done == [] ==> Finalized(Build(done, Encoder(flags))) == Build(done, Encoder(flags));
  }

  // The double loop over ranges and their codepoints.
  method FeedRanges(cr: array<Range>, n: nat, flags: Flags) returns (state: MergeState)
    requires n <= cr.Length && InPlane(cr[..n])
    ensures fresh(state) && state.stack == Build(Codes(cr[..n]), Encoder(flags))
  {
    hide Build, MergeState.Valid, Encode;
    state := new MergeState();
    var current := new SBR();
    ghost var s := cr[..n];
    ghost var done := [];
    var lastcode := 0;
    BuildNone(Encoder(flags));
    for i := 0 to n
      invariant state.Valid() && current.br.Length == MAX_BYTES && fresh(current.br)
      invariant done == Codes(s[..i]) && state.stack == Build(done, Encoder(flags)) && lastcode == Last(done)
    {
      var codepoint := cr[i].start;
      ghost var before := done;
      CodesSnoc(s, i);
      while codepoint <= cr[i].end
        invariant state.Valid() && current.br.Length == MAX_BYTES && fresh(current.br)
        invariant s[i].start <= codepoint <= s[i].end + 1
        invariant done == before + Span(s[i].start, codepoint)
        invariant state.stack == Build(done, Encoder(flags)) && lastcode == Last(done)
      {
        FeedBytes(state, current, codepoint, lastcode, flags, done);
        SpanSnoc(s[i].start, codepoint);
        done := done + [codepoint];
        lastcode := codepoint;
        codepoint := codepoint + 1;
      }
    }
    assert s[..|s|] == s;
  }

  method CompileBytes(scr: SCR, flags: Flags) returns (asbr: array<Alt>)
    requires scr.Valid() && InPlane(scr.Ranges())
    modifies scr`n, scr`canon, scr.cr
    ensures scr.Valid() && Canonical(scr.Ranges()) && SameSet(scr.Ranges(), old(scr.Ranges())) && InPlane(scr.Ranges())
    ensures fresh(asbr) && asbr[..] == Alts(Build(Codes(scr.Ranges()), Encoder(flags)))
    ensures Exact(asbr[..], scr.Ranges(), Encoder(flags))
  {
    ghost var given := scr.Ranges();
    scr.Norm();
    InPlaneKept(given, scr.Ranges());
    EncoderInjective(flags);
    BuildExact(scr.Ranges(), Encoder(flags));
    hide Canonical, Exact, Build;
    var state := FeedRanges(scr.cr, scr.n, flags);
    asbr := Unload(state);
  }

  // The same for surrogates.
  method FeedChar(state: MergeState, sr: array<Range>, codepoint: nat, lastcode: nat, ghost done: seq<nat>)
    requires state.Valid() && sr.Length == 2
    requires state.stack == Build(done, Splitter()) && lastcode == Last(done)
    modifies state, sr
    ensures state.Valid()
    ensures state.stack == Build(done + [codepoint], Splitter())
  {
    if codepoint > lastcode + 1 {
      state.Finalize();
    }
    var nsr := SplitChar(sr, codepoint);
    EncodeLength(codepoint, PLAIN);
    var a := sr[..nsr];
    assert a == Single(Splitter()(codepoint));
    state.Merge(a);
    BuildSnoc(done, codepoint, Splitter());
    assert done == [] ==> Finalized(Build(done, Splitter())) == Build(done, Splitter());
  }

  method FeedCharRanges(cr: array<Range>, n: nat) returns (state: MergeState)
    requires n <= cr.Length && InPlane(cr[..n])
    ensures fresh(state) && state.stack == Build(Codes(cr[..n]), Splitter())
  {
    hide Build, MergeState.Valid, ToChar;
    state := new MergeState();
    var sr := new Range[2](_ => Range(0, 0));
    ghost var s := cr[..n];
    ghost var done := [];
    var lastcode := 0;
    BuildNone(Splitter());
    for i := 0 to n
      invariant state.Valid()
      invariant done == Codes(s[..i]) && state.stack == Build(done, Splitter()) && lastcode == Last(done)
    {
      var codepoint := cr[i].start;
      ghost var before := done;
      CodesSnoc(s, i);
      while codepoint <= cr[i].end
        invariant state.Valid()
        invariant s[i].start <= codepoint <= s[i].end + 1
        invariant done == before + Span(s[i].start, codepoint)
        invariant state.stack == Build(done, Splitter()) && lastcode == Last(done)
      {
        FeedChar(state, sr, codepoint, lastcode, done);
        SpanSnoc(s[i].start, codepoint);
        done := done + [codepoint];
        lastcode := codepoint;
        codepoint := codepoint + 1;
      }
    }
    assert s[..|s|] == s;
  }

  method CompileSurrogates(scr: SCR) returns (assr: array<Alt>)
    requires scr.Valid() && InPlane(scr.Ranges())
    modifies scr`n, scr`canon, scr.cr
    ensures scr.Valid() && Canonical(scr.Ranges()) && SameSet(scr.Ranges(), old(scr.Ranges())) && InPlane(scr.Ranges())
    ensures fresh(assr) && assr[..] == Alts(Build(Codes(scr.Ranges()), Splitter()))
    ensures Exact(assr[..], scr.Ranges(), Splitter())
  {
    ghost var given := scr.Ranges();
    scr.Norm();
    InPlaneKept(given, scr.Ranges());
    SplitterInjective();
    BuildExact(scr.Ranges(), Splitter());
    hide Canonical, Exact, Build;
    var state := FeedCharRanges(scr.cr, scr.n);
    assr := Unload(state);
  }

  lemma BuildNone(enc: nat -> seq<int>)
    ensures Build([], enc) == []
  {
  }

  lemma CodesSnoc(s: seq<Range>, i: nat)
    requires i < |s| && InPlane(s)
    ensures Codes(s[..i + 1]) == Codes(s[..i]) + Span(s[i].start, s[i].end + 1)
  {
    assert s[..i + 1][..i] == s[..i];
  }

  lemma InPlaneKept(s: seq<Range>, t: seq<Range>)
    requires InPlane(s) && SameSet(s, t) && CharClass.NonEmpty(t)
    ensures InPlane(t)
  {
    assert Within(s, 0);
    BoundsKept(s, t, 0);
  }

  // ----- What the alternatives denote ---------------------------------------------

  ghost predicate MatchedBy(a: seq<Alt>, k: nat, w: seq<int>) {
    k < |a| && Matches(a[k], w)
  }

  ghost predicate EncodesMember(s: seq<Range>, enc: nat -> seq<int>, w: seq<int>) {
    exists c: nat :: Member(s, c) && enc(c) == w
  }

  // The alternatives match the encodings of the members, each by one alternative.
  ghost predicate Exact(a: seq<Alt>, s: seq<Range>, enc: nat -> seq<int>) {
    && (forall w :: (exists k: nat :: MatchedBy(a, k, w)) <==> EncodesMember(s, enc, w))
    && (forall w, j: nat, k: nat :: MatchedBy(a, j, w) && MatchedBy(a, k, w) ==> j == k)
  }

  lemma {:induction false} WaysCount(s: seq<Item>, w: seq<int>)
    ensures Ways(s, w) == 0 <==> forall k: nat :: !MatchedBy(Alts(s), k, w)
    ensures Ways(s, w) <= 1 ==> forall j: nat, k: nat :: MatchedBy(Alts(s), j, w) && MatchedBy(Alts(s), k, w) ==> j == k
  {
    if s != [] {
      var n := |s| - 1;
      WaysCount(s[..n], w);
      assert forall k: nat :: k < n ==> Alts(s)[k] == Alts(s[..n])[k];
      assert MatchedBy(Alts(s), n, w) <==> Matches(s[n].alt, w);
      assert forall k: nat :: k < n ==> MatchedBy(Alts(s), k, w) == MatchedBy(Alts(s[..n]), k, w);
    }
  }

  ghost predicate Injective(enc: nat -> seq<int>) {
    forall c: nat, d: nat :: c <= UNI_MAX && d <= UNI_MAX && enc(c) == enc(d) ==> c == d
  }

  lemma {:induction false} CodesAre(s: seq<Range>)
    requires InPlane(s) && Canonical(s)
    ensures forall c: nat :: c in Codes(s) <==> Member(s, c)
    ensures forall i, j :: 0 <= i < j < |Codes(s)| ==> Codes(s)[i] < Codes(s)[j] <= UNI_MAX
    ensures forall i :: 0 <= i < |Codes(s)| ==> Codes(s)[i] <= s[|s| - 1].end
  {
    if s != [] {
      var n := |s| - 1;
      var r := s[n];
      CodesAre(s[..n]);
      assert s == s[..n] + [r];
      forall c: nat ensures c in Codes(s) <==> Member(s, c) {
        MemberSnoc(s[..n], r, c);
        if r.start <= c <= r.end { assert Span(r.start, r.end + 1)[c - r.start] == c; }
      }
    }
  }

  lemma BuildExact(s: seq<Range>, enc: nat -> seq<int>)
    requires InPlane(s) && Canonical(s) && Injective(enc)
    ensures Exact(Alts(Build(Codes(s), enc)), s, enc)
  {
    var codes := Codes(s);
    CodesAre(s);
    var b := Build(codes, enc);
    forall w
      ensures (exists k: nat :: MatchedBy(Alts(b), k, w)) <==> EncodesMember(s, enc, w)
      ensures Ways(b, w) <= 1
    {
      BuildWays(codes, enc, w);
      UsesDistinct(codes, enc, w);
      WaysCount(b, w);
      if EncodesMember(s, enc, w) {
        var c: nat :| Member(s, c) && enc(c) == w;
        var i :| 0 <= i < |codes| && codes[i] == c;
      }
      if i :| 0 <= i < |codes| && enc(codes[i]) == w {
        assert codes[i] in codes;
      }
    }
    forall w, j: nat, k: nat | MatchedBy(Alts(b), j, w) && MatchedBy(Alts(b), k, w) ensures j == k {
      WaysCount(b, w);
    }
  }

  lemma EncoderInjective(flags: Flags)
    ensures Injective(Encoder(flags))
  {
    forall c: nat, d: nat | c <= UNI_MAX && d <= UNI_MAX && Encoder(flags)(c) == Encoder(flags)(d) ensures c == d {
      EncodeInjective(c, d, flags);
    }
  }

  lemma SplitterInjective()
    ensures Injective(Splitter())
  {
    forall c: nat, d: nat | c <= UNI_MAX && d <= UNI_MAX && Splitter()(c) == Splitter()(d) ensures c == d {
      ToCharFromChar(c);
      ToCharFromChar(d);
    }
  }

  /** Spelling out the surrogates without the cesu flag gives the sequences of the alternatives
      with it. */
  lemma PairsSpellCesu(s: seq<Range>, assr: seq<Alt>, asbr: seq<Alt>, mutf: bool, w: seq<int>)
    requires InPlane(s) && Exact(assr, s, Splitter()) && Exact(asbr, s, Encoder(Flags(mutf, true)))
    ensures (exists k: nat :: MatchedBy(asbr, k, w)) <==>
            (exists u: seq<nat>, k: nat :: MatchedBy(assr, k, u) && EncodeAll(u, Flags(mutf, false)) == w)
  {
    var cesu := Encoder(Flags(mutf, true));
    if EncodesMember(s, cesu, w) {
      var c: nat :| Member(s, c) && cesu(c) == w;
      CesuIsPairs(c, mutf);
      assert Splitter()(c) == ToChar(c);
      assert EncodesMember(s, Splitter(), ToChar(c));
      var k: nat :| MatchedBy(assr, k, ToChar(c));
    }
    if u: seq<nat>, k: nat :| MatchedBy(assr, k, u) && EncodeAll(u, Flags(mutf, false)) == w {
      assert EncodesMember(s, Splitter(), u);
      var c: nat :| Member(s, c) && Splitter()(c) == u;
      CesuIsPairs(c, mutf);
      assert cesu(c) == w;
    }
  }

  /** The complement of a class is all codepoints it has not; restricted, just those of them
      that take two surrogates. */
  lemma ComplementMeans(s: seq<Range>, t: seq<Range>, smp: bool)
    ensures IsComplement(t, s, Floor(smp)) <==>
            forall x :: Member(t, x) <==> 0 <= x <= UNI_MAX && !Member(s, x) && (smp ==> |ToChar(x)| == 2)
  {
    hide Member;
    assert forall x :: 0 <= x <= UNI_MAX ==> (|ToChar(x)| == 2 <==> x >= UNI_BMP + 1);
  }
}
