/** Character and byte locations of the input: stepping through it, and the run-length
    index with its searches, against a plain segmentation into characters. */
module LocationIndex {
  import opened Unicode

  // ----- Segmentation -----------------------------------------------------------------

  // The length a lead-in byte announces; 1 for everything else.
  function Announced(c: int): nat {
    if 0xC0 <= c < 0xE0 then 2 else if 0xE0 <= c < 0xF0 then 3 else if 0xF0 <= c < 0xF8 then 4 else 1
  }

  // The masks of the source are these ranges.
  lemma MasksAreRanges(c: bv8)
    ensures (c & 0x80 == 0x00) <==> c < 0x80
    ensures (c & 0xC0 == 0x80) <==> 0x80 <= c < 0xC0
    ensures (c & 0xE0 == 0xC0) <==> 0xC0 <= c < 0xE0
    ensures (c & 0xF0 == 0xE0) <==> 0xE0 <= c < 0xF0
    ensures (c & 0xF8 == 0xF0) <==> 0xF0 <= c < 0xF8
  {
  }

  predicate Trailers(b: seq<int>, k: nat, n: nat) {
    k + n <= |b| && forall j :: k <= j < k + n ==> Trail(b[j])
  }

  // A lead-in with all its trailers is one character; any other byte stands for itself.
  function CharLen(b: seq<int>, i: nat): (n: nat)
    requires i < |b|
    ensures 1 <= n <= 4 && i + n <= |b|
  {
    var n := Announced(b[i]);
    if n > 1 && Trailers(b, i + 1, n - 1) then n else 1
  }

  // The bytes at i are a lead-in, by this mask, and n trailers.
  predicate Leads(b: seq<bv8>, i: nat, mask: bv8, lead: bv8, n: nat) {
    i + n < |b| && b[i] & mask == lead && forall j :: i < j <= i + n ==> b[j] & 0xC0 == 0x80
  }

  // By the masks of the source.
  lemma CharLenIs(b: seq<bv8>, c: seq<int>, i: nat)
    requires |c| == |b| && (forall k :: 0 <= k < |b| ==> c[k] == b[k] as int) && i < |b|
    ensures CharLen(c, i) == if Leads(b, i, 0xE0, 0xC0, 1) then 2
                             else if Leads(b, i, 0xF0, 0xE0, 2) then 3
                             else if Leads(b, i, 0xF8, 0xF0, 3) then 4
                             else 1
  {
    forall k | 0 <= k < |b|
      ensures (b[k] & 0xC0 == 0x80) <==> Trail(c[k])
      ensures (b[k] & 0xE0 == 0xC0) <==> 0xC0 <= c[k] < 0xE0
      ensures (b[k] & 0xF0 == 0xE0) <==> 0xE0 <= c[k] < 0xF0
      ensures (b[k] & 0xF8 == 0xF0) <==> 0xF0 <= c[k] < 0xF8
    {
      MasksAreRanges(b[k]);
    }
  }

  // Where character c starts, counting on by one past the end of the bytes.
  function Start(b: seq<int>, c: nat): nat {
    if c == 0 then 0 else
      var s := Start(b, c - 1);
      if s < |b| then s + CharLen(b, s) else s + 1
  }

  // There is a character c, of n bytes.
  predicate HasLen(b: seq<int>, c: nat, n: int) {
    Start(b, c) < |b| && CharLen(b, Start(b, c)) == n
  }

  // The byte location is inside the character.
  predicate InChar(b: seq<int>, c: int, x: int) {
    0 <= c && Start(b, c) <= x < Start(b, c + 1)
  }

  lemma {:induction false} StartsAscend(b: seq<int>, c: nat, d: nat)
    requires c < d
    ensures Start(b, c) < Start(b, d)
    decreases d
  {
    if c + 1 < d { StartsAscend(b, c, d - 1); }
  }

  // Characters are disjoint, so a location names one character.
  lemma InOneChar(b: seq<int>, c: int, d: int, x: int)
    requires InChar(b, c, x) && InChar(b, d, x)
    ensures c == d
  {
    if c < d {
      if c + 1 < d { StartsAscend(b, c + 1, d); }
    } else if d < c {
      if d + 1 < c { StartsAscend(b, d + 1, c); }
    }
  }

  lemma {:induction false} RunLinear(b: seq<int>, lo: nat, hi: nat, n: nat)
    requires lo <= hi
    requires forall c :: lo <= c < hi ==> HasLen(b, c, n)
    ensures Start(b, hi) == Start(b, lo) + n * (hi - lo)
    decreases hi
  {
    if lo < hi {
      RunLinear(b, lo, hi - 1, n);
      assert HasLen(b, hi - 1, n) && Start(b, hi) == Start(b, hi - 1) + n;
      assert n * (hi - lo) == n * (hi - 1 - lo) + n;
    }
  }

  // ----- The index -----------------------------------------------------------------------

  // Runs of characters of one length: their first character, its location, and the length.
  datatype Runs = Runs(cl: seq<int>, bl: seq<int>, bs: seq<int>)

  function RunEnd(cl: seq<int>, i: nat, mc: int): int {
    if i + 1 < |cl| then cl[i + 1] else mc + 1
  }

  // Run i covers just the characters of its length from its start to the next run.
  ghost predicate IsRun(b: seq<int>, r: Runs, i: nat, mc: int)
    requires i < |r.cl| == |r.bl| == |r.bs|
  {
    && 0 <= r.cl[i] < RunEnd(r.cl, i, mc)
    && r.bl[i] == Start(b, r.cl[i]) && 1 <= r.bs[i] <= 4
    && forall c :: r.cl[i] <= c < RunEnd(r.cl, i, mc) ==> HasLen(b, c, r.bs[i])
  }

  // The exact, maximal run-length encoding of the characters 0..mc.
  ghost predicate Encodes(b: seq<int>, r: Runs, mc: int) {
    && |r.cl| == |r.bl| == |r.bs|
    && mc >= -1 && (mc == -1 <==> r.cl == [])
    && (r.cl != [] ==> r.cl[0] == 0)
    && (forall i, j :: 0 <= i < j < |r.cl| ==> r.cl[i] < r.cl[j])
    && (forall i: nat :: i < |r.cl| ==> IsRun(b, r, i, mc))
    && (forall i :: 0 < i < |r.bs| ==> r.bs[i - 1] != r.bs[i])
  }

  // The cached maximal character, its location and its length.
  ghost predicate Maximal(b: seq<int>, r: Runs, mc: int, mb: int, ml: int) {
    if mc < 0 then mc == -1 && mb == -1 && ml == 0
    else r.bs != [] && mb == Start(b, mc) < |b| && ml == r.bs[|r.bs| - 1]
  }

  ghost predicate Indexed(b: seq<int>, r: Runs, mc: int, mb: int, ml: int) {
    Encodes(b, r, mc) && Maximal(b, r, mc, mb, ml)
  }

  // The runs join up.
  lemma RunsJoin(b: seq<int>, r: Runs, mc: int, i: nat)
    requires Encodes(b, r, mc) && i + 1 < |r.cl|
    ensures r.bl[i + 1] == r.bl[i] + r.bs[i] * (r.cl[i + 1] - r.cl[i])
  {
    assert IsRun(b, r, i, mc) && IsRun(b, r, i + 1, mc);
    RunLinear(b, r.cl[i], r.cl[i + 1], r.bs[i]);
  }

  // One more character, in a new run or the last one.
  lemma EncodesNext(b: seq<int>, r: Runs, mc: int, r': Runs)
    requires Encodes(b, r, mc) && Start(b, mc + 1) < |b|
    requires var n := CharLen(b, Start(b, mc + 1));
             r' == if r.bs != [] && r.bs[|r.bs| - 1] == n then r
                   else Runs(r.cl + [mc + 1], r.bl + [Start(b, mc + 1)], r.bs + [n])
    ensures Encodes(b, r', mc + 1)
  {
    hide Start, CharLen;
    var n := CharLen(b, Start(b, mc + 1));
    assert HasLen(b, mc + 1, n);
    var m := mc + 1;
    forall i: nat | i < |r'.cl| ensures IsRun(b, r', i, m) {
      if i < |r.cl| { assert IsRun(b, r, i, mc); }
    }
    if |r.cl| > 0 { assert IsRun(b, r, |r.cl| - 1, mc); }
  }

  // ----- Searches -----------------------------------------------------------------------------

  // The largest key that is at most x.
  method Search(keys: seq<int>, x: int) returns (found: bool, at: int)
    requires keys != [] && keys[0] <= x
    requires forall i, j :: 0 <= i < j < |keys| ==> keys[i] < keys[j]
    ensures 0 <= at < |keys| && keys[at] <= x && (at + 1 < |keys| ==> x < keys[at + 1])
    ensures found <==> keys[at] == x
  {
    var low, high := 0, |keys| - 1;
    while low <= high
      invariant 0 <= low <= high + 1 <= |keys|
      invariant forall i :: 0 <= i < low ==> keys[i] < x
      invariant forall i :: high < i < |keys| ==> x < keys[i]
    {
      var mid := (low + high) / 2;
      var probe := keys[mid];
      if probe == x { return true, mid; }
      if probe > x {
        high := mid - 1;
        continue;
      }
      low := mid + 1;
    }
    return false, high;
  }

  // A location in a run, by division.
  lemma InRun(b: seq<int>, r: Runs, mc: int, i: nat, x: int)
    requires Encodes(b, r, mc) && i < |r.cl| && r.bl[i] <= x < Start(b, RunEnd(r.cl, i, mc))
    ensures r.bs[i] > 0
    ensures var c := r.cl[i] + (x - r.bl[i]) / r.bs[i];
            c < RunEnd(r.cl, i, mc) && InChar(b, c, x)
  {
    assert IsRun(b, r, i, mc);
    var n, q := r.bs[i], (x - r.bl[i]) / r.bs[i];
    Divide(x - r.bl[i], n);
    var c := r.cl[i] + q;
    if c >= RunEnd(r.cl, i, mc) {
      RunLinear(b, r.cl[i], RunEnd(r.cl, i, mc), n);
      Scale(n, RunEnd(r.cl, i, mc) - r.cl[i], q);
    }
    RunLinear(b, r.cl[i], c, n);
    assert c - r.cl[i] == q;
    assert HasLen(b, c, n);
  }

  lemma Divide(d: nat, n: int)
    requires 1 <= n <= 4
    ensures 0 <= d / n && n * (d / n) <= d < n * (d / n) + n
  {
  }

  lemma Scale(n: nat, a: int, b: int)
    requires a <= b
    ensures n * a <= n * b
  {
  }

  // ----- Stepping ---------------------------------------------------------------------------

  lemma StartBefore(b: seq<int>, c: nat, x: int)
    requires InChar(b, c, x) && x < |b|
    ensures Start(b, c) < |b| && Start(b, c + 1) == Start(b, c) + CharLen(b, Start(b, c)) <= |b|
  {
  }

  // What the step onto a byte does: the length of the character it takes the byte to
  // start, or 0 for one more trailer.
  function Moves(b: seq<int>, x: nat, trailer: nat): nat
    requires x < |b|
  {
    if Trail(b[x]) && trailer > 0 then 0 else CharLen(b, x)
  }

  // ----- Scanning from anywhere ----------------------------------------------------------------

  // Where the input is read: a byte, the character it is taken for, and the trailers counted
  // as still to come.
  datatype Place = Place(x: int, c: int, t: nat)

  function Next(b: seq<int>, s: Place): Place
    requires 0 <= s.x + 1 < |b|
  {
    var k := Moves(b, s.x + 1, s.t);
    if k == 0 then Place(s.x + 1, s.c, s.t - 1) else Place(s.x + 1, s.c + 1, k - 1)
  }

  // n steps on.
  function Walk(b: seq<int>, s: Place, n: nat): (r: Place)
    requires -1 <= s.x && s.x + n < |b|
    ensures r.x == s.x + n
  {
    if n == 0 then s else Next(b, Walk(b, s, n - 1))
  }

  // Before all bytes, or inside the character.
  predicate Inside(b: seq<int>, c: int, x: int) {
    (c == -1 && x == -1) || InChar(b, c, x)
  }

  // The bytes of character c behind x.
  function Rest(b: seq<int>, c: int, x: int): int
    requires c >= -1
  {
    Start(b, c + 1) - 1 - x
  }

  // Inside the character, with its count of trailers.
  predicate At(b: seq<int>, s: Place) {
    Inside(b, s.c, s.x) && s.x < |b| && s.t == Rest(b, s.c, s.x)
  }

  // The count is that of the trailers to come; or it is larger, but no trailer is next
  // after them.
  predicate Resumes(b: seq<int>, s: Place)
    requires s.c >= -1
  {
    || s.t == Rest(b, s.c, s.x)
    || (s.t > Rest(b, s.c, s.x) && (Start(b, s.c + 1) < |b| ==> !Trail(b[Start(b, s.c + 1)])))
  }

  // Every byte from here on is taken for the character it is in.
  ghost predicate Scans(b: seq<int>, s: Place)
    requires -1 <= s.x
  {
    forall n: nat :: s.x + n < |b| ==> Inside(b, Walk(b, s, n).c, s.x + n)
  }

  // More characters are counted than there are, with no trailer too many to make up for it.
  predicate Ahead(b: seq<int>, s: Place, d: int) {
    Inside(b, d, s.x) && s.c > d && s.t <= Rest(b, d, s.x)
  }

  // Fewer characters are counted than there are, with no trailer too few.
  predicate Behind(b: seq<int>, s: Place, d: int) {
    Inside(b, d, s.x) && s.c < d && s.t >= Rest(b, d, s.x)
  }

  // Counting has gone wrong.
  ghost predicate Astray(b: seq<int>, s: Place) {
    exists d :: Ahead(b, s, d) || Behind(b, s, d)
  }

  lemma InsideOne(b: seq<int>, c: int, d: int, x: int)
    requires Inside(b, c, x) && Inside(b, d, x)
    ensures c == d
  {
    if x >= 0 { InOneChar(b, c, d, x); }
  }

  // The next byte is one more trailer, or starts the next character.
  lemma NextByte(b: seq<int>, d: int, x: int)
    requires Inside(b, d, x) && x + 1 < |b|
    ensures Rest(b, d, x) >= 0
    ensures Rest(b, d, x) > 0 ==> Trail(b[x + 1]) && Inside(b, d, x + 1)
    ensures Rest(b, d, x) == 0 ==>
              && Start(b, d + 1) == x + 1 && InChar(b, d + 1, x + 1)
              && Rest(b, d + 1, x + 1) == CharLen(b, x + 1) - 1
    ensures Trail(b[x + 1]) ==> CharLen(b, x + 1) == 1
  {
    if d >= 0 { StartBefore(b, d, x); }
  }

  // A place that resumes takes the next byte for what it is, and resumes there.
  lemma StepsOn(b: seq<int>, s: Place)
    requires Inside(b, s.c, s.x) && s.x + 1 < |b| && Resumes(b, s)
    ensures var r := Next(b, s); Inside(b, r.c, r.x) && Resumes(b, r) && (r.c > s.c ==> r.x == Start(b, r.c))
  {
    NextByte(b, s.c, s.x);
    hide Start, InChar, CharLen;
  }

  lemma StepsExactly(b: seq<int>, s: Place)
    requires At(b, s) && s.x + 1 < |b|
    ensures At(b, Next(b, s)) && Inside(b, s.c, s.x) && Resumes(b, s)
  {
    NextByte(b, s.c, s.x);
    hide Start, InChar, CharLen;
  }

  // One that does not either goes astray, or gets no nearer to resuming: and astray it goes
  // at the start of the next character at the latest.
  lemma StepsAstray(b: seq<int>, s: Place)
    requires Inside(b, s.c, s.x) && s.x + 1 < |b| && !Resumes(b, s)
    ensures var r := Next(b, s);
            Astray(b, r) || (Inside(b, r.c, r.x) && !Resumes(b, r) && r.c == s.c)
  {
    NextByte(b, s.c, s.x);
    var r := Next(b, s);
    hide Start, InChar, CharLen;
    if Rest(b, s.c, s.x) > 0 {
      if s.t == 0 { assert Ahead(b, r, s.c); }
    } else {
      assert Behind(b, r, s.c + 1);
    }
  }

  lemma StaysAhead(b: seq<int>, s: Place, d: int)
    requires Ahead(b, s, d) && 0 <= s.x + 1 < |b|
    ensures Astray(b, Next(b, s))
  {
    NextByte(b, d, s.x);
    var r := Next(b, s);
    hide Start, InChar, CharLen, Behind;
    if Rest(b, d, s.x) > 0 {
      assert Ahead(b, r, d);
    } else {
      assert Ahead(b, r, d + 1);
    }
  }

  lemma StaysBehind(b: seq<int>, s: Place, d: int)
    requires Behind(b, s, d) && 0 <= s.x + 1 < |b|
    ensures Astray(b, Next(b, s))
  {
    NextByte(b, d, s.x);
    var r := Next(b, s);
    hide Start, InChar, CharLen, Ahead;
    if Rest(b, d, s.x) > 0 {
      assert Behind(b, r, d);
    } else {
      assert Behind(b, r, d + 1);
    }
  }

  lemma StaysAstray(b: seq<int>, s: Place)
    requires Astray(b, s) && 0 <= s.x + 1 < |b|
    ensures Astray(b, Next(b, s))
  {
    hide Next, Ahead, Behind;
    var d :| Ahead(b, s, d) || Behind(b, s, d);
    if Ahead(b, s, d) {
      StaysAhead(b, s, d);
    } else {
      StaysBehind(b, s, d);
    }
  }

  // Astray the character is the wrong one, and does not start here either.
  lemma AstrayWrong(b: seq<int>, s: Place)
    requires Astray(b, s)
    ensures !Inside(b, s.c, s.x) && (s.c >= 0 ==> s.x != Start(b, s.c))
  {
    var d :| Ahead(b, s, d) || Behind(b, s, d);
    if Inside(b, s.c, s.x) { InsideOne(b, s.c, d, s.x); }
    if s.c >= 0 { StartsAscend(b, s.c, s.c + 1); }
  }

  // What a scan from s knows at r: as long as it resumes all is well, and if it never did
  // it is astray once a character starts.
  ghost predicate Scanned(b: seq<int>, s: Place, r: Place)
    requires s.c >= -1
  {
    if Resumes(b, s) then Inside(b, r.c, r.x) && Resumes(b, r)
    else Astray(b, r) || (Inside(b, r.c, r.x) && !Resumes(b, r) && r.c == s.c)
  }

  lemma ScanOn(b: seq<int>, s: Place, r: Place)
    requires s.c >= -1 && 0 <= r.x + 1 < |b| && Scanned(b, s, r)
    ensures Scanned(b, s, Next(b, r))
    ensures Resumes(b, s) && Next(b, r).c > r.c ==> r.x + 1 == Start(b, Next(b, r).c)
  {
    if Resumes(b, s) {
      StepsOn(b, r);
    } else if Astray(b, r) {
      StaysAstray(b, r);
    } else {
      StepsAstray(b, r);
    }
  }

  lemma {:induction false} WalkScanned(b: seq<int>, s: Place, n: nat)
    requires Inside(b, s.c, s.x) && s.x + n < |b|
    ensures Scanned(b, s, Walk(b, s, n))
  {
    if n > 0 {
      hide Scanned, Next;
      WalkScanned(b, s, n - 1);
      ScanOn(b, s, Walk(b, s, n - 1));
    }
  }

  /** From inside a character, with any count of trailers, the scan of the rest of the input
      is right if and only if the place resumes: whatever the count, it is settled at the
      start of the next character. */
  lemma ScanRight(b: seq<int>, s: Place)
    requires Inside(b, s.c, s.x)
    ensures Scans(b, s) <==> Resumes(b, s)
  {
    if Resumes(b, s) {
      forall n: nat | s.x + n < |b| ensures Inside(b, Walk(b, s, n).c, s.x + n) {
        WalkScanned(b, s, n);
      }
    } else {
      var n := ErrsAt(b, s);
      assert !Inside(b, Walk(b, s, n).c, s.x + n);
    }
  }

  // Some byte is taken for a wrong one: at the latest that at the start of the next
  // character, or the last one.
  lemma ErrsAt(b: seq<int>, s: Place) returns (n: nat)
    requires Inside(b, s.c, s.x) && !Resumes(b, s)
    ensures s.x + n < |b| && !Inside(b, Walk(b, s, n).c, s.x + n)
  {
    EndWithin(b, s.c, s.x);
    var next := Start(b, s.c + 1);
    n := if next < |b| then next - s.x else next - 1 - s.x;
    WalkScanned(b, s, n);
    hide Start, CharLen, Walk;
    if Astray(b, Walk(b, s, n)) { AstrayWrong(b, Walk(b, s, n)); }
  }

  lemma EndWithin(b: seq<int>, c: int, x: int)
    requires Inside(b, c, x)
    ensures x < Start(b, c + 1) && (Start(b, c + 1) <= |b| || Rest(b, c, x) == 0)
  {
  }

  // The count was that of the trailers behind the last byte, where there was none left, and
  // not that behind the byte jumped back to: the scan takes its trailer for a character.
  lemma StaleTrailer(b: seq<int>)
    requires |b| >= 3 && b[0] == 0xC3 && b[1] == 0xA9 && b[2] == 0x41
    ensures At(b, Place(1, 0, 0)) && Inside(b, 0, 0) && !Resumes(b, Place(0, 0, 0)) && Moves(b, 1, 0) == 1
  {
    assert Start(b, 0) == 0 && CharLen(b, 0) == 2 && Start(b, 1) == 2;
  }

  // A larger count makes no difference before a byte that is no trailer, and is taken up by
  // a stray trailer.
  lemma LargerCount(b: seq<int>)
    requires |b| >= 4 && b[0] == 0xC3 && b[1] == 0xA9
    ensures Inside(b, 0, 0) && (Resumes(b, Place(0, 0, 2)) <==> !Trail(b[2]))
  {
    assert Start(b, 0) == 0 && CharLen(b, 0) == 2 && Start(b, 1) == 2;
  }

  class Inbound {
    const bytes: seq<int>
    var location: int
    var clocation: int
    var trailer: nat
    var clen: int

    var cl: seq<int>
    var bl: seq<int>
    var bs: seq<int>
    var mc: int
    var mb: int
    var ml: int

    ghost predicate Valid()
      reads this
    {
      Indexed(bytes, Runs(cl, bl, bs), mc, mb, ml)
    }

    ghost function Here(): Place
      reads this
    {
      Place(location, clocation, trailer)
    }

    // The last known character, with the count of wherever the input was read before.
    ghost function End(): Place
      reads this
    {
      Place(mb, mc, trailer)
    }

    // Inside a known character, with its count of trailers.
    ghost predicate Placed()
      reads this
    {
      At(bytes, Here()) && clocation <= mc
    }

    // Inside a known character, with a count that leaves the scan right.
    ghost predicate OnTrack()
      reads this
    {
      Valid() && clocation <= mc && Inside(bytes, clocation, location) && Resumes(bytes, Here())
    }

    // The character of this length starts here.
    ghost predicate StartsHere(len: int)
      reads this
    {
      clocation >= 0 && Start(bytes, clocation) == location < |bytes| && len == CharLen(bytes, location)
    }

    constructor (bytes: seq<int>)
      ensures Valid() && Placed() && this.bytes == bytes && mc == -1 && location == -1
    {
      this.bytes := bytes;
      location, clocation, trailer, clen := -1, -1, 0, 0;
      cl, bl, bs, mc, mb, ml := [], [], [], -1, -1, 0;
    }

    method Update(blen: int)
      requires clocation <= mc + 1
      modifies this`cl, this`bl, this`bs, this`mc, this`mb, this`ml
      ensures clocation <= old(mc) ==> unchanged(this)
      ensures clocation > old(mc) ==> mc == clocation && mb == location
      ensures old(Valid()) && StartsHere(blen) ==> Valid()
    {
      hide Start, CharLen, IsRun;
      if clocation <= mc { return; }
      ghost var r := Runs(cl, bl, bs);
      mc := clocation;
      mb := location;
      if ml != blen {
        ml := blen;
        cl := cl + [mc];
        bl := bl + [mb];
        bs := bs + [ml];
      }
      if old(Valid()) && StartsHere(blen) {
        assert Maximal(bytes, r, old(mc), old(mb), old(ml));
        EncodesNext(bytes, r, mc - 1, Runs(cl, bl, bs));
      }
    }

    method Move(k: nat)
      requires clocation <= mc && k > 0
      modifies this
      ensures location == old(location) && clocation == old(clocation) + 1 && trailer == k - 1 && clen == k
      ensures if clocation > old(mc) then mc == clocation && mb == location else mc == old(mc) && mb == old(mb)
      ensures old(Valid()) && (clocation <= old(mc) || StartsHere(k)) ==> Valid()
    {
      trailer := k - 1;
      clen := k;
      clocation := clocation + 1;
      Update(k);
    }

    // All trailers of a lead-in are there.
    method OkChar(trailers: nat) returns (ok: bool)
      requires 0 <= location < |bytes|
      ensures ok <==> Trailers(bytes, location + 1, trailers)
    {
      var k, left := location + 1, trailers;
      while left > 0
        invariant 0 <= left <= trailers && k == location + 1 + trailers - left <= |bytes|
        invariant forall j :: location < j < k ==> Trail(bytes[j])
      {
        if k >= |bytes| { return false; }
        if !Trail(bytes[k]) { return false; }
        k := k + 1;
        left := left - 1;
      }
      return true;
    }

    // To the next byte; to the next character too, if that byte is taken to start one. The
    // step is right, and the scan after it, from just the places where that is possible.
    method Step() returns (ch: int)
      requires 0 <= location + 1 < |bytes| && -1 <= clocation <= mc
      modifies this
      ensures Here() == Next(bytes, old(Here())) && ch == bytes[location]
      ensures clen == if clocation == old(clocation) then old(clen) else Moves(bytes, location, old(trailer))
      ensures if clocation > old(mc) then mc == clocation && mb == location else mc == old(mc) && mb == old(mb)
      ensures old(Valid()) && clocation <= old(mc) ==> Valid()
      ensures old(OnTrack()) ==> OnTrack() && (clocation > old(clocation) ==> location == Start(bytes, clocation))
      ensures old(Valid() && Placed()) ==> Valid() && Placed()
    {
      hide Start, Indexed, Inside, Rest, Resumes, At, Trailers;
      ghost var s := Here();
      if Placed() { StepsExactly(bytes, s); }
      if OnTrack() { StepsOn(bytes, s); }
      location := location + 1;
      ch := bytes[location];
      var len := 1;
      if ch < 0x80 {
        Move(1);
        return;
      }
      if 0xC0 <= ch < 0xE0 {
        len := 2;
      } else if 0xE0 <= ch < 0xF0 {
        len := 3;
      } else if 0xF0 <= ch < 0xF8 {
        len := 4;
      } else if Trail(ch) {
        if trailer > 0 {
          trailer := trailer - 1;
          return;
        }
        Move(1);
        return;
      } else {
        Move(1);
        return;
      }
      var ok := OkChar(len - 1);
      if ok {
        Move(len);
        return;
      }
      Move(1);
    }

    // The byte location of a character; the input is scanned on for one not yet known, and
    // that goes right just when there is one and the last known place resumes.
    method Find(cloc: int) returns (ok: bool, bloc: int)
      requires Valid() && (cloc >= 0 || cloc == mc == -1)
      modifies this
      ensures cloc <= old(mc) ==> unchanged(this) && ok && bloc == if cloc < 0 then -1 else Start(bytes, cloc)
      ensures cloc > old(mc) ==>
                (ok && bloc == Start(bytes, cloc) <==> Start(bytes, cloc) < |bytes| && Resumes(bytes, old(End())))
      ensures cloc > old(mc) && ok ==> location == old(location) && clocation == old(clocation) && mc == cloc
      ensures cloc > old(mc) && ok && bloc == Start(bytes, cloc) ==>
                && Valid() && trailer == CharLen(bytes, bloc) - 1
                && (old(Inside(bytes, clocation, location)) ==> (Scans(bytes, Here()) <==> Resumes(bytes, Here())))
    {
      ok := true;
      if cloc == mc { return true, mb; }
      if cloc > mc {
        var prevbloc, prevcloc := location, clocation;
        clocation := mc;
        location := mb;
        ok := ScanToChar(cloc);
        if !ok { return false, -1; }
        location := prevbloc;
        clocation := prevcloc;
        if Inside(bytes, clocation, location) { ScanRight(bytes, Here()); }
        return true, mb;
      }
      bloc := Middle(cloc);
    }

    // Up to the character, or the end of the input.
    method ScanToChar(cloc: int) returns (ok: bool)
      requires Valid() && cloc > mc && Here() == End()
      modifies this
      ensures ok ==> mc == cloc
      ensures ok && mb == Start(bytes, cloc) <==> Start(bytes, cloc) < |bytes| && Resumes(bytes, old(End()))
      ensures ok && mb == Start(bytes, cloc) ==> Valid() && trailer == CharLen(bytes, mb) - 1
    {
      hide Start, CharLen, Encodes, InChar, Resumes;
      ghost var s := Here();
      EndInside();
      while clocation < cloc
        invariant -1 <= location && location + 1 <= |bytes| && s.c <= clocation == mc <= cloc && s == old(End())
        invariant Scanned(bytes, s, Here()) && (Resumes(bytes, s) ==> OnTrack())
        invariant clocation == cloc ==> 0 <= mb == location && trailer == CharLen(bytes, location) - 1
        invariant clocation == cloc && Resumes(bytes, s) ==> location == Start(bytes, cloc)
        decreases |bytes| - location
      {
        if location + 1 >= |bytes| {
          if Resumes(bytes, s) { AtInputEnd(cloc); }
          return false;
        }
        ScanOn(bytes, s, Here());
        var _ := Step();
      }
      if !Resumes(bytes, s) { AstrayWrong(bytes, Here()); }
      ok := true;
    }

    // The last known place is inside its character.
    lemma EndInside()
      requires Valid()
      ensures -1 <= mb < |bytes| || mb == mc == -1
      ensures Inside(bytes, mc, mb)
    {
      if mc >= 0 { StartsAscend(bytes, mc, mc + 1); }
    }

    lemma KnownStart()
      requires Valid()
      ensures mc >= 0 ==> mb == Start(bytes, mc)
    {
    }

    // At the end of the input there are no more characters.
    lemma AtInputEnd(cloc: int)
      requires Inside(bytes, clocation, location) && clocation < cloc && location + 1 == |bytes|
      ensures Start(bytes, cloc) >= |bytes|
    {
      if clocation + 1 < cloc { StartsAscend(bytes, clocation + 1, cloc); }
    }

    method Middle(cloc: int) returns (bloc: int)
      requires Valid() && 0 <= cloc < mc
      ensures bloc == Start(bytes, cloc)
    {
      hide Start, CharLen;
      if |cl| == 0 { return cloc; }
      var at := |cl| - 1;
      if cloc < cl[at] {
        var found;
        found, at := Search(cl, cloc);
        if found {
          assert IsRun(bytes, Runs(cl, bl, bs), at, mc);
          return bl[at];
        }
      }
      assert IsRun(bytes, Runs(cl, bl, bs), at, mc);
      RunLinear(bytes, cl[at], cloc, bs[at]);
      return bl[at] + bs[at] * (cloc - cl[at]);
    }

    // The character at a byte location. Past the known ones the input is scanned on: that
    // goes right just when the location is the start of a character and the last known place
    // resumes. A scan that does not end at the start of what it takes for a character fails.
    method FindC(bloc: int) returns (ok: bool, cloc: int)
      requires Valid() && (bloc >= 0 || bloc == mb == -1)
      modifies this
      ensures bloc <= old(mb) ==> unchanged(this) && ok && Inside(bytes, cloc, bloc) && cloc <= mc
      ensures bloc > old(mb) ==> (ok && InChar(bytes, cloc, bloc) <==>
                bloc < |bytes| && (exists c: nat :: Start(bytes, c) == bloc) && Resumes(bytes, old(End())))
      ensures bloc > old(mb) && Resumes(bytes, old(End())) ==>
                (ok <==> bloc < |bytes| && exists c: nat :: Start(bytes, c) == bloc)
      ensures bloc > old(mb) && ok ==> location == old(location) && clocation == old(clocation) && mc == cloc && mb == bloc
      ensures bloc > old(mb) && ok && InChar(bytes, cloc, bloc) ==>
                && Valid() && trailer == CharLen(bytes, bloc) - 1
                && (old(Inside(bytes, clocation, location)) ==> (Scans(bytes, Here()) <==> Resumes(bytes, Here())))
    {
      hide Start, CharLen, IsRun;
      if bloc > mb {
        var prevbloc, prevcloc := location, clocation;
        clocation := mc;
        location := mb;
        ok := ScanToByte(bloc);
        if !ok { return false, -1; }
        location := prevbloc;
        clocation := prevcloc;
        if Inside(bytes, clocation, location) { ScanRight(bytes, Here()); }
        return true, mc;
      }
      if bloc == mb {
        EndInside();
        return true, mc;
      }
      cloc := MiddleC(bloc);
      ok := true;
    }

    // Up to the byte, or the end of the input; not if no character is taken to start there.
    method ScanToByte(bloc: int) returns (ok: bool)
      requires Valid() && bloc > mb && Here() == End()
      modifies this
      ensures ok ==> mb == bloc
      ensures ok && InChar(bytes, mc, bloc) <==>
              bloc < |bytes| && (exists c: nat :: Start(bytes, c) == bloc) && Resumes(bytes, old(End()))
      ensures Resumes(bytes, old(End())) ==> (ok <==> bloc < |bytes| && exists c: nat :: Start(bytes, c) == bloc)
      ensures ok && InChar(bytes, mc, bloc) ==> Valid() && trailer == CharLen(bytes, bloc) - 1
    {
      hide Start, CharLen, Encodes, Resumes;
      ghost var s := Here();
      EndInside();
      while location < bloc
        invariant -1 <= location && location + 1 <= |bytes| && location <= bloc
        invariant s.c <= clocation == mc && s == old(End()) && mb <= location && (clocation == s.c ==> mb == s.x)
        invariant Scanned(bytes, s, Here()) && (Resumes(bytes, s) ==> OnTrack())
        invariant mb == location > s.x ==> trailer == CharLen(bytes, location) - 1
        decreases bloc - location
      {
        if location + 1 >= |bytes| { return false; }
        ScanOn(bytes, s, Here());
        var _ := Step();
      }
      if !Resumes(bytes, s) {
        if Astray(bytes, Here()) { AstrayWrong(bytes, Here()); }
      } else {
        KnownStart();
        StartOrNot(bytes, clocation, bloc);
      }
      ok := bloc == mb;
    }

    method MiddleC(bloc: int) returns (cloc: int)
      requires Valid() && 0 <= bloc < mb
      ensures InChar(bytes, cloc, bloc) && cloc < mc
    {
      hide Start, CharLen, Encodes;
      BlAscends(bytes, Runs(cl, bl, bs), mc);
      if |cl| == 0 { return bloc; }
      var at := |cl| - 1;
      if bloc < bl[at] {
        var found;
        found, at := Search(bl, bloc);
        InMiddleRun(bytes, Runs(cl, bl, bs), mc, at, bloc);
        if found { return cl[at]; }
      } else {
        InMiddleRun(bytes, Runs(cl, bl, bs), mc, at, bloc);
      }
      return cl[at] + (bloc - bl[at]) / bs[at];
    }
  }

  lemma InMiddleRun(b: seq<int>, r: Runs, mc: int, i: nat, x: int)
    requires Encodes(b, r, mc) && i < |r.cl| && r.bl[i] <= x && (i + 1 < |r.cl| ==> x < r.bl[i + 1]) && x < Start(b, mc)
    ensures r.bs[i] > 0
    ensures var c := r.cl[i] + (x - r.bl[i]) / r.bs[i];
            InChar(b, c, x) && c < mc && (x == r.bl[i] ==> c == r.cl[i])
  {
    hide Start, CharLen, IsRun;
    BeforeRunEnd(b, r, mc, i, x);
    InRun(b, r, mc, i, x);
    BeforeChar(b, r.cl[i] + (x - r.bl[i]) / r.bs[i], mc, x);
  }

  lemma BeforeRunEnd(b: seq<int>, r: Runs, mc: int, i: nat, x: int)
    requires Encodes(b, r, mc) && i < |r.cl| && (i + 1 < |r.cl| ==> x < r.bl[i + 1]) && x < Start(b, mc)
    ensures RunEnd(r.cl, i, mc) >= 0 && x < Start(b, RunEnd(r.cl, i, mc))
  {
    hide Start, CharLen;
    if i + 1 < |r.cl| { assert IsRun(b, r, i + 1, mc); }
    StartsAscend(b, mc, mc + 1);
  }

  lemma BeforeChar(b: seq<int>, c: int, d: nat, x: int)
    requires InChar(b, c, x) && x < Start(b, d)
    ensures c < d
  {
    if d < c { StartsAscend(b, d, c); }
  }

  lemma BlAscends(b: seq<int>, r: Runs, mc: int)
    requires Encodes(b, r, mc)
    ensures forall i, j :: 0 <= i < j < |r.bl| ==> r.bl[i] < r.bl[j]
    ensures |r.bl| == |r.cl| == |r.bs| && (r.cl == [] <==> mc == -1) && (r.bl != [] ==> r.bl[0] == 0)
  {
    forall i, j | 0 <= i < j < |r.bl| ensures r.bl[i] < r.bl[j] {
      assert IsRun(b, r, i, mc) && IsRun(b, r, j, mc);
      StartsAscend(b, r.cl[i], r.cl[j]);
    }
    if r.cl != [] { assert IsRun(b, r, 0, mc); }
  }

  // Looking up a character's location and then the character there comes back to it.
  lemma ThereAndBack(b: seq<int>, c: nat, d: int)
    requires InChar(b, d, Start(b, c))
    ensures d == c
  {
    StartsAscend(b, c, c + 1);
    InOneChar(b, c, d, Start(b, c));
  }

  // Inside a character only its first byte is the start of one.
  lemma StartOrNot(b: seq<int>, c: int, x: int)
    requires InChar(b, c, x)
    ensures Start(b, c) == x <==> exists d: nat :: Start(b, d) == x
  {
    if d: nat :| Start(b, d) == x {
      StartsAscend(b, d, d + 1);
      InOneChar(b, c, d, x);
    }
  }

  // A byte inside a character: the scan from the start of the input stops there, and fails.
  method FindInside(b: seq<int>) returns (ok: bool)
    requires |b| >= 2 && b[0] == 0xC3 && b[1] == 0xA9
    ensures !ok
  {
    assert Start(b, 0) == 0 && CharLen(b, 0) == 2 && Start(b, 1) == 2;
    var input := new Inbound(b);
    StartOrNot(b, 0, 1);
    var c;
    ok, c := input.FindC(1);
  }
}
