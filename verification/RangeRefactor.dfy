/** Global refactoring of byte ranges: ranges with a common start become alternations
    of the shorter range and the rest. */
module RangeRefactor {
  import opened SortedSets

  // Names the grammar came with, and the names made for suffixes.
  datatype Symbol = Name(name: string) | ByteName(byte: int) | RangeName(first: int, last: int)

  // What a symbol stands for: a literal, or alternatives with their right-hand sides.
  datatype Def = Byte(byte: int) | BRange(start: int, stop: int) | Rules(alts: seq<seq<Symbol>>)

  type Grammar = map<Symbol, Def>
  type Cover = map<(int, int), Symbol>            // (start, stop) -> symbol
  type Queue = map<int, map<int, Symbol>>         // start -> (stop -> symbol)

  // ----- Derivations -----------------------------------------------------------

  // The symbol derives byte c, choosing alternatives along the path.
  predicate Derives(g: Grammar, s: Symbol, path: seq<nat>, c: int)
    decreases |path|
  {
    s in g &&
    match g[s]
    case Byte(b) => path == [] && c == b
    case BRange(a, b) => path == [] && a <= c <= b
    case Rules(alts) =>
      path != [] && path[0] < |alts| && |alts[path[0]]| == 1 && Derives(g, alts[path[0]][0], path[1..], c)
  }

  ghost predicate Reaches(g: Grammar, s: Symbol, c: int) {
    exists path :: Derives(g, s, path, c)
  }

  // Derives exactly the bytes a..b, each in exactly one way.
  ghost predicate Spans(g: Grammar, s: Symbol, a: int, b: int) {
    && (forall c :: Reaches(g, s, c) <==> a <= c <= b)
    && (forall c, p, q :: Derives(g, s, p, c) && Derives(g, s, q, c) ==> p == q)
  }

  // ----- The shape the refactoring keeps ------------------------------------------

  ghost predicate IsSplit(g: Grammar, cover: Cover, s: Symbol, a: int, m: int, b: int) {
    && a <= m < b && (a, m) in cover && (m + 1, b) in cover
    && s in g && g[s] == Rules([[cover[(a, m)]], [cover[(m + 1, b)]]])
  }

  // The symbol of a..b is a literal of just that, or split into two shorter ranges.
  ghost predicate Sound(g: Grammar, cover: Cover, a: int, b: int)
    requires (a, b) in cover
  {
    var s := cover[(a, b)];
    && a <= b && s in g
    && ((a == b && g[s] == Byte(a)) || g[s] == BRange(a, b) || exists m :: IsSplit(g, cover, s, a, m, b))
  }

  ghost predicate AllSound(g: Grammar, cover: Cover) {
    forall a, b :: (a, b) in cover ==> Sound(g, cover, a, b)
  }

  ghost predicate Distinct(cover: Cover) {
    forall k, l :: k in cover && l in cover && cover[k] == cover[l] ==> k == l
  }

  // A made name already in use stands for what it would be made for.
  ghost predicate NamesFit(g: Grammar, cover: Cover) {
    && (forall n :: ByteName(n) in g ==> (n, n) in cover && cover[(n, n)] == ByteName(n))
    && (forall a, b :: RangeName(a, b) in g ==> (a, b) in cover && cover[(a, b)] == RangeName(a, b))
  }

  lemma {:induction false} SoundSpans(g: Grammar, cover: Cover, a: int, b: int)
    requires AllSound(g, cover) && (a, b) in cover
    ensures Spans(g, cover[(a, b)], a, b)
    decreases b - a
  {
    assert Sound(g, cover, a, b);
    var s := cover[(a, b)];
    if g[s].Rules? {
      var m :| IsSplit(g, cover, s, a, m, b);
      SoundSpans(g, cover, a, m);
      assert Sound(g, cover, m + 1, b);
      SoundSpans(g, cover, m + 1, b);
      SplitSpans(g, s, cover[(a, m)], cover[(m + 1, b)], a, m, b);
    } else {
      forall c | a <= c <= b ensures Reaches(g, s, c) {
        assert Derives(g, s, [], c);
      }
    }
  }

  lemma SplitSpans(g: Grammar, s: Symbol, p: Symbol, q: Symbol, a: int, m: int, b: int)
    requires a <= m < b && s in g && g[s] == Rules([[p], [q]]) && Spans(g, p, a, m) && Spans(g, q, m + 1, b)
    ensures Spans(g, s, a, b)
  {
    forall c | a <= c <= b ensures Reaches(g, s, c) {
      if c <= m {
        assert Reaches(g, p, c);
        var path :| Derives(g, p, path, c);
        assert ([0] + path)[1..] == path;
        assert Derives(g, s, [0] + path, c);
      } else {
        assert Reaches(g, q, c);
        var path :| Derives(g, q, path, c);
        assert ([1] + path)[1..] == path;
        assert Derives(g, s, [1] + path, c);
      }
    }
    forall c, path | Derives(g, s, path, c) ensures a <= c <= b && (path[0] == 0 <==> c <= m) {
      assert Derives(g, if path[0] == 0 then p else q, path[1..], c);
      assert Reaches(g, if path[0] == 0 then p else q, c);
    }
    forall c, v, w | Derives(g, s, v, c) && Derives(g, s, w, c) ensures v == w {
      assert v[0] == w[0];
      var t := if v[0] == 0 then p else q;
      assert Derives(g, t, v[1..], c) && Derives(g, t, w[1..], c);
      assert v == [v[0]] + v[1..] && w == [w[0]] + w[1..];
    }
  }

  // ----- The queue ----------------------------------------------------------------

  // a..b is still a range literal.
  ghost predicate IsRange(g: Grammar, cover: Cover, a: int, b: int) {
    (a, b) in cover && cover[(a, b)] in g && g[cover[(a, b)]] == BRange(a, b)
  }

  ghost predicate Queued(ranges: Queue, a: int, b: int) {
    a in ranges && b in ranges[a]
  }

  // The queue holds range literals, and no start without one.
  ghost predicate QueueFits(g: Grammar, cover: Cover, ranges: Queue) {
    && (forall a, b :: Queued(ranges, a, b) ==> IsRange(g, cover, a, b) && ranges[a][b] == cover[(a, b)])
    && (forall a :: a in ranges ==> ranges[a] != map[])
  }

  // All starts above done are queued; those up to done are settled: one literal each.
  ghost predicate Processed(g: Grammar, cover: Cover, ranges: Queue, done: int) {
    && (forall a :: a in ranges ==> a > done)
    && (forall a, b :: IsRange(g, cover, a, b) && a > done ==> Queued(ranges, a, b))
    && (forall a, b, c :: IsRange(g, cover, a, b) && IsRange(g, cover, a, c) && a <= done ==> b == c)
  }

  ghost predicate Bounded(cover: Cover, top: int) {
    forall a, b :: (a, b) in cover ==> b <= top
  }

  predicate IsLiteral(d: Def) { !d.Rules? }

  function Interval(d: Def): (int, int)
    requires IsLiteral(d)
  {
    match d case Byte(b) => (b, b) case BRange(a, b) => (a, b)
  }

  // Every literal is in the table.
  ghost predicate LiteralsCovered(g: Grammar, cover: Cover) {
    forall s :: s in g && IsLiteral(g[s]) ==> Interval(g[s]) in cover && cover[Interval(g[s])] == s
  }

  ghost predicate Consistent(g: Grammar, cover: Cover) {
    AllSound(g, cover) && Distinct(cover) && NamesFit(g, cover) && LiteralsCovered(g, cover)
  }

  // Symbols keep their place in the table; only range literals get new definitions.
  ghost predicate Preserves(g: Grammar, cover: Cover, g': Grammar, cover': Cover) {
    && (forall k :: k in cover ==> k in cover' && cover'[k] == cover[k])
    && (forall s :: s in g ==> s in g' && (g'[s] == g[s] || (g[s].BRange? && g'[s].Rules?)))
  }

  // Literals are in the table, perhaps split, and all other symbols are as they were.
  ghost predicate Refines(g: Grammar, g': Grammar, cover': Cover) {
    && AllSound(g', cover')
    && forall s :: s in g ==>
         if IsLiteral(g[s]) then Interval(g[s]) in cover' && cover'[Interval(g[s])] == s
         else s in g' && g'[s] == g[s]
  }

  lemma PreservesTwice(g0: Grammar, cover0: Cover, g1: Grammar, cover1: Cover, g2: Grammar, cover2: Cover)
    requires Preserves(g0, cover0, g1, cover1) && Preserves(g1, cover1, g2, cover2)
    ensures Preserves(g0, cover0, g2, cover2)
  {
  }

  // ----- The two changes ------------------------------------------------------------

  function MadeName(a: int, b: int): Symbol { if a == b then ByteName(a) else RangeName(a, b) }

  function MadeDef(a: int, b: int): Def { if a == b then Byte(a) else BRange(a, b) }

  lemma AddLiteral(g: Grammar, cover: Cover, a: int, b: int)
    requires Consistent(g, cover) && a <= b && (a, b) !in cover
    ensures MadeName(a, b) !in g
    ensures Consistent(g[MadeName(a, b) := MadeDef(a, b)], cover[(a, b) := MadeName(a, b)])
  {
    var s, g', cover' := MadeName(a, b), g[MadeName(a, b) := MadeDef(a, b)], cover[(a, b) := MadeName(a, b)];
    forall k | k in cover ensures cover[k] in g {
      assert k == (k.0, k.1) && Sound(g, cover, k.0, k.1);
    }
    forall k, l | (k, l) in cover' ensures Sound(g', cover', k, l) {
      if (k, l) != (a, b) {
        assert Sound(g, cover, k, l);
        var t := cover[(k, l)];
        if m :| IsSplit(g, cover, t, k, m, l) {
          assert IsSplit(g', cover', t, k, m, l);
        }
      }
    }
  }

  lemma SplitRange(g: Grammar, cover: Cover, a: int, m: int, b: int)
    requires Consistent(g, cover) && a <= m < b
    requires (a, b) in cover && (a, m) in cover && (m + 1, b) in cover
    ensures Consistent(g[cover[(a, b)] := Rules([[cover[(a, m)]], [cover[(m + 1, b)]]])], cover)
  {
    var s := cover[(a, b)];
    var g' := g[s := Rules([[cover[(a, m)]], [cover[(m + 1, b)]]])];
    assert Sound(g, cover, a, b);
    forall k, l | (k, l) in cover ensures Sound(g', cover, k, l) {
      assert Sound(g, cover, k, l);
      if (k, l) == (a, b) {
        assert IsSplit(g', cover, s, a, m, b);
      } else {
        var t := cover[(k, l)];
        assert t != s;
        if n :| IsSplit(g, cover, t, k, n, l) {
          assert IsSplit(g', cover, t, k, n, l);
        }
      }
    }
  }

  // ----- The refactoring ------------------------------------------------------------------

  // The queue while the stops of one start are worked on: below and above it all is
  // as usual, and of its own literals those in `left` remain.
  ghost predicate InProgress(g: Grammar, cover: Cover, ranges: Queue, top: int, start: int, left: set<int>) {
    && Consistent(g, cover) && QueueFits(g, cover, ranges) && Bounded(cover, top)
    && (forall a :: a in ranges ==> a > start)
    && (forall a, b :: IsRange(g, cover, a, b) && a > start ==> Queued(ranges, a, b))
    && (forall a, b, c :: IsRange(g, cover, a, b) && IsRange(g, cover, a, c) && a < start ==> b == c)
    && (forall b :: IsRange(g, cover, start, b) <==> b in left)
  }

  // Between two starts.
  ghost predicate Between(g: Grammar, cover: Cover, ranges: Queue, top: int, done: int) {
    Consistent(g, cover) && QueueFits(g, cover, ranges) && Bounded(cover, top) && Processed(g, cover, ranges, done)
  }

  lemma TakeStart(g: Grammar, cover: Cover, ranges: Queue, top: int, done: int, start: int)
    requires Between(g, cover, ranges, top, done) && start in ranges && forall a :: a in ranges ==> start <= a
    ensures done < start <= top && ranges[start] != map[] && DefsFit(cover, start, ranges[start])
    ensures InProgress(g, cover, ranges - {start}, top, start, ranges[start].Keys)
  {
    var rest := ranges - {start};
    assert forall b :: b in ranges[start] ==> Queued(ranges, start, b);
    forall a, b | Queued(rest, a, b) ensures Queued(ranges, a, b) && rest[a] == ranges[a] {}
    forall b | b in ranges[start] ensures b <= top && start <= b {
      assert IsRange(g, cover, start, b) && Sound(g, cover, start, b);
    }
    var defs := ranges[start];
    assert (forall b :: b !in defs) ==> defs == map[];
    assert forall a, b :: IsRange(g, cover, a, b) && a > done ==> Queued(ranges, a, b) && a >= start;
    forall a, b | IsRange(g, cover, a, b) && a > start ensures Queued(rest, a, b) {
      assert Queued(ranges, a, b);
    }
    forall b ensures IsRange(g, cover, start, b) <==> b in ranges[start].Keys {
      if IsRange(g, cover, start, b) { assert Queued(ranges, start, b); }
    }
  }

  lemma EndStart(g: Grammar, cover: Cover, ranges: Queue, top: int, start: int, left: set<int>)
    requires InProgress(g, cover, ranges, top, start, left) && |left| == 1
    ensures Between(g, cover, ranges, top, start)
  {
    forall b, c | b in left && c in left ensures b == c {
      assert b != c ==> c in left - {b} && |left - {b}| == 0;
    }
  }

  // What the refactoring starts from: the literals, no two for the same bytes, and none
  // of the names it will make standing for something else.
  ghost predicate Refactorable(g: Grammar, literals: seq<Symbol>, top: int) {
    && (forall s :: s in literals <==> s in g && IsLiteral(g[s]))
    && (forall s :: s in literals ==> Interval(g[s]).0 <= Interval(g[s]).1 <= top)
    && (forall s, t :: s in literals && t in literals && Interval(g[s]) == Interval(g[t]) ==> s == t)
    && (forall n :: ByteName(n) in g ==> IsLiteral(g[ByteName(n)]) && Interval(g[ByteName(n)]) == (n, n))
    && (forall a, b :: RangeName(a, b) in g ==> IsLiteral(g[RangeName(a, b)]) && Interval(g[RangeName(a, b)]) == (a, b))
  }

  // dict set ranges start stop symbol
  function DictSet(ranges: Queue, start: int, stop: int, s: Symbol): (r: Queue)
    ensures r.Keys == ranges.Keys + {start}
    ensures forall a, b :: Queued(r, a, b) <==> Queued(ranges, a, b) || (a, b) == (start, stop)
    ensures Queued(r, start, stop) && r[start][stop] == s
    ensures forall a, b :: Queued(ranges, a, b) && (a, b) != (start, stop) ==> Queued(r, a, b) && r[a][b] == ranges[a][b]
    ensures forall a :: a in r && (a !in ranges || ranges[a] != map[]) ==> r[a] != map[]
  {
    ranges[start := (if start in ranges then ranges[start] else map[])[stop := s]]
  }

  // The tables after some of the literals were entered.
  ghost predicate Entered(g: Grammar, cover: Cover, ranges: Queue, some: seq<Symbol>) {
    && (forall s :: s in some ==> s in g && IsLiteral(g[s]) && Interval(g[s]) in cover && cover[Interval(g[s])] == s)
    && (forall k :: k in cover ==> cover[k] in some && Interval(g[cover[k]]) == k)
    && QueueHolds(g, cover, ranges)
  }

  // The queue holds just the range literals.
  ghost predicate QueueHolds(g: Grammar, cover: Cover, ranges: Queue) {
    && (forall a, b :: Queued(ranges, a, b) <==> IsRange(g, cover, a, b))
    && (forall a, b :: Queued(ranges, a, b) ==> ranges[a][b] == cover[(a, b)])
    && (forall a :: a in ranges ==> ranges[a] != map[])
  }

  lemma AllEntered(g: Grammar, cover: Cover, ranges: Queue, literals: seq<Symbol>, top: int) returns (done: int)
    requires Refactorable(g, literals, top) && Entered(g, cover, ranges, literals)
    ensures Between(g, cover, ranges, top, done)
    ensures forall s :: s in literals ==> s in g && IsLiteral(g[s]) && Interval(g[s]) in cover && cover[Interval(g[s])] == s
  {
    done := if ranges == map[] then top else Least(ranges.Keys) - 1;
    forall a, b | (a, b) in cover ensures Sound(g, cover, a, b) && b <= top {
      assert cover[(a, b)] in literals;
    }
    forall a, b | IsRange(g, cover, a, b) ensures a > done {
      assert Queued(ranges, a, b) && a in ranges.Keys;
    }
  }

  class Refactoring {
    var g: Grammar
    var ranges: Queue
    var cover: Cover

    ghost var top: int

    constructor (grammar: Grammar)
      ensures g == grammar && ranges == map[] && cover == map[]
    {
      g, ranges, cover := grammar, map[], map[];
    }

    twostate predicate Kept()
      reads this
    {
      top == old(top) && Preserves(old(g), old(cover), g, cover)
    }

    ghost predicate Working(start: int, left: set<int>)
      reads this
    {
      InProgress(g, cover, ranges, top, start, left)
    }

    // The symbol of a suffix, made if there is none yet.
    method SuffixSymbol(start: int, stop: int, ghost at: int, ghost left: set<int>) returns (s: Symbol)
      requires Working(at, left) && at < start <= stop <= top
      modifies this
      ensures Working(at, left) && (start, stop) in cover && s == cover[(start, stop)] && Kept()
    {
      if (start, stop) !in cover {
        AddLiteral(g, cover, start, stop);
        s := MadeName(start, stop);
        ghost var g0, cover0, ranges0 := g, cover, ranges;
        if start == stop {
          cover := cover[(start, start) := s];
          g := g[s := Byte(start)];
        } else {
          cover := cover[(start, stop) := s];
          ranges := DictSet(ranges, start, stop, s);
          g := g[s := BRange(start, stop)];
        }
        NewLiteral(g0, cover0, g, cover, start, stop, s);
      } else {
        s := cover[(start, stop)];
      }
    }

    // One range becomes the alternation of prefix and suffix; it leaves the literals of its start.
    method Split(current: Symbol, prefix: Symbol, suffix: Symbol,
                 ghost start: int, ghost prefixstop: int, ghost stop: int, ghost left: set<int>)
      requires Working(start, left) && start <= prefixstop < stop && stop in left
      requires (start, stop) in cover && current == cover[(start, stop)]
      requires (start, prefixstop) in cover && prefix == cover[(start, prefixstop)]
      requires (prefixstop + 1, stop) in cover && suffix == cover[(prefixstop + 1, stop)]
      modifies this`g
      ensures Working(start, left - {stop}) && Kept()
      ensures g == old(g)[current := Rules([[prefix], [suffix]])]
    {
      hide InProgress, Preserves;
      SplitInProgress(g, cover, ranges, top, start, left, prefixstop, stop);
      g := g[current := Rules([[prefix], [suffix]])];
    }

    // All definitions with one start: the shortest stands, the others become alternations.
    method ProcessStart(start: int, defs: map<int, Symbol>)
      requires Working(start, defs.Keys) && defs != map[] && DefsFit(cover, start, defs)
      modifies this
      ensures Working(start, {Least(defs.Keys)}) && Kept()
    {
      hide Working, SortedKeys, FirstAndFrom, Ascending, Preserves;
      var stops := SortedKeys(defs.Keys);
      FirstAndFromEnds(defs.Keys);
      PreservesSelf(g, cover);
      var prefixstop := stops[0];
      var prefixsym := defs[prefixstop];
      for i := 1 to |stops|
        invariant prefixstop == stops[i - 1] && prefixsym == defs[prefixstop]
        invariant Working(start, FirstAndFrom(stops, i)) && DefsFit(cover, start, defs) && Kept()
      {
        ghost var g1, cover1 := g, cover;
        FirstAndFromStep(stops, i);
        var stop := stops[i];
        assert stop in defs && stops[i - 1] in defs && start <= stops[i - 1] < stop;
        var currentsym := defs[stop];
        Refine(start, prefixstop, prefixsym, stop, currentsym, defs, FirstAndFrom(stops, i));
        PreservesTwice(old(g), old(cover), g1, cover1, g, cover);
        prefixstop := stop;
        prefixsym := currentsym;
      }
    }

    // Replace start..stop by the alternation of start..prefixstop and the suffix.
    method Refine(start: int, prefixstop: int, prefixsym: Symbol, stop: int, currentsym: Symbol,
                  ghost defs: map<int, Symbol>, ghost left: set<int>)
      requires Working(start, left) && DefsFit(cover, start, defs)
      requires prefixstop in defs && stop in defs && start <= prefixstop < stop && stop in left
      requires prefixsym == defs[prefixstop] && currentsym == defs[stop]
      modifies this
      ensures Working(start, left - {stop}) && DefsFit(cover, start, defs) && Kept()
    {
      assert stop <= top by { assert (start, stop) in cover; }
      hide Working, Preserves;
      ghost var g0, cover0 := g, cover;
      var suffixsym := SuffixSymbol(prefixstop + 1, stop, start, left);
      ghost var g1, cover1 := g, cover;
      DefsStillFit(g0, cover0, g1, cover1, start, defs);
      Split(currentsym, prefixsym, suffixsym, start, prefixstop, stop, left);
      DefsStillFit(g1, cover1, g, cover, start, defs);
      PreservesTwice(g0, cover0, g1, cover1, g, cover);
    }

    // Take the least start off the queue and process its definitions, unless there is only one.
    method ProcessLeast(ghost done: int) returns (ghost start: int)
      requires Between(g, cover, ranges, top, done) && ranges != map[]
      modifies this
      ensures Between(g, cover, ranges, top, start) && done < start <= top && Kept()
    {
      hide Between, Preserves, InProgress, DefsFit;
      var first := Least(ranges.Keys);
      start := first;
      TakeStart(g, cover, ranges, top, done, start);
      PreservesSelf(g, cover);
      var defs := ranges[first];
      ranges := ranges - {first};
      if |defs| == 1 {
        EndStart(g, cover, ranges, top, start, defs.Keys);
      } else {
        ProcessStart(first, defs);
        EndStart(g, cover, ranges, top, start, {Least(defs.Keys)});
      }
    }

    // Enter the literals into the tables.
    method Collect(literals: seq<Symbol>)
      requires Refactorable(g, literals, top) && ranges == map[] && cover == map[]
      modifies this`ranges, this`cover
      ensures Entered(g, cover, ranges, literals)
    {
      hide Entered;
      NothingEntered(g);
      for i := 0 to |literals|
        invariant Entered(g, cover, ranges, literals[..i])
      {
        ghost var cover0, ranges0 := cover, ranges;
        var sym := literals[i];
        assert sym in literals;
        if g[sym].BRange? {
          var start, stop := g[sym].start, g[sym].stop;
          ranges := DictSet(ranges, start, stop, sym);
          cover := cover[(start, stop) := sym];
        } else {
          var byte := g[sym].byte;
          cover := cover[(byte, byte) := sym];
        }
        EnteredNext(g, cover0, ranges0, cover, ranges, literals, i, top);
      }
      assert literals[..|literals|] == literals;
    }

    // Afterwards every literal there was still spans its bytes, each in one way; what is
    // left of the range literals starts at different bytes, and nothing else changed.
    method Refactor(literals: seq<Symbol>, ghost bound: int)
      requires Refactorable(g, literals, bound) && ranges == map[] && cover == map[]
      modifies this
      ensures forall s :: s in literals ==>
                s in g && Spans(g, s, Interval(old(g)[s]).0, Interval(old(g)[s]).1)
      ensures forall s, t :: s in g && t in g && g[s].BRange? && g[t].BRange? && g[s].start == g[t].start ==> s == t
      ensures forall s :: s in old(g) ==> s in g && (g[s] == old(g)[s] || (old(g)[s].BRange? && g[s].Rules?))
      ensures AllSound(g, cover) && Distinct(cover) && LiteralsCovered(g, cover) && Refines(old(g), g, cover)
    {
      hide Between, Preserves, InProgress, DefsFit, Refactorable, Entered, AllSound, Distinct, LiteralsCovered, Spans, Refines;
      LiteralsThere(g, literals, bound);
      top := bound;
      Collect(literals);
      ghost var done := AllEntered(g, cover, ranges, literals, top);
      ghost var cover0 := cover;
      PreservesSelf(g, cover);
      while |ranges| > 0
        invariant Between(g, cover, ranges, top, done) && Preserves(old(g), cover0, g, cover)
        decreases top - done
      {
        ghost var g1, cover1 := g, cover;
        done := ProcessLeast(done);
        PreservesTwice(old(g), cover0, g1, cover1, g, cover);
      }
      Refactored(old(g), cover0, g, cover, ranges, top, done, literals);
    }
  }

  lemma LiteralsThere(g: Grammar, literals: seq<Symbol>, top: int)
    requires Refactorable(g, literals, top)
    ensures forall s :: s in literals <==> s in g && IsLiteral(g[s])
  {
  }

  lemma NothingEntered(g: Grammar)
    ensures Entered(g, map[], map[], [])
  {
  }

  lemma EnteredNext(g: Grammar, cover: Cover, ranges: Queue, cover': Cover, ranges': Queue, literals: seq<Symbol>, i: nat, top: int)
    requires Refactorable(g, literals, top) && i < |literals| && Entered(g, cover, ranges, literals[..i])
    requires var s := literals[i];
             s in g && IsLiteral(g[s]) && cover' == cover[Interval(g[s]) := s]
             && ranges' == if g[s].Byte? then ranges else DictSet(ranges, g[s].start, g[s].stop, s)
    ensures Entered(g, cover', ranges', literals[..i + 1])
  {
    var s, k := literals[i], Interval(g[literals[i]]);
    assert literals[..i + 1] == literals[..i] + [s];
    forall t | t in literals[..i + 1] ensures t in literals {}
    assert k in cover ==> cover[k] == s;
    QueueNext(g, cover, ranges, s, cover', ranges');
    forall l | l in cover' ensures cover'[l] in literals[..i + 1] && Interval(g[cover'[l]]) == l {
      if l != k { assert l in cover; }
    }
  }

  lemma QueueNext(g: Grammar, cover: Cover, ranges: Queue, s: Symbol, cover': Cover, ranges': Queue)
    requires s in g && IsLiteral(g[s]) && (Interval(g[s]) in cover ==> cover[Interval(g[s])] == s)
    requires QueueHolds(g, cover, ranges) && cover' == cover[Interval(g[s]) := s]
    requires ranges' == if g[s].Byte? then ranges else DictSet(ranges, g[s].start, g[s].stop, s)
    ensures QueueHolds(g, cover', ranges')
  {
    hide DictSet;
    forall a, b ensures Queued(ranges', a, b) <==> IsRange(g, cover', a, b) {
      assert Queued(ranges, a, b) <==> IsRange(g, cover, a, b);
    }
  }

  lemma Refactored(g0: Grammar, cover0: Cover, g: Grammar, cover: Cover, ranges: Queue, top: int, done: int, literals: seq<Symbol>)
    requires Between(g, cover, ranges, top, done) && ranges == map[] && Preserves(g0, cover0, g, cover)
    requires forall s :: s in literals ==> s in g0 && IsLiteral(g0[s]) && Interval(g0[s]) in cover0 && cover0[Interval(g0[s])] == s
    requires forall s :: s in g0 && IsLiteral(g0[s]) ==> s in literals
    ensures forall s :: s in literals ==> s in g && Spans(g, s, Interval(g0[s]).0, Interval(g0[s]).1)
    ensures forall s, t :: s in g && t in g && g[s].BRange? && g[t].BRange? && g[s].start == g[t].start ==> s == t
    ensures AllSound(g, cover) && Distinct(cover) && LiteralsCovered(g, cover) && Refines(g0, g, cover)
    ensures forall s :: s in g0 ==> s in g && (g[s] == g0[s] || (g0[s].BRange? && g[s].Rules?))
  {
    forall s | s in literals ensures s in g && Spans(g, s, Interval(g0[s]).0, Interval(g0[s]).1) {
      var (a, b) := Interval(g0[s]);
      SoundSpans(g, cover, a, b);
    }
    forall s, t | s in g && t in g && g[s].BRange? && g[t].BRange? && g[s].start == g[t].start ensures s == t {
      assert IsRange(g, cover, g[s].start, g[s].stop) && IsRange(g, cover, g[t].start, g[t].stop);
    }
  }

  lemma PreservesSelf(g: Grammar, cover: Cover)
    ensures Preserves(g, cover, g, cover)
  {
  }

  lemma DefsStillFit(g: Grammar, cover: Cover, g': Grammar, cover': Cover, start: int, defs: map<int, Symbol>)
    requires Preserves(g, cover, g', cover') && DefsFit(cover, start, defs)
    ensures DefsFit(cover', start, defs)
  {
  }

  // The definitions taken from the queue are the symbols of the ranges.
  ghost predicate DefsFit(cover: Cover, start: int, defs: map<int, Symbol>) {
    forall b :: b in defs ==> (start, b) in cover && defs[b] == cover[(start, b)] && start <= b
  }

  lemma SplitInProgress(g: Grammar, cover: Cover, ranges: Queue, top: int, start: int, left: set<int>, m: int, b: int)
    requires InProgress(g, cover, ranges, top, start, left) && start <= m < b && b in left
    requires (start, b) in cover && (start, m) in cover && (m + 1, b) in cover
    ensures var g' := g[cover[(start, b)] := Rules([[cover[(start, m)]], [cover[(m + 1, b)]]])];
            InProgress(g', cover, ranges, top, start, left - {b}) && Preserves(g, cover, g', cover)
  {
    var g' := g[cover[(start, b)] := Rules([[cover[(start, m)]], [cover[(m + 1, b)]]])];
    assert IsRange(g, cover, start, b);
    assert Preserves(g, cover, g', cover);
    SplitRange(g, cover, start, m, b);
    SplitLiteral(g, cover, start, m, b);
    hide Consistent, Bounded, Preserves;
    SplitQueue(g, cover, ranges, g', start, b);
    hide QueueFits, IsRange;
  }

  // The queue holds nothing of this start any more.
  lemma SplitQueue(g: Grammar, cover: Cover, ranges: Queue, g': Grammar, start: int, b: int)
    requires QueueFits(g, cover, ranges) && (forall a :: a in ranges ==> a > start)
    requires forall k, l :: IsRange(g', cover, k, l) <==> IsRange(g, cover, k, l) && (k, l) != (start, b)
    ensures QueueFits(g', cover, ranges)
  {
    hide IsRange;
  }

  lemma SplitLiteral(g: Grammar, cover: Cover, a: int, m: int, b: int)
    requires Consistent(g, cover) && (a, b) in cover && (a, m) in cover && (m + 1, b) in cover
    ensures var g' := g[cover[(a, b)] := Rules([[cover[(a, m)]], [cover[(m + 1, b)]]])];
            forall k, l :: IsRange(g', cover, k, l) <==> IsRange(g, cover, k, l) && (k, l) != (a, b)
  {
  }

  // Which ranges are literals after one more is made.
  lemma NewLiteral(g: Grammar, cover: Cover, g': Grammar, cover': Cover, a: int, b: int, s: Symbol)
    requires Consistent(g, cover) && (a, b) !in cover && s !in g && a <= b
    requires cover' == cover[(a, b) := s] && g' == g[s := MadeDef(a, b)]
    ensures forall k, l :: IsRange(g', cover', k, l) <==> IsRange(g, cover, k, l) || (k == a < b == l)
  {
    forall k, l ensures IsRange(g', cover', k, l) <==> IsRange(g, cover, k, l) || (k == a < b == l) {
      if (k, l) in cover { assert Sound(g, cover, k, l); }
    }
  }
}