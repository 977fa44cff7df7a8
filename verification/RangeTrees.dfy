/** The refactoring of ranges keeps the parses of all symbols: one for one, over the same
    bytes, the split ranges derive what the range literals matched. */
module RangeTrees {
  import opened RangeRefactor

  // A parse: literals match a byte.
  datatype Tree = Leaf(sym: Symbol, byte: int) | Node(sym: Symbol, alt: nat, kids: seq<Tree>)

  predicate Parses(g: Grammar, s: Symbol, t: Tree)
    decreases t
  {
    t.sym == s && s in g &&
    match t
    case Leaf(_, c) => IsLiteral(g[s]) && Interval(g[s]).0 <= c <= Interval(g[s]).1
    case Node(_, i, kids) =>
      && g[s].Rules? && i < |g[s].alts| && |kids| == |g[s].alts[i]|
      && forall k :: 0 <= k < |kids| ==> Parses(g, g[s].alts[i][k], kids[k])
  }

  function Yield(t: Tree): seq<int> {
    match t
    case Leaf(_, c) => [c]
    case Node(_, _, kids) => YieldAll(kids)
  }

  function YieldAll(ts: seq<Tree>): seq<int> {
    if ts == [] then [] else Yield(ts[0]) + YieldAll(ts[1..])
  }

  lemma {:induction false} YieldAllEqual(ts: seq<Tree>, us: seq<Tree>)
    requires |ts| == |us| && forall k :: 0 <= k < |ts| ==> Yield(ts[k]) == Yield(us[k])
    ensures YieldAll(ts) == YieldAll(us)
  {
    if ts != [] { YieldAllEqual(ts[1..], us[1..]); }
  }

  // ----- Below the symbol of a range ---------------------------------------------------------

  ghost function Cut(g: Grammar, cover: Cover, a: int, b: int): (m: int)
    requires AllSound(g, cover) && (a, b) in cover && g[cover[(a, b)]].Rules?
    ensures IsSplit(g, cover, cover[(a, b)], a, m, b)
  {
    assert Sound(g, cover, a, b);
    var m :| IsSplit(g, cover, cover[(a, b)], a, m, b);
    m
  }

  // The parse of a byte of the range.
  ghost function Way(g: Grammar, cover: Cover, a: int, b: int, c: int): Tree
    requires AllSound(g, cover) && (a, b) in cover && a <= c <= b
    decreases b - a
  {
    assert Sound(g, cover, a, b);
    var s := cover[(a, b)];
    if !g[s].Rules? then Leaf(s, c) else
      var m := Cut(g, cover, a, b);
      if c <= m then Node(s, 0, [Way(g, cover, a, m, c)]) else Node(s, 1, [Way(g, cover, m + 1, b, c)])
  }

  lemma YieldOne(t: Tree)
    ensures YieldAll([t]) == Yield(t)
  {
    assert [t][1..] == [];
  }

  lemma {:induction false} WayParses(g: Grammar, cover: Cover, a: int, b: int, c: int)
    requires AllSound(g, cover) && (a, b) in cover && a <= c <= b
    ensures Parses(g, cover[(a, b)], Way(g, cover, a, b, c)) && Yield(Way(g, cover, a, b, c)) == [c]
    decreases b - a
  {
    hide AllSound, Sound;
    SoundHere(g, cover, a, b);
    var s := cover[(a, b)];
    if g[s].Rules? {
      var m := Cut(g, cover, a, b);
      if c <= m {
        WayParses(g, cover, a, m, c);
        YieldOne(Way(g, cover, a, m, c));
      } else {
        WayParses(g, cover, m + 1, b, c);
        YieldOne(Way(g, cover, m + 1, b, c));
      }
    }
  }

  lemma {:induction false} SplitNode(g: Grammar, s: Symbol, p: Symbol, q: Symbol, t: Tree)
    requires s in g && g[s] == Rules([[p], [q]]) && Parses(g, s, t)
    ensures t.Node? && t.sym == s && t.alt < 2 && |t.kids| == 1 && t == Node(s, t.alt, [t.kids[0]])
    ensures Parses(g, if t.alt == 0 then p else q, t.kids[0]) && Yield(t) == Yield(t.kids[0])
  {
    assert t.kids == [t.kids[0]];
    YieldOne(t.kids[0]);
  }

  lemma SoundHere(g: Grammar, cover: Cover, a: int, b: int)
    requires AllSound(g, cover) && (a, b) in cover
    ensures a <= b && cover[(a, b)] in g
    ensures !g[cover[(a, b)]].Rules? ==> Interval(g[cover[(a, b)]]) == (a, b)
  {
    assert Sound(g, cover, a, b);
  }

  // There is no other.
  lemma {:induction false} WayOnly(g: Grammar, cover: Cover, a: int, b: int, t: Tree)
    requires AllSound(g, cover) && (a, b) in cover && Parses(g, cover[(a, b)], t)
    ensures |Yield(t)| == 1 && a <= Yield(t)[0] <= b && Way(g, cover, a, b, Yield(t)[0]) == t
    decreases b - a
  {
    hide AllSound, Sound;
    SoundHere(g, cover, a, b);
    var s := cover[(a, b)];
    if g[s].Rules? {
      hide Parses, Yield;
      var m := Cut(g, cover, a, b);
      SplitNode(g, s, cover[(a, m)], cover[(m + 1, b)], t);
      if t.alt == 0 {
        WayOnly(g, cover, a, m, t.kids[0]);
      } else {
        WayOnly(g, cover, m + 1, b, t.kids[0]);
      }
    }
  }

  // ----- Before and after ----------------------------------------------------------------------

  // All symbols used are defined.
  ghost predicate Complete(g: Grammar) {
    forall s, i, k :: s in g && g[s].Rules? && 0 <= i < |g[s].alts| && 0 <= k < |g[s].alts[i]| ==> g[s].alts[i][k] in g
  }

  // The parse afterwards: literals go down to where they are now.
  ghost function Split(g: Grammar, g': Grammar, cover': Cover, s: Symbol, t: Tree): Tree
    requires Refines(g, g', cover') && Parses(g, s, t)
    decreases t
  {
    match t
    case Leaf(_, c) => var (a, b) := Interval(g[s]); Way(g', cover', a, b, c)
    case Node(_, i, kids) =>
      Node(s, i, seq(|kids|, k requires 0 <= k < |kids| => Split(g, g', cover', g[s].alts[i][k], kids[k])))
  }

  // And back.
  function Join(g: Grammar, t: Tree): Tree {
    if t.sym in g && IsLiteral(g[t.sym]) && Yield(t) != [] then Leaf(t.sym, Yield(t)[0])
    else match t
         case Leaf(_, _) => t
         case Node(s, i, kids) => Node(s, i, JoinAll(g, kids))
  }

  function JoinAll(g: Grammar, ts: seq<Tree>): (us: seq<Tree>)
    ensures |us| == |ts| && forall k :: 0 <= k < |ts| ==> us[k] == Join(g, ts[k])
  {
    if ts == [] then [] else [Join(g, ts[0])] + JoinAll(g, ts[1..])
  }

  lemma {:induction false} SplitParses(g: Grammar, g': Grammar, cover': Cover, s: Symbol, t: Tree)
    requires Refines(g, g', cover') && Parses(g, s, t)
    ensures var t' := Split(g, g', cover', s, t); Parses(g', s, t') && Yield(t') == Yield(t) && Join(g, t') == t
    decreases t
  {
    hide AllSound;
    var t' := Split(g, g', cover', s, t);
    if t.Leaf? {
      var (a, b) := Interval(g[s]);
      WayParses(g', cover', a, b, t.byte);
    } else {
      forall k | 0 <= k < |t.kids|
        ensures Parses(g', g[s].alts[t.alt][k], t'.kids[k]) && Yield(t'.kids[k]) == Yield(t.kids[k]) && Join(g, t'.kids[k]) == t.kids[k]
      {
        SplitParses(g, g', cover', g[s].alts[t.alt][k], t.kids[k]);
      }
      YieldAllEqual(t'.kids, t.kids);
      assert JoinAll(g, t'.kids) == t.kids;
    }
  }

  lemma {:induction false} JoinParses(g: Grammar, g': Grammar, cover': Cover, s: Symbol, t': Tree)
    requires Refines(g, g', cover') && Complete(g) && s in g && Parses(g', s, t')
    ensures var t := Join(g, t'); Parses(g, s, t) && Split(g, g', cover', s, t) == t'
    decreases t'
  {
    hide AllSound;
    if IsLiteral(g[s]) {
      var (a, b) := Interval(g[s]);
      WayOnly(g', cover', a, b, t');
    } else {
      forall k | 0 <= k < |t'.kids|
        ensures var t := Join(g, t'.kids[k]); Parses(g, g[s].alts[t'.alt][k], t) && Split(g, g', cover', g[s].alts[t'.alt][k], t) == t'.kids[k]
      {
        JoinParses(g, g', cover', g[s].alts[t'.alt][k], t'.kids[k]);
      }
      assert Split(g, g', cover', s, Join(g, t')).kids == t'.kids;
    }
  }

  /** For every symbol the grammar had, its parses afterwards are its parses before, one for
      one and over the same bytes. */
  lemma ParsesCorrespond(g: Grammar, g': Grammar, cover': Cover, s: Symbol, t: Tree, t': Tree)
    requires Refines(g, g', cover') && Complete(g) && s in g
    ensures (Parses(g, s, t) && Split(g, g', cover', s, t) == t') <==> (Parses(g', s, t') && Join(g, t') == t)
    ensures Parses(g, s, t) && Split(g, g', cover', s, t) == t' ==> Yield(t') == Yield(t)
  {
    if Parses(g, s, t) { SplitParses(g, g', cover', s, t); }
    if Parses(g', s, t') { JoinParses(g, g', cover', s, t'); }
  }
}
