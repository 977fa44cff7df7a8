/** What the precedence rewrite means: the parse trees of the levelled grammar
    are, one for one and with the same yield, the parse trees of the original
    grammar in which every operand is as tight as its position demands. */
module PrecedenceTrees {
  import opened Precedence

  // A node names its symbol and which of that symbol's alternatives it uses.
  datatype Tree = Token(sym: Symbol) | Node(lhs: Symbol, alt: nat, kids: seq<Tree>)

  ghost predicate Derives(tokens: set<Symbol>, rules: Rules, sym: Symbol, t: Tree)
    decreases t
  {
    match t
    case Token(s) => s == sym && s in tokens
    case Node(l, i, kids) =>
      && l == sym && i < |Lookup(rules, sym)| && |kids| == |Lookup(rules, sym)[i].rhs|
      && forall k :: 0 <= k < |kids| ==> Derives(tokens, rules, Lookup(rules, sym)[i].rhs[k], kids[k])
  }

  function Yield(t: Tree): seq<Symbol> {
    match t
    case Token(s) => [s]
    case Node(_, _, kids) => YieldAll(kids)
  }

  function YieldAll(ts: seq<Tree>): seq<Symbol> {
    if ts == [] then [] else Yield(ts[0]) + YieldAll(ts[1..])
  }

  // The rewrite of one symbol: the grammar before (rules) and after (rules').
  datatype Rewrite = Rewrite(layer: Layer, tokens: set<Symbol>, rules: Rules, lhs: Symbol, min: int, rules': Rules) {
    ghost predicate Valid() {
      && Rewritable(rules, lhs, min) && IsRewritten(layer, rules, lhs, min, rules')
      && lhs !in tokens && forall n :: Level(lhs, n) !in tokens
    }

    ghost function Placed(): seq<Placed>
      requires Valid()
    {
      PlaceAll(layer, lhs, min, rules[lhs])
    }

    predicate IsLevel(s: Symbol) { s.Level? && s.base == lhs }
  }

  // ----- Where an alternative ends up -----------------------------------------

  // The number of alternatives before i that share its level.
  function Rank(alts: seq<Alter>, i: nat, x: int): nat
    requires i <= |alts|
  {
    if i == 0 then 0 else Rank(alts, i - 1, x) + if alts[i - 1].precedence == x then 1 else 0
  }

  function BaseSize(x: int): nat { if x < 0 then 1 else 0 }

  lemma {:induction false} AtLevelPrefix(ps: seq<Placed>, x: int, i: nat)
    requires i <= |ps|
    ensures AtLevel(ps[..i], x) <= AtLevel(ps, x)
    decreases |ps|
  {
    if i < |ps| {
      AtLevelPrefix(ps[..|ps| - 1], x, i);
      assert ps[..|ps| - 1][..i] == ps[..i];
    } else {
      assert ps[..i] == ps;
    }
  }

  lemma {:induction false} RankIsLength(r: Rewrite, i: nat, x: int)
    requires r.Valid() && i <= |r.rules[r.lhs]|
    ensures |AtLevel(r.Placed()[..i], x)| == Rank(r.rules[r.lhs], i, x)
  {
    if i > 0 {
      RankIsLength(r, i - 1, x);
      assert r.Placed()[..i][..i - 1] == r.Placed()[..i - 1];
    }
  }

  // The rule that alternative i became sits behind the spine rule, at its rank.
  lemma RankFinds(r: Rewrite, i: nat)
    requires r.Valid() && i < |r.rules[r.lhs]|
    ensures var alt := r.rules[r.lhs][i];
            var x := alt.precedence;
            var at := BaseSize(x) + Rank(r.rules[r.lhs], i, x);
            var there := Lookup(r.rules', S(r.lhs, x));
            at < |there| && there[at] == LevelAlter(r.layer, r.lhs, r.min, alt)
  {
    hide IsRewritten, Rewritable, LevelRhs, Expected;
    var ps := r.Placed();
    var x := ps[i].level;
    LevelRules(r, x);
    RankIsLength(r, i, x);
    RankIsLength(r, i + 1, x);
    AtLevelPrefix(ps, x, i + 1);
    assert ps[..i + 1][..i] == ps[..i];
    assert AtLevel(ps[..i + 1], x) == AtLevel(ps[..i], x) + [ps[i].alt];
  }

  lemma LevelRules(r: Rewrite, x: int)
    requires r.Valid() && r.min <= x <= 0
    ensures Lookup(r.rules', S(r.lhs, x)) == Base(r.layer, r.lhs, x) + AtLevel(r.Placed(), x)
  {
    assert Lookup(r.rules', S(r.lhs, x)) == Expected(r.layer, r.rules, r.lhs, r.min, -r.min, r.Placed(), S(r.lhs, x));
    ExpectedLevel(r.layer, r.rules, r.lhs, r.min, r.Placed(), x);
  }

  // The alternative whose rule has rank j at level x.
  function Origin(alts: seq<Alter>, n: nat, x: int, j: nat): (i: nat)
    requires n <= |alts| && j < Rank(alts, n, x)
    ensures i < n && alts[i].precedence == x && Rank(alts, i, x) == j
  {
    if alts[n - 1].precedence == x && j == Rank(alts, n - 1, x) then n - 1 else Origin(alts, n - 1, x, j)
  }

  lemma {:induction false} OriginOfRank(alts: seq<Alter>, n: nat, i: nat)
    requires i < n <= |alts|
    ensures var x := alts[i].precedence;
            Rank(alts, i, x) < Rank(alts, n, x) && Origin(alts, n, x, Rank(alts, i, x)) == i
  {
    if i < n - 1 {
      OriginOfRank(alts, n - 1, i);
    }
  }

  // ----- The two translations --------------------------------------------------

  ghost function RootLevel(r: Rewrite, t: Tree): int
    requires r.Valid() && Derives(r.tokens, r.rules, r.lhs, t)
  {
    r.rules[r.lhs][t.alt].precedence
  }

  // Every direct operand of every node is at least as tight as its position demands.
  ghost predicate Admissible(r: Rewrite, sym: Symbol, t: Tree)
    requires r.Valid() && Derives(r.tokens, r.rules, sym, t)
    decreases t
  {
    match t
    case Token(_) => true
    case Node(_, i, kids) =>
      var alt := Lookup(r.rules, sym)[i];
      && (forall k :: 0 <= k < |kids| ==> Admissible(r, alt.rhs[k], kids[k]))
      && (sym == r.lhs ==> forall k :: 0 <= k < |kids| && alt.rhs[k] == r.lhs ==>
            Demand(r.lhs, r.min, alt, k) <= RootLevel(r, kids[k]))
  }

  ghost predicate Good(r: Rewrite, sym: Symbol, t: Tree)
    requires r.Valid()
  {
    Derives(r.tokens, r.rules, sym, t) && Admissible(r, sym, t)
  }

  // The levelled tree of an original tree; an lhs node is entered through E ::= E[K].
  ghost function Lower(r: Rewrite, sym: Symbol, t: Tree): Tree
    requires r.Valid() && Good(r, sym, t)
    decreases t, 1, 0
  {
    match t
    case Token(s) => Token(s)
    case Node(_, i, kids) =>
      if sym == r.lhs then Node(sym, 0, [LowerAt(r, t, r.min)])
      else Node(sym, i, seq(|kids|, k requires 0 <= k < |kids| => Lower(r, Lookup(r.rules, sym)[i].rhs[k], kids[k])))
  }

  // The tree of t below E[x]: down the spine to its own level, then its levelled rule.
  ghost function LowerAt(r: Rewrite, t: Tree, x: int): Tree
    requires r.Valid() && Good(r, r.lhs, t) && r.min <= x <= RootLevel(r, t)
    decreases t, 0, -x
  {
    var alt := r.rules[r.lhs][t.alt];
    if x < alt.precedence then Node(S(r.lhs, x), 0, [LowerAt(r, t, x + 1)])
    else
      Node(S(r.lhs, x), BaseSize(x) + Rank(r.rules[r.lhs], t.alt, x),
           seq(|t.kids|, k requires 0 <= k < |t.kids| =>
             if alt.rhs[k] == r.lhs then LowerAt(r, t.kids[k], Demand(r.lhs, r.min, alt, k))
             else Lower(r, alt.rhs[k], t.kids[k])))
  }

  // Back again: drop the ground and spine steps, and turn levelled rules into their origins.
  ghost function Raise(r: Rewrite, t: Tree): Tree
    requires r.Valid()
    decreases t
  {
    match t
    case Token(s) => Token(s)
    case Node(sym, j, kids) =>
      if sym == r.lhs then (if |kids| == 1 then Raise(r, kids[0]) else t)
      else if r.IsLevel(sym) then
        var x := -(sym.depth as int);
        if j < BaseSize(x) then (if |kids| == 1 then Raise(r, kids[0]) else t)
        else if j - BaseSize(x) < Rank(r.rules[r.lhs], |r.rules[r.lhs]|, x) then
          Node(r.lhs, Origin(r.rules[r.lhs], |r.rules[r.lhs]|, x, j - BaseSize(x)), RaiseAll(r, kids))
        else t
      else Node(sym, j, RaiseAll(r, kids))
  }

  ghost function RaiseAll(r: Rewrite, ts: seq<Tree>): (us: seq<Tree>)
    requires r.Valid()
    ensures |us| == |ts| && forall k :: 0 <= k < |ts| ==> us[k] == Raise(r, ts[k])
    decreases ts
  {
    if ts == [] then [] else [Raise(r, ts[0])] + RaiseAll(r, ts[1..])
  }

  // ----- From original trees to levelled trees ------------------------------------

  lemma OldRules(r: Rewrite, sym: Symbol)
    requires r.Valid() && !r.IsLevel(sym)
    ensures sym != r.lhs ==> Lookup(r.rules', sym) == Lookup(r.rules, sym)
    ensures sym == r.lhs ==> Lookup(r.rules', sym) == [StepAlter(r.layer, S(r.lhs, r.min))]
    ensures forall i, k :: 0 <= i < |Lookup(r.rules, sym)| && 0 <= k < |Lookup(r.rules, sym)[i].rhs| ==>
              !r.IsLevel(Lookup(r.rules, sym)[i].rhs[k])
  {
    assert Lookup(r.rules', sym) == Expected(r.layer, r.rules, r.lhs, r.min, -r.min, r.Placed(), sym);
    forall i, k | 0 <= i < |Lookup(r.rules, sym)| && 0 <= k < |Lookup(r.rules, sym)[i].rhs|
      ensures !r.IsLevel(Lookup(r.rules, sym)[i].rhs[k])
    {
      var a := Lookup(r.rules, sym)[i];
      assert a in r.rules[sym] && a.rhs[k] in a.rhs;
    }
  }

  lemma {:induction false} LowerDerives(r: Rewrite, sym: Symbol, t: Tree)
    requires r.Valid() && Good(r, sym, t) && !r.IsLevel(sym)
    ensures Derives(r.tokens, r.rules', sym, Lower(r, sym, t))
    decreases t, 1, 0
  {
    OldRules(r, sym);
    if t.Node? {
      if sym == r.lhs {
        LowerAtDerives(r, t, r.min);
      } else {
        forall k | 0 <= k < |t.kids| ensures
          Derives(r.tokens, r.rules', Lookup(r.rules, sym)[t.alt].rhs[k], Lower(r, sym, t).kids[k])
        {
          LowerDerives(r, Lookup(r.rules, sym)[t.alt].rhs[k], t.kids[k]);
        }
      }
    }
  }

  lemma {:induction false} LevelNodeDerives(r: Rewrite, i: nat, kids: seq<Tree>)
    requires r.Valid() && i < |r.rules[r.lhs]|
    requires var rhs := LevelRhs(r.lhs, r.min, r.rules[r.lhs][i]);
             |kids| == |rhs| && forall k :: 0 <= k < |kids| ==> Derives(r.tokens, r.rules', rhs[k], kids[k])
    ensures var x := r.rules[r.lhs][i].precedence;
            Derives(r.tokens, r.rules', S(r.lhs, x), Node(S(r.lhs, x), BaseSize(x) + Rank(r.rules[r.lhs], i, x), kids))
  {
    hide IsRewritten, FreshLevels, Distinct, Rank, LevelRhs;
    RankFinds(r, i);
  }

  lemma {:induction false} SpineNodeDerives(r: Rewrite, x: int, t: Tree)
    requires r.Valid() && r.min <= x < 0 && Derives(r.tokens, r.rules', S(r.lhs, x + 1), t)
    ensures Derives(r.tokens, r.rules', S(r.lhs, x), Node(S(r.lhs, x), 0, [t]))
  {
    LevelRules(r, x);
  }

  lemma {:induction false} LowerAtDerives(r: Rewrite, t: Tree, x: int)
    requires r.Valid() && Good(r, r.lhs, t) && r.min <= x <= RootLevel(r, t)
    ensures Derives(r.tokens, r.rules', S(r.lhs, x), LowerAt(r, t, x))
    decreases t, 0, -x
  {
    hide IsRewritten, FreshLevels, Distinct;
    var alt := r.rules[r.lhs][t.alt];
    if x < alt.precedence {
      LowerAtDerives(r, t, x + 1);
      SpineNodeDerives(r, x, LowerAt(r, t, x + 1));
    } else {
      OldRules(r, r.lhs);
      var kids := LowerAt(r, t, x).kids;
      forall k | 0 <= k < |t.kids| ensures Derives(r.tokens, r.rules', LevelRhs(r.lhs, r.min, alt)[k], kids[k]) {
        if alt.rhs[k] == r.lhs {
          LowerAtDerives(r, t.kids[k], Demand(r.lhs, r.min, alt, k));
        } else {
          LowerDerives(r, alt.rhs[k], t.kids[k]);
        }
      }
      LevelNodeDerives(r, t.alt, kids);
    }
  }

  lemma {:induction false} YieldAllEqual(ts: seq<Tree>, us: seq<Tree>)
    requires |ts| == |us| && forall k :: 0 <= k < |ts| ==> Yield(ts[k]) == Yield(us[k])
    ensures YieldAll(ts) == YieldAll(us)
  {
    if ts != [] {
      YieldAllEqual(ts[1..], us[1..]);
    }
  }

  lemma YieldOne(t: Tree)
    ensures YieldAll([t]) == Yield(t)
  {
    assert [t][1..] == [];
  }

  lemma {:induction false} LowerYield(r: Rewrite, sym: Symbol, t: Tree)
    requires r.Valid() && Good(r, sym, t)
    ensures Yield(Lower(r, sym, t)) == Yield(t)
    decreases t, 1, 0
  {
    if t.Node? {
      if sym == r.lhs {
        LowerAtYield(r, t, r.min);
        YieldOne(LowerAt(r, t, r.min));
      } else {
        forall k | 0 <= k < |t.kids| ensures Yield(Lower(r, sym, t).kids[k]) == Yield(t.kids[k]) {
          LowerYield(r, Lookup(r.rules, sym)[t.alt].rhs[k], t.kids[k]);
        }
        YieldAllEqual(Lower(r, sym, t).kids, t.kids);
      }
    }
  }

  lemma {:induction false} LowerAtYield(r: Rewrite, t: Tree, x: int)
    requires r.Valid() && Good(r, r.lhs, t) && r.min <= x <= RootLevel(r, t)
    ensures Yield(LowerAt(r, t, x)) == Yield(t)
    decreases t, 0, -x
  {
    var alt := r.rules[r.lhs][t.alt];
    if x < alt.precedence {
      LowerAtYield(r, t, x + 1);
      YieldOne(LowerAt(r, t, x + 1));
    } else {
      forall k | 0 <= k < |t.kids| ensures Yield(LowerAt(r, t, x).kids[k]) == Yield(t.kids[k]) {
        if alt.rhs[k] == r.lhs {
          LowerAtYield(r, t.kids[k], Demand(r.lhs, r.min, alt, k));
        } else {
          LowerYield(r, alt.rhs[k], t.kids[k]);
        }
      }
      YieldAllEqual(LowerAt(r, t, x).kids, t.kids);
    }
  }

  lemma {:induction false} RaiseLower(r: Rewrite, sym: Symbol, t: Tree)
    requires r.Valid() && Good(r, sym, t) && !r.IsLevel(sym)
    ensures Raise(r, Lower(r, sym, t)) == t
    decreases t, 1, 0
  {
    OldRules(r, sym);
    if t.Node? {
      if sym == r.lhs {
        RaiseLowerAt(r, t, r.min);
      } else {
        forall k | 0 <= k < |t.kids| ensures Raise(r, Lower(r, sym, t).kids[k]) == t.kids[k] {
          RaiseLower(r, Lookup(r.rules, sym)[t.alt].rhs[k], t.kids[k]);
        }
        assert RaiseAll(r, Lower(r, sym, t).kids) == t.kids;
      }
    }
  }

  lemma {:induction false} LevelNodeRaises(r: Rewrite, i: nat, kids: seq<Tree>)
    requires r.Valid() && i < |r.rules[r.lhs]|
    ensures var x := r.rules[r.lhs][i].precedence;
            Raise(r, Node(S(r.lhs, x), BaseSize(x) + Rank(r.rules[r.lhs], i, x), kids)) == Node(r.lhs, i, RaiseAll(r, kids))
  {
    hide IsRewritten, FreshLevels, Distinct, RaiseAll;
    var alts := r.rules[r.lhs];
    var x := alts[i].precedence;
    LevelIsNew(r.lhs, -x);
    OriginOfRank(alts, |alts|, i);
    hide Rank, Origin;
    var t := Node(S(r.lhs, x), BaseSize(x) + Rank(alts, i, x), kids);
    assert r.IsLevel(t.lhs) && t.lhs != r.lhs && -(t.lhs.depth as int) == x;
  }

  lemma {:induction false} SpineNodeRaises(r: Rewrite, x: int, t: Tree)
    requires r.Valid() && r.min <= x < 0
    ensures Raise(r, Node(S(r.lhs, x), 0, [t])) == Raise(r, t)
  {
    hide IsRewritten, FreshLevels, Distinct;
    LevelIsNew(r.lhs, -x);
  }

  lemma {:induction false} RaiseLowerAt(r: Rewrite, t: Tree, x: int)
    requires r.Valid() && Good(r, r.lhs, t) && r.min <= x <= RootLevel(r, t)
    ensures Raise(r, LowerAt(r, t, x)) == t
    decreases t, 0, -x
  {
    hide IsRewritten, FreshLevels, Distinct, Raise, Rank;
    var alt := r.rules[r.lhs][t.alt];
    if x < alt.precedence {
      RaiseLowerAt(r, t, x + 1);
      SpineNodeRaises(r, x, LowerAt(r, t, x + 1));
    } else {
      OldRules(r, r.lhs);
      var kids := LowerAt(r, t, x).kids;
      forall k | 0 <= k < |t.kids| ensures Raise(r, kids[k]) == t.kids[k] {
        if alt.rhs[k] == r.lhs {
          RaiseLowerAt(r, t.kids[k], Demand(r.lhs, r.min, alt, k));
        } else {
          RaiseLower(r, alt.rhs[k], t.kids[k]);
        }
      }
      assert RaiseAll(r, kids) == t.kids;
      LevelNodeRaises(r, t.alt, kids);
    }
  }

  // ----- From levelled trees to original trees ------------------------------------

  ghost predicate Returns(r: Rewrite, sym: Symbol, t: Tree)
    requires r.Valid()
  {
    var u := Raise(r, t);
    Good(r, sym, u) && Lower(r, sym, u) == t
  }

  ghost predicate ReturnsAt(r: Rewrite, x: int, t: Tree)
    requires r.Valid()
  {
    var u := Raise(r, t);
    Good(r, r.lhs, u) && r.min <= x <= RootLevel(r, u) && LowerAt(r, u, x) == t
  }

  lemma {:induction false} RaiseReturns(r: Rewrite, sym: Symbol, t: Tree)
    requires r.Valid() && !r.IsLevel(sym) && Derives(r.tokens, r.rules', sym, t)
    ensures Returns(r, sym, t)
    decreases t, 0
  {
    OldRules(r, sym);
    if t.Node? {
      if sym == r.lhs {
        assert t.kids == [t.kids[0]];
        RaiseReturnsAt(r, r.min, t.kids[0]);
      } else {
        var alt := Lookup(r.rules, sym)[t.alt];
        forall k | 0 <= k < |t.kids| ensures Returns(r, alt.rhs[k], t.kids[k]) {
          RaiseReturns(r, alt.rhs[k], t.kids[k]);
        }
        assert Lower(r, sym, Raise(r, t)).kids == t.kids;
      }
    }
  }

  lemma {:induction false} RaiseReturnsAt(r: Rewrite, x: int, t: Tree)
    requires r.Valid() && r.min <= x <= 0 && Derives(r.tokens, r.rules', S(r.lhs, x), t)
    ensures ReturnsAt(r, x, t)
    decreases t, 0
  {
    if t.Token? {
      assert false;
    } else if t.alt < BaseSize(x) {
      SpineNode(r, x, t);
      RaiseReturnsAt(r, x + 1, t.kids[0]);
    } else {
      var i := OriginOfNode(r, x, t);
      var alt := r.rules[r.lhs][i];
      forall k | 0 <= k < |t.kids| ensures KidReturns(r, alt, k, t.kids[k]) {
        KidReturn(r, i, k, t.kids[k]);
      }
      LevelNodeReturns(r, x, i, t);
    }
  }

  lemma {:induction false} KidReturn(r: Rewrite, i: nat, k: nat, t: Tree)
    requires r.Valid() && i < |r.rules[r.lhs]| && k < |r.rules[r.lhs][i].rhs|
    requires Derives(r.tokens, r.rules', LevelRhs(r.lhs, r.min, r.rules[r.lhs][i])[k], t)
    ensures KidReturns(r, r.rules[r.lhs][i], k, t)
    decreases t, 1
  {
    var alt := r.rules[r.lhs][i];
    OldRules(r, r.lhs);
    assert alt == Lookup(r.rules, r.lhs)[i];
    if alt.rhs[k] == r.lhs {
      RaiseReturnsAt(r, Demand(r.lhs, r.min, alt, k), t);
    } else {
      RaiseReturns(r, alt.rhs[k], t);
    }
  }

  ghost predicate KidReturns(r: Rewrite, alt: Alter, k: nat, t: Tree)
    requires r.Valid() && r.min <= alt.precedence <= 0 && k < |alt.rhs|
  {
    if alt.rhs[k] == r.lhs then ReturnsAt(r, Demand(r.lhs, r.min, alt, k), t) else Returns(r, alt.rhs[k], t)
  }

  lemma {:induction false} SpineNode(r: Rewrite, x: int, t: Tree)
    requires r.Valid() && r.min <= x <= 0 && Derives(r.tokens, r.rules', S(r.lhs, x), t) && t.Node? && t.alt < BaseSize(x)
    ensures |t.kids| == 1 && t == Node(S(r.lhs, x), 0, [t.kids[0]])
    ensures Derives(r.tokens, r.rules', S(r.lhs, x + 1), t.kids[0])
    ensures Raise(r, t) == Raise(r, t.kids[0])
  {
    LevelRules(r, x);
    LevelIsNew(r.lhs, -x);
  }

  // A level holds its spine rule, and a rule for every alternative of it.
  lemma {:induction false} LevelSize(r: Rewrite, x: int)
    requires r.Valid() && r.min <= x <= 0
    ensures |Lookup(r.rules', S(r.lhs, x))| == BaseSize(x) + Rank(r.rules[r.lhs], |r.rules[r.lhs]|, x)
  {
    hide IsRewritten, FreshLevels, Expected, Distinct;
    LevelRules(r, x);
    RankIsLength(r, |r.rules[r.lhs]|, x);
    assert r.Placed()[..|r.rules[r.lhs]|] == r.Placed();
  }

  lemma {:induction false} OriginOfNode(r: Rewrite, x: int, t: Tree) returns (i: nat)
    requires r.Valid() && r.min <= x <= 0 && Derives(r.tokens, r.rules', S(r.lhs, x), t)
    requires t.Node? && BaseSize(x) <= t.alt
    ensures i < |r.rules[r.lhs]| && r.rules[r.lhs][i].precedence == x
    ensures t.alt == BaseSize(x) + Rank(r.rules[r.lhs], i, x)
    ensures Raise(r, t) == Node(r.lhs, i, RaiseAll(r, t.kids))
    ensures |t.kids| == |r.rules[r.lhs][i].rhs|
    ensures forall k :: 0 <= k < |t.kids| ==>
              Derives(r.tokens, r.rules', LevelRhs(r.lhs, r.min, r.rules[r.lhs][i])[k], t.kids[k])
  {
    hide IsRewritten, FreshLevels, Expected, Distinct, AtLevel, PlaceAll, Base;
    var alts := r.rules[r.lhs];
    LevelSize(r, x);
    LevelIsNew(r.lhs, -x);
    i := Origin(alts, |alts|, x, t.alt - BaseSize(x));
    RankFinds(r, i);
  }

  lemma {:induction false} LevelNodeReturns(r: Rewrite, x: int, i: nat, t: Tree)
    requires r.Valid() && r.min <= x <= 0 && t.Node? && t.lhs == S(r.lhs, x) && i < |r.rules[r.lhs]| && r.rules[r.lhs][i].precedence == x
    requires t.alt == BaseSize(x) + Rank(r.rules[r.lhs], i, x)
    requires Raise(r, t) == Node(r.lhs, i, RaiseAll(r, t.kids))
    requires |t.kids| == |r.rules[r.lhs][i].rhs|
    requires forall k :: 0 <= k < |t.kids| ==> KidReturns(r, r.rules[r.lhs][i], k, t.kids[k])
    ensures ReturnsAt(r, x, t)
  {
    var u := Raise(r, t);
    assert Good(r, r.lhs, u);
    assert LowerAt(r, u, x).kids == t.kids;
  }

  /** Trees of the levelled grammar are exactly the admissible original trees, one for one. */
  lemma TreesCorrespond(r: Rewrite, sym: Symbol, t: Tree, t': Tree)
    requires r.Valid() && !r.IsLevel(sym)
    ensures (Good(r, sym, t) && Lower(r, sym, t) == t') <==> (Derives(r.tokens, r.rules', sym, t') && Raise(r, t') == t)
    ensures Good(r, sym, t) && Lower(r, sym, t) == t' ==> Yield(t') == Yield(t)
  {
    if Good(r, sym, t) && Lower(r, sym, t) == t' {
      LowerDerives(r, sym, t);
      LowerYield(r, sym, t);
      RaiseLower(r, sym, t);
    }
    if Derives(r.tokens, r.rules', sym, t') {
      RaiseReturns(r, sym, t');
    }
  }
}
