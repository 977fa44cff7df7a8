/** The rewrite of a whole grammar: all symbols that need it, one after the other. */
module PrecedenceGrammar {
  import opened Precedence
  import opened PrecedenceTrees

  // The loosest precedence among the alternatives.
  function MinPrecedence(alts: seq<Alter>): (min: int)
    ensures min <= 0 && forall a <- alts :: min <= a.precedence
  {
    if alts == [] then 0
    else
      var m, p := MinPrecedence(alts[..|alts| - 1]), alts[|alts| - 1].precedence;
      assert forall a <- alts :: a in alts[..|alts| - 1] || a == alts[|alts| - 1];
      if p < m then p else m
  }

  predicate Recursive(lhs: Symbol, alts: seq<Alter>) {
    exists a <- alts :: lhs in a.rhs
  }

  // Symbols with a range of precedences that refer to themselves are rewritten.
  predicate Qualifies(rules: Rules, s: Symbol) {
    MinPrecedence(Lookup(rules, s)) != 0 && Recursive(s, Lookup(rules, s))
  }

  // The grammar as the container takes it, before any rewrite.
  ghost predicate Plain(rules: Rules) {
    && (forall s :: s in rules ==> !s.Level?)
    && (forall s, a :: a in Lookup(rules, s) ==> a.precedence <= 0 && forall b, n :: Level(b, n) !in a.rhs)
    && (forall s :: Distinct(Lookup(rules, s)))
  }

  ghost predicate GoodAssocs(rules: Rules, s: Symbol) {
    forall a <- Lookup(rules, s) :: GoodAssoc(a)
  }

  lemma PlainInRange(rules: Rules, s: Symbol)
    requires Plain(rules)
    ensures InRange(MinPrecedence(Lookup(rules, s)), Lookup(rules, s))
  {
  }

  // ----- The commands ----------------------------------------------------------------------

  // Of the symbols given, those to rewrite, in order.
  function Selected(rules: Rules, syms: seq<Symbol>): seq<Symbol> {
    if syms == [] then []
    else Selected(rules, syms[..|syms| - 1]) + if Qualifies(rules, syms[|syms| - 1]) then [syms[|syms| - 1]] else []
  }

  ghost function CommandsFor(layer: Layer, rules: Rules, s: Symbol): seq<Command>
    requires Plain(rules)
  {
    PlainInRange(rules, s);
    Commands(layer, s, MinPrecedence(Lookup(rules, s)), Lookup(rules, s))
  }

  ghost function AllCommands(layer: Layer, rules: Rules, lhss: seq<Symbol>): seq<Command>
    requires Plain(rules)
  {
    if lhss == [] then []
    else AllCommands(layer, rules, lhss[..|lhss| - 1]) + CommandsFor(layer, rules, lhss[|lhss| - 1])
  }

  lemma AllCommandsStep(layer: Layer, rules: Rules, lhss: seq<Symbol>, s: Symbol)
    requires Plain(rules)
    ensures AllCommands(layer, rules, lhss + [s]) == AllCommands(layer, rules, lhss) + CommandsFor(layer, rules, s)
  {
    assert (lhss + [s])[..|lhss|] == lhss;
  }

  // One symbol.
  method RewriteSymbol(layer: Layer, rules: Rules, sym: Symbol) returns (res: Result<seq<Command>>)
    requires Plain(rules)
    ensures res.Success? <==> (Qualifies(rules, sym) ==> GoodAssocs(rules, sym))
    ensures res.Success? ==> res.value == if Qualifies(rules, sym) then CommandsFor(layer, rules, sym) else []
  {
    hide Commands;
    var min := MinPrecedence(Lookup(rules, sym));
    if min == 0 { return Success([]); }
    if !Recursive(sym, Lookup(rules, sym)) { return Success([]); }
    PlainInRange(rules, sym);
    res := Rewrite1(layer, sym, min, Lookup(rules, sym));
  }

  // The commands of all symbols that need a rewrite; fails if one has an unknown association.
  method RewriteLayer(layer: Layer, rules: Rules, syms: seq<Symbol>) returns (res: Result<seq<Command>>)
    requires Plain(rules)
    ensures res.Success? <==> forall s <- Selected(rules, syms) :: GoodAssocs(rules, s)
    ensures res.Success? ==> res.value == AllCommands(layer, rules, Selected(rules, syms))
  {
    hide CommandsFor, AllCommands, Plain, GoodAssocs, Qualifies, Selected;
    var commands: seq<Command> := [];
    NothingSelected(layer, rules);
    assert syms[..0] == [];
    for i := 0 to |syms|
      invariant commands == AllCommands(layer, rules, Selected(rules, syms[..i]))
      invariant forall s <- Selected(rules, syms[..i]) :: GoodAssocs(rules, s)
    {
      SelectedStep(rules, syms, i);
      AllCommandsStep(layer, rules, Selected(rules, syms[..i]), syms[i]);
      var more := RewriteSymbol(layer, rules, syms[i]);
      if more.Failure? {
        SelectedPrefix(rules, syms, i + 1);
        assert syms[i] in Selected(rules, syms[..i + 1]);
        return Failure(more.error);
      }
      assert !Qualifies(rules, syms[i]) ==> commands + more.value == commands;
      commands := commands + more.value;
    }
    assert syms[..|syms|] == syms;
    return Success(commands);
  }

  lemma NothingSelected(layer: Layer, rules: Rules)
    requires Plain(rules)
    ensures Selected(rules, []) == [] && AllCommands(layer, rules, []) == []
  {
  }

  lemma SelectedStep(rules: Rules, syms: seq<Symbol>, i: nat)
    requires i < |syms|
    ensures Selected(rules, syms[..i + 1]) ==
            if Qualifies(rules, syms[i]) then Selected(rules, syms[..i]) + [syms[i]] else Selected(rules, syms[..i])
  {
    assert syms[..i + 1][..i] == syms[..i];
  }

  lemma {:induction false} SelectedPrefix(rules: Rules, syms: seq<Symbol>, i: nat)
    requires i <= |syms|
    ensures forall s <- Selected(rules, syms[..i]) :: s in Selected(rules, syms)
    decreases |syms| - i
  {
    if i < |syms| {
      SelectedStep(rules, syms, i);
      SelectedPrefix(rules, syms, i + 1);
    } else {
      assert syms[..i] == syms;
    }
  }

  // ----- The container taking them -------------------------------------------------------------

  // What the rewrite of lhs gives a symbol.
  ghost function OwnHeld(layer: Layer, rules: Rules, lhs: Symbol, s: Symbol): seq<Alter>
    requires Plain(rules)
  {
    PlainInRange(rules, lhs);
    var min := MinPrecedence(Lookup(rules, lhs));
    Expected(layer, rules, lhs, min, -min, PlaceAll(layer, lhs, min, Lookup(rules, lhs)), s)
  }

  function BaseOf(s: Symbol): Symbol { if s.Level? then s.base else s }

  // What a symbol holds once the symbols done were rewritten.
  ghost function Held(layer: Layer, rules: Rules, done: seq<Symbol>, s: Symbol): seq<Alter>
    requires Plain(rules)
  {
    if BaseOf(s) in done then OwnHeld(layer, rules, BaseOf(s), s) else Lookup(rules, s)
  }

  ghost predicate RewrittenUpTo(layer: Layer, rules: Rules, done: seq<Symbol>, rules': Rules)
    requires Plain(rules)
  {
    forall s :: Lookup(rules', s) == Held(layer, rules, done, s)
  }

  // The rewrite of one more symbol in the grammar so far.
  lemma NextRewritable(layer: Layer, rules: Rules, done: seq<Symbol>, r: Rules, s: Symbol)
    requires Plain(rules) && RewrittenUpTo(layer, rules, done, r)
    requires Qualifies(rules, s) && GoodAssocs(rules, s) && s !in done && !s.Level?
    ensures Lookup(r, s) == Lookup(rules, s) && Rewritable(r, s, MinPrecedence(Lookup(rules, s)))
  {
    assert Lookup(r, s) == Held(layer, rules, done, s);
    PlainInRange(rules, s);
    forall n ensures Lookup(r, Level(s, n)) == [] {
      assert Lookup(r, Level(s, n)) == Held(layer, rules, done, Level(s, n));
    }
    forall t, n | true ensures forall a <- Lookup(r, t) :: Level(s, n) !in a.rhs {
      assert Lookup(r, t) == Held(layer, rules, done, t);
      HeldFree(layer, rules, done, t, s, n);
    }
  }

  // What was rewritten names no levels but its own.
  lemma HeldFree(layer: Layer, rules: Rules, done: seq<Symbol>, t: Symbol, s: Symbol, n: nat)
    requires Plain(rules) && s !in done
    ensures forall a <- Held(layer, rules, done, t) :: Level(s, n) !in a.rhs
  {
    var base := BaseOf(t);
    if base in done {
      PlainInRange(rules, base);
      var min := MinPrecedence(Lookup(rules, base));
      ExpectedFree(layer, rules, base, min, t, s, n);
    }
  }

  lemma ExpectedFree(layer: Layer, rules: Rules, lhs: Symbol, min: int, t: Symbol, s: Symbol, n: nat)
    requires Plain(rules) && s != lhs && min <= 0 && InRange(min, Lookup(rules, lhs))
    requires t == lhs || (t.Level? && t.base == lhs)
    ensures forall a <- Expected(layer, rules, lhs, min, -min, PlaceAll(layer, lhs, min, Lookup(rules, lhs)), t) ::
              Level(s, n) !in a.rhs
  {
    var ps := PlaceAll(layer, lhs, min, Lookup(rules, lhs));
    forall a | a in Expected(layer, rules, lhs, min, -min, ps, t) ensures Level(s, n) !in a.rhs {
      if t != lhs && a in AtLevel(ps, -(t.depth as int)) {
        var i := AtLevelMember(ps, -(t.depth as int), a);
        var alt := Lookup(rules, lhs)[i];
        assert alt in Lookup(rules, lhs) && a.rhs == LevelRhs(lhs, min, alt);
      }
    }
  }

  lemma NextHeld(layer: Layer, rules: Rules, done: seq<Symbol>, r: Rules, s: Symbol, r': Rules)
    requires Plain(rules) && RewrittenUpTo(layer, rules, done, r) && s !in done && !s.Level?
    requires Lookup(r, s) == Lookup(rules, s) && Rewritable(r, s, MinPrecedence(Lookup(rules, s)))
    requires IsRewritten(layer, r, s, MinPrecedence(Lookup(rules, s)), r')
    ensures RewrittenUpTo(layer, rules, done + [s], r')
  {
    forall t ensures Lookup(r', t) == Held(layer, rules, done + [s], t) {
      NextOwn(layer, rules, r, s, r', t);
      assert Lookup(r, t) == Held(layer, rules, done, t);
      hide OwnHeld, Lookup, Plain, Rewritable, MinPrecedence, IsRewritten;
      assert BaseOf(t) in done + [s] <==> BaseOf(t) in done || BaseOf(t) == s;
    }
  }

  lemma NextOwn(layer: Layer, rules: Rules, r: Rules, s: Symbol, r': Rules, t: Symbol)
    requires Plain(rules) && !s.Level? && Lookup(r, s) == Lookup(rules, s)
    requires Rewritable(r, s, MinPrecedence(Lookup(rules, s))) && IsRewritten(layer, r, s, MinPrecedence(Lookup(rules, s)), r')
    ensures Lookup(r', t) == if BaseOf(t) == s then OwnHeld(layer, rules, s, t) else Lookup(r, t)
  {
    PlainInRange(rules, s);
    hide AtLevel, Base, PlaceAll, MinPrecedence, Plain, InRange;
    var min := MinPrecedence(Lookup(rules, s));
    assert Lookup(r', t) == Expected(layer, r, s, min, -min, PlaceAll(layer, s, min, Lookup(rules, s)), t);
  }

  lemma {:induction false} ApplyPlus(rules: Rules, a: seq<Command>, b: seq<Command>)
    ensures ApplyAll(rules, a + b) ==
            match ApplyAll(rules, a) case Success(r) => ApplyAll(r, b) case Failure(e) => Failure(e)
  {
    if b == [] {
      assert a + b == a;
    } else {
      ApplyPlus(rules, a, b[..|b| - 1]);
      assert (a + b)[..|a + b| - 1] == a + b[..|b| - 1];
    }
  }

  // The symbols are ones to rewrite, each once.
  ghost predicate ToRewrite(rules: Rules, lhss: seq<Symbol>) {
    && (forall i :: 0 <= i < |lhss| ==> Qualifies(rules, lhss[i]) && GoodAssocs(rules, lhss[i]))
    && (forall i, j :: 0 <= i < j < |lhss| ==> lhss[i] != lhss[j])
  }

  lemma {:induction false} SelectedIs(rules: Rules, syms: seq<Symbol>, s: Symbol)
    requires s in Selected(rules, syms)
    ensures s in syms && Qualifies(rules, s)
  {
    hide Qualifies;
    var front := syms[..|syms| - 1];
    if s in Selected(rules, front) {
      SelectedIs(rules, front, s);
      assert s in front;
    }
  }

  lemma {:induction false} SelectedOnce(rules: Rules, syms: seq<Symbol>)
    requires forall i, j :: 0 <= i < j < |syms| ==> syms[i] != syms[j]
    ensures var lhss := Selected(rules, syms); forall i, j :: 0 <= i < j < |lhss| ==> lhss[i] != lhss[j]
  {
    hide Qualifies;
    if syms != [] {
      var front, last := syms[..|syms| - 1], syms[|syms| - 1];
      SelectedOnce(rules, front);
      var before := Selected(rules, front);
      forall i | 0 <= i < |before| ensures before[i] != last {
        SelectedIs(rules, front, before[i]);
      }
    }
  }

  // The symbols selected are such.
  lemma SelectedToRewrite(rules: Rules, syms: seq<Symbol>)
    requires forall i, j :: 0 <= i < j < |syms| ==> syms[i] != syms[j]
    requires forall s <- Selected(rules, syms) :: GoodAssocs(rules, s)
    ensures ToRewrite(rules, Selected(rules, syms))
  {
    hide Qualifies, GoodAssocs, Selected;
    SelectedOnce(rules, syms);
    var lhss := Selected(rules, syms);
    forall i | 0 <= i < |lhss| ensures Qualifies(rules, lhss[i]) && GoodAssocs(rules, lhss[i]) {
      SelectedIs(rules, syms, lhss[i]);
    }
  }

  // ----- Stages --------------------------------------------------------------------------------

  ghost function LastRules(rules: Rules, rs: seq<Rewrite>): Rules {
    if rs == [] then rules else rs[|rs| - 1].rules'
  }

  // One rewrite after the other, each of the grammar the one before leaves.
  ghost predicate Stages(layer: Layer, tokens: set<Symbol>, rules: Rules, lhss: seq<Symbol>, rs: seq<Rewrite>) {
    && |rs| == |lhss|
    && forall i :: 0 <= i < |rs| ==>
         && rs[i].Valid() && rs[i].layer == layer && rs[i].tokens == tokens
         && rs[i].rules == LastRules(rules, rs[..i])
         && rs[i].lhs == lhss[i] && rs[i].min == MinPrecedence(Lookup(rules, lhss[i]))
  }

  // Tokens have no rules, and no levels.
  ghost predicate ProperTokens(tokens: set<Symbol>, lhss: seq<Symbol>) {
    forall s :: s in tokens ==> s !in lhss && !s.Level?
  }

  /** The container takes the commands of the whole rewrite: one stage for every symbol, and
      in the end every symbol holds what its own rewrite gives it, all others what they held. */
  lemma {:induction false} GrammarRewrites(layer: Layer, tokens: set<Symbol>, rules: Rules, lhss: seq<Symbol>) returns (rs: seq<Rewrite>)
    requires Plain(rules) && ToRewrite(rules, lhss) && ProperTokens(tokens, lhss)
    ensures Stages(layer, tokens, rules, lhss, rs)
    ensures ApplyAll(rules, AllCommands(layer, rules, lhss)) == Success(LastRules(rules, rs))
    ensures RewrittenUpTo(layer, rules, lhss, LastRules(rules, rs))
  {
    hide Stages, RewrittenUpTo, Plain, Qualifies, GoodAssocs, CommandsFor, Rewrite.Valid;
    if lhss == [] {
      rs := [];
      NoStages(layer, tokens, rules);
    } else {
      var done, s := lhss[..|lhss| - 1], lhss[|lhss| - 1];
      var before := GrammarRewrites(layer, tokens, rules, done);
      var r := LastRules(rules, before);
      var r' := RewriteNext(layer, tokens, rules, done, r, s);
      assert done + [s] == lhss;
      ApplyPlus(rules, AllCommands(layer, rules, done), CommandsFor(layer, rules, s));
      var min := MinPrecedence(Lookup(rules, s));
      rs := before + [Rewrite(layer, tokens, r, s, min, r')];
      StagesNext(layer, tokens, rules, lhss, before, r', min);
    }
  }

  lemma NoStages(layer: Layer, tokens: set<Symbol>, rules: Rules)
    requires Plain(rules)
    ensures Stages(layer, tokens, rules, [], []) && RewrittenUpTo(layer, rules, [], rules)
    ensures ApplyAll(rules, AllCommands(layer, rules, [])) == Success(rules)
  {
  }

  lemma RewriteNext(layer: Layer, tokens: set<Symbol>, rules: Rules, done: seq<Symbol>, r: Rules, s: Symbol) returns (r': Rules)
    requires Plain(rules) && RewrittenUpTo(layer, rules, done, r)
    requires Qualifies(rules, s) && GoodAssocs(rules, s) && s !in done && s !in tokens && forall t :: t in tokens ==> !t.Level?
    ensures ApplyAll(r, CommandsFor(layer, rules, s)) == Success(r') && RewrittenUpTo(layer, rules, done + [s], r')
    ensures Rewrite(layer, tokens, r, s, MinPrecedence(Lookup(rules, s)), r').Valid()
  {
    NotALevel(rules, s);
    NextRewritable(layer, rules, done, r, s);
    var min := MinPrecedence(Lookup(rules, s));
    RewriteApplies(layer, r, s, min);
    r' := ApplyAll(r, Commands(layer, s, min, r[s])).value;
    NextHeld(layer, rules, done, r, s, r');
  }

  lemma NotALevel(rules: Rules, s: Symbol)
    requires Plain(rules) && Qualifies(rules, s)
    ensures !s.Level?
  {
  }

  lemma StagesNext(layer: Layer, tokens: set<Symbol>, rules: Rules, lhss: seq<Symbol>, before: seq<Rewrite>, r': Rules, min: int)
    requires lhss != [] && Stages(layer, tokens, rules, lhss[..|lhss| - 1], before)
    requires var last := Rewrite(layer, tokens, LastRules(rules, before), lhss[|lhss| - 1], min, r');
             last.Valid() && min == MinPrecedence(Lookup(rules, last.lhs))
    ensures Stages(layer, tokens, rules, lhss, before + [Rewrite(layer, tokens, LastRules(rules, before), lhss[|lhss| - 1], min, r')])
  {
    hide Rewrite.Valid, MinPrecedence, Lookup, LastRules;
    var rs := before + [Rewrite(layer, tokens, LastRules(rules, before), lhss[|lhss| - 1], min, r')];
    forall i | 0 <= i < |before| ensures rs[..i] == before[..i] && rs[i] == before[i] {}
    assert rs[..|before|] == before;
  }

  // ----- Trees -----------------------------------------------------------------------------------

  // Every direct operand of every node of lhs is as tight as its position demands.
  ghost predicate Tight(rules: Rules, lhs: Symbol, min: int, sym: Symbol, t: Tree)
    decreases t
  {
    match t
    case Token(_) => true
    case Node(_, i, kids) =>
      && i < |Lookup(rules, sym)| && |kids| == |Lookup(rules, sym)[i].rhs|
      && var alt := Lookup(rules, sym)[i];
         && (forall k :: 0 <= k < |kids| ==> Tight(rules, lhs, min, alt.rhs[k], kids[k]))
         && (sym == lhs ==> forall k :: 0 <= k < |kids| && alt.rhs[k] == lhs ==>
               && kids[k].Node? && kids[k].alt < |Lookup(rules, lhs)|
               && Demand(lhs, min, alt, k) <= Lookup(rules, lhs)[kids[k].alt].precedence)
  }

  lemma {:induction false} GoodIsTight(r: Rewrite, sym: Symbol, t: Tree)
    requires r.Valid()
    ensures Good(r, sym, t) <==> Derives(r.tokens, r.rules, sym, t) && Tight(r.rules, r.lhs, r.min, sym, t)
    decreases t
  {
    if t.Node? && Derives(r.tokens, r.rules, sym, t) {
      var alt := Lookup(r.rules, sym)[t.alt];
      hide Rewrite.Valid;
      forall k | 0 <= k < |t.kids|
        ensures Admissible(r, alt.rhs[k], t.kids[k]) <==> Tight(r.rules, r.lhs, r.min, alt.rhs[k], t.kids[k])
      {
        assert Derives(r.tokens, r.rules, alt.rhs[k], t.kids[k]);
        GoodIsTight(r, alt.rhs[k], t.kids[k]);
      }
      LhsNodes(r, alt, t.kids);
    }
  }

  // A tree of lhs is a node.
  lemma LhsNodes(r: Rewrite, alt: Alter, kids: seq<Tree>)
    requires r.Valid() && |kids| == |alt.rhs| && forall k :: 0 <= k < |kids| ==> Derives(r.tokens, r.rules, alt.rhs[k], kids[k])
    ensures Lookup(r.rules, r.lhs) == r.rules[r.lhs]
    ensures forall k :: 0 <= k < |kids| && alt.rhs[k] == r.lhs ==> kids[k].Node? && kids[k].alt < |r.rules[r.lhs]|
  {
  }

  // Rewriting one symbol changes nothing about the operands of another.
  lemma {:induction false} TightKept(r: Rewrite, j: Symbol, min: int, sym: Symbol, t: Tree)
    requires r.Valid() && Good(r, sym, t) && !r.IsLevel(sym) && j != r.lhs && !r.IsLevel(j)
    ensures Tight(r.rules, j, min, sym, t) <==> Tight(r.rules', j, min, sym, Lower(r, sym, t))
    decreases t, 1, 0
  {
    OldRules(r, sym);
    OldRules(r, j);
    if t.Node? {
      hide Rewrite.Valid, Demand;
      if sym == r.lhs {
        TightKeptAt(r, j, min, t, r.min);
        TightStep(r.rules', j, min, sym, S(r.lhs, r.min), LowerAt(r, t, r.min));
      } else {
        var alt, low := Lookup(r.rules, sym)[t.alt], Lower(r, sym, t);
        forall k | 0 <= k < |t.kids|
          ensures Tight(r.rules, j, min, alt.rhs[k], t.kids[k]) <==> Tight(r.rules', j, min, alt.rhs[k], low.kids[k])
          ensures alt.rhs[k] == j ==> (t.kids[k].Node? <==> low.kids[k].Node?) && (t.kids[k].Node? ==> low.kids[k].alt == t.kids[k].alt)
        {
          TightKept(r, j, min, alt.rhs[k], t.kids[k]);
        }
      }
    }
  }

  lemma {:induction false} TightKeptAt(r: Rewrite, j: Symbol, min: int, t: Tree, x: int)
    requires r.Valid() && Good(r, r.lhs, t) && r.min <= x <= RootLevel(r, t) && j != r.lhs && !r.IsLevel(j)
    ensures Tight(r.rules, j, min, r.lhs, t) <==> Tight(r.rules', j, min, S(r.lhs, x), LowerAt(r, t, x))
    decreases t, 0, -x
  {
    hide IsRewritten, FreshLevels, Distinct, Tight, Rank;
    var alt := r.rules[r.lhs][t.alt];
    if x < alt.precedence {
      TightKeptAt(r, j, min, t, x + 1);
      SpineTight(r, j, min, x, LowerAt(r, t, x + 1));
    } else {
      OldRules(r, r.lhs);
      var low := LowerAt(r, t, x);
      forall k | 0 <= k < |t.kids|
        ensures Tight(r.rules, j, min, alt.rhs[k], t.kids[k]) <==>
                Tight(r.rules', j, min, LevelRhs(r.lhs, r.min, alt)[k], low.kids[k])
      {
        if alt.rhs[k] == r.lhs {
          TightKeptAt(r, j, min, t.kids[k], Demand(r.lhs, r.min, alt, k));
        } else {
          TightKept(r, j, min, alt.rhs[k], t.kids[k]);
        }
      }
      LevelTight(r, j, min, t, low);
    }
  }

  lemma SpineTight(r: Rewrite, j: Symbol, min: int, x: int, u: Tree)
    requires r.Valid() && r.min <= x < 0 && !r.IsLevel(j)
    ensures Tight(r.rules', j, min, S(r.lhs, x), Node(S(r.lhs, x), 0, [u])) <==> Tight(r.rules', j, min, S(r.lhs, x + 1), u)
  {
    LevelRules(r, x);
    TightStep(r.rules', j, min, S(r.lhs, x), S(r.lhs, x + 1), u);
  }

  lemma {:induction false} LevelTight(r: Rewrite, j: Symbol, min: int, t: Tree, low: Tree)
    requires r.Valid() && t.Node? && t.alt < |r.rules[r.lhs]| && low.Node? && j != r.lhs && !r.IsLevel(j)
    requires var alt := r.rules[r.lhs][t.alt];
             && |t.kids| == |low.kids| == |alt.rhs|
             && low.alt == BaseSize(alt.precedence) + Rank(r.rules[r.lhs], t.alt, alt.precedence)
             && forall k :: 0 <= k < |t.kids| ==>
                  (Tight(r.rules, j, min, alt.rhs[k], t.kids[k]) <==>
                   Tight(r.rules', j, min, LevelRhs(r.lhs, r.min, alt)[k], low.kids[k]))
    ensures Tight(r.rules, j, min, r.lhs, t) <==> Tight(r.rules', j, min, S(r.lhs, r.rules[r.lhs][t.alt].precedence), low)
  {
    LevelNodeRules(r, t.alt);
    hide Tight, Rank, Rewritable, IsRewritten, Demand, LevelRhs, Lookup;
    var alt := r.rules[r.lhs][t.alt];
    TightNode(r.rules, j, min, r.lhs, t, alt.rhs);
    TightNode(r.rules', j, min, S(r.lhs, alt.precedence), low, LevelRhs(r.lhs, r.min, alt));
  }

  lemma {:induction false} LevelNodeRules(r: Rewrite, i: nat)
    requires r.Valid() && i < |r.rules[r.lhs]|
    ensures var alt := r.rules[r.lhs][i];
            var x := alt.precedence;
            var at, there := BaseSize(x) + Rank(r.rules[r.lhs], i, x), Lookup(r.rules', S(r.lhs, x));
            && Lookup(r.rules, r.lhs) == r.rules[r.lhs] && at < |there| && there[at].rhs == LevelRhs(r.lhs, r.min, alt)
            && |LevelRhs(r.lhs, r.min, alt)| == |alt.rhs|
  {
    RankFinds(r, i);
    hide Rank, IsRewritten, FreshLevels, Distinct;
  }

  lemma TightStep(rules: Rules, j: Symbol, min: int, sym: Symbol, target: Symbol, u: Tree)
    requires sym != j && Lookup(rules, sym) != [] && Lookup(rules, sym)[0].rhs == [target]
    ensures Tight(rules, j, min, sym, Node(sym, 0, [u])) <==> Tight(rules, j, min, target, u)
  {
    assert Node(sym, 0, [u]).kids[0] == u;
  }

  lemma TightNode(rules: Rules, j: Symbol, min: int, sym: Symbol, t: Tree, rhs: seq<Symbol>)
    requires sym != j && t.Node? && t.alt < |Lookup(rules, sym)| && Lookup(rules, sym)[t.alt].rhs == rhs && |t.kids| == |rhs|
    ensures Tight(rules, j, min, sym, t) <==> forall k :: 0 <= k < |t.kids| ==> Tight(rules, j, min, rhs[k], t.kids[k])
  {
  }

  // ----- All stages ----------------------------------------------------------------------------------

  ghost predicate AllValid(rs: seq<Rewrite>) {
    forall i :: 0 <= i < |rs| ==> rs[i].Valid()
  }

  // t, taken through the stages from i on, becomes t'.
  ghost predicate Lowered(tokens: set<Symbol>, rules: Rules, rs: seq<Rewrite>, i: nat, sym: Symbol, t: Tree, t': Tree)
    requires AllValid(rs) && i <= |rs|
    decreases |rs| - i
  {
    if i == |rs| then Derives(tokens, LastRules(rules, rs), sym, t) && t == t'
    else Good(rs[i], sym, t) && Lowered(tokens, rules, rs, i + 1, sym, Lower(rs[i], sym, t), t')
  }

  ghost predicate Lowers(tokens: set<Symbol>, rules: Rules, rs: seq<Rewrite>, i: nat, sym: Symbol, t: Tree)
    requires AllValid(rs) && i <= |rs|
  {
    exists t' :: Lowered(tokens, rules, rs, i, sym, t, t')
  }

  // And back.
  ghost function Raised(rs: seq<Rewrite>, i: nat, t': Tree): Tree
    requires AllValid(rs) && i <= |rs|
    decreases |rs| - i
  {
    if i == |rs| then t' else Raise(rs[i], Raised(rs, i + 1, t'))
  }

  lemma StageRules(layer: Layer, tokens: set<Symbol>, rules: Rules, lhss: seq<Symbol>, rs: seq<Rewrite>, i: nat)
    requires Stages(layer, tokens, rules, lhss, rs) && i < |rs|
    ensures AllValid(rs) && rs[i].tokens == tokens && rs[i].rules == LastRules(rules, rs[..i])
    ensures rs[i].rules' == LastRules(rules, rs[..i + 1])
  {
    assert rs[..i + 1][i] == rs[i];
  }

  lemma LoweredDerives(layer: Layer, tokens: set<Symbol>, rules: Rules, lhss: seq<Symbol>, rs: seq<Rewrite>, i: nat,
                       sym: Symbol, t: Tree, t': Tree)
    requires Stages(layer, tokens, rules, lhss, rs) && AllValid(rs) && i <= |rs| && Lowered(tokens, rules, rs, i, sym, t, t')
    ensures Derives(tokens, LastRules(rules, rs[..i]), sym, t)
  {
    if i < |rs| {
      StageRules(layer, tokens, rules, lhss, rs, i);
    } else {
      assert rs[..i] == rs;
    }
  }

  lemma {:induction false} StagesCorrespond(layer: Layer, tokens: set<Symbol>, rules: Rules, lhss: seq<Symbol>, rs: seq<Rewrite>,
                                            i: nat, sym: Symbol, t: Tree, t': Tree)
    requires Stages(layer, tokens, rules, lhss, rs) && AllValid(rs) && i <= |rs| && !sym.Level?
    ensures Lowered(tokens, rules, rs, i, sym, t, t') <==>
            Derives(tokens, LastRules(rules, rs), sym, t') && Raised(rs, i, t') == t
    ensures Lowered(tokens, rules, rs, i, sym, t, t') ==> Yield(t') == Yield(t)
    decreases |rs| - i
  {
    if i < |rs| {
      StageRules(layer, tokens, rules, lhss, rs, i);
      hide Stages, Rewrite.Valid, Derives, Good, Lower, Raise;
      var u := Raised(rs, i + 1, t');
      StagesCorrespond(layer, tokens, rules, lhss, rs, i + 1, sym, u, t');
      TreesCorrespond(rs[i], sym, t, u);
      if Lowered(tokens, rules, rs, i, sym, t, t') {
        StagesCorrespond(layer, tokens, rules, lhss, rs, i + 1, sym, Lower(rs[i], sym, t), t');
      }
      if Derives(tokens, LastRules(rules, rs), sym, t') && Raised(rs, i, t') == t {
        LoweredDerives(layer, tokens, rules, lhss, rs, i + 1, sym, u, t');
      }
    }
  }

  // As tight as every symbol rewritten demands.
  ghost predicate AllTight(rules: Rules, rs: seq<Rewrite>, i: nat, sym: Symbol, t: Tree) {
    forall k :: i <= k < |rs| ==> Tight(rules, rs[k].lhs, rs[k].min, sym, t)
  }

  lemma {:induction false} LoweredIfTight(layer: Layer, tokens: set<Symbol>, rules: Rules, lhss: seq<Symbol>, rs: seq<Rewrite>,
                                          i: nat, sym: Symbol, t: Tree)
    requires Stages(layer, tokens, rules, lhss, rs) && AllValid(rs) && i <= |rs| && !sym.Level?
    requires forall k :: 0 <= k < |lhss| ==> !lhss[k].Level?
    requires forall k, l :: 0 <= k < l < |lhss| ==> lhss[k] != lhss[l]
    ensures Lowers(tokens, rules, rs, i, sym, t) <==>
            Derives(tokens, LastRules(rules, rs[..i]), sym, t) && AllTight(LastRules(rules, rs[..i]), rs, i, sym, t)
    decreases |rs| - i
  {
    if i == |rs| {
      assert rs[..i] == rs;
      assert Derives(tokens, LastRules(rules, rs), sym, t) ==> Lowered(tokens, rules, rs, i, sym, t, t);
    } else {
      StageRules(layer, tokens, rules, lhss, rs, i);
      GoodIsTight(rs[i], sym, t);
      hide Stages, Rewrite.Valid, Derives, Good, Lower, Tight;
      FirstTight(rs[i].rules, rs, i, sym, t);
      LowersStep(tokens, rules, rs, i, sym, t);
      if Good(rs[i], sym, t) {
        var u := Lower(rs[i], sym, t);
        LoweredIfTight(layer, tokens, rules, lhss, rs, i + 1, sym, u);
        LowerDerives(rs[i], sym, t);
        OthersTight(layer, tokens, rules, lhss, rs, i, sym, t);
      }
    }
  }

  lemma LowersStep(tokens: set<Symbol>, rules: Rules, rs: seq<Rewrite>, i: nat, sym: Symbol, t: Tree)
    requires AllValid(rs) && i < |rs|
    ensures Lowers(tokens, rules, rs, i, sym, t) <==>
            Good(rs[i], sym, t) && Lowers(tokens, rules, rs, i + 1, sym, Lower(rs[i], sym, t))
  {
    hide Rewrite.Valid, Derives, Good, Lower;
    if Good(rs[i], sym, t) {
      var u, next := Lower(rs[i], sym, t), i + 1;
      if t' :| Lowered(tokens, rules, rs, next, sym, u, t') {
        assert Lowered(tokens, rules, rs, i, sym, t, t');
      }
      if t' :| Lowered(tokens, rules, rs, i, sym, t, t') {
        assert Lowered(tokens, rules, rs, next, sym, u, t');
      }
    }
  }

  lemma FirstTight(r: Rules, rs: seq<Rewrite>, i: nat, sym: Symbol, t: Tree)
    requires i < |rs|
    ensures AllTight(r, rs, i, sym, t) <==> Tight(r, rs[i].lhs, rs[i].min, sym, t) && AllTight(r, rs, i + 1, sym, t)
  {
    hide Tight;
  }

  lemma OthersTight(layer: Layer, tokens: set<Symbol>, rules: Rules, lhss: seq<Symbol>, rs: seq<Rewrite>, i: nat, sym: Symbol, t: Tree)
    requires Stages(layer, tokens, rules, lhss, rs) && AllValid(rs) && i < |rs| && !sym.Level? && Good(rs[i], sym, t)
    requires forall k :: 0 <= k < |lhss| ==> !lhss[k].Level?
    requires forall k, l :: 0 <= k < l < |lhss| ==> lhss[k] != lhss[l]
    ensures AllTight(rs[i].rules, rs, i + 1, sym, t) <==> AllTight(rs[i].rules', rs, i + 1, sym, Lower(rs[i], sym, t))
  {
    hide Rewrite.Valid, Derives, Good, Lower, Tight;
    forall k | i < k < |rs|
      ensures Tight(rs[i].rules, rs[k].lhs, rs[k].min, sym, t) <==>
              Tight(rs[i].rules', rs[k].lhs, rs[k].min, sym, Lower(rs[i], sym, t))
    {
      TightKept(rs[i], rs[k].lhs, rs[k].min, sym, t);
    }
  }

  /** The trees of the rewritten grammar are, one for one and with equal yield, the trees of
      the old grammar in which the operands of every rewritten symbol are tight enough. */
  lemma GrammarTreesCorrespond(layer: Layer, tokens: set<Symbol>, rules: Rules, lhss: seq<Symbol>, rs: seq<Rewrite>,
                               sym: Symbol, t: Tree, t': Tree)
    requires Plain(rules) && ToRewrite(rules, lhss) && Stages(layer, tokens, rules, lhss, rs) && AllValid(rs) && !sym.Level?
    ensures Lowered(tokens, rules, rs, 0, sym, t, t') <==>
            Derives(tokens, LastRules(rules, rs), sym, t') && Raised(rs, 0, t') == t
    ensures Lowered(tokens, rules, rs, 0, sym, t, t') ==> Yield(t') == Yield(t)
    ensures Lowers(tokens, rules, rs, 0, sym, t) <==>
            Derives(tokens, rules, sym, t) && AllTight(rules, rs, 0, sym, t)
  {
    StagesCorrespond(layer, tokens, rules, lhss, rs, 0, sym, t, t');
    forall k | 0 <= k < |lhss| ensures !lhss[k].Level? {
      NotALevel(rules, lhss[k]);
    }
    LoweredIfTight(layer, tokens, rules, lhss, rs, 0, sym, t);
    assert rs[..0] == [];
  }

  // ----- Symbols left alone --------------------------------------------------------------------------

  lemma {:induction false} MinPrecedenceReached(alts: seq<Alter>)
    ensures MinPrecedence(alts) == 0 || exists a <- alts :: a.precedence == MinPrecedence(alts)
  {
    if alts != [] && MinPrecedence(alts) != alts[|alts| - 1].precedence && MinPrecedence(alts) != 0 {
      var front := alts[..|alts| - 1];
      MinPrecedenceReached(front);
      var a :| a in front && a.precedence == MinPrecedence(front);
      assert a in alts;
    }
  }

  // A symbol is rewritten just when some rule of it is below precedence 0, and some rule refers to it.
  lemma QualifiesIs(rules: Rules, s: Symbol)
    requires Plain(rules)
    ensures Qualifies(rules, s) <==>
            && (exists i :: 0 <= i < |Lookup(rules, s)| && Lookup(rules, s)[i].precedence < 0)
            && (exists i :: 0 <= i < |Lookup(rules, s)| && s in Lookup(rules, s)[i].rhs)
  {
    MinPrecedenceReached(Lookup(rules, s));
  }

  lemma {:induction false} SelectedHas(rules: Rules, syms: seq<Symbol>, s: Symbol)
    requires s in syms && Qualifies(rules, s)
    ensures s in Selected(rules, syms)
  {
    hide Qualifies;
    var front, last := syms[..|syms| - 1], syms[|syms| - 1];
    if s != last {
      assert syms == front + [last] && s in front;
      SelectedHas(rules, front, s);
    }
  }

  lemma QualifiesHere(rules: Rules, s: Symbol)
    requires Qualifies(rules, s)
    ensures s in rules
  {
  }

  // The operands of a symbol that is not rewritten are always tight enough.
  lemma {:induction false} OthersAlwaysTight(tokens: set<Symbol>, rules: Rules, s: Symbol, sym: Symbol, t: Tree)
    requires Plain(rules) && !Qualifies(rules, s) && (forall a <- tokens :: Lookup(rules, a) == [])
    requires Derives(tokens, rules, sym, t)
    ensures Tight(rules, s, MinPrecedence(Lookup(rules, s)), sym, t)
    decreases t
  {
    if t.Node? {
      var alts := Lookup(rules, sym);
      var alt := alts[t.alt];
      forall k | 0 <= k < |t.kids| ensures Tight(rules, s, MinPrecedence(Lookup(rules, s)), alt.rhs[k], t.kids[k]) {
        OthersAlwaysTight(tokens, rules, s, alt.rhs[k], t.kids[k]);
      }
      if sym == s {
        assert alt in alts;
        forall k | 0 <= k < |t.kids| && alt.rhs[k] == s
          ensures t.kids[k].Node? && t.kids[k].alt < |alts| && Demand(s, MinPrecedence(alts), alt, k) <= alts[t.kids[k].alt].precedence
        {
          assert Derives(tokens, rules, s, t.kids[k]);
          assert alts[t.kids[k].alt] in alts && Recursive(s, alts);
        }
      }
    }
  }

  /** What is rewritten is all that needs it: the trees that survive are just those whose
      operands are tight enough for every symbol of the grammar. */
  lemma {:induction false} RewrittenIsTight(layer: Layer, tokens: set<Symbol>, rules: Rules, syms: seq<Symbol>, rs: seq<Rewrite>,
                                          sym: Symbol, t: Tree)
    requires Plain(rules) && (forall s <- rules :: s in syms) && (forall a <- tokens :: Lookup(rules, a) == [])
    requires ToRewrite(rules, Selected(rules, syms)) && Stages(layer, tokens, rules, Selected(rules, syms), rs)
    requires AllValid(rs) && !sym.Level?
    ensures Lowers(tokens, rules, rs, 0, sym, t) <==>
            Derives(tokens, rules, sym, t) && forall s :: Tight(rules, s, MinPrecedence(Lookup(rules, s)), sym, t)
  {
    hide Tight, Derives, Lowers, Rewrite.Valid, Plain, Qualifies, Lowered, LastRules;
    var lhss := Selected(rules, syms);
    GrammarTreesCorrespond(layer, tokens, rules, lhss, rs, sym, t, t);
    if Derives(tokens, rules, sym, t) {
      forall s | AllTight(rules, rs, 0, sym, t) ensures Tight(rules, s, MinPrecedence(Lookup(rules, s)), sym, t) {
        if Qualifies(rules, s) {
          QualifiesHere(rules, s);
          SelectedHas(rules, syms, s);
          var k :| 0 <= k < |lhss| && lhss[k] == s;
          assert rs[k].lhs == s;
        } else {
          OthersAlwaysTight(tokens, rules, s, sym, t);
        }
      }
    }
    forall k | (forall s :: Tight(rules, s, MinPrecedence(Lookup(rules, s)), sym, t)) && 0 <= k < |rs|
      ensures Tight(rules, rs[k].lhs, rs[k].min, sym, t)
    {
      assert rs[k].lhs == lhss[k];
    }
  }
}
