/** What associations mean for trees: which operands a rewritten symbol takes at each place,
    said of the attribute alone, and what follows for parentheses and for chains of one
    operator. */
module PrecedenceAssoc {
  import opened Precedence
  import opened PrecedenceTrees
  import opened PrecedencePrefix
  import opened PrecedenceTables

  ghost predicate HasAssoc(alt: Alter, assoc: string) {
    "assoc" in alt.attr && alt.attr["assoc"] == assoc
  }

  // With "group" everything may stand inside. Else an operand is no looser than the operator;
  // one just as loose stands first for "left" and without the attribute, or last for "right",
  // unless the operator is of the tightest precedence anyway.
  ghost predicate MayStand(alt: Alter, lhs: Symbol, k: nat, level: int)
    requires k < |alt.rhs|
  {
    if HasAssoc(alt, "group") then true
    else
      && alt.precedence <= level
      && (level == alt.precedence < 0 ==>
            if HasAssoc(alt, "right") then forall j :: k < j < |alt.rhs| ==> alt.rhs[j] != lhs
            else forall j :: 0 <= j < k ==> alt.rhs[j] != lhs)
  }

  // The kids of a node, each good by itself.
  ghost predicate GoodKids(r: Rewrite, i: nat, kids: seq<Tree>)
    requires r.Valid() && i < |r.rules[r.lhs]|
  {
    var rhs := r.rules[r.lhs][i].rhs;
    |kids| == |rhs| && forall k :: 0 <= k < |kids| ==> Good(r, rhs[k], kids[k])
  }

  lemma {:induction false} DemandIs(r: Rewrite, i: nat, k: nat, level: int)
    requires r.Valid() && i < |r.rules[r.lhs]| && k < |r.rules[r.lhs][i].rhs| && r.min <= level <= 0
    ensures Demand(r.lhs, r.min, r.rules[r.lhs][i], k) <= level <==> MayStand(r.rules[r.lhs][i], r.lhs, k, level)
  {
    var alt := r.rules[r.lhs][i];
    assert alt in r.rules[r.lhs] && GoodAssoc(alt);
  }

  /** A node of good kids is good just when each operand may stand where it does. */
  lemma {:induction false} OperandsDecide(r: Rewrite, i: nat, kids: seq<Tree>)
    requires r.Valid() && i < |r.rules[r.lhs]| && GoodKids(r, i, kids)
    ensures var alt := r.rules[r.lhs][i];
            Good(r, r.lhs, Node(r.lhs, i, kids)) <==>
            forall k :: 0 <= k < |kids| && alt.rhs[k] == r.lhs ==> MayStand(alt, r.lhs, k, RootLevel(r, kids[k]))
  {
    var alt, t := r.rules[r.lhs][i], Node(r.lhs, i, kids);
    assert Lookup(r.rules, r.lhs)[i] == alt && Derives(r.tokens, r.rules, r.lhs, t);
    forall k | 0 <= k < |kids| && alt.rhs[k] == r.lhs
      ensures Demand(r.lhs, r.min, alt, k) <= RootLevel(r, kids[k]) <==> MayStand(alt, r.lhs, k, RootLevel(r, kids[k]))
    {
      LevelInRange(r, kids[k]);
      DemandIs(r, i, k, RootLevel(r, kids[k]));
    }
    hide Demand, MayStand, Rewrite.Valid;
  }

  lemma {:induction false} LevelInRange(r: Rewrite, t: Tree)
    requires r.Valid() && Derives(r.tokens, r.rules, r.lhs, t)
    ensures r.min <= RootLevel(r, t) <= 0
  {
    assert r.rules[r.lhs][t.alt] in r.rules[r.lhs];
  }

  // ----- Parentheses ------------------------------------------------------------------------

  /** A grouping alternative takes any operands, however loose. */
  lemma {:induction false} GroupTakesAll(r: Rewrite, i: nat, kids: seq<Tree>)
    requires r.Valid() && i < |r.rules[r.lhs]| && GoodKids(r, i, kids) && HasAssoc(r.rules[r.lhs][i], "group")
    ensures Good(r, r.lhs, Node(r.lhs, i, kids))
  {
    OperandsDecide(r, i, kids);
  }

  /** With a grouping alternative `( E )` whatever has a tree in the rewritten grammar has one
      in parentheses. */
  lemma Parenthesized(r: Rewrite, i: nat, open: Symbol, close: Symbol, t': Tree) returns (u': Tree)
    requires r.Valid() && i < |r.rules[r.lhs]| && r.rules[r.lhs][i].rhs == [open, r.lhs, close]
    requires IsToken(r, open) && IsToken(r, close) && HasAssoc(r.rules[r.lhs][i], "group")
    requires !r.IsLevel(r.lhs) && Derives(r.tokens, r.rules', r.lhs, t')
    ensures Derives(r.tokens, r.rules', r.lhs, u') && Yield(u') == [open] + Yield(t') + [close]
  {
    RaiseReturns(r, r.lhs, t');
    var t := Raise(r, t');
    LowerYield(r, r.lhs, t);
    var kids := [Token(open), t, Token(close)];
    assert GoodKids(r, i, kids);
    GroupTakesAll(r, i, kids);
    var u := Node(r.lhs, i, kids);
    u' := Lower(r, r.lhs, u);
    LowerDerives(r, r.lhs, u);
    LowerYield(r, r.lhs, u);
    YieldThree(Token(open), t, Token(close));
  }

  // ----- Chains of one operator -----------------------------------------------------------------

  ghost function Atom(r: Rewrite, i: nat, a: Symbol): Tree { Node(r.lhs, i, [Token(a)]) }

  ghost function Infix(r: Rewrite, j: nat, op: Symbol, left: Tree, right: Tree): Tree {
    Node(r.lhs, j, [left, Token(op), right])
  }

  lemma {:induction false} AtomIsGood(r: Rewrite, i: nat, a: Symbol)
    requires IsTable(r) && r.Valid() && AtomIndex(r, i, a)
    ensures Good(r, r.lhs, Atom(r, i, a)) && RootLevel(r, Atom(r, i, a)) == 0 && Yield(Atom(r, i, a)) == [a]
  {
    assert Lookup(r.rules, r.lhs) == r.rules[r.lhs];
    YieldOne(Token(a));
  }

  lemma {:induction false} InfixIsGood(r: Rewrite, j: nat, op: Symbol, left: Tree, right: Tree)
    requires IsTable(r) && r.Valid() && InfixIndex(r, j, op) && Good(r, r.lhs, left) && Good(r, r.lhs, right)
    ensures var alt := r.rules[r.lhs][j];
            Good(r, r.lhs, Infix(r, j, op, left, right)) <==>
            MayStand(alt, r.lhs, 0, RootLevel(r, left)) && MayStand(alt, r.lhs, 2, RootLevel(r, right))
    ensures Good(r, r.lhs, Infix(r, j, op, left, right)) ==> RootLevel(r, Infix(r, j, op, left, right)) == r.rules[r.lhs][j].precedence
    ensures Yield(Infix(r, j, op, left, right)) == Yield(left) + [op] + Yield(right)
  {
    var alt := r.rules[r.lhs][j];
    var kids := [left, Token(op), right];
    InfixKids(r, j, op, left, right);
    hide IsTable, IsInfix, GoodKids, Good, MayStand, IsRewritten, Rewritable, Yield;
    OperandsDecide(r, j, kids);
    assert kids[0] == left && kids[2] == right;
  }

  lemma {:induction false} InfixKids(r: Rewrite, j: nat, op: Symbol, left: Tree, right: Tree)
    requires IsTable(r) && r.Valid() && InfixIndex(r, j, op) && Good(r, r.lhs, left) && Good(r, r.lhs, right)
    ensures GoodKids(r, j, [left, Token(op), right])
    ensures var alt := r.rules[r.lhs][j]; |alt.rhs| == 3 && alt.rhs[0] == alt.rhs[2] == r.lhs && alt.rhs[1] == op != r.lhs
    ensures Yield(Infix(r, j, op, left, right)) == Yield(left) + [op] + Yield(right)
  {
    var kids := [left, Token(op), right];
    YieldThree(left, Token(op), right);
    assert kids[0] == left && kids[1] == Token(op) && kids[2] == right;
    assert Good(r, op, kids[1]);
    hide IsTable, Good, IsRewritten, Rewritable, YieldAll;
  }

  // The tree of a op a op a that nests to the left, or to the right.
  ghost function Nested(r: Rewrite, i: nat, a: Symbol, j: nat, op: Symbol, toLeft: bool): Tree {
    var x := Atom(r, i, a);
    var y := Infix(r, j, op, x, x);
    if toLeft then Infix(r, j, op, y, x) else Infix(r, j, op, x, y)
  }

  /** In a table of operators the only tree of `a op a op a` has the operator node as its left
      operand when the operator is "left" or has no association at all, and as its right one
      when it is "right". */
  lemma {:induction false} ChainsNest(r: Rewrite, i: nat, a: Symbol, j: nat, op: Symbol, t': Tree)
    requires IsTable(r) && r.Valid() && AtomIndex(r, i, a) && InfixIndex(r, j, op)
    ensures var alt := r.rules[r.lhs][j];
            (HasAssoc(alt, "left") || "assoc" !in alt.attr || HasAssoc(alt, "right")) &&
            var t := Nested(r, i, a, j, op, !HasAssoc(alt, "right"));
            Good(r, r.lhs, t) &&
            (Derives(r.tokens, r.rules', r.lhs, t') && Yield(t') == [a, op, a, op, a] <==> t' == Lower(r, r.lhs, t))
  {
    var alt := r.rules[r.lhs][j];
    var t := Nested(r, i, a, j, op, !HasAssoc(alt, "right"));
    NestedIsGood(r, i, a, j, op);
    NotOwnLevel(r);
    hide IsTable, Rewrite.Valid, Good, Lower, Raise, Derives, Yield;
    TreesCorrespond(r, r.lhs, t, Lower(r, r.lhs, t));
    if Derives(r.tokens, r.rules', r.lhs, t') && Yield(t') == [a, op, a, op, a] {
      TreesCorrespond(r, r.lhs, Raise(r, t'), t');
      GoodUnique(r, Raise(r, t'), t);
    }
  }

  // Where operands of the tightest level, and of the operator's own, may stand.
  lemma {:induction false} InfixPlaces(r: Rewrite, j: nat, op: Symbol, level: int)
    requires IsTable(r) && r.Valid() && InfixIndex(r, j, op) && (level == 0 || level == r.rules[r.lhs][j].precedence)
    ensures var alt := r.rules[r.lhs][j];
            && alt.precedence < 0 && (HasAssoc(alt, "left") || "assoc" !in alt.attr || HasAssoc(alt, "right"))
            && (MayStand(alt, r.lhs, 0, level) <==> level == 0 || !HasAssoc(alt, "right"))
            && (MayStand(alt, r.lhs, 2, level) <==> level == 0 || HasAssoc(alt, "right"))
  {
    var alt := r.rules[r.lhs][j];
    assert alt.rhs[0] == r.lhs && alt.rhs[2] == r.lhs && !HasAssoc(alt, "group");
  }

  // The tree of a op a.
  lemma {:induction false} PairIsGood(r: Rewrite, i: nat, a: Symbol, j: nat, op: Symbol)
    requires IsTable(r) && r.Valid() && AtomIndex(r, i, a) && InfixIndex(r, j, op)
    ensures var x := Atom(r, i, a);
            var y := Infix(r, j, op, x, x);
            Good(r, r.lhs, y) && RootLevel(r, y) == r.rules[r.lhs][j].precedence && Yield(y) == [a, op, a]
  {
    var x := Atom(r, i, a);
    AtomIsGood(r, i, a);
    InfixPlaces(r, j, op, 0);
    hide IsTable, InfixIndex, AtomIndex, Good, Yield, MayStand, HasAssoc, RootLevel, Atom, Infix;
    InfixIsGood(r, j, op, x, x);
  }

  lemma {:induction false} NestedIsGood(r: Rewrite, i: nat, a: Symbol, j: nat, op: Symbol)
    requires IsTable(r) && r.Valid() && AtomIndex(r, i, a) && InfixIndex(r, j, op)
    ensures var alt := r.rules[r.lhs][j];
            var t := Nested(r, i, a, j, op, !HasAssoc(alt, "right"));
            (HasAssoc(alt, "left") || "assoc" !in alt.attr || HasAssoc(alt, "right")) &&
            Good(r, r.lhs, t) && Yield(t) == [a, op, a, op, a]
  {
    var x := Atom(r, i, a);
    var y := Infix(r, j, op, x, x);
    AtomIsGood(r, i, a);
    PairIsGood(r, i, a, j, op);
    InfixPlaces(r, j, op, 0);
    InfixPlaces(r, j, op, r.rules[r.lhs][j].precedence);
    hide IsTable, InfixIndex, AtomIndex, Good, Yield, MayStand, HasAssoc, RootLevel, Atom, Infix;
    InfixIsGood(r, j, op, y, x);
    InfixIsGood(r, j, op, x, y);
  }

  // ----- Attributes --------------------------------------------------------------------------

  // Of the attributes a rule had, all but the association are kept in G1, and all but action
  // and mask too in L0; the association is "left" in G1.
  ghost predicate Survive(layer: Layer, attr: map<string, string>, attr': map<string, string>) {
    && (forall key :: key in attr' ==> if key == "assoc" then layer.G1? && attr'[key] == "left" else key in attr && attr'[key] == attr[key])
    && (forall key :: key in attr && key !in {"action", "mask", "assoc"} ==> key in attr')
    && (layer.G1? ==> "assoc" in attr' && forall key :: key in attr ==> key in attr')
    && (layer.L0? ==> "action" !in attr' && "mask" !in attr')
  }

  lemma RuleAttrSurvives(layer: Layer, attr: map<string, string>)
    ensures Survive(layer, attr, RuleAttr(layer, attr))
  {
  }

  lemma {:induction false} RulesKeepAttributes(r: Rewrite, i: nat)
    requires r.Valid() && i < |r.rules[r.lhs]|
    ensures var alt := r.rules[r.lhs][i];
            var x := alt.precedence;
            var at, there := BaseSize(x) + Rank(r.rules[r.lhs], i, x), Lookup(r.rules', S(r.lhs, x));
            at < |there| && Survive(r.layer, alt.attr, there[at].attr) && there[at].precedence == 0
  {
    RankFinds(r, i);
    RuleAttrSurvives(r.layer, r.rules[r.lhs][i].attr);
    hide Rank, IsRewritten, FreshLevels, Survive, RuleAttr, LevelRhs;
  }

  // Steps down the spine, and onto it, hide themselves in G1.
  lemma {:induction false} SpineAttributes(r: Rewrite, x: int)
    requires r.Valid() && r.min <= x < 0
    ensures var ground, step := Lookup(r.rules', r.lhs), Lookup(r.rules', S(r.lhs, x));
            ground != [] && step != [] &&
            forall a <- [ground[0], step[0]] ::
              a.attr == if r.layer == L0 then map[] else map["action" := "special hide", "mask" := "0", "assoc" := "left"]
  {
    NotOwnLevel(r);
    OldRules(r, r.lhs);
    LevelRules(r, x);
  }
}
