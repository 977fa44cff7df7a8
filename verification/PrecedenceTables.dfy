/** Operator tables: with atoms at precedence 0 and infix operators below it, the
    levelled grammar gives every operator expression exactly one parse tree. */
module PrecedenceTables {
  import opened Precedence
  import opened PrecedenceTrees

  ghost predicate IsAtom(r: Rewrite, a: Alter) {
    |a.rhs| == 1 && a.rhs[0] in r.tokens && a.precedence == 0
  }

  ghost predicate IsInfix(r: Rewrite, a: Alter) {
    && |a.rhs| == 3 && a.rhs[0] == r.lhs && a.rhs[2] == r.lhs && a.rhs[1] in r.tokens
    && a.precedence < 0 && AssocOf(a) in ["left", "right"]
  }

  // Atoms and infix operators, each operator once, each precedence with one association.
  ghost predicate IsTable(r: Rewrite) {
    && r.Valid()
    && (forall s <- r.tokens :: s !in r.rules)
    && (forall i :: 0 <= i < |r.rules[r.lhs]| ==> IsAtom(r, r.rules[r.lhs][i]) || IsInfix(r, r.rules[r.lhs][i]))
    && (forall i, j :: 0 <= i < j < |r.rules[r.lhs]| && IsInfix(r, r.rules[r.lhs][i]) && IsInfix(r, r.rules[r.lhs][j]) ==>
          && r.rules[r.lhs][i].rhs[1] != r.rules[r.lhs][j].rhs[1]
          && (r.rules[r.lhs][i].precedence == r.rules[r.lhs][j].precedence ==>
                AssocOf(r.rules[r.lhs][i]) == AssocOf(r.rules[r.lhs][j])))
  }

  ghost predicate AtomIndex(r: Rewrite, i: nat, s: Symbol)
    requires r.Valid()
  {
    i < |r.rules[r.lhs]| && IsAtom(r, r.rules[r.lhs][i]) && r.rules[r.lhs][i].rhs[0] == s
  }

  ghost predicate InfixIndex(r: Rewrite, i: nat, s: Symbol)
    requires r.Valid()
  {
    i < |r.rules[r.lhs]| && IsInfix(r, r.rules[r.lhs][i]) && r.rules[r.lhs][i].rhs[1] == s
  }

  ghost predicate IsAtomSym(r: Rewrite, s: Symbol)
    requires r.Valid()
  {
    exists i: nat :: AtomIndex(r, i, s)
  }

  ghost predicate IsOp(r: Rewrite, s: Symbol)
    requires r.Valid()
  {
    exists i: nat :: InfixIndex(r, i, s)
  }

  ghost function OpIndex(r: Rewrite, s: Symbol): (i: nat)
    requires r.Valid() && IsOp(r, s)
    ensures InfixIndex(r, i, s)
  {
    var i: nat :| InfixIndex(r, i, s); i
  }

  // All that matters of an operator for parsing.
  datatype Op = Op(level: int, left: bool) {
    // The levels it demands of its two operands.
    function LeftDemand(): int { if left then level else level + 1 }
    function RightDemand(): int { if left then level + 1 else level }
  }

  ghost function OpOf(r: Rewrite, s: Symbol): (op: Op)
    requires r.Valid() && IsOp(r, s)
    ensures r.min <= op.level < 0
  {
    var alt := r.rules[r.lhs][OpIndex(r, s)];
    Op(alt.precedence, AssocOf(alt) == "left")
  }

  // An operator expression: an atom, then operators each followed by an atom.
  datatype Step = Step(op: Symbol, atom: Symbol)
  datatype Expr = Expr(first: Symbol, rest: seq<Step>)

  function Flatten(e: Expr): seq<Symbol> { [e.first] + FlattenSteps(e.rest) }

  function FlattenSteps(ss: seq<Step>): (w: seq<Symbol>)
    ensures |w| == 2 * |ss|
  {
    if ss == [] then [] else [ss[0].op, ss[0].atom] + FlattenSteps(ss[1..])
  }

  function Join(e: Expr, op: Symbol, f: Expr): Expr {
    Expr(e.first, e.rest + [Step(op, f.first)] + f.rest)
  }

  ghost predicate IsExpr(r: Rewrite, e: Expr)
    requires r.Valid()
  {
    IsAtomSym(r, e.first) && forall k :: 0 <= k < |e.rest| ==> IsOp(r, e.rest[k].op) && IsAtomSym(r, e.rest[k].atom)
  }

  ghost function Ops(r: Rewrite, e: Expr): (ops: seq<Op>)
    requires r.Valid() && IsExpr(r, e)
    ensures |ops| == |e.rest|
  {
    seq(|e.rest|, k requires 0 <= k < |e.rest| => OpOf(r, e.rest[k].op))
  }

  lemma {:induction false} FlattenConcat(ss: seq<Step>, ts: seq<Step>)
    ensures FlattenSteps(ss + ts) == FlattenSteps(ss) + FlattenSteps(ts)
  {
    if ss == [] {
      assert ss + ts == ts;
    } else {
      FlattenConcat(ss[1..], ts);
      assert (ss + ts)[1..] == ss[1..] + ts;
    }
  }

  lemma FlattenJoin(e: Expr, op: Symbol, f: Expr)
    ensures Flatten(Join(e, op, f)) == Flatten(e) + [op] + Flatten(f)
  {
    FlattenConcat(e.rest + [Step(op, f.first)], f.rest);
    FlattenConcat(e.rest, [Step(op, f.first)]);
    assert FlattenSteps([Step(op, f.first)]) == [op, f.first];
  }

  lemma {:induction false} StepsInjective(ss: seq<Step>, ts: seq<Step>)
    requires FlattenSteps(ss) == FlattenSteps(ts)
    ensures ss == ts
  {
    if ss != [] {
      var v, w := FlattenSteps(ss), FlattenSteps(ts);
      assert v[0] == ss[0].op && v[1] == ss[0].atom && v[2..] == FlattenSteps(ss[1..]);
      assert w[0] == ts[0].op && w[1] == ts[0].atom && w[2..] == FlattenSteps(ts[1..]);
      StepsInjective(ss[1..], ts[1..]);
    }
  }

  lemma FlattenInjective(e: Expr, f: Expr)
    requires Flatten(e) == Flatten(f)
    ensures e == f
  {
    assert Flatten(e)[0] == e.first && Flatten(e)[1..] == FlattenSteps(e.rest);
    assert Flatten(f)[0] == f.first && Flatten(f)[1..] == FlattenSteps(f.rest);
    StepsInjective(e.rest, f.rest);
  }

  predicate AtLeast(ops: seq<Op>, x: int) {
    forall k :: 0 <= k < |ops| ==> x <= ops[k].level
  }

  predicate Consistent(ops: seq<Op>) {
    forall j, k :: 0 <= j < |ops| && 0 <= k < |ops| && ops[j].level == ops[k].level ==> ops[j].left == ops[k].left
  }

  // j is the operator to apply last: nothing looser, and nothing as loose on the wrong side.
  predicate IsPivot(ops: seq<Op>, j: nat) {
    && j < |ops|
    && AtLeast(ops[..j], ops[j].LeftDemand())
    && AtLeast(ops[j + 1..], ops[j].RightDemand())
  }

  // ----- The shape of admissible trees -------------------------------------------

  // An infix node: its two operands around its operator, each tight enough.
  ghost predicate IsInfixNode(r: Rewrite, t: Tree, l: Tree, op: Symbol, u: Tree)
    requires r.Valid()
  {
    && IsOp(r, op) && t == Node(r.lhs, OpIndex(r, op), [l, Token(op), u])
    && Good(r, r.lhs, l) && OpOf(r, op).LeftDemand() <= RootLevel(r, l)
    && Good(r, r.lhs, u) && OpOf(r, op).RightDemand() <= RootLevel(r, u)
  }

  ghost predicate IsAtomNode(r: Rewrite, t: Tree, s: Symbol)
    requires r.Valid()
  {
    t.Node? && AtomIndex(r, t.alt, s) && t == Node(r.lhs, t.alt, [Token(s)])
  }

  lemma InfixDemands(r: Rewrite, i: nat)
    requires IsTable(r) && i < |r.rules[r.lhs]| && IsInfix(r, r.rules[r.lhs][i])
    ensures var a := r.rules[r.lhs][i];
            && IsOp(r, a.rhs[1]) && OpIndex(r, a.rhs[1]) == i && a.rhs[1] != r.lhs
            && Demand(r.lhs, r.min, a, 0) == OpOf(r, a.rhs[1]).LeftDemand()
            && Demand(r.lhs, r.min, a, 2) == OpOf(r, a.rhs[1]).RightDemand()
  {
    var a := r.rules[r.lhs][i];
    assert InfixIndex(r, i, a.rhs[1]);
    assert Absent(a.rhs, r.lhs, 0, 0) && !Absent(a.rhs, r.lhs, 0, 2);
    assert Absent(a.rhs, r.lhs, 3, 3) && !Absent(a.rhs, r.lhs, 1, 3);
  }

  lemma TokenKid(r: Rewrite, s: Symbol, t: Tree)
    requires IsTable(r) && s in r.tokens && Derives(r.tokens, r.rules, s, t)
    ensures t == Token(s)
  {
  }

  lemma GoodShape(r: Rewrite, t: Tree) returns (l: Tree, op: Symbol, u: Tree)
    requires IsTable(r) && Good(r, r.lhs, t)
    ensures IsAtomNode(r, t, op) || IsInfixNode(r, t, l, op, u)
  {
    var a := r.rules[r.lhs][t.alt];
    l, u := t, t;
    if IsAtom(r, a) {
      op := a.rhs[0];
      TokenKid(r, op, t.kids[0]);
      assert t.kids == [t.kids[0]];
    } else {
      InfixDemands(r, t.alt);
      l, op, u := t.kids[0], a.rhs[1], t.kids[2];
      TokenKid(r, op, t.kids[1]);
      assert t.kids == [l, Token(op), u];
    }
  }

  lemma ShapeGood(r: Rewrite, t: Tree, l: Tree, op: Symbol, u: Tree)
    requires IsTable(r) && IsInfixNode(r, t, l, op, u)
    ensures Good(r, r.lhs, t) && RootLevel(r, t) == OpOf(r, op).level
  {
    InfixDemands(r, t.alt);
  }

  lemma NodeYields(r: Rewrite, t: Tree, l: Tree, op: Symbol, u: Tree)
    requires r.Valid()
    ensures IsAtomNode(r, t, op) ==> Yield(t) == [op]
    ensures IsInfixNode(r, t, l, op, u) ==> Yield(t) == Yield(l) + [op] + Yield(u)
  {
    assert [l, Token(op), u][1..] == [Token(op), u];
    assert [Token(op), u][1..] == [u];
    YieldOne(u);
    YieldOne(Token(op));
    assert YieldAll([Token(op), u]) == [op] + Yield(u);
    assert YieldAll([l, Token(op), u]) == Yield(l) + ([op] + Yield(u));
  }

  // The yield of an admissible tree is an expression no looser than its root.
  ghost predicate Spells(r: Rewrite, t: Tree, e: Expr)
    requires r.Valid()
  {
    Yield(t) == Flatten(e) && IsExpr(r, e)
  }

  lemma JoinSpells(r: Rewrite, t: Tree, l: Tree, op: Symbol, u: Tree, e: Expr, f: Expr)
    requires r.Valid() && IsInfixNode(r, t, l, op, u) && Spells(r, l, e) && Spells(r, u, f)
    ensures Spells(r, t, Join(e, op, f))
    ensures Ops(r, Join(e, op, f)) == Ops(r, e) + [OpOf(r, op)] + Ops(r, f)
  {
    hide Rewrite.Valid, Good, RootLevel, OpOf, IsAtomSym;
    NodeYields(r, t, l, op, u);
    FlattenJoin(e, op, f);
  }

  lemma {:induction false} YieldIsExpr(r: Rewrite, t: Tree) returns (e: Expr)
    requires IsTable(r) && r.Valid() && Good(r, r.lhs, t)
    ensures Spells(r, t, e) && AtLeast(Ops(r, e), RootLevel(r, t))
    decreases t
  {
    hide IsTable, Rewrite.Valid, Derives, Admissible, OpOf;
    var l, op, u := GoodShape(r, t);
    if IsAtomNode(r, t, op) {
      NodeYields(r, t, l, op, u);
      e := Expr(op, []);
    } else {
      assert t.kids[0] == l && t.kids[2] == u;
      ShapeGood(r, t, l, op, u);
      var e0 := YieldIsExpr(r, l);
      var e1 := YieldIsExpr(r, u);
      JoinSpells(r, t, l, op, u, e0, e1);
      e := Join(e0, op, e1);
    }
  }

  // ----- At most one tree ----------------------------------------------------------

  // The root operator of an admissible tree is a pivot of its expression.
  lemma RootIsPivot(r: Rewrite, t: Tree, l: Tree, op: Symbol, u: Tree) returns (e: Expr, f: Expr)
    requires IsTable(r) && IsInfixNode(r, t, l, op, u)
    ensures Spells(r, t, Join(e, op, f)) && Spells(r, l, e) && Spells(r, u, f)
    ensures IsPivot(Ops(r, Join(e, op, f)), |e.rest|)
  {
    e := YieldIsExpr(r, l);
    f := YieldIsExpr(r, u);
    JoinSpells(r, t, l, op, u, e, f);
    var ops := Ops(r, Join(e, op, f));
    assert ops[..|e.rest|] == Ops(r, e) && ops[|e.rest| + 1..] == Ops(r, f);
  }

  lemma PivotUnique(ops: seq<Op>, i: nat, j: nat)
    requires Consistent(ops) && IsPivot(ops, i) && IsPivot(ops, j)
    ensures i == j
  {
  }

  lemma TableConsistent(r: Rewrite, e: Expr)
    requires IsTable(r) && IsExpr(r, e)
    ensures Consistent(Ops(r, e))
  {
    forall j, k | 0 <= j < |e.rest| && 0 <= k < |e.rest| && Ops(r, e)[j].level == Ops(r, e)[k].level
      ensures Ops(r, e)[j].left == Ops(r, e)[k].left
    {
      var m, n := OpIndex(r, e.rest[j].op), OpIndex(r, e.rest[k].op);
      assert InfixIndex(r, m, e.rest[j].op) && InfixIndex(r, n, e.rest[k].op);
    }
  }

  lemma SameSplit(r: Rewrite, e: Expr, op: Symbol, f: Expr, e': Expr, op': Symbol, f': Expr)
    requires IsTable(r) && IsExpr(r, Join(e, op, f)) && Join(e, op, f) == Join(e', op', f')
    requires IsPivot(Ops(r, Join(e, op, f)), |e.rest|) && IsPivot(Ops(r, Join(e, op, f)), |e'.rest|)
    ensures e == e' && op == op' && f == f'
  {
    var j := Join(e, op, f);
    TableConsistent(r, j);
    PivotUnique(Ops(r, j), |e.rest|, |e'.rest|);
    var n := |e.rest|;
    assert j.rest[..n] == e.rest && j.rest[n] == Step(op, f.first) && j.rest[n + 1..] == f.rest;
    assert j.rest[..n] == e'.rest && j.rest[n] == Step(op', f'.first) && j.rest[n + 1..] == f'.rest;
  }

  lemma AtomUnique(r: Rewrite, t: Tree, t': Tree, s: Symbol)
    requires IsTable(r) && IsAtomNode(r, t, s) && IsAtomNode(r, t', s)
    ensures t == t'
  {
    var alts := r.rules[r.lhs];
    assert alts[t.alt].rhs == [s] && alts[t'.alt].rhs == [s];
  }

  lemma {:induction false} GoodUnique(r: Rewrite, t: Tree, t': Tree)
    requires IsTable(r) && r.Valid() && Good(r, r.lhs, t) && Good(r, r.lhs, t') && Yield(t) == Yield(t')
    ensures t == t'
    decreases t
  {
    hide IsTable, Rewrite.Valid, Good, Spells, Ops, IsPivot, IsAtomNode;
    var l, op, u := GoodShape(r, t);
    var l', op', u' := GoodShape(r, t');
    NodeYields(r, t, l, op, u);
    NodeYields(r, t', l', op', u');
    if IsAtomNode(r, t, op) && IsAtomNode(r, t', op') {
      assert op == Yield(t)[0] == op';
      AtomUnique(r, t, t', op);
    } else if IsAtomNode(r, t, op) {
      AtomNotInfix(r, t', l', op', u');
    } else if IsAtomNode(r, t', op') {
      AtomNotInfix(r, t, l, op, u);
    } else {
      var e, f := RootIsPivot(r, t, l, op, u);
      var e', f' := RootIsPivot(r, t', l', op', u');
      FlattenInjective(Join(e, op, f), Join(e', op', f'));
      SameSplit(r, e, op, f, e', op', f');
      assert t.kids[0] == l && t.kids[2] == u;
      GoodUnique(r, l, l');
      GoodUnique(r, u, u');
    }
  }

  lemma AtomNotInfix(r: Rewrite, t: Tree, l: Tree, op: Symbol, u: Tree)
    requires IsTable(r) && IsInfixNode(r, t, l, op, u)
    ensures |Yield(t)| > 1
  {
    var e, f := RootIsPivot(r, t, l, op, u);
  }

  // ----- At least one tree -----------------------------------------------------------

  lemma {:induction false} FindPivot(ops: seq<Op>) returns (j: nat)
    requires ops != [] && Consistent(ops)
    ensures IsPivot(ops, j)
  {
    var n := |ops| - 1;
    if n == 0 {
      j := 0;
    } else {
      var i := FindPivot(ops[..n]);
      assert ops[..n][..i] == ops[..i];
      var keep := ops[i].RightDemand() <= ops[n].level;
      j := if keep then i else n;
      forall k | 0 <= k < n ensures keep || ops[n].LeftDemand() <= ops[k].level {
        if k < i { assert ops[..i][k] == ops[k]; } else if k > i { assert ops[..n][i + 1..][k - i - 1] == ops[k]; }
      }
      if keep { assert ops[i + 1..] == ops[..n][i + 1..] + [ops[n]]; }
    }
  }

  lemma AtomGood(r: Rewrite, s: Symbol) returns (t: Tree)
    requires IsTable(r) && IsAtomSym(r, s)
    ensures Good(r, r.lhs, t) && Yield(t) == [s] && RootLevel(r, t) == 0
  {
    var i: nat :| AtomIndex(r, i, s);
    t := Node(r.lhs, i, [Token(s)]);
    NodeYields(r, t, t, s, t);
  }

  lemma {:induction false} GoodExists(r: Rewrite, e: Expr, x: int) returns (t: Tree)
    requires IsTable(r) && r.Valid() && IsExpr(r, e) && AtLeast(Ops(r, e), x) && x <= 0
    ensures Good(r, r.lhs, t) && Yield(t) == Flatten(e) && x <= RootLevel(r, t)
    decreases |e.rest|
  {
    hide IsTable, Rewrite.Valid, RootLevel, IsAtomSym, Good, OpOf;
    if e.rest == [] {
      t := AtomGood(r, e.first);
    } else {
      TableConsistent(r, e);
      var j := FindPivot(Ops(r, e));
      var e0, op, e1 := SplitExpr(r, e, j);
      var l := GoodExists(r, e0, OpOf(r, op).LeftDemand());
      var u := GoodExists(r, e1, OpOf(r, op).RightDemand());
      t := Node(r.lhs, OpIndex(r, op), [l, Token(op), u]);
      ShapeGood(r, t, l, op, u);
      JoinSpells(r, t, l, op, u, e0, e1);
    }
  }

  lemma SplitExpr(r: Rewrite, e: Expr, j: nat) returns (e0: Expr, op: Symbol, e1: Expr)
    requires r.Valid() && IsExpr(r, e) && IsPivot(Ops(r, e), j)
    ensures e == Join(e0, op, e1) && |e0.rest| == j
    ensures IsExpr(r, e0) && IsExpr(r, e1) && IsOp(r, op) && Ops(r, e)[j] == OpOf(r, op)
    ensures AtLeast(Ops(r, e0), OpOf(r, op).LeftDemand()) && AtLeast(Ops(r, e1), OpOf(r, op).RightDemand())
  {
    hide Rewrite.Valid, IsAtomSym, OpOf;
    e0, op, e1 := Expr(e.first, e.rest[..j]), e.rest[j].op, Expr(e.rest[j].atom, e.rest[j + 1..]);
    assert Ops(r, e0) == Ops(r, e)[..j] && Ops(r, e1) == Ops(r, e)[j + 1..];
  }

  lemma NotOwnLevel(r: Rewrite)
    ensures !r.IsLevel(r.lhs)
  {
    if r.IsLevel(r.lhs) {
      LevelIsNew(r.lhs, r.lhs.depth);
    }
  }

  /** Every operator expression has exactly one tree in the levelled grammar. */
  lemma TableUnambiguous(r: Rewrite, e: Expr) returns (t: Tree)
    requires IsTable(r) && IsExpr(r, e)
    ensures Derives(r.tokens, r.rules', r.lhs, t) && Yield(t) == Flatten(e)
    ensures forall t' :: Derives(r.tokens, r.rules', r.lhs, t') && Yield(t') == Flatten(e) ==> t' == t
  {
    NotOwnLevel(r);
    var g := GoodExists(r, e, r.min);
    t := Lower(r, r.lhs, g);
    TreesCorrespond(r, r.lhs, g, t);
    forall t' | Derives(r.tokens, r.rules', r.lhs, t') && Yield(t') == Flatten(e) ensures t' == t {
      var g' := Raise(r, t');
      TreesCorrespond(r, r.lhs, g', t');
      GoodUnique(r, g, g');
    }
  }

  /** The levelled grammar derives nothing but operator expressions. */
  lemma TableSound(r: Rewrite, t: Tree) returns (e: Expr)
    requires IsTable(r) && Derives(r.tokens, r.rules', r.lhs, t)
    ensures IsExpr(r, e) && Yield(t) == Flatten(e)
  {
    NotOwnLevel(r);
    TreesCorrespond(r, r.lhs, Raise(r, t), t);
    e := YieldIsExpr(r, Raise(r, t));
  }
}
