/** What the precedence rewrite loses: a loose prefix operator as the right operand of a
    tighter infix one. */
module PrecedencePrefix {
  import opened Precedence
  import opened PrecedenceTrees

  // Atoms, a left-associative infix operator, and a looser prefix operator.
  ghost predicate PrefixTable(r: Rewrite, a: Symbol, op: Symbol, pre: Symbol)
    requires r.Valid()
  {
    var alts := r.rules[r.lhs];
    && |alts| == 3 && alts[0].rhs == [a] && alts[1].rhs == [r.lhs, op, r.lhs] && alts[2].rhs == [pre, r.lhs]
    && alts[0].precedence == 0 && alts[1].precedence == -1 && alts[2].precedence == -2 && AssocOf(alts[1]) == "left"
    && IsToken(r, a) && IsToken(r, op) && IsToken(r, pre) && a != op && a != pre && op != pre
  }

  ghost predicate IsToken(r: Rewrite, s: Symbol) {
    s in r.tokens && Lookup(r.rules, s) == []
  }

  lemma YieldTwo(s: Tree, t: Tree)
    ensures YieldAll([s, t]) == Yield(s) + Yield(t)
  {
    assert [s, t][1..] == [t];
    YieldOne(t);
  }

  lemma YieldThree(s: Tree, t: Tree, u: Tree)
    ensures YieldAll([s, t, u]) == Yield(s) + Yield(t) + Yield(u)
  {
    assert [s, t, u][1..] == [t, u];
    YieldTwo(t, u);
  }

  lemma TokenTree(r: Rewrite, s: Symbol, t: Tree)
    requires IsToken(r, s) && Derives(r.tokens, r.rules, s, t)
    ensures t == Token(s) && Yield(t) == [s]
  {
  }

  // The tree of the expression, by alternatives.
  lemma NodeYields(r: Rewrite, a: Symbol, op: Symbol, pre: Symbol, t: Tree)
    requires r.Valid() && PrefixTable(r, a, op, pre) && Derives(r.tokens, r.rules, r.lhs, t)
    ensures t.Node? && t.alt < 3
    ensures t.alt == 0 ==> Yield(t) == [a]
    ensures t.alt == 1 ==> |t.kids| == 3 && Yield(t) == Yield(t.kids[0]) + [op] + Yield(t.kids[2])
    ensures t.alt == 1 ==> Derives(r.tokens, r.rules, r.lhs, t.kids[2])
    ensures t.alt == 2 ==> |t.kids| == 2 && Yield(t) == [pre] + Yield(t.kids[1])
  {
    var alts := Lookup(r.rules, r.lhs);
    assert t.Node? && alts == r.rules[r.lhs];
    if t.alt == 0 {
      assert Derives(r.tokens, r.rules, alts[0].rhs[0], t.kids[0]);
      TokenTree(r, a, t.kids[0]);
      YieldOne(t.kids[0]);
      assert t.kids == [t.kids[0]];
    } else if t.alt == 1 {
      assert Derives(r.tokens, r.rules, alts[1].rhs[1], t.kids[1]) && Derives(r.tokens, r.rules, alts[1].rhs[2], t.kids[2]);
      TokenTree(r, op, t.kids[1]);
      YieldThree(t.kids[0], t.kids[1], t.kids[2]);
      assert t.kids == [t.kids[0], t.kids[1], t.kids[2]];
    } else {
      assert Derives(r.tokens, r.rules, alts[2].rhs[0], t.kids[0]);
      TokenTree(r, pre, t.kids[0]);
      YieldTwo(t.kids[0], t.kids[1]);
      assert t.kids == [t.kids[0], t.kids[1]];
    }
  }

  // In a good tree the right operand is no prefix expression.
  lemma NoLooseOperand(r: Rewrite, a: Symbol, op: Symbol, pre: Symbol, t: Tree)
    requires r.Valid() && PrefixTable(r, a, op, pre) && Good(r, r.lhs, t) && t.Node? && t.alt == 1
    ensures |t.kids| == 3 && t.kids[2].Node? && t.kids[2].alt != 2
  {
    var alt := r.rules[r.lhs][1];
    assert Lookup(r.rules, r.lhs)[1] == alt && alt.rhs[2] == r.lhs && alt.rhs[0] == r.lhs;
    assert Derives(r.tokens, r.rules, alt.rhs[2], t.kids[2]);
    assert !Absent(alt.rhs, r.lhs, 0, 2);
    assert Demand(r.lhs, r.min, alt, 2) == 0 <= RootLevel(r, t.kids[2]);
  }

  lemma NoGoodTree(r: Rewrite, a: Symbol, op: Symbol, pre: Symbol, t: Tree)
    requires r.Valid() && PrefixTable(r, a, op, pre) && Good(r, r.lhs, t)
    ensures Yield(t) != [a, op, pre, a]
  {
    NodeYields(r, a, op, pre, t);
    if t.alt == 1 && Yield(t) == [a, op, pre, a] {
      NoLooseOperand(r, a, op, pre, t);
      NodeYields(r, a, op, pre, t.kids[2]);
      OneOperator(a, op, pre, Yield(t.kids[0]), Yield(t.kids[2]));
    } else if t.alt == 2 {
      assert Yield(t)[0] == pre;
    }
  }

  lemma OneOperator(a: Symbol, op: Symbol, pre: Symbol, left: seq<Symbol>, right: seq<Symbol>)
    requires a != op && op != pre && left + [op] + right == [a, op, pre, a]
    ensures |right| == 2 && op !in right
  {
    var w := [a, op, pre, a];
    assert (left + [op] + right)[|left|] == op;
    assert |left| == 1 && right == w[2..];
  }

  /** The expression `a op pre a` has a tree in the old grammar and none in the rewritten one. */
  lemma PrefixLost(r: Rewrite, a: Symbol, op: Symbol, pre: Symbol)
    requires r.Valid() && PrefixTable(r, a, op, pre)
    ensures exists t :: Derives(r.tokens, r.rules, r.lhs, t) && Yield(t) == [a, op, pre, a]
    ensures forall t' :: Derives(r.tokens, r.rules', r.lhs, t') ==> Yield(t') != [a, op, pre, a]
  {
    var atom := Node(r.lhs, 0, [Token(a)]);
    var neg := Node(r.lhs, 2, [Token(pre), atom]);
    var t := Node(r.lhs, 1, [atom, Token(op), neg]);
    assert Derives(r.tokens, r.rules, r.lhs, atom);
    assert Derives(r.tokens, r.rules, r.lhs, neg);
    assert Derives(r.tokens, r.rules, r.lhs, t);
    NodeYields(r, a, op, pre, atom);
    NodeYields(r, a, op, pre, neg);
    NodeYields(r, a, op, pre, t);
    assert Yield(t) == [a, op, pre, a];
    forall t' | Derives(r.tokens, r.rules', r.lhs, t') ensures Yield(t') != [a, op, pre, a] {
      RaiseReturns(r, r.lhs, t');
      LowerYield(r, r.lhs, Raise(r, t'));
      NoGoodTree(r, a, op, pre, Raise(r, t'));
    }
  }
}
