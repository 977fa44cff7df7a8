/** Lists of a quantified rule, read as the plain rules the rule stands for: a first item, or
    a list and one more, perhaps behind a separator. The rewrite of a grammar leaves them be:
    its lists are the old ones, item for item. */
module PrecedenceLists {
  import opened Precedence
  import opened PrecedenceTrees
  import opened PrecedenceGrammar

  datatype Quantified = Quantified(list: Symbol, first: seq<Symbol>, more: seq<Symbol>)

  ghost predicate IsList(tokens: set<Symbol>, rules: Rules, q: Quantified) {
    && q.list !in tokens && |Lookup(rules, q.list)| == 2
    && Lookup(rules, q.list)[0].rhs == q.first && Lookup(rules, q.list)[1].rhs == [q.list] + q.more
  }

  // ----- Lists and trees ----------------------------------------------------------------

  ghost predicate DerivesEach(tokens: set<Symbol>, rules: Rules, syms: seq<Symbol>, ts: seq<Tree>) {
    |ts| == |syms| && forall k :: 0 <= k < |ts| ==> Derives(tokens, rules, syms[k], ts[k])
  }

  // The symbols of the i-th item, with what stands before it.
  function ItemSymbols(q: Quantified, i: nat): seq<Symbol> { if i == 0 then q.first else q.more }

  ghost predicate DerivesItems(tokens: set<Symbol>, rules: Rules, q: Quantified, items: seq<seq<Tree>>) {
    items != [] && forall i: nat :: i < |items| ==> DerivesEach(tokens, rules, ItemSymbols(q, i), items[i])
  }

  // The items of a list's tree, and the tree of items.
  function Items(t: Tree): seq<seq<Tree>> {
    match t
    case Token(_) => []
    case Node(_, alt, kids) => if alt == 0 || kids == [] then [kids] else Items(kids[0]) + [kids[1..]]
  }

  function ListTree(list: Symbol, items: seq<seq<Tree>>): Tree
    requires items != []
    decreases |items|
  {
    var n := |items| - 1;
    if n == 0 then Node(list, 0, items[0]) else Node(list, 1, [ListTree(list, items[..n])] + items[n])
  }

  function YieldItems(items: seq<seq<Tree>>): seq<Symbol> {
    if items == [] then [] else YieldItems(items[..|items| - 1]) + YieldAll(items[|items| - 1])
  }

  lemma FirstNode(tokens: set<Symbol>, rules: Rules, q: Quantified, kids: seq<Tree>)
    requires IsList(tokens, rules, q)
    ensures Derives(tokens, rules, q.list, Node(q.list, 0, kids)) <==> DerivesEach(tokens, rules, q.first, kids)
  {
  }

  lemma MoreNode(tokens: set<Symbol>, rules: Rules, q: Quantified, front: Tree, last: seq<Tree>)
    requires IsList(tokens, rules, q)
    ensures Derives(tokens, rules, q.list, Node(q.list, 1, [front] + last)) <==>
            Derives(tokens, rules, q.list, front) && DerivesEach(tokens, rules, q.more, last)
  {
    var syms, kids := [q.list] + q.more, [front] + last;
    assert Lookup(rules, q.list)[1].rhs == syms;
    assert forall k :: 0 <= k < |last| ==> kids[k + 1] == last[k];
    assert forall k :: 0 <= k < |q.more| ==> syms[k + 1] == q.more[k];
    assert kids[0] == front && syms[0] == q.list;
  }

  lemma NodeOfList(tokens: set<Symbol>, rules: Rules, q: Quantified, t: Tree)
    requires IsList(tokens, rules, q) && Derives(tokens, rules, q.list, t)
    ensures t.Node? && t.lhs == q.list && t.alt < 2 && (t.alt == 1 ==> t.kids != [])
  {
  }

  lemma ItemsNext(tokens: set<Symbol>, rules: Rules, q: Quantified, front: seq<seq<Tree>>, last: seq<Tree>)
    requires front != []
    ensures DerivesItems(tokens, rules, q, front + [last]) <==>
            DerivesItems(tokens, rules, q, front) && DerivesEach(tokens, rules, q.more, last)
  {
    hide DerivesEach;
    var all := front + [last];
    assert all[|front|] == last && ItemSymbols(q, |front|) == q.more;
    assert forall i: nat :: i < |front| ==> all[i] == front[i];
  }

  lemma ListTreeNext(list: Symbol, front: seq<seq<Tree>>, last: seq<Tree>)
    requires front != []
    ensures ListTree(list, front + [last]) == Node(list, 1, [ListTree(list, front)] + last)
    ensures YieldItems(front + [last]) == YieldItems(front) + YieldAll(last)
    ensures Items(ListTree(list, front + [last])) == Items(ListTree(list, front)) + [last]
  {
    assert (front + [last])[..|front|] == front;
    assert ([ListTree(list, front)] + last)[1..] == last;
  }

  /** The trees of a list are its items in a row, and the other way round. */
  lemma {:induction false} ListsAreItems(tokens: set<Symbol>, rules: Rules, q: Quantified, t: Tree)
    requires IsList(tokens, rules, q) && Derives(tokens, rules, q.list, t)
    ensures DerivesItems(tokens, rules, q, Items(t)) && ListTree(q.list, Items(t)) == t && YieldItems(Items(t)) == Yield(t)
    decreases t
  {
    NodeOfList(tokens, rules, q, t);
    hide IsList, Derives, DerivesEach, ListTree;
    if t.alt == 0 {
      OneItem(q.list, t.kids);
      FirstNode(tokens, rules, q, t.kids);
    } else {
      var front, last := t.kids[0], t.kids[1..];
      assert t.kids == [front] + last && Yield(t) == Yield(front) + YieldAll(last);
      MoreNode(tokens, rules, q, front, last);
      ListsAreItems(tokens, rules, q, front);
      ItemsNext(tokens, rules, q, Items(front), last);
      ListTreeNext(q.list, Items(front), last);
    }
  }

  lemma OneItem(list: Symbol, kids: seq<Tree>)
    ensures ListTree(list, [kids]) == Node(list, 0, kids) && YieldItems([kids]) == YieldAll(kids)
  {
    assert [kids][..0] == [];
  }

  lemma {:induction false} ItemsAreLists(tokens: set<Symbol>, rules: Rules, q: Quantified, items: seq<seq<Tree>>)
    requires IsList(tokens, rules, q) && DerivesItems(tokens, rules, q, items)
    ensures Derives(tokens, rules, q.list, ListTree(q.list, items)) && Items(ListTree(q.list, items)) == items
    decreases |items|
  {
    var n := |items| - 1;
    if n == 0 {
      OneItem(q.list, items[0]);
      FirstNode(tokens, rules, q, items[0]);
      assert DerivesEach(tokens, rules, ItemSymbols(q, 0), items[0]);
    } else {
      hide IsList, Derives, DerivesEach, ListTree, DerivesItems, Items;
      var front, last := items[..n], items[n];
      assert items == front + [last];
      ItemsNext(tokens, rules, q, front, last);
      ItemsAreLists(tokens, rules, q, front);
      MoreNode(tokens, rules, q, ListTree(q.list, front), last);
      ListTreeNext(q.list, front, last);
    }
  }

  // ----- The rewrite ------------------------------------------------------------------------

  // What each item has become.
  ghost predicate LowerEach(r: Rewrite, syms: seq<Symbol>, ts: seq<Tree>, us: seq<Tree>)
    requires r.Valid()
  {
    |us| == |ts| == |syms| && forall k :: 0 <= k < |ts| ==> Good(r, syms[k], ts[k]) && us[k] == Lower(r, syms[k], ts[k])
  }

  lemma ListKept(r: Rewrite, q: Quantified)
    requires r.Valid() && IsList(r.tokens, r.rules, q) && q.list != r.lhs && !r.IsLevel(q.list)
    ensures IsList(r.tokens, r.rules', q)
  {
    OldRules(r, q.list);
  }

  // One rewrite takes a list to the list of its items rewritten.
  lemma {:induction false} ItemsLowered(r: Rewrite, q: Quantified, t: Tree)
    requires r.Valid() && IsList(r.tokens, r.rules, q) && q.list != r.lhs && Good(r, q.list, t)
    ensures var us := Items(Lower(r, q.list, t));
            |us| == |Items(t)| && forall i: nat :: i < |us| ==> LowerEach(r, ItemSymbols(q, i), Items(t)[i], us[i])
    decreases t
  {
    hide Rewrite.Valid;
    var u := Lower(r, q.list, t);
    if t.alt == 0 {
      assert LowerEach(r, q.first, t.kids, u.kids);
    } else {
      ItemsLowered(r, q, t.kids[0]);
      assert LowerEach(r, [q.list] + q.more, t.kids, u.kids);
      assert LowerEach(r, q.more, t.kids[1..], u.kids[1..]);
    }
  }

  // What each item has become at the end, from stage i on.
  ghost predicate LoweredEach(tokens: set<Symbol>, rules: Rules, rs: seq<Rewrite>, i: nat, syms: seq<Symbol>, ts: seq<Tree>, us: seq<Tree>)
    requires AllValid(rs) && i <= |rs|
  {
    |us| == |ts| == |syms| && forall k :: 0 <= k < |ts| ==> Lowered(tokens, rules, rs, i, syms[k], ts[k], us[k])
  }

  lemma ListNotSelected(rules: Rules, tokens: set<Symbol>, lhss: seq<Symbol>, q: Quantified)
    requires ToRewrite(rules, lhss) && IsList(tokens, rules, q)
    requires forall a <- Lookup(rules, q.list) :: a.precedence == 0
    ensures q.list !in lhss
  {
    var alts := Lookup(rules, q.list);
    assert alts[..1][..0] == [] && alts[..2] == alts && alts[..2][..1] == alts[..1];
    assert MinPrecedence(alts[..1]) == 0;
  }

  lemma {:induction false} ListsLowered(layer: Layer, tokens: set<Symbol>, rules: Rules, lhss: seq<Symbol>, rs: seq<Rewrite>, i: nat,
                                        q: Quantified, t: Tree, t': Tree)
    requires Stages(layer, tokens, rules, lhss, rs) && AllValid(rs) && i <= |rs| && q.list !in lhss && !q.list.Level?
    requires IsList(tokens, LastRules(rules, rs[..i]), q) && Lowered(tokens, rules, rs, i, q.list, t, t')
    ensures |Items(t')| == |Items(t)|
    ensures forall j: nat :: j < |Items(t)| ==> LoweredEach(tokens, rules, rs, i, ItemSymbols(q, j), Items(t)[j], Items(t')[j])
    decreases |rs| - i
  {
    if i == |rs| {
      assert rs[..i] == rs;
      ListsAreItems(tokens, LastRules(rules, rs), q, t);
      assert forall j: nat :: j < |Items(t)| ==> DerivesEach(tokens, LastRules(rules, rs), ItemSymbols(q, j), Items(t)[j]);
    } else {
      StageRules(layer, tokens, rules, lhss, rs, i);
      assert rs[i].lhs == lhss[i];
      var u := Lower(rs[i], q.list, t);
      ListKept(rs[i], q);
      ItemsLowered(rs[i], q, t);
      hide Stages, Rewrite.Valid, Derives, Good, Lower, IsList, Items;
      ListsLowered(layer, tokens, rules, lhss, rs, i + 1, q, u, t');
      forall j: nat | j < |Items(t)|
        ensures LoweredEach(tokens, rules, rs, i, ItemSymbols(q, j), Items(t)[j], Items(t')[j])
      {
        LoweredThrough(tokens, rules, rs, i, ItemSymbols(q, j), Items(t)[j], Items(u)[j], Items(t')[j]);
      }
    }
  }

  lemma LoweredThrough(tokens: set<Symbol>, rules: Rules, rs: seq<Rewrite>, i: nat, syms: seq<Symbol>,
                       ts: seq<Tree>, us: seq<Tree>, ts': seq<Tree>)
    requires AllValid(rs) && i < |rs| && LowerEach(rs[i], syms, ts, us) && LoweredEach(tokens, rules, rs, i + 1, syms, us, ts')
    ensures LoweredEach(tokens, rules, rs, i, syms, ts, ts')
  {
    hide Rewrite.Valid, Derives, Good, Lower;
  }

  /** The rewrite of a whole grammar does not touch its quantified rules, and its lists
      correspond to the old ones item for item. */
  lemma ListsCorrespond(layer: Layer, tokens: set<Symbol>, rules: Rules, lhss: seq<Symbol>, rs: seq<Rewrite>,
                        q: Quantified, t: Tree, t': Tree)
    requires ToRewrite(rules, lhss) && Stages(layer, tokens, rules, lhss, rs) && AllValid(rs) && !q.list.Level?
    requires IsList(tokens, rules, q) && (forall a <- Lookup(rules, q.list) :: a.precedence == 0)
    requires Lowered(tokens, rules, rs, 0, q.list, t, t')
    ensures q.list !in lhss && |Items(t')| == |Items(t)|
    ensures forall j: nat :: j < |Items(t)| ==> LoweredEach(tokens, rules, rs, 0, ItemSymbols(q, j), Items(t)[j], Items(t')[j])
  {
    ListNotSelected(rules, tokens, lhss, q);
    assert rs[..0] == [];
    ListsLowered(layer, tokens, rules, lhss, rs, 0, q, t, t');
  }
}
