/** What the values of trees say: locations, rules, left sides and children, said of the
    trees and their values alone. */
module EvalLaws {
  import opened Options
  import opened Masks
  import opened Selections
  import opened EvalStack
  import RuleCode

  // ----- Locations -------------------------------------------------------------------------

  // The tokens of a tree.
  function Width(t: Tree): nat
    decreases t
  {
    match t
    case Leaf(_) => 1
    case Nulled => 0
    case Node(_, _, _, children) => WidthAll(children)
  }

  function WidthAll(ts: seq<Tree>): nat
    decreases ts
  {
    if ts == [] then 0 else WidthAll(ts[..|ts| - 1]) + Width(ts[|ts| - 1])
  }

  // Nodes reach from where they begin over all their tokens; children adjoin.
  ghost predicate Located(t: Tree, at: int)
    decreases t
  {
    t.Node? ==>
      && t.start == at && t.end == at + Width(t)
      && forall k :: 0 <= k < |t.children| ==> Located(t.children[k], at + WidthAll(t.children[..k]))
  }

  lemma {:induction false} WidthUpTo(ts: seq<Tree>, k: nat)
    requires k < |ts|
    ensures WidthAll(ts[..k + 1]) == WidthAll(ts[..k]) + Width(ts[k]) && WidthAll(ts[..k + 1]) <= WidthAll(ts)
    decreases |ts|
  {
    assert ts[..k + 1][..k] == ts[..k];
    if k + 1 < |ts| {
      WidthUpTo(ts[..|ts| - 1], k);
      assert ts[..|ts| - 1][..k + 1] == ts[..k + 1] && ts[..|ts| - 1][..k] == ts[..k];
    } else {
      assert ts[..k + 1] == ts;
    }
  }

  // Where a child begins and ends.
  lemma {:induction false} ChildLocated(t: Tree, at: int, k: nat)
    requires t.Node? && Located(t, at) && k < |t.children|
    ensures var lo := at + WidthAll(t.children[..k]);
            var hi := lo + Width(t.children[k]);
            && Located(t.children[k], lo) && at <= lo <= hi <= at + Width(t)
            && (k == 0 ==> lo == at) && (k + 1 == |t.children| ==> hi == at + Width(t))
            && (k + 1 < |t.children| ==> Located(t.children[k + 1], hi))
  {
    hide Located, Width, WidthAll;
    ChildExtent(t, k);
    ChildStart(t, at, k);
    if k + 1 < |t.children| { ChildStart(t, at, k + 1); }
  }

  lemma {:induction false} ChildStart(t: Tree, at: int, k: nat)
    requires t.Node? && Located(t, at) && k < |t.children|
    ensures Located(t.children[k], at + WidthAll(t.children[..k]))
  {
    hide Width, WidthAll;
  }

  lemma {:induction false} ChildExtent(t: Tree, k: nat)
    requires t.Node? && k < |t.children|
    ensures Width(t) == WidthAll(t.children)
    ensures WidthAll(t.children[..k + 1]) == WidthAll(t.children[..k]) + Width(t.children[k]) <= Width(t)
    ensures k == 0 ==> WidthAll(t.children[..k]) == 0
    ensures k + 1 == |t.children| ==> WidthAll(t.children[..k + 1]) == Width(t)
  {
    WidthUpTo(t.children, k);
    if k == 0 { assert t.children[..k] == []; }
    if k + 1 == |t.children| { assert t.children[..k + 1] == t.children; }
  }

  // ----- The pieces of a node's value ---------------------------------------------------------

  // The node has a value, and piece i of it is for the key.
  ghost predicate HasPiece(kn: Knowledge, t: Tree, v: Value, i: nat, key: nat) {
    && KnowsRules(kn, t) && t.Node? && Meaning(kn, t) == Some(v) && FIRST !in kn.keys[t.rule]
    && i < |kn.keys[t.rule]| && kn.keys[t.rule][i] == key
  }

  lemma {:induction false} PieceThere(kn: Knowledge, t: Tree, v: Value, i: nat, key: nat)
    requires HasPiece(kn, t, v, i, key)
    ensures v.Vector? && |v.items| == |kn.keys[t.rule]| && key in kn.keys[t.rule] && IsKey(key)
    ensures Meanings(kn, t.children).Some?
    ensures v.items[i] == Piece(kn, key, t.rule, t.start, t.end, Kept(Meanings(kn, t.children).value, kn.masks[t.rule]))
  {
    assert kn.keys[t.rule][i] in kn.keys[t.rule];
  }

  /** Locations: the first piece is where the node's tokens begin, the second where they end,
      and the length is one more than they are. */
  lemma {:induction false} LocationPieces(kn: Knowledge, t: Tree, v: Value, i: nat, key: nat, at: int)
    requires HasPiece(kn, t, v, i, key) && Located(t, at)
    ensures v.Vector? && i < |v.items|
    ensures key == G1START ==> v.items[i] == Number(at)
    ensures key == G1END ==> v.items[i] == Number(at + Width(t))
    ensures key == G1LENGTH ==> v.items[i] == Number(Width(t) + 1)
  {
    PieceThere(kn, t, v, i, key);
    hide Meaning, KnowsRules, HasPiece;
  }

  /** They nest: a child's lie between its parent's, the first child starts where the parent
      does, and the last ends where it does. */
  lemma {:induction false} PiecesNest(kn: Knowledge, t: Tree, v: Value, k: nat, w: Value, i: nat, j: nat, i': nat, j': nat, at: int)
    requires Located(t, at) && HasPiece(kn, t, v, i, G1START) && HasPiece(kn, t, v, j, G1END) && k < |t.children|
    requires HasPiece(kn, t.children[k], w, i', G1START) && HasPiece(kn, t.children[k], w, j', G1END)
    ensures v.Vector? && i < |v.items| && j < |v.items| && w.Vector? && i' < |w.items| && j' < |w.items|
    ensures v.items[i].Number? && v.items[j].Number? && w.items[i'].Number? && w.items[j'].Number?
    ensures v.items[i].n <= w.items[i'].n <= w.items[j'].n <= v.items[j].n
    ensures k == 0 ==> w.items[i'] == v.items[i]
    ensures k + 1 == |t.children| ==> w.items[j'] == v.items[j]
  {
    hide HasPiece, Located, Width, WidthAll;
    Extent(kn, t, v, i, j, at);
    ChildLocated(t, at, k);
    Extent(kn, t.children[k], w, i', j', at + WidthAll(t.children[..k]));
  }

  lemma {:induction false} Extent(kn: Knowledge, t: Tree, v: Value, i: nat, j: nat, at: int)
    requires Located(t, at) && HasPiece(kn, t, v, i, G1START) && HasPiece(kn, t, v, j, G1END)
    ensures t.Node? && v.Vector? && i < |v.items| && j < |v.items| && v.items[i] == Number(at) && v.items[j] == Number(at + Width(t))
  {
    assert t.Node?;
    hide HasPiece, Located, Width;
    LocationPieces(kn, t, v, i, G1START, at);
    LocationPieces(kn, t, v, j, G1END, at);
  }

  /** The lexer's pieces: start and end both where the lexer stands, the length unknown. */
  lemma {:induction false} LexerPieces(kn: Knowledge, t: Tree, v: Value, i: nat, key: nat)
    requires HasPiece(kn, t, v, i, key)
    ensures v.Vector? && i < |v.items|
    ensures key == START || key == END ==> v.items[i] == Number(kn.lexStart)
    ensures key == LENGTH ==> v.items[i] == Number(-1)
  {
    PieceThere(kn, t, v, i, key);
    hide Meaning, KnowsRules, HasPiece;
  }

  // ----- Rules and left sides -------------------------------------------------------------------

  /** Rule ids tell rules apart, and left sides agree just where the rules' left sides do. */
  lemma {:induction false} IdsTellApart(kn: Knowledge, t: Tree, v: Value, i: nat, u: Tree, w: Value, j: nat, key: nat)
    requires HasPiece(kn, t, v, i, key) && HasPiece(kn, u, w, j, key)
    ensures v.Vector? && i < |v.items| && w.Vector? && j < |w.items|
    ensures key == RULE_ID ==> (v.items[i] == w.items[j] <==> t.rule == u.rule)
    ensures key == LHS_ID ==> (v.items[i] == w.items[j] <==> kn.lhs(t.rule) == kn.lhs(u.rule))
  {
    PieceThere(kn, t, v, i, key);
    PieceThere(kn, u, w, j, key);
    hide Meaning, KnowsRules, HasPiece;
  }

  /** Names are those of the ids beside them. */
  lemma {:induction false} NamesMatchIds(kn: Knowledge, t: Tree, v: Value, i: nat, j: nat)
    requires || (HasPiece(kn, t, v, i, RULE_ID) && HasPiece(kn, t, v, j, RULE_NAME))
             || (HasPiece(kn, t, v, i, LHS_ID) && HasPiece(kn, t, v, j, LHS_NAME))
    ensures v.Vector? && i < |v.items| && j < |v.items| && v.items[i].Number? && v.items[i].n >= 0
    ensures v.items[j] == Text(if HasPiece(kn, t, v, i, RULE_ID) then kn.ruleName(v.items[i].n) else kn.symbolName(v.items[i].n))
  {
    var ids, names := kn.keys[t.rule][i], kn.keys[t.rule][j];
    PieceThere(kn, t, v, i, ids);
    PieceThere(kn, t, v, j, names);
    hide Meaning, KnowsRules;
  }

  /** With the table of left sides the generator makes for rules without byte ranges, the left
      side is the one the library was told for the rule, and decoding the rule gives. */
  lemma {:induction false} LhsIsTold(kn: Knowledge, all: seq<RuleCode.Rule>, t: Tree, v: Value, i: nat)
    requires RuleCode.AllFit(all) && forall k :: 0 <= k < |all| ==> !all[k].ByteRange?
    requires (forall r: nat :: r < |all| ==> kn.lhs(r) == RuleCode.Lefts(all)[r]) && t.Node? && t.rule < |all|
    requires HasPiece(kn, t, v, i, LHS_ID)
    ensures v.Vector? && i < |v.items| && t.rule < |RuleCode.ExpandAll(all)|
    ensures v.items[i] == Number(RuleCode.ExpandAll(all)[t.rule].lhs)
  {
    PieceThere(kn, t, v, i, LHS_ID);
    RuleCode.LeftsTold(all);
    hide Meaning, KnowsRules, HasPiece;
  }

  // ----- Children ------------------------------------------------------------------------------------

  // The values of the children, in order.
  ghost predicate AreValues(kn: Knowledge, ts: seq<Tree>, values: seq<Value>)
    requires forall k :: 0 <= k < |ts| ==> KnowsRules(kn, ts[k])
  {
    |values| == |ts| && forall k :: 0 <= k < |ts| ==> Meaning(kn, ts[k]) == Some(values[k])
  }

  // The children shown: those the mask does not name.
  ghost function ShownChildren(kn: Knowledge, t: Tree): set<nat>
    requires t.Node? && t.rule < |kn.masks|
  {
    Others(|t.children|, kn.masks[t.rule])
  }

  lemma {:induction false} MeaningsAreValues(kn: Knowledge, ts: seq<Tree>)
    requires forall k :: 0 <= k < |ts| ==> KnowsRules(kn, ts[k])
    ensures Meanings(kn, ts).Some? ==> AreValues(kn, ts, Meanings(kn, ts).value)
    ensures Meanings(kn, ts).None? ==> exists k :: 0 <= k < |ts| && Meaning(kn, ts[k]).None?
    decreases |ts|
  {
    hide KnowsRules, Meaning;
    if ts != [] {
      var front := ts[..|ts| - 1];
      MeaningsAreValues(kn, front);
      if Meanings(kn, front).None? {
        var k :| 0 <= k < |front| && Meaning(kn, front[k]).None?;
        assert ts[k] == front[k];
      }
    }
  }

  /** The value piece holds the values of the children shown, in order. */
  lemma {:induction false} ValuePieces(kn: Knowledge, t: Tree, v: Value, i: nat) returns (values: seq<Value>)
    requires HasPiece(kn, t, v, i, VALUE)
    ensures v.Vector? && i < |v.items| && v.items[i].Vector? && AreValues(kn, t.children, values)
    ensures Chosen(values, ShownChildren(kn, t), v.items[i].items)
  {
    PieceThere(kn, t, v, i, VALUE);
    MeaningsAreValues(kn, t.children);
    values := Meanings(kn, t.children).value;
    var picks := KeptChosen(values, kn.masks[t.rule]);
    assert |values| == |t.children|;
    hide Meaning, KnowsRules, Lists, ChosenAt;
  }

  /** Where the first child is asked for, the value is that of the first child shown. */
  lemma {:induction false} FirstIsFirst(kn: Knowledge, t: Tree, v: Value) returns (values: seq<Value>, shown: seq<Value>)
    requires KnowsRules(kn, t) && t.Node? && Meaning(kn, t) == Some(v) && FIRST in kn.keys[t.rule]
    ensures AreValues(kn, t.children, values) && Chosen(values, ShownChildren(kn, t), shown)
    ensures shown != [] && v == shown[0]
  {
    MeaningsAreValues(kn, t.children);
    values := Meanings(kn, t.children).value;
    shown := Kept(values, kn.masks[t.rule]);
    var picks := KeptChosen(values, kn.masks[t.rule]);
    assert |values| == |t.children|;
    hide KnowsRules, Lists, ChosenAt;
  }

  // Somewhere the first child is asked for and none is shown.
  ghost predicate Lacks(kn: Knowledge, t: Tree)
    requires KnowsRules(kn, t)
    decreases t
  {
    t.Node? &&
      ((exists k :: 0 <= k < |t.children| && Lacks(kn, t.children[k])) ||
       (FIRST in kn.keys[t.rule] && forall k :: 0 <= k < |t.children| ==> k in kn.masks[t.rule]))
  }

  /** Just then a tree has no value. */
  lemma {:induction false} NoValue(kn: Knowledge, t: Tree)
    requires KnowsRules(kn, t)
    ensures Meaning(kn, t).None? <==> Lacks(kn, t)
    decreases t
  {
    if t.Node? {
      forall k | 0 <= k < |t.children| ensures Meaning(kn, t.children[k]).None? <==> Lacks(kn, t.children[k]) {
        NoValue(kn, t.children[k]);
      }
      MeaningsAreValues(kn, t.children);
      if Meanings(kn, t.children).Some? { NoneShown(Meanings(kn, t.children).value, kn.masks[t.rule]); }
    }
  }

  lemma NoneShown(values: seq<Value>, mask: seq<nat>)
    ensures Kept(values, mask) == [] <==> forall k :: 0 <= k < |values| ==> k in mask
  {
    var picks := KeptChosen(values, mask);
    var others := Others(|values|, mask);
    ListsNone(picks, others);
    if k: nat :| k < |values| && k !in mask { assert k in others; }
    assert (forall k :: k !in others) ==> others == {};
  }
}
