/** Evaluation of parse trees: the valuator's steps run on a stack of semantic values. */
module EvalStack {
  import opened Options
  import opened Masks

  // ----- Values and trees ---------------------------------------------------------------

  datatype Value = Null | Token(id: int) | Number(n: int) | Text(s: string) | Vector(items: seq<Value>)

  // Rule nodes have children: what derives nothing is nulled.
  datatype Tree =
    | Leaf(value: nat)
    | Nulled
    | Node(rule: nat, start: int, end: int, children: seq<Tree>)

  // Keys of the pieces of a rule's value.
  const START := 0
  const END := 1
  const LENGTH := 2
  const G1START := 3
  const G1END := 4
  const G1LENGTH := 5
  const LHS_NAME := 6
  const LHS_ID := 7
  const RULE_NAME := 8
  const RULE_ID := 9
  const VALUE := 10
  const FIRST := 50

  // What the parser knows: token values, where the lexer stands, names, and by rule the
  // hidden children and the keys of the value.
  datatype Knowledge = Knowledge(
    store: nat -> Value, lexStart: int, ruleName: nat -> string, lhs: nat -> nat, symbolName: nat -> string,
    masks: seq<seq<nat>>, keys: seq<seq<nat>>)

  predicate IsKey(k: nat) { k <= VALUE || k == FIRST }

  predicate KnowsRule(kn: Knowledge, rule: nat) {
    rule < |kn.masks| && rule < |kn.keys| && forall k :: k in kn.keys[rule] ==> IsKey(k)
  }

  predicate KnowsRules(kn: Knowledge, t: Tree)
    decreases t
  {
    t.Node? ==>
      && KnowsRule(kn, t.rule) && t.children != []
      && forall i :: 0 <= i < |t.children| ==> KnowsRules(kn, t.children[i])
  }

  // ----- The meaning of a tree -------------------------------------------------------------

  function Piece(kn: Knowledge, key: nat, rule: nat, start: int, end: int, rhs: seq<Value>): Value
    requires IsKey(key) && key != FIRST
  {
    if key == START || key == END then Number(kn.lexStart)
    else if key == LENGTH then Number(-1)
    else if key == G1START then Number(start)
    else if key == G1END then Number(end)
    else if key == G1LENGTH then Number(end - start + 1)
    else if key == RULE_NAME then Text(kn.ruleName(rule))
    else if key == LHS_NAME then Text(kn.symbolName(kn.lhs(rule)))
    else if key == RULE_ID then Number(rule)
    else if key == LHS_ID then Number(kn.lhs(rule))
    else Vector(rhs)
  }

  function Pieces(kn: Knowledge, rule: nat, start: int, end: int, rhs: seq<Value>): (items: seq<Value>)
    requires KnowsRule(kn, rule) && FIRST !in kn.keys[rule]
    ensures |items| == |kn.keys[rule]|
    ensures forall i :: 0 <= i < |items| ==> items[i] == Piece(kn, kn.keys[rule][i], rule, start, end, rhs)
  {
    var keys := kn.keys[rule];
    seq(|keys|, i requires 0 <= i < |keys| => Piece(kn, keys[i], rule, start, end, rhs))
  }

  // The value of a rule over its visible children; none if their first is asked for and
  // there is none.
  function Semantics(kn: Knowledge, rule: nat, start: int, end: int, rhs: seq<Value>): Option<Value>
    requires KnowsRule(kn, rule)
  {
    var keys := kn.keys[rule];
    if FIRST !in keys then Some(Vector(Pieces(kn, rule, start, end, rhs)))
    else if rhs == [] then None else Some(rhs[0])
  }

  function Meaning(kn: Knowledge, t: Tree): Option<Value>
    requires KnowsRules(kn, t)
    decreases t
  {
    match t
    case Leaf(v) => Some(kn.store(v))
    case Nulled => Some(Null)
    case Node(rule, start, end, children) =>
      var values := Meanings(kn, children);
      if values.None? then None else Semantics(kn, rule, start, end, Kept(values.value, kn.masks[rule]))
  }

  function Meanings(kn: Knowledge, ts: seq<Tree>): (r: Option<seq<Value>>)
    requires forall i :: 0 <= i < |ts| ==> KnowsRules(kn, ts[i])
    ensures r.Some? ==> |r.value| == |ts|
    decreases ts
  {
    if ts == [] then Some([]) else
      var front, last := Meanings(kn, ts[..|ts| - 1]), Meaning(kn, ts[|ts| - 1]);
      if front.None? || last.None? then None else Some(front.value + [last.value])
  }

  // ----- The valuator's steps -----------------------------------------------------------------

  datatype Step =
    | RuleStep(rule: nat, start: int, end: int, arg0: nat, argN: nat, result: nat)
    | TokenStep(value: nat, result: nat)
    | NullStep(result: nat)
    | InternalStep

  // The children first, into adjoining slots from b on; then the rule, into the first of them.
  function Steps(t: Tree, b: nat): seq<Step>
    decreases t
  {
    match t
    case Leaf(v) => [TokenStep(v, b)]
    case Nulled => [NullStep(b)]
    case Node(rule, start, end, children) =>
      StepsOf(children, b) + [RuleStep(rule, start, end, b, if children == [] then b else b + |children| - 1, b)]
  }

  function StepsOf(ts: seq<Tree>, b: nat): seq<Step>
    decreases ts
  {
    if ts == [] then [] else StepsOf(ts[..|ts| - 1], b) + Steps(ts[|ts| - 1], b + |ts| - 1)
  }

  // ----- The machine -------------------------------------------------------------------------

  function Nulls(n: nat): seq<Value> { seq(n, (_: nat) => Null) }

  // The stack with slot `at` set, filled up with nulls before it.
  function Fill(es: seq<Value>, at: nat, x: Value): seq<Value> {
    if at < |es| then es[at := x] else es + Nulls(at - |es|) + [x]
  }

  // What a step makes of the stack; none if it fails.
  function Execute(kn: Knowledge, es: seq<Value>, s: Step): Option<seq<Value>> {
    match s
    case TokenStep(v, at) => Some(Fill(es, at, kn.store(v)))
    case NullStep(at) => Some(Fill(es, at, Null))
    case InternalStep => Some(es)
    case RuleStep(rule, start, end, arg0, argN, at) =>
      if !(arg0 <= argN < |es| && at < |es| && KnowsRule(kn, rule)) then None
      else
        var v := Semantics(kn, rule, start, end, Kept(es[arg0..argN + 1], kn.masks[rule]));
        if v.None? then None else Some(es[..at] + [v.value])
  }

  function ExecuteAll(kn: Knowledge, es: seq<Value>, steps: seq<Step>): Option<seq<Value>> {
    if steps == [] then Some(es) else
      var r := ExecuteAll(kn, es, steps[..|steps| - 1]);
      if r.None? then None else Execute(kn, r.value, steps[|steps| - 1])
  }

  lemma {:induction false} ExecutePlus(kn: Knowledge, es: seq<Value>, s: seq<Step>, t: seq<Step>)
    ensures ExecuteAll(kn, es, s + t) ==
            var r := ExecuteAll(kn, es, s); if r.None? then None else ExecuteAll(kn, r.value, t)
  {
    hide Execute;
    if t == [] {
      assert s + t == s;
    } else {
      ExecutePlus(kn, es, s, t[..|t| - 1]);
      assert (s + t)[..|s + t| - 1] == s + t[..|t| - 1];
    }
  }

  // The slots below b, as they are or null where there were none.
  function Below(es: seq<Value>, b: nat): seq<Value> {
    if b <= |es| then es[..b] else es + Nulls(b - |es|)
  }

  // The stack after evaluating at slot b: all below as before, and the values from b on.
  function After(es: seq<Value>, b: nat, r: Option<seq<Value>>): Option<seq<Value>> {
    if r.None? then None else Some(Below(es, b) + r.value)
  }

  function Single(v: Option<Value>): Option<seq<Value>> {
    if v.None? then None else Some([v.value])
  }

  lemma SingleStep(kn: Knowledge, es: seq<Value>, s: Step)
    ensures ExecuteAll(kn, es, [s]) == Execute(kn, es, s)
  {
    assert [s][..0] == [];
  }

  lemma RuleEvaluates(kn: Knowledge, t: Tree, b: nat, es: seq<Value>, values: seq<Value>)
    requires KnowsRules(kn, t) && t.Node? && |es| <= b && |values| == |t.children|
    ensures Execute(kn, Below(es, b) + values, RuleStep(t.rule, t.start, t.end, b, b + |values| - 1, b))
         == After(es, b, Single(Semantics(kn, t.rule, t.start, t.end, Kept(values, kn.masks[t.rule]))))
  {
    hide Semantics, IsKey;
    assert KnowsRule(kn, t.rule);
    var all := Below(es, b) + values;
    assert |Below(es, b)| == b && all[b..b + |values| - 1 + 1] == values && all[..b] == Below(es, b);
  }

  /** The steps of a tree leave the slots below b alone and put its value, and nothing more,
      into slot b; they fail just where the tree has no value. */
  lemma {:induction false} TreeEvaluates(kn: Knowledge, t: Tree, b: nat, es: seq<Value>)
    requires KnowsRules(kn, t) && |es| <= b
    ensures ExecuteAll(kn, es, Steps(t, b)) == After(es, b, Single(Meaning(kn, t)))
    decreases t, 1
  {
    match t
    case Leaf(v) => SingleStep(kn, es, TokenStep(v, b)); TokenEvaluates(kn, es, b, kn.store(v));
    case Nulled => SingleStep(kn, es, NullStep(b)); TokenEvaluates(kn, es, b, Null);
    case Node(rule, start, end, children) =>
      NodeEvaluates(kn, t, b, es);
  }

  lemma TokenEvaluates(kn: Knowledge, es: seq<Value>, b: nat, x: Value)
    requires |es| <= b
    ensures Fill(es, b, x) == Below(es, b) + [x]
  {
  }

  lemma {:induction false} NodeEvaluates(kn: Knowledge, t: Tree, b: nat, es: seq<Value>)
    requires KnowsRules(kn, t) && t.Node? && |es| <= b
    ensures ExecuteAll(kn, es, Steps(t, b)) == After(es, b, Single(Meaning(kn, t)))
    decreases t, 0
  {
    hide Execute, ExecuteAll, Semantics, Below, Meanings, StepsOf;
    ForestEvaluates(kn, t.children, b, es);
    var values := Meanings(kn, t.children);
    var last := RuleStep(t.rule, t.start, t.end, b, b + |t.children| - 1, b);
    ExecutePlus(kn, es, StepsOf(t.children, b), [last]);
    if values.Some? {
      SingleStep(kn, Below(es, b) + values.value, last);
      RuleEvaluates(kn, t, b, es, values.value);
    }
  }

  lemma {:induction false} ForestEvaluates(kn: Knowledge, ts: seq<Tree>, b: nat, es: seq<Value>)
    requires |es| <= b && ts != [] && forall i :: 0 <= i < |ts| ==> KnowsRules(kn, ts[i])
    ensures ExecuteAll(kn, es, StepsOf(ts, b)) == After(es, b, Meanings(kn, ts))
    decreases ts, 0
  {
    hide Execute, ExecuteAll, KnowsRules, Meaning, Steps;
    var n := |ts| - 1;
    var front := ts[..n];
    ExecutePlus(kn, es, StepsOf(front, b), Steps(ts[n], b + n));
    if n == 0 {
      NoSteps(kn, es);
      TreeEvaluates(kn, ts[0], b, es);
      assert front == [] && Meanings(kn, front) == Some([]);
      var v := Meaning(kn, ts[0]);
      if v.Some? { assert Meanings(kn, front).value + [v.value] == [v.value]; }
    } else {
      ForestEvaluates(kn, front, b, es);
      var values := Meanings(kn, front);
      if values.Some? {
        var es' := Below(es, b) + values.value;
        TreeEvaluates(kn, ts[n], b + n, es');
        assert |es'| == b + n && Below(es', b + n) == es';
        var v := Meaning(kn, ts[n]);
        if v.Some? { assert es' + [v.value] == Below(es, b) + (values.value + [v.value]); }
      }
    }
  }

  lemma NoSteps(kn: Knowledge, es: seq<Value>)
    ensures ExecuteAll(kn, es, []) == Some(es)
  {
  }

  // ----- Steps and trees ----------------------------------------------------------------------

  lemma {:induction false} NoMeaning(kn: Knowledge, ts: seq<Tree>, i: nat)
    requires i <= |ts| && (forall k :: 0 <= k < |ts| ==> KnowsRules(kn, ts[k])) && Meanings(kn, ts[..i]).None?
    ensures Meanings(kn, ts).None?
    decreases |ts|
  {
    hide KnowsRules, Meaning;
    if i < |ts| {
      var front := ts[..|ts| - 1];
      assert front[..i] == ts[..i];
      NoMeaning(kn, front, i);
    } else {
      assert ts[..i] == ts;
    }
  }

  ghost predicate StepsKnown(kn: Knowledge, steps: seq<Step>) {
    forall k :: 0 <= k < |steps| && steps[k].RuleStep? ==> KnowsRule(kn, steps[k].rule)
  }

  lemma {:induction false} TreeStepsKnown(kn: Knowledge, t: Tree, b: nat)
    requires KnowsRules(kn, t)
    ensures StepsKnown(kn, Steps(t, b))
    decreases t
  {
    hide KnowsRule;
    if t.Node? { ForestStepsKnown(kn, t.children, b); }
  }

  lemma {:induction false} ForestStepsKnown(kn: Knowledge, ts: seq<Tree>, b: nat)
    requires forall i :: 0 <= i < |ts| ==> KnowsRules(kn, ts[i])
    ensures StepsKnown(kn, StepsOf(ts, b))
    decreases ts
  {
    hide KnowsRules, Steps;
    if ts != [] {
      ForestStepsKnown(kn, ts[..|ts| - 1], b);
      TreeStepsKnown(kn, ts[|ts| - 1], b + |ts| - 1);
    }
  }
}
