/** The 16-bit rule code: written by the generator, read back by the runtime's setup
    and by the progress reports. */
module RuleCode {
  import opened Options

  // ----- Rules ---------------------------------------------------------------------

  datatype Separator = NoSeparator | Separator(symbol: nat, proper: bool)

  // Rules as the generator has them, symbols given by their ids.
  datatype Rule =
    | Priority(lhs: nat, rhs: seq<nat>)
    | Quantified(lhs: nat, item: nat, plus: bool, separator: Separator)
    | ByteRange(lhs: nat, start: nat, stop: nat)

  // Rules as the parser library is told of them.
  datatype GrammarRule =
    | RuleNew(lhs: nat, rhs: seq<nat>)
    | SequenceNew(lhs: nat, item: nat, separator: int, min: nat, proper: bool)

  // Everything but the length of right-hand sides, which the generator checks itself.
  predicate Fits(r: Rule) {
    match r
    case Priority(lhs, rhs) => lhs < 4096 && forall k :: 0 <= k < |rhs| ==> rhs[k] < 4096
    case Quantified(lhs, item, _, sep) => lhs < 4096 && item < 4096 && (sep.Separator? ==> sep.symbol < 4096)
    case ByteRange(lhs, start, stop) => lhs < 4096 && start <= stop < 256
  }

  predicate ShortEnough(r: Rule) {
    r.Priority? ==> |r.rhs| < 4096
  }

  // One rule for each of n bytes.
  function Alternation(lhs: nat, start: nat, n: nat): (rules: seq<GrammarRule>)
    ensures |rules| == n && forall k :: 0 <= k < n ==> rules[k] == RuleNew(lhs, [start + k])
  {
    seq(n, (k: nat) => RuleNew(lhs, [start + k]))
  }

  // What the library is to be told for a rule: byte ranges become one rule a byte.
  function Expand(r: Rule): seq<GrammarRule>
    requires Fits(r)
  {
    match r
    case Priority(lhs, rhs) => [RuleNew(lhs, rhs)]
    case Quantified(lhs, item, plus, NoSeparator) => [SequenceNew(lhs, item, -1, if plus then 1 else 0, false)]
    case Quantified(lhs, item, plus, Separator(sep, proper)) =>
      [SequenceNew(lhs, item, sep, if plus then 1 else 0, proper)]
    case ByteRange(lhs, start, stop) => Alternation(lhs, start, stop + 1 - start)
  }

  predicate AllFit(rules: seq<Rule>) {
    forall k :: 0 <= k < |rules| ==> Fits(rules[k])
  }

  predicate Encodable(rules: seq<Rule>) {
    AllFit(rules) && forall k :: 0 <= k < |rules| ==> ShortEnough(rules[k])
  }

  function ExpandAll(rules: seq<Rule>): seq<GrammarRule>
    requires AllFit(rules)
  {
    if rules == [] then [] else ExpandAll(rules[..|rules| - 1]) + Expand(rules[|rules| - 1])
  }

  // ----- Packing -------------------------------------------------------------------

  const SETUP := 0
  const DONE := 1
  const PRIO := 2
  const PRIS := 3
  const QUN := 4
  const QUP := 5
  const QUNS := 6
  const QUPS := 7
  const BRAN := 8

  type Word = w: nat | w < 65536

  function Cmd(t: nat, v: nat): Word {
    (t % 16) * 4096 + v % 4096
  }

  function UnboxTag(w: Word): nat { w / 4096 }

  function UnboxValue(w: Word): nat { w % 4096 }

  // What fits is unpacked as it was packed.
  lemma CmdUnboxes(t: nat, v: nat)
    requires t < 16 && v < 4096
    ensures UnboxTag(Cmd(t, v)) == t && UnboxValue(Cmd(t, v)) == v
  {
    assert t % 16 == t && v % 4096 == v;
  }

  function BoxRange(a: nat, b: nat): Word
    requires a < 256 && b < 256
  {
    a * 256 + b
  }

  function UnboxRange(w: Word): (nat, nat) { (w / 256, w % 256) }

  lemma RangeUnboxes(a: nat, b: nat)
    requires a < 256 && b < 256
    ensures UnboxRange(BoxRange(a, b)) == (a, b)
  {
  }

  // ----- The code of a list of rules --------------------------------------------------

  function Words(s: seq<nat>): (w: seq<Word>)
    requires forall k :: 0 <= k < |s| ==> s[k] < 4096
    ensures |w| == |s| && forall k :: 0 <= k < |s| ==> w[k] == s[k]
  {
    s
  }

  function Size(r: Rule, last: Option<nat>): nat {
    match r
    case Priority(lhs, rhs) => if last == Some(lhs) then 1 + |rhs| else 2 + |rhs|
    case Quantified(_, _, _, sep) => if sep.NoSeparator? then 2 else 3
    case ByteRange(_, _, _) => 2
  }

  // One instruction; a rule with the left side of the last one leaves it out.
  function Code(r: Rule, last: Option<nat>): (code: seq<Word>)
    requires Fits(r)
    ensures |code| == Size(r, last)
  {
    match r
    case Priority(lhs, rhs) =>
      if last == Some(lhs) then [Cmd(PRIS, |rhs|)] + Words(rhs) else [Cmd(PRIO, |rhs|), lhs] + Words(rhs)
    case Quantified(lhs, item, plus, NoSeparator) => [Cmd(if plus then QUP else QUN, lhs), item]
    case Quantified(lhs, item, plus, Separator(sep, proper)) =>
      [Cmd(if plus then QUPS else QUNS, lhs), item, Cmd(if proper then 1 else 0, sep)]
    case ByteRange(lhs, start, stop) => [Cmd(BRAN, lhs), BoxRange(start, stop)]
  }

  // The left side of the last priority rule.
  function LastLhs(rules: seq<Rule>): Option<nat> {
    if rules == [] then None else
      var r := rules[|rules| - 1];
      if r.Priority? then Some(r.lhs) else LastLhs(rules[..|rules| - 1])
  }

  function CodeAll(rules: seq<Rule>): seq<Word>
    requires AllFit(rules)
  {
    if rules == [] then [] else
      var front := rules[..|rules| - 1];
      CodeAll(front) + Code(rules[|rules| - 1], LastLhs(front))
  }

  // The longest right-hand side.
  function MaxPad(rules: seq<Rule>): nat {
    if rules == [] then 0 else
      var n, r := MaxPad(rules[..|rules| - 1]), rules[|rules| - 1];
      if r.Priority? && |r.rhs| > n then |r.rhs| else n
  }

  lemma {:induction false} MaxPadIs(rules: seq<Rule>)
    ensures var n := MaxPad(rules);
            && (forall k :: 0 <= k < |rules| && rules[k].Priority? ==> |rules[k].rhs| <= n)
            && (n > 0 ==> exists k :: 0 <= k < |rules| && rules[k].Priority? && |rules[k].rhs| == n)
  {
    if rules != [] {
      var front := rules[..|rules| - 1];
      MaxPadIs(front);
      assert forall k :: 0 <= k < |front| ==> front[k] == rules[k];
      if k :| 0 <= k < |front| && front[k].Priority? && |front[k].rhs| == MaxPad(front) {
        assert rules[k] == front[k];
      }
    }
  }

  function Program(rules: seq<Rule>, start: nat): seq<Word>
    requires AllFit(rules)
  {
    [Cmd(SETUP, MaxPad(rules))] + CodeAll(rules) + [Cmd(DONE, start)]
  }

  lemma Snoc(rules: seq<Rule>, r: Rule)
    requires AllFit(rules) && Fits(r)
    ensures AllFit(rules + [r])
    ensures CodeAll(rules + [r]) == CodeAll(rules) + Code(r, LastLhs(rules))
    ensures LastLhs(rules + [r]) == if r.Priority? then Some(r.lhs) else LastLhs(rules)
    ensures MaxPad(rules + [r]) == if r.Priority? && |r.rhs| > MaxPad(rules) then |r.rhs| else MaxPad(rules)
    ensures ExpandAll(rules + [r]) == ExpandAll(rules) + Expand(r)
  {
    assert (rules + [r])[..|rules|] == rules;
  }

  // The left sides of the rules.
  function Lefts(rules: seq<Rule>): (ls: seq<nat>)
    ensures |ls| == |rules|
  {
    seq(|rules|, k requires 0 <= k < |rules| => rules[k].lhs)
  }

  /** Without byte ranges, the library knows rule r by the r-th of them. */
  lemma {:induction false} LeftsTold(rules: seq<Rule>)
    requires AllFit(rules) && forall k :: 0 <= k < |rules| ==> !rules[k].ByteRange?
    ensures |ExpandAll(rules)| == |rules| && forall k :: 0 <= k < |rules| ==> ExpandAll(rules)[k].lhs == Lefts(rules)[k]
  {
    if rules != [] { LeftsTold(rules[..|rules| - 1]); }
  }

  // ----- The generator -----------------------------------------------------------------

  class Rules {
    var myrules: seq<Word>
    var mylastlhs: Option<nat>
    var mymaxpad: nat
    var mysize: nat
    var myrnum: nat
    var myelements: nat
    var mylhsids: seq<nat>
    const myusenames: bool

    ghost var added: seq<Rule>

    ghost predicate Valid()
      reads this
    {
      && AllFit(added)
      && myrules == CodeAll(added)
      && mylastlhs == LastLhs(added)
      && mymaxpad == MaxPad(added)
      && mysize == |added|
      && myrnum == |ExpandAll(added)|
      && myelements == |myrules|
    }

    // The left sides, where they are asked for, parallel the rules.
    ghost predicate LhsListed()
      reads this
    {
      mylhsids == if myusenames then Lefts(added) else []
    }

    constructor (usenames: bool)
      ensures Valid() && added == [] && myusenames == usenames && LhsListed()
    {
      myusenames := usenames;
      mylhsids := [];
      myrules, mylastlhs, mymaxpad, mysize, myrnum, myelements := [], None, 0, 0, 0, 0;
      added := [];
    }

    method Priority(lhs: nat, rhs: seq<nat>) returns (ok: bool)
      requires Valid() && Fits(Rule.Priority(lhs, rhs))
      modifies this
      ensures Valid() && ok == (|rhs| < 4096)
      ensures mylhsids == old(mylhsids)
      ensures added == if ok then old(added) + [Rule.Priority(lhs, rhs)] else old(added)
    {
      hide CodeAll, LastLhs, MaxPad, ExpandAll;
      Snoc(added, Rule.Priority(lhs, rhs));
      var rl := |rhs|;
      if rl >= 4096 { return false; }
      if rl > mymaxpad { mymaxpad := rl; }
      myelements := myelements + rl;
      myrnum := myrnum + 1;
      var cmd: seq<Word>;
      if Some(lhs) == mylastlhs {
        cmd := [Cmd(PRIS, rl)];
        myelements := myelements + 1;
      } else {
        cmd := [Cmd(PRIO, rl), lhs];
        myelements := myelements + 2;
        mylastlhs := Some(lhs);
      }
      Emit(cmd + Words(rhs));
      added := added + [Rule.Priority(lhs, rhs)];
      return true;
    }

    method Quantified(lhs: nat, item: nat, plus: bool, separator: Separator)
      requires Valid() && Fits(Rule.Quantified(lhs, item, plus, separator))
      modifies this
      ensures Valid() && added == old(added) + [Rule.Quantified(lhs, item, plus, separator)] && mylhsids == old(mylhsids)
    {
      hide CodeAll, LastLhs, MaxPad, ExpandAll, Cmd;
      Snoc(added, Rule.Quantified(lhs, item, plus, separator));
      myrnum := myrnum + 1;
      var cmd: seq<Word>;
      match separator {
        case NoSeparator =>
          cmd := [Cmd(if plus then QUP else QUN, lhs), item];
          myelements := myelements + 2;
        case Separator(sep, proper) =>
          cmd := [Cmd(if plus then QUPS else QUNS, lhs), item, Cmd(if proper then 1 else 0, sep)];
          myelements := myelements + 3;
      }
      assert cmd == Code(Rule.Quantified(lhs, item, plus, separator), mylastlhs);
      Emit(cmd);
      added := added + [Rule.Quantified(lhs, item, plus, separator)];
    }

    method ByteRange(lhs: nat, start: nat, stop: nat)
      requires Valid() && Fits(Rule.ByteRange(lhs, start, stop))
      modifies this
      ensures Valid() && added == old(added) + [Rule.ByteRange(lhs, start, stop)] && mylhsids == old(mylhsids)
    {
      hide CodeAll, LastLhs, MaxPad, ExpandAll;
      Snoc(added, Rule.ByteRange(lhs, start, stop));
      Emit([Cmd(BRAN, lhs), BoxRange(start, stop)]);
      myelements := myelements + 2;
      myrnum := myrnum + (stop - start + 1);
      added := added + [Rule.ByteRange(lhs, start, stop)];
    }

    method Emit(cmd: seq<Word>)
      modifies this`myrules, this`mysize
      ensures myrules == old(myrules) + cmd && mysize == old(mysize) + 1
    {
      myrules := myrules + cmd;
      mysize := mysize + 1;
    }

    method NoteLhs(lhs: nat)
      modifies this`mylhsids
      ensures old(Valid()) ==> Valid()
      ensures mylhsids == if myusenames then old(mylhsids) + [lhs] else old(mylhsids)
    {
      if !myusenames { return; }
      mylhsids := mylhsids + [lhs];
    }

    method Add(rules: seq<Rule>) returns (ok: bool)
      requires Valid() && AllFit(rules)
      modifies this
      ensures Valid() && ok == (forall k :: 0 <= k < |rules| ==> ShortEnough(rules[k]))
      ensures ok ==> added == old(added) + rules && (old(LhsListed()) ==> LhsListed())
    {
      hide Valid, Fits;
      for i := 0 to |rules|
        invariant Valid() && added == old(added) + rules[..i] && (old(LhsListed()) ==> LhsListed())
        invariant forall k :: 0 <= k < i ==> ShortEnough(rules[k])
      {
        match rules[i] {
          case Priority(lhs, rhs) =>
            ok := Priority(lhs, rhs);
            if !ok { return; }
          case Quantified(lhs, item, plus, separator) => Quantified(lhs, item, plus, separator);
          case ByteRange(lhs, start, stop) => ByteRange(lhs, start, stop);
        }
        NoteLhs(rules[i].lhs);
        assert Lefts(old(added) + rules[..i + 1]) == Lefts(old(added) + rules[..i]) + [rules[i].lhs];
      }
      ok := true;
    }

    method Start(sym: nat)
      requires Valid()
      modifies this
      ensures myrules == Program(old(added), sym) && myelements == |myrules|
      ensures mysize == |old(added)| && myrnum == |ExpandAll(old(added))| && mylhsids == old(mylhsids)
    {
      myrules := [Cmd(SETUP, mymaxpad)] + myrules;
      myrules := myrules + [Cmd(DONE, sym)];
      myelements := myelements + 2;
    }
  }
}
