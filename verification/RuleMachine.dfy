/** The runtime side of the rule code: the setup machine, the traversal for the rule
    data alone, and the decoding of single rules. */
module RuleMachine {
  import opened Options
  import opened RuleCode
  import opened RuleMeaning

  // Where a rule came from: its instruction, and a detail (for a short instruction the
  // full one it takes its left side from, for a byte range the byte).
  datatype RuleRef = RuleRef(pc: nat, detail: nat)

  ghost predicate At(words: seq<Word>, pc: nat, code: seq<Word>) {
    pc + |code| <= |words| && words[pc..pc + |code|] == code
  }

  // ----- The rule data of a list of rules -----------------------------------------------

  // The last full priority instruction.
  function LastPc(rules: seq<Rule>): nat
    requires AllFit(rules)
  {
    if rules == [] then 0 else
      var front, r := rules[..|rules| - 1], rules[|rules| - 1];
      if r.Priority? && LastLhs(front) != Some(r.lhs) then 1 + |CodeAll(front)| else LastPc(front)
  }

  // One reference for each of n bytes.
  function RangeRefs(pc: nat, start: nat, n: nat): (refs: seq<RuleRef>)
    ensures |refs| == n && forall k :: 0 <= k < n ==> refs[k] == RuleRef(pc, start + k)
  {
    seq(n, (k: nat) => RuleRef(pc, start + k))
  }

  function Refs(r: Rule, last: Option<nat>, pc: nat, lpc: nat): seq<RuleRef>
    requires Fits(r)
  {
    match r
    case Priority(lhs, rhs) => [RuleRef(pc, if last == Some(lhs) then lpc else 0)]
    case Quantified(_, _, _, _) => [RuleRef(pc, 0)]
    case ByteRange(_, start, stop) => RangeRefs(pc, start, stop + 1 - start)
  }

  function RuleData(rules: seq<Rule>): seq<RuleRef>
    requires AllFit(rules)
  {
    if rules == [] then [] else
      var front := rules[..|rules| - 1];
      RuleData(front) + Refs(rules[|rules| - 1], LastLhs(front), 1 + |CodeAll(front)|, LastPc(front))
  }

  // ----- The instructions of a program -----------------------------------------------------

  // The words at pc are the instruction of the rule.
  ghost predicate Instruction(words: seq<Word>, pc: nat, r: Rule, last: Option<nat>) {
    && pc + Size(r, last) <= |words|
    && match r
       case Priority(lhs, rhs) =>
         if last == Some(lhs) then
           UnboxTag(words[pc]) == PRIS && UnboxValue(words[pc]) == |rhs| && words[pc + 1..pc + 1 + |rhs|] == rhs
         else
           UnboxTag(words[pc]) == PRIO && UnboxValue(words[pc]) == |rhs| && words[pc + 1] == lhs
           && words[pc + 2..pc + 2 + |rhs|] == rhs
       case Quantified(lhs, item, plus, NoSeparator) =>
         UnboxTag(words[pc]) == (if plus then QUP else QUN) && UnboxValue(words[pc]) == lhs && words[pc + 1] == item
       case Quantified(lhs, item, plus, Separator(sep, proper)) =>
         && UnboxTag(words[pc]) == (if plus then QUPS else QUNS) && UnboxValue(words[pc]) == lhs && words[pc + 1] == item
         && UnboxTag(words[pc + 2]) == (if proper then 1 else 0) && UnboxValue(words[pc + 2]) == sep
       case ByteRange(lhs, start, stop) =>
         && UnboxTag(words[pc]) == BRAN && UnboxValue(words[pc]) == lhs
         && UnboxRange(words[pc + 1]) == (start, stop)
  }

  // The packed words of a rule's code, unpacked.
  lemma Unboxes(r: Rule, last: Option<nat>)
    requires Fits(r) && ShortEnough(r)
    ensures var code := Code(r, last);
            match r
            case Priority(lhs, rhs) =>
              UnboxTag(code[0]) == (if last == Some(lhs) then PRIS else PRIO) && UnboxValue(code[0]) == |rhs|
            case Quantified(lhs, _, plus, NoSeparator) =>
              UnboxTag(code[0]) == (if plus then QUP else QUN) && UnboxValue(code[0]) == lhs
            case Quantified(lhs, _, plus, Separator(sep, proper)) =>
              && UnboxTag(code[0]) == (if plus then QUPS else QUNS) && UnboxValue(code[0]) == lhs
              && UnboxTag(code[2]) == (if proper then 1 else 0) && UnboxValue(code[2]) == sep
            case ByteRange(lhs, start, stop) =>
              UnboxTag(code[0]) == BRAN && UnboxValue(code[0]) == lhs && UnboxRange(code[1]) == (start, stop)
  {
    hide UnboxTag, UnboxValue, UnboxRange, Cmd, BoxRange;
    match r
    case Priority(lhs, rhs) => CmdUnboxes(if last == Some(lhs) then PRIS else PRIO, |rhs|);
    case Quantified(lhs, _, plus, NoSeparator) => CmdUnboxes(if plus then QUP else QUN, lhs);
    case Quantified(lhs, _, plus, Separator(sep, proper)) =>
      CmdUnboxes(if plus then QUPS else QUNS, lhs);
      CmdUnboxes(if proper then 1 else 0, sep);
    case ByteRange(lhs, start, stop) =>
      CmdUnboxes(BRAN, lhs);
      RangeUnboxes(start, stop);
  }

  lemma CodeIsInstruction(a: seq<Word>, r: Rule, last: Option<nat>, b: seq<Word>)
    requires Fits(r) && ShortEnough(r)
    ensures Instruction(a + Code(r, last) + b, |a|, r, last)
  {
    if r.Priority? {
      PriorityAmid(a, r, last, b);
    } else {
      Unboxes(r, last);
      Amid(a, Code(r, last), b);
      hide UnboxTag, UnboxValue, UnboxRange, Cmd, BoxRange;
    }
  }

  lemma PriorityAmid(a: seq<Word>, r: Rule, last: Option<nat>, b: seq<Word>)
    requires Fits(r) && ShortEnough(r) && r.Priority?
    ensures Instruction(a + Code(r, last) + b, |a|, r, last)
  {
    var n := if last == Some(r.lhs) then 1 else 2;
    PriorityCode(r, last);
    Unboxes(r, last);
    hide UnboxTag, UnboxValue, Code;
    Amid(a, Code(r, last), b);
    AmidSlice(a, Code(r, last), b, n);
  }

  lemma PriorityCode(r: Rule, last: Option<nat>)
    requires Fits(r) && r.Priority?
    ensures last == Some(r.lhs) ==> Code(r, last)[1..] == r.rhs
    ensures last != Some(r.lhs) ==> Code(r, last)[2..] == r.rhs && Code(r, last)[1] == r.lhs
  {
    hide Cmd;
    Drop([Cmd(PRIS, |r.rhs|)], Words(r.rhs));
    Drop([Cmd(PRIO, |r.rhs|), r.lhs], Words(r.rhs));
  }

  lemma Drop(a: seq<Word>, b: seq<Word>)
    ensures (a + b)[|a|..] == b
  {
  }

  lemma Amid(a: seq<Word>, code: seq<Word>, b: seq<Word>)
    ensures forall k :: 0 <= k < |code| ==> (a + code + b)[|a| + k] == code[k]
    ensures |code| > 0 ==> (a + code + b)[|a|] == code[0]
    ensures |code| > 1 ==> (a + code + b)[|a| + 1] == code[1]
    ensures |code| > 2 ==> (a + code + b)[|a| + 2] == code[2]
  {
  }

  lemma AmidSlice(a: seq<Word>, code: seq<Word>, b: seq<Word>, n: nat)
    requires n <= |code|
    ensures (a + code + b)[|a| + n..|a| + |code|] == code[n..]
  {
  }

  lemma {:induction false} CodePrefix(rules: seq<Rule>, i: nat)
    requires AllFit(rules) && i <= |rules|
    ensures CodeAll(rules[..i]) <= CodeAll(rules)
    decreases |rules|
  {
    if i < |rules| {
      var front := rules[..|rules| - 1];
      CodePrefix(front, i);
      assert front[..i] == rules[..i];
    } else {
      assert rules[..i] == rules;
    }
  }

  function Place(rules: seq<Rule>, i: nat): nat
    requires AllFit(rules) && i <= |rules|
  {
    1 + |CodeAll(rules[..i])|
  }

  lemma InstructionAt(rules: seq<Rule>, head: Word, tail: Word, i: nat)
    requires Encodable(rules) && i < |rules|
    ensures Instruction([head] + CodeAll(rules) + [tail], Place(rules, i), rules[i], LastLhs(rules[..i]))
    ensures Place(rules, i + 1) == Place(rules, i) + Size(rules[i], LastLhs(rules[..i])) <= 1 + |CodeAll(rules)|
  {
    hide Instruction, Code, LastLhs, CodeAll, Size, Fits;
    CodePrefix(rules, i + 1);
    assert rules[..i + 1] == rules[..i] + [rules[i]];
    Snoc(rules[..i], rules[i]);
    var p, c, all := CodeAll(rules[..i]), Code(rules[i], LastLhs(rules[..i])), CodeAll(rules);
    Around(head, p, c, all, tail);
    CodeIsInstruction([head] + p, rules[i], LastLhs(rules[..i]), all[|p + c|..] + [tail]);
  }

  lemma Around(head: Word, p: seq<Word>, c: seq<Word>, all: seq<Word>, tail: Word)
    requires p + c <= all
    ensures [head] + all + [tail] == ([head] + p) + c + (all[|p + c|..] + [tail])
  {
  }

  lemma DataSnoc(rules: seq<Rule>, i: nat)
    requires AllFit(rules) && i < |rules|
    ensures AllFit(rules[..i]) && AllFit(rules[..i + 1])
    ensures ExpandAll(rules[..i + 1]) == ExpandAll(rules[..i]) + Expand(rules[i])
    ensures LastLhs(rules[..i + 1]) == if rules[i].Priority? then Some(rules[i].lhs) else LastLhs(rules[..i])
    ensures RuleData(rules[..i + 1]) ==
            RuleData(rules[..i]) + Refs(rules[i], LastLhs(rules[..i]), Place(rules, i), LastPc(rules[..i]))
    ensures LastPc(rules[..i + 1]) ==
            if rules[i].Priority? && LastLhs(rules[..i]) != Some(rules[i].lhs) then Place(rules, i) else LastPc(rules[..i])
  {
    assert rules[..i + 1][..i] == rules[..i];
  }

  // ----- Setup --------------------------------------------------------------------------------

  // Byte ranges go through the first cell of the scratch area.
  predicate ScratchSuffices(rules: seq<Rule>) {
    (exists k :: 0 <= k < |rules| && rules[k].ByteRange?) ==> MaxPad(rules) > 0
  }

  // A byte range alone is set up wrongly; any non-empty right-hand side mends it.
  lemma RangeAlone(lhs: nat, start: nat, stop: nat)
    requires Fits(ByteRange(lhs, start, stop))
    ensures Encodable([ByteRange(lhs, start, stop)]) && !ScratchSuffices([ByteRange(lhs, start, stop)])
    ensures forall r: Rule, s: nat :: ScratchSuffices([ByteRange(lhs, start, stop), Priority(r.lhs, [s])])
  {
    var alone := [ByteRange(lhs, start, stop)];
    assert alone[0].ByteRange?;
    MaxPadIs(alone);
    forall r: Rule, s: nat ensures MaxPad([ByteRange(lhs, start, stop), Priority(r.lhs, [s])]) > 0 {
      MaxPadIs([ByteRange(lhs, start, stop), Priority(r.lhs, [s])]);
      assert [ByteRange(lhs, start, stop), Priority(r.lhs, [s])][1] == Priority(r.lhs, [s]);
    }
  }

  class Setup {
    const words: seq<Word>
    const rd: bool
    var pc: nat
    var lpc: nat
    var lastlhs: nat
    var scratch: array<nat>
    var rules: seq<GrammarRule>
    var data: seq<RuleRef>
    var start: nat

    constructor (words: seq<Word>, rd: bool)
      ensures this.words == words && this.rd == rd
      ensures pc == 0 && lpc == 0 && rules == [] && data == [] && fresh(scratch)
    {
      this.words, this.rd := words, rd;
      pc, lpc, lastlhs, rules, data, start := 0, 0, 0, [], [], 0;
      scratch := new nat[0];
    }

    // A rule instruction was executed: its rules and their data were added.
    ghost predicate Executed(r: Rule, last: Option<nat>, pc0: nat, lpc0: nat, rules0: seq<GrammarRule>, data0: seq<RuleRef>)
      requires Fits(r)
      reads this
    {
      && pc == pc0 + Size(r, last)
      && rules == rules0 + Expand(r)
      && data == data0 + (if rd then Refs(r, last, pc0, lpc0) else [])
      && lpc == (if rd && r.Priority? && last != Some(r.lhs) then pc0 else lpc0)
      && (r.Priority? ==> lastlhs == r.lhs)
    }

    method PushRef(detail: nat)
      modifies this`data
      ensures data == old(data) + if rd then [RuleRef(pc, detail)] else []
    {
      if rd { data := data + [RuleRef(pc, detail)]; }
    }

    // Symbols of the code from a place on, into the scratch area.
    method CopyRhs(from: nat, detail: nat)
      requires from + detail <= |words| && detail <= scratch.Length
      modifies scratch
      ensures scratch[..detail] == words[from..from + detail]
    {
      for k := 0 to detail
        invariant forall j :: 0 <= j < k ==> scratch[j] == words[from + j]
      {
        scratch[k] := words[from + k];
      }
    }

    method Prio(detail: nat, ghost r: Rule, ghost last: Option<nat>)
      requires r.Priority? && Fits(r) && Instruction(words, pc, r, last) && last != Some(r.lhs)
      requires detail == UnboxValue(words[pc]) && |r.rhs| <= scratch.Length
      modifies this, scratch
      ensures scratch == old(scratch) && Executed(r, last, old(pc), old(lpc), old(rules), old(data))
    {
      CopyRhs(pc + 2, detail);
      lastlhs := words[pc + 1];
      rules := rules + [RuleNew(lastlhs, scratch[..detail])];
      if rd { lpc := pc; }
      PushRef(0);
      pc := pc + 2 + detail;
    }

    method Pris(detail: nat, ghost r: Rule, ghost last: Option<nat>)
      requires r.Priority? && Fits(r) && Instruction(words, pc, r, last) && last == Some(r.lhs)
      requires lastlhs == r.lhs && detail == UnboxValue(words[pc]) && |r.rhs| <= scratch.Length
      modifies this, scratch
      ensures scratch == old(scratch) && Executed(r, last, old(pc), old(lpc), old(rules), old(data))
    {
      CopyRhs(pc + 1, detail);
      rules := rules + [RuleNew(lastlhs, scratch[..detail])];
      PushRef(lpc);
      pc := pc + 1 + detail;
    }

    method Sequence(cmd: nat, detail: nat, ghost r: Rule, ghost last: Option<nat>)
      requires r.Quantified? && Fits(r) && Instruction(words, pc, r, last)
      requires cmd == UnboxTag(words[pc]) && detail == UnboxValue(words[pc])
      modifies this
      ensures scratch == old(scratch) && Executed(r, last, old(pc), old(lpc), old(rules), old(data))
      ensures lastlhs == old(lastlhs)
    {
      if cmd == QUN {
        rules := rules + [SequenceNew(detail, words[pc + 1], -1, 0, false)];
      } else if cmd == QUP {
        rules := rules + [SequenceNew(detail, words[pc + 1], -1, 1, false)];
      } else {
        var proper, sep := UnboxTag(words[pc + 2]), UnboxValue(words[pc + 2]);
        rules := rules + [SequenceNew(detail, words[pc + 1], sep, if cmd == QUNS then 0 else 1, proper != 0)];
      }
      PushRef(0);
      pc := pc + if cmd == QUN || cmd == QUP then 2 else 3;
    }

    // The store into a scratch area without cells is where the setup goes wrong.
    method Range(detail: nat, ghost r: Rule, ghost last: Option<nat>) returns (ok: bool)
      requires r.ByteRange? && Fits(r) && Instruction(words, pc, r, last) && detail == UnboxValue(words[pc])
      modifies this, scratch
      ensures ok == (scratch.Length > 0) && scratch == old(scratch)
      ensures ok ==> Executed(r, last, old(pc), old(lpc), old(rules), old(data)) && lastlhs == old(lastlhs)
    {
      var (first, stop) := UnboxRange(words[pc + 1]);
      for k := first to stop + 1
        invariant scratch == old(scratch) && pc == old(pc) && lpc == old(lpc) && lastlhs == old(lastlhs)
        invariant k > first ==> scratch.Length > 0
        invariant rules == old(rules) + Alternation(detail, first, k - first)
        invariant data == old(data) + if rd then RangeRefs(pc, first, k - first) else []
      {
        if scratch.Length == 0 { return false; }
        scratch[0] := k;
        assert scratch[..1] == [k];
        rules := rules + [RuleNew(detail, scratch[..1])];
        PushRef(k);
        assert Alternation(detail, first, k + 1 - first) == Alternation(detail, first, k - first) + [RuleNew(detail, [k])];
        assert RangeRefs(pc, first, k + 1 - first) == RangeRefs(pc, first, k - first) + [RuleRef(pc, k)];
      }
      pc := pc + 2;
      return true;
    }

    method Step(cmd: nat, detail: nat, ghost r: Rule, ghost last: Option<nat>) returns (ok: bool)
      requires Fits(r) && Instruction(words, pc, r, last) && (last.Some? ==> lastlhs == last.value)
      requires cmd == UnboxTag(words[pc]) && detail == UnboxValue(words[pc])
      requires r.Priority? ==> |r.rhs| <= scratch.Length
      modifies this, scratch
      ensures ok == (r.ByteRange? ==> scratch.Length > 0) && scratch == old(scratch)
      ensures ok ==> Executed(r, last, old(pc), old(lpc), old(rules), old(data)) && (!r.Priority? ==> lastlhs == old(lastlhs))
    {
      hide Executed;
      ok := true;
      if cmd == PRIO {
        Prio(detail, r, last);
      } else if cmd == PRIS {
        Pris(detail, r, last);
      } else if cmd == BRAN {
        ok := Range(detail, r, last);
      } else {
        Sequence(cmd, detail, r, last);
      }
    }

    // The state after the first i rules.
    ghost predicate Done(all: seq<Rule>, i: nat)
      requires AllFit(all) && i <= |all|
      reads this
    {
      && AllFit(all[..i])
      && pc == Place(all, i)
      && rules == ExpandAll(all[..i])
      && data == (if rd then RuleData(all[..i]) else [])
      && (rd ==> lpc == LastPc(all[..i]))
      && (LastLhs(all[..i]).Some? ==> lastlhs == LastLhs(all[..i]).value)
    }

    // One more rule.
    method Next(cmd: nat, detail: nat, ghost all: seq<Rule>, ghost i: nat, ghost head: Word, ghost tail: Word) returns (ok: bool)
      requires Encodable(all) && i < |all| && words == [head] + CodeAll(all) + [tail] && Done(all, i)
      requires pc < |words| && cmd == UnboxTag(words[pc]) && detail == UnboxValue(words[pc])
      requires MaxPad(all) <= scratch.Length
      modifies this, scratch
      ensures ok == (all[i].ByteRange? ==> scratch.Length > 0) && scratch == old(scratch)
      ensures ok ==> Done(all, i + 1)
    {
      hide Instruction, LastLhs, CodeAll, Expand, ExpandAll, Refs, RuleData, LastPc, Place;
      InstructionAt(all, head, tail, i);
      DataSnoc(all, i);
      MaxPadIs(all);
      ok := Step(cmd, detail, all[i], LastLhs(all[..i]));
    }

    // The program of any rules is set up as just these rules, unless a byte range finds
    // no scratch cell; and that is so iff there is a byte range but no right-hand side.
    method Run(ghost all: seq<Rule>, ghost startSymbol: nat) returns (ok: bool)
      requires Encodable(all) && startSymbol < 4096 && words == Program(all, startSymbol)
      requires pc == 0 && lpc == 0 && rules == [] && data == []
      modifies this, scratch
      ensures ok <==> ScratchSuffices(all)
      ensures ok ==> rules == ExpandAll(all) && data == (if rd then RuleData(all) else []) && start == startSymbol
      ensures ok ==> SameStrings(all, rules)
    {
      hide SameStrings, LastLhs, CodeAll, Expand, ExpandAll, Refs, RuleData, LastPc, MaxPad, Done, Fits, Program, Cmd, Place;
      ghost var head, tail := Cmd(SETUP, MaxPad(all)), Cmd(DONE, startSymbol);
      ghost var i := -1;
      Ends(all, startSymbol);
      while true
        invariant -1 <= i <= |all| && (scratch == old(scratch) || fresh(scratch))
        invariant i == -1 ==> pc == 0 && rules == [] && data == [] && lpc == old(lpc)
        invariant i >= 0 ==> Done(all, i) && scratch.Length == MaxPad(all)
        invariant i >= 0 && scratch.Length == 0 ==> forall k :: 0 <= k < i ==> !all[k].ByteRange?
        decreases |all| - i
      {
        if i >= 0 { AtPlace(all, i); Fetch(all, startSymbol, i); }
        var cmd, detail := UnboxTag(words[pc]), UnboxValue(words[pc]);
        if cmd == SETUP {
          scratch := new nat[detail];
          pc := pc + 1;
          i := 0;
          NothingDone(all);
        } else if cmd == DONE {
          AllDone(all);
          ExpandAllSame(all);
          start := detail;
          return true;
        } else {
          ok := Next(cmd, detail, all, i, head, tail);
          if !ok { return; }
          i := i + 1;
        }
      }
    }

    lemma AtPlace(all: seq<Rule>, i: nat)
      requires AllFit(all) && i <= |all| && Done(all, i)
      ensures pc == Place(all, i)
    {
    }

    lemma NothingDone(all: seq<Rule>)
      requires AllFit(all) && pc == 1 && lpc == 0 && rules == [] && data == []
      ensures Done(all, 0)
    {
    }

    lemma AllDone(all: seq<Rule>)
      requires AllFit(all) && Done(all, |all|)
      ensures rules == ExpandAll(all) && data == if rd then RuleData(all) else []
    {
      assert all[..|all|] == all;
    }
  }

  lemma Ends(all: seq<Rule>, start: nat)
    requires Encodable(all)
    ensures var w := Program(all, start);
            && w == [Cmd(SETUP, MaxPad(all))] + CodeAll(all) + [Cmd(DONE, start)]
            && UnboxTag(w[0]) == SETUP && UnboxValue(w[0]) == MaxPad(all)
  {
    MaxPadIs(all);
    CmdUnboxes(SETUP, MaxPad(all));
  }

  // Past the first word stand the instructions of the rules, then the end.
  lemma Fetch(all: seq<Rule>, start: nat, i: nat)
    requires Encodable(all) && start < 4096 && i <= |all|
    ensures var w, at := Program(all, start), Place(all, i);
            && at < |w|
            && (i == |all| ==> UnboxTag(w[at]) == DONE && UnboxValue(w[at]) == start)
            && (i < |all| ==> UnboxTag(w[at]) != DONE && UnboxTag(w[at]) != SETUP)
  {
    hide CodeAll, Instruction, Cmd, UnboxTag, UnboxValue, LastLhs, MaxPad;
    var w := Program(all, start);
    if i == |all| {
      assert all[..i] == all && w[Place(all, i)] == Cmd(DONE, start);
      CmdUnboxes(DONE, start);
    } else {
      InstructionAt(all, Cmd(SETUP, MaxPad(all)), Cmd(DONE, start), i);
      RuleTag(w, Place(all, i), all[i], LastLhs(all[..i]));
    }
  }

  lemma RuleTag(words: seq<Word>, pc: nat, r: Rule, last: Option<nat>)
    requires Instruction(words, pc, r, last)
    ensures pc < |words| && UnboxTag(words[pc]) != DONE && UnboxTag(words[pc]) != SETUP
  {
  }

  // ----- The rule data alone ----------------------------------------------------------------------

  method StepData(words: seq<Word>, pc: nat, lpc: nat, data: seq<RuleRef>, ghost r: Rule, ghost last: Option<nat>)
    returns (pc': nat, lpc': nat, data': seq<RuleRef>)
    requires Fits(r) && Instruction(words, pc, r, last)
    ensures pc' == pc + Size(r, last) && data' == data + Refs(r, last, pc, lpc)
    ensures lpc' == if r.Priority? && last != Some(r.lhs) then pc else lpc
  {
    var cmd, detail := UnboxTag(words[pc]), UnboxValue(words[pc]);
    pc', lpc', data' := pc, lpc, data;
    if cmd == PRIO {
      lpc' := pc;
      data' := data + [RuleRef(pc, 0)];
      pc' := pc + 2 + detail;
    } else if cmd == PRIS {
      data' := data + [RuleRef(pc, lpc)];
      pc' := pc + 1 + detail;
    } else if cmd == BRAN {
      var (first, stop) := UnboxRange(words[pc + 1]);
      for k := first to stop + 1
        invariant data' == data + RangeRefs(pc, first, k - first)
      {
        data' := data' + [RuleRef(pc, k)];
        assert RangeRefs(pc, first, k + 1 - first) == RangeRefs(pc, first, k - first) + [RuleRef(pc, k)];
      }
      pc' := pc + 2;
    } else {
      data' := data + [RuleRef(pc, 0)];
      pc' := pc + if cmd == QUN || cmd == QUP then 2 else 3;
    }
  }

  // Gives the rule data the setup gives.
  method SetupData(words: seq<Word>, ghost all: seq<Rule>, ghost start: nat) returns (data: seq<RuleRef>)
    requires Encodable(all) && start < 4096 && words == Program(all, start)
    ensures data == RuleData(all)
  {
    hide LastLhs, CodeAll, Refs, RuleData, LastPc, MaxPad, Fits, Program, Cmd, Place, Instruction, ExpandAll, Expand;
    var pc, lpc := 0, 0;
    data := [];
    ghost var i := -1;
    Ends(all, start);
    while true
      invariant -1 <= i <= |all|
      invariant i == -1 ==> pc == 0 && lpc == 0 && data == []
      invariant i >= 0 ==> AllFit(all[..i]) && pc == Place(all, i) && lpc == LastPc(all[..i]) && data == RuleData(all[..i])
      decreases |all| - i
    {
      if i >= 0 { Fetch(all, start, i); }
      var cmd := UnboxTag(words[pc]);
      if cmd == SETUP {
        pc := pc + 1;
        i := 0;
        NoData(all);
      } else if cmd == DONE {
        assert all[..|all|] == all;
        return;
      } else {
        InstructionAt(all, Cmd(SETUP, MaxPad(all)), Cmd(DONE, start), i);
        DataSnoc(all, i);
        pc, lpc, data := StepData(words, pc, lpc, data, all[i], LastLhs(all[..i]));
        i := i + 1;
      }
    }
  }

  lemma NoData(all: seq<Rule>)
    requires AllFit(all)
    ensures Place(all, 0) == 1 && LastPc(all[..0]) == 0 && RuleData(all[..0]) == []
  {
  }

  // ----- Single rules -----------------------------------------------------------------------------

  // The reference leads to the rule's left side and symbols.
  ghost predicate LeadsTo(words: seq<Word>, ref: RuleRef, g: GrammarRule) {
    && ref.pc < |words|
    && var tag, detail := UnboxTag(words[ref.pc]), UnboxValue(words[ref.pc]);
       if tag == PRIO then
         ref.pc + 2 + detail <= |words| && g == RuleNew(words[ref.pc + 1], words[ref.pc + 2..ref.pc + 2 + detail])
       else if tag == PRIS then
         && ref.pc + 1 + detail <= |words| && ref.detail + 1 < |words|
         && g == RuleNew(words[ref.detail + 1], words[ref.pc + 1..ref.pc + 1 + detail])
       else if tag == BRAN then
         g == RuleNew(detail, [ref.detail])
       else
         && tag in {QUN, QUP, QUNS, QUPS} && ref.pc + 1 < |words|
         && g.SequenceNew? && g.lhs == detail && g.item == words[ref.pc + 1]
  }

  ghost predicate AllLead(words: seq<Word>, refs: seq<RuleRef>, rules: seq<GrammarRule>) {
    |refs| == |rules| && forall k :: 0 <= k < |rules| ==> LeadsTo(words, refs[k], rules[k])
  }

  lemma AllLeadPlus(words: seq<Word>, refs: seq<RuleRef>, rules: seq<GrammarRule>, refs': seq<RuleRef>, rules': seq<GrammarRule>)
    requires AllLead(words, refs, rules) && AllLead(words, refs', rules')
    ensures AllLead(words, refs + refs', rules + rules')
  {
    hide LeadsTo;
  }

  lemma StepLeads(words: seq<Word>, pc: nat, r: Rule, last: Option<nat>, lpc: nat)
    requires Fits(r) && Instruction(words, pc, r, last)
    requires last.Some? ==> lpc + 1 < |words| && words[lpc + 1] == last.value
    ensures AllLead(words, Refs(r, last, pc, lpc), Expand(r))
    ensures r.Priority? && last != Some(r.lhs) ==> pc + 1 < |words| && words[pc + 1] == r.lhs
  {
  }

  // The data of the first i rules leads to what they expand to.
  ghost predicate DataLeads(words: seq<Word>, all: seq<Rule>, i: nat)
    requires AllFit(all) && i <= |all|
  {
    && AllFit(all[..i])
    && AllLead(words, RuleData(all[..i]), ExpandAll(all[..i]))
    && (LastLhs(all[..i]).Some? ==> LastPc(all[..i]) + 1 < |words| && words[LastPc(all[..i]) + 1] == LastLhs(all[..i]).value)
  }

  lemma DataLeadsNext(words: seq<Word>, all: seq<Rule>, i: nat)
    requires AllFit(all) && i < |all| && DataLeads(words, all, i)
    requires Instruction(words, Place(all, i), all[i], LastLhs(all[..i]))
    ensures DataLeads(words, all, i + 1)
  {
    hide CodeAll, RuleData, ExpandAll, LastLhs, LastPc, AllLead, Instruction, Place, Expand, Refs, Fits;
    DataSnoc(all, i);
    var r, last, pc, lpc := all[i], LastLhs(all[..i]), Place(all, i), LastPc(all[..i]);
    StepLeads(words, pc, r, last, lpc);
    AllLeadPlus(words, RuleData(all[..i]), ExpandAll(all[..i]), Refs(r, last, pc, lpc), Expand(r));
  }

  lemma {:induction false} DataLeadsUpTo(all: seq<Rule>, head: Word, tail: Word, i: nat)
    requires Encodable(all) && i <= |all|
    ensures DataLeads([head] + CodeAll(all) + [tail], all, i)
  {
    if i > 0 {
      hide CodeAll, DataLeads, Instruction, Place, Fits;
      DataLeadsUpTo(all, head, tail, i - 1);
      InstructionAt(all, head, tail, i - 1);
      DataLeadsNext([head] + CodeAll(all) + [tail], all, i - 1);
    }
  }

  lemma ProgramLeads(all: seq<Rule>, start: nat, rule: nat)
    requires Encodable(all) && start < 4096 && rule < |ExpandAll(all)|
    ensures rule < |RuleData(all)| && LeadsTo(Program(all, start), RuleData(all)[rule], ExpandAll(all)[rule])
  {
    DataLeadsUpTo(all, Cmd(SETUP, MaxPad(all)), Cmd(DONE, start), |all|);
    assert all[..|all|] == all;
  }

  function RightSide(g: GrammarRule): seq<nat> {
    match g case RuleNew(_, rhs) => rhs case SequenceNew(_, item, _, _, _) => [item]
  }

  // The rule the library knows by this number: its left side, and its right-hand symbols,
  // of a sequence just the repeated one.
  method DecodeRule(words: seq<Word>, data: seq<RuleRef>, rule: nat, ghost all: seq<Rule>, ghost start: nat)
    returns (lhs: nat, rhs: seq<nat>)
    requires Encodable(all) && start < 4096 && words == Program(all, start) && data == RuleData(all)
    requires rule < |ExpandAll(all)|
    ensures lhs == ExpandAll(all)[rule].lhs && rhs == RightSide(ExpandAll(all)[rule])
    ensures Tells(ExpandAll(all)[rule], rhs) && (ExpandAll(all)[rule].SequenceNew? ==> |rhs| == 1)
  {
    SequencesShort(all);
    RightSideTells(ExpandAll(all)[rule]);
    hide ExpandAll, RuleData, Program, LeadsTo, Fits, MaxPad, Tells;
    ProgramLeads(all, start, rule);
    lhs, rhs := DecodeAt(words, data[rule].pc, data[rule].detail, ExpandAll(all)[rule]);
  }

  lemma {:induction false} SequencesShort(all: seq<Rule>)
    requires AllFit(all)
    ensures forall g :: g in ExpandAll(all) && g.SequenceNew? ==> g.min <= 1
  {
    if all != [] { SequencesShort(all[..|all| - 1]); }
  }

  // What is decoded is a string of the rule.
  lemma RightSideTells(g: GrammarRule)
    requires g.SequenceNew? ==> g.min <= 1
    ensures Tells(g, RightSide(g)) && (g.SequenceNew? ==> |RightSide(g)| == 1)
  {
    if g.SequenceNew? { assert IsSequence([g.item], g.item, g.separator, 1, g.proper); }
  }

  method DecodeAt(words: seq<Word>, pc: nat, rarg: nat, ghost g: GrammarRule) returns (lhs: nat, rhs: seq<nat>)
    requires LeadsTo(words, RuleRef(pc, rarg), g)
    ensures lhs == g.lhs && rhs == RightSide(g)
  {
    var cmd, detail := UnboxTag(words[pc]), UnboxValue(words[pc]);
    if cmd == PRIO {
      rhs := Symbols(words, pc + 2, detail);
      lhs := words[pc + 1];
    } else if cmd == PRIS {
      rhs := Symbols(words, pc + 1, detail);
      lhs := words[rarg + 1];
    } else if cmd == BRAN {
      rhs := [rarg];
      lhs := detail;
    } else {
      rhs := [words[pc + 1]];
      lhs := detail;
    }
  }

  method Symbols(words: seq<Word>, from: nat, n: nat) returns (rhs: seq<nat>)
    requires from + n <= |words|
    ensures rhs == words[from..from + n]
  {
    rhs := [];
    for k := 0 to n
      invariant rhs == words[from..from + k]
    {
      rhs := rhs + [words[from + k]];
    }
  }
}
