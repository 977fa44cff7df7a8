/** What rules stand for: the strings of symbols of a rule as the grammar has it, those of
    the rules told to the parser library, and that they are the same. */
module RuleMeaning {
  import opened RuleCode

  // ----- Of the grammar's rules -----------------------------------------------------------

  // Items in a row, separated.
  ghost predicate Row(w: seq<nat>, item: nat, sep: seq<nat>)
    decreases |w|
  {
    || w == [item]
    || (|w| > 1 + |sep| && w[|w| - 1 - |sep|..] == sep + [item] && Row(w[..|w| - 1 - |sep|], item, sep))
  }

  ghost predicate Stands(r: Rule, w: seq<nat>) {
    match r
    case Priority(_, rhs) => w == rhs
    case ByteRange(_, start, stop) => |w| == 1 && start <= w[0] <= stop
    case Quantified(_, item, plus, NoSeparator) => (w == [] && !plus) || Row(w, item, [])
    case Quantified(_, item, plus, Separator(sep, proper)) =>
      || (w == [] && !plus)
      || Row(w, item, [sep])
      || (!proper && w != [] && w[|w| - 1] == sep && Row(w[..|w| - 1], item, [sep]))
  }

  // ----- Of the library's -------------------------------------------------------------------

  // A sequence has n items; with a separator, one between each two, and if not proper perhaps
  // one at the end.
  predicate IsSequence(w: seq<nat>, item: nat, separator: int, n: nat, proper: bool) {
    if separator < 0 || n == 0 then |w| == n && forall k :: 0 <= k < n ==> w[k] == item
    else
      && (|w| == 2 * n - 1 || (!proper && |w| == 2 * n))
      && forall k :: 0 <= k < |w| ==> w[k] == if k % 2 == 0 then item else separator
  }

  ghost predicate Tells(g: GrammarRule, w: seq<nat>) {
    match g
    case RuleNew(_, rhs) => w == rhs
    case SequenceNew(_, item, separator, min, proper) => exists n: nat :: n >= min && IsSequence(w, item, separator, n, proper)
  }

  // ----- The same ------------------------------------------------------------------------------

  lemma {:induction false} PlainRow(w: seq<nat>, item: nat)
    ensures Row(w, item, []) <==> w != [] && forall k :: 0 <= k < |w| ==> w[k] == item
    decreases |w|
  {
    if |w| > 1 {
      var n := |w| - 1;
      PlainRow(w[..n], item);
      assert w[n..] == [w[n]] && [] + [item] == [item];
    }
  }

  predicate Alternates(w: seq<nat>, item: nat, sep: nat) {
    forall k :: 0 <= k < |w| ==> w[k] == if k % 2 == 0 then item else sep
  }

  lemma AlternatesNext(w: seq<nat>, item: nat, sep: nat)
    requires w != []
    ensures var n := |w| - 1;
            Alternates(w, item, sep) <==> Alternates(w[..n], item, sep) && w[n] == if n % 2 == 0 then item else sep
  {
  }

  lemma Parity(n: nat)
    ensures (n + 1) % 2 == 1 - n % 2 && (n + 2) % 2 == n % 2
  {
  }

  // A row of at least two items: the last, with its separator, behind a shorter one.
  lemma RowNext(w: seq<nat>, item: nat, sep: nat)
    requires |w| >= 2
    ensures var n := |w| - 2;
            Row(w, item, [sep]) <==> n > 0 && w[n] == sep && w[n + 1] == item && Row(w[..n], item, [sep])
  {
    var n := |w| - 2;
    assert w[n..] == [w[n], w[n + 1]] && [sep] + [item] == [sep, item];
  }

  lemma {:induction false} SeparatedRow(w: seq<nat>, item: nat, sep: nat)
    ensures Row(w, item, [sep]) <==> |w| % 2 == 1 && Alternates(w, item, sep)
    decreases |w|
  {
    if |w| >= 2 {
      hide Row, Alternates;
      var n := |w| - 2;
      SeparatedRow(w[..n], item, sep);
      RowNext(w, item, sep);
      AlternatesNext(w, item, sep);
      AlternatesNext(w[..n + 1], item, sep);
      assert w[..n + 1][..n] == w[..n];
      Parity(n);
    } else if |w| == 1 {
      assert w == [w[0]];
    }
  }

  lemma PlainMeans(item: nat, plus: bool, w: seq<nat>)
    ensures (w == [] && !plus) || Row(w, item, []) <==>
            exists n: nat :: n >= (if plus then 1 else 0) && IsSequence(w, item, -1, n, false)
  {
    PlainRow(w, item);
    if (w == [] && !plus) || Row(w, item, []) { assert IsSequence(w, item, -1, |w|, false); }
  }

  // In both readings the string alternates, and ends in a separator only where it may.
  ghost predicate Separated(w: seq<nat>, item: nat, plus: bool, sep: nat, proper: bool) {
    if w == [] then !plus else Alternates(w, item, sep) && (|w| % 2 == 1 || !proper)
  }

  lemma StandsSeparated(item: nat, plus: bool, sep: nat, proper: bool, w: seq<nat>)
    ensures Stands(Quantified(0, item, plus, Separator(sep, proper)), w) <==> Separated(w, item, plus, sep, proper)
  {
    hide Alternates, Row;
    SeparatedRow(w, item, sep);
    if w != [] {
      SeparatedRow(w[..|w| - 1], item, sep);
      AlternatesNext(w, item, sep);
      Parity(|w| - 1);
    }
  }

  lemma SequenceSeparated(item: nat, plus: bool, sep: nat, proper: bool, w: seq<nat>)
    ensures (exists n: nat :: n >= (if plus then 1 else 0) && IsSequence(w, item, sep, n, proper)) <==>
            Separated(w, item, plus, sep, proper)
  {
    if Separated(w, item, plus, sep, proper) {
      assert IsSequence(w, item, sep, (|w| + 1) / 2, proper);
    }
  }

  lemma SeparatedMeans(item: nat, plus: bool, sep: nat, proper: bool, w: seq<nat>)
    ensures Stands(Quantified(0, item, plus, Separator(sep, proper)), w) <==>
            exists n: nat :: n >= (if plus then 1 else 0) && IsSequence(w, item, sep, n, proper)
  {
    hide Stands, IsSequence, Separated;
    StandsSeparated(item, plus, sep, proper, w);
    SequenceSeparated(item, plus, sep, proper, w);
  }

  // Some rule for the symbol stands for the string.
  ghost predicate SomeStands(rules: seq<Rule>, lhs: nat, w: seq<nat>) {
    exists r :: r in rules && r.lhs == lhs && Stands(r, w)
  }

  ghost predicate SomeTells(rules: seq<GrammarRule>, lhs: nat, w: seq<nat>) {
    exists g :: g in rules && g.lhs == lhs && Tells(g, w)
  }

  /** The library is told of just the strings the rule stands for. */
  lemma ExpandMeans(r: Rule, lhs: nat, w: seq<nat>)
    requires Fits(r)
    ensures SomeTells(Expand(r), lhs, w) <==> r.lhs == lhs && Stands(r, w)
  {
    var es := Expand(r);
    match r
    case Priority(_, _) =>
      if r.lhs == lhs && Stands(r, w) { assert es[0] in es && Tells(es[0], w); }
    case Quantified(_, item, plus, NoSeparator) =>
      PlainMeans(item, plus, w);
      assert Tells(es[0], w) <==> Stands(r, w);
      assert es[0] in es;
    case Quantified(_, item, plus, Separator(sep, proper)) =>
      SeparatedMeans(item, plus, sep, proper, w);
      assert Tells(es[0], w) <==> Stands(r, w);
      assert es[0] in es;
    case ByteRange(_, start, stop) =>
      if r.lhs == lhs && Stands(r, w) {
        var g := es[w[0] - start];
        assert w == [w[0]] && g in es && Tells(g, w);
      }
  }

  /** So it is for all rules of a grammar. */
  lemma {:induction false} ExpandAllMeans(rules: seq<Rule>, lhs: nat, w: seq<nat>)
    requires AllFit(rules)
    ensures SomeTells(ExpandAll(rules), lhs, w) <==> SomeStands(rules, lhs, w)
    decreases |rules|
  {
    if rules != [] {
      hide Stands, Tells, Expand, Fits;
      var front, last := rules[..|rules| - 1], rules[|rules| - 1];
      assert rules == front + [last];
      ExpandAllMeans(front, lhs, w);
      ExpandMeans(last, lhs, w);
      SomeTellsPlus(ExpandAll(front), Expand(last), lhs, w);
      SomeStandsPlus(front, last, lhs, w);
    }
  }

  lemma SomeTellsPlus(a: seq<GrammarRule>, b: seq<GrammarRule>, lhs: nat, w: seq<nat>)
    ensures SomeTells(a + b, lhs, w) <==> SomeTells(a, lhs, w) || SomeTells(b, lhs, w)
  {
    hide Tells;
    assert forall g :: g in a + b <==> g in a || g in b;
  }

  lemma SomeStandsPlus(a: seq<Rule>, r: Rule, lhs: nat, w: seq<nat>)
    ensures SomeStands(a + [r], lhs, w) <==> SomeStands(a, lhs, w) || (r.lhs == lhs && Stands(r, w))
  {
    hide Stands;
    assert forall g :: g in a + [r] <==> g in a || g == r;
  }

  // For every symbol the same strings.
  ghost predicate SameStrings(rules: seq<Rule>, told: seq<GrammarRule>) {
    forall lhs: nat, w: seq<nat> :: SomeTells(told, lhs, w) <==> SomeStands(rules, lhs, w)
  }

  lemma ExpandAllSame(rules: seq<Rule>)
    requires AllFit(rules)
    ensures SameStrings(rules, ExpandAll(rules))
  {
    forall lhs: nat, w: seq<nat> ensures SomeTells(ExpandAll(rules), lhs, w) <==> SomeStands(rules, lhs, w) {
      ExpandAllMeans(rules, lhs, w);
    }
  }
}
