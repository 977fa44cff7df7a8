/** Rewriting of precedenced priority rules into plain rules whose levelled
    symbols E((n)) carry the precedence.  Precedences are integers <= 0, with 0
    the tightest and K the loosest. */
module Precedence {

  // A grammar symbol; Level(E, n) is the generated name E((n)).
  datatype Symbol = Name(name: string) | Level(base: Symbol, depth: nat)

  // One alternative of a priority rule, with its attribute dictionary.
  datatype Alter = Alter(rhs: seq<Symbol>, precedence: int, attr: map<string, string>)

  datatype Layer = G1 | L0

  datatype Command =
    | Remove(layer: Layer, sym: Symbol)
    | PriorityRule(layer: Layer, sym: Symbol, alt: Alter)

  datatype Result<T> = Success(value: T) | Failure(error: string)

  // The container: every symbol with its list of alternatives.
  type Rules = map<Symbol, seq<Alter>>

  function Lookup(rules: Rules, sym: Symbol): seq<Alter> {
    if sym in rules then rules[sym] else []
  }

  // ----- The rewriter --------------------------------------------------------

  const SPINE_ATTR: map<string, string> := map["action" := "special hide", "mask" := "0"]

  function AssocOf(alt: Alter): string {
    if "assoc" in alt.attr then alt.attr["assoc"] else "left"
  }

  predicate GoodAssoc(alt: Alter) { AssocOf(alt) in ["left", "right", "group"] }

  function S(lhs: Symbol, k: int): Symbol
    requires k <= 0
  {
    Level(lhs, -k)
  }

  function Tighter(p: int): int { if p + 1 < 0 then p + 1 else 0 }

  // No occurrence of sym among rhs[from..to].
  ghost predicate Absent(rhs: seq<Symbol>, sym: Symbol, from: nat, to: nat)
    requires to <= |rhs|
  {
    forall j :: from <= j < to ==> rhs[j] != sym
  }

  // The loosest level an operand at position k of the alternative may have.
  ghost function Demand(lhs: Symbol, min: int, alt: Alter, k: nat): int
    requires k < |alt.rhs|
  {
    match AssocOf(alt)
    case "left" =>
      if Absent(alt.rhs, lhs, 0, k) then alt.precedence else Tighter(alt.precedence)
    case "right" =>
      if Absent(alt.rhs, lhs, k + 1, |alt.rhs|) then alt.precedence else Tighter(alt.precedence)
    case _ => min
  }

  ghost predicate InRange(min: int, alts: seq<Alter>) {
    forall a <- alts :: min <= a.precedence <= 0
  }

  ghost function LevelRhs(lhs: Symbol, min: int, alt: Alter): (r: seq<Symbol>)
    requires min <= alt.precedence <= 0
  {
    seq(|alt.rhs|, k requires 0 <= k < |alt.rhs| =>
      if alt.rhs[k] == lhs then S(lhs, Demand(lhs, min, alt, k)) else alt.rhs[k])
  }

  function RuleAttr(layer: Layer, attr: map<string, string>): map<string, string> {
    if layer == L0 then attr - {"action", "mask", "assoc"} else attr["assoc" := "left"]
  }

  ghost function LevelAlter(layer: Layer, lhs: Symbol, min: int, alt: Alter): Alter
    requires min <= alt.precedence <= 0
  {
    Alter(LevelRhs(lhs, min, alt), 0, RuleAttr(layer, alt.attr))
  }

  // The rule E ::= E[K], and E[x] ::= E[x+1]: one hidden step to the next symbol.
  function StepAlter(layer: Layer, target: Symbol): Alter {
    Alter([target], 0, RuleAttr(layer, SPINE_ATTR))
  }

  ghost function SpineCommands(layer: Layer, lhs: Symbol, min: int, n: nat): seq<Command>
    requires min + n <= 0
  {
    seq(n, i requires 0 <= i < n =>
      PriorityRule(layer, S(lhs, min + i), StepAlter(layer, S(lhs, min + i + 1))))
  }

  // A levelled alternative, with the level it goes to.
  datatype Placed = Placed(level: int, alt: Alter)

  ghost predicate PlacedInRange(min: int, ps: seq<Placed>) {
    forall i :: 0 <= i < |ps| ==> min <= ps[i].level <= 0
  }

  ghost function PlaceAll(layer: Layer, lhs: Symbol, min: int, alts: seq<Alter>): (ps: seq<Placed>)
    requires InRange(min, alts)
    ensures PlacedInRange(min, ps)
  {
    seq(|alts|, i requires 0 <= i < |alts| => Placed(alts[i].precedence, LevelAlter(layer, lhs, min, alts[i])))
  }

  ghost function AlterCommands(layer: Layer, lhs: Symbol, min: int, ps: seq<Placed>): seq<Command>
    requires PlacedInRange(min, ps)
  {
    seq(|ps|, i requires 0 <= i < |ps| => PriorityRule(layer, S(lhs, ps[i].level), ps[i].alt))
  }

  function HeadCommands(layer: Layer, lhs: Symbol, min: int): seq<Command>
    requires min <= 0
  {
    [Remove(layer, lhs), PriorityRule(layer, lhs, StepAlter(layer, S(lhs, min)))]
  }

  ghost function PlacedCommands(layer: Layer, lhs: Symbol, min: int, ps: seq<Placed>): seq<Command>
    requires min <= 0 && PlacedInRange(min, ps)
  {
    HeadCommands(layer, lhs, min) + SpineCommands(layer, lhs, min, -min) + AlterCommands(layer, lhs, min, ps)
  }

  ghost function Commands(layer: Layer, lhs: Symbol, min: int, alts: seq<Alter>): seq<Command>
    requires min <= 0 && InRange(min, alts)
  {
    PlacedCommands(layer, lhs, min, PlaceAll(layer, lhs, min, alts))
  }

  // The image of position k: the first lhs becomes newFirst, all later ones newPlus.
  ghost function Mapped(rhs: seq<Symbol>, lhs: Symbol, newFirst: Symbol, newPlus: Symbol, k: nat): Symbol
    requires k < |rhs|
  {
    if rhs[k] != lhs then rhs[k] else if Absent(rhs, lhs, 0, k) then newFirst else newPlus
  }

  method MapFirst(rhs: seq<Symbol>, lhs: Symbol, newFirst: Symbol, newPlus: Symbol) returns (r: seq<Symbol>)
    ensures |r| == |rhs|
    ensures forall k :: 0 <= k < |rhs| ==> r[k] == Mapped(rhs, lhs, newFirst, newPlus, k)
  {
    var new_ := newFirst;
    r := [];
    for i := 0 to |rhs|
      invariant |r| == i
      invariant new_ == if Absent(rhs, lhs, 0, i) then newFirst else newPlus
      invariant forall k :: 0 <= k < i ==> r[k] == Mapped(rhs, lhs, newFirst, newPlus, k)
    {
      if rhs[i] == lhs {
        r := r + [new_];
        new_ := newPlus;
      } else {
        r := r + [rhs[i]];
      }
    }
  }

  function Reverse<T>(s: seq<T>): (r: seq<T>) {
    seq(|s|, i requires 0 <= i < |s| => s[|s| - 1 - i])
  }

  method MapAlter(lhs: Symbol, alt: Alter, min: int) returns (res: Result<seq<Symbol>>)
    requires min <= alt.precedence <= 0
    ensures res.Success? <==> GoodAssoc(alt)
    ensures res.Success? <==> ("assoc" in alt.attr ==> alt.attr["assoc"] in ["left", "right", "group"])
    ensures res.Success? ==> res.value == LevelRhs(lhs, min, alt)
  {
    var assoc := AssocOf(alt);
    var current, tighter := S(lhs, alt.precedence), S(lhs, Tighter(alt.precedence));
    if assoc == "left" {
      var r := MapFirst(alt.rhs, lhs, current, tighter);
      return Success(r);
    } else if assoc == "right" {
      var rev := Reverse(alt.rhs);
      var m := MapFirst(rev, lhs, current, tighter);
      forall k | 0 <= k < |alt.rhs|
        ensures Reverse(m)[k] == LevelRhs(lhs, min, alt)[k]
      {
        var n := |alt.rhs|;
        assert forall j :: k + 1 <= j < n ==> alt.rhs[j] == rev[n - 1 - j];
        assert forall j :: 0 <= j < n - 1 - k ==> rev[j] == alt.rhs[n - 1 - j];
      }
      return Success(Reverse(m));
    } else if assoc == "group" {
      return Success(seq(|alt.rhs|, k requires 0 <= k < |alt.rhs| =>
        if alt.rhs[k] == lhs then S(lhs, min) else alt.rhs[k]));
    } else {
      return Failure("Bad assocation " + assoc);
    }
  }

  /** The commands replacing the rules of lhs; fails only on an unknown association. */
  method Rewrite1(layer: Layer, lhs: Symbol, min: int, alts: seq<Alter>) returns (res: Result<seq<Command>>)
    requires min <= 0 && InRange(min, alts)
    ensures res.Success? <==> forall a <- alts :: GoodAssoc(a)
    ensures res.Success? ==> res.value == Commands(layer, lhs, min, alts)
  {
    var result := [Remove(layer, lhs)];
    var attr := SPINE_ATTR;
    result := result + [PriorityRule(layer, lhs, Alter([S(lhs, min)], 0, RuleAttr(layer, attr)))];
    ghost var head := result;

    var current, tighter := min, min + 1;
    while current < 0
      invariant min <= current <= 0 && tighter == current + 1
      invariant result == head + SpineCommands(layer, lhs, min, current - min)
    {
      result := result + [PriorityRule(layer, S(lhs, current),
                                       Alter([S(lhs, tighter)], 0, RuleAttr(layer, attr)))];
      assert SpineCommands(layer, lhs, min, current + 1 - min) ==
             SpineCommands(layer, lhs, min, current - min) +
             [PriorityRule(layer, S(lhs, current), StepAlter(layer, S(lhs, tighter)))];
      current, tighter := current + 1, tighter + 1;
    }

    ghost var spined := result;
    for i := 0 to |alts|
      invariant InRange(min, alts[..i])
      invariant result == spined + AlterCommands(layer, lhs, min, PlaceAll(layer, lhs, min, alts[..i]))
      invariant forall a <- alts[..i] :: GoodAssoc(a)
    {
      var alt := alts[i];
      attr := alt.attr;
      var mapped := MapAlter(lhs, alt, min);
      if mapped.Failure? {
        return Failure(mapped.error);
      }
      result := result + [PriorityRule(layer, S(lhs, alt.precedence), Alter(mapped.value, 0, RuleAttr(layer, attr)))];
      assert alts[..i + 1] == alts[..i] + [alt];
      assert AlterCommands(layer, lhs, min, PlaceAll(layer, lhs, min, alts[..i + 1])) ==
             AlterCommands(layer, lhs, min, PlaceAll(layer, lhs, min, alts[..i])) +
             [PriorityRule(layer, S(lhs, alt.precedence), LevelAlter(layer, lhs, min, alt))];
    }
    assert alts[..|alts|] == alts;
    return Success(result);
  }

  // ----- The container taking the commands -----------------------------------

  // A symbol refuses a second alternative with the right-hand side of a first.
  function Apply(rules: Rules, c: Command): Result<Rules> {
    match c
    case Remove(_, sym) => Success(rules - {sym})
    case PriorityRule(_, sym, alt) =>
      if exists a <- Lookup(rules, sym) :: a.rhs == alt.rhs then Failure("Cannot extend with identical rhs")
      else Success(rules[sym := Lookup(rules, sym) + [alt]])
  }

  function ApplyAll(rules: Rules, cs: seq<Command>): Result<Rules> {
    if cs == [] then Success(rules)
    else
      match ApplyAll(rules, cs[..|cs| - 1])
      case Success(r) => Apply(r, cs[|cs| - 1])
      case Failure(e) => Failure(e)
  }

  // No two alternatives share a right-hand side (the container's own invariant).
  ghost predicate Distinct(alts: seq<Alter>) {
    forall i, j :: 0 <= i < j < |alts| ==> alts[i].rhs != alts[j].rhs
  }

  ghost predicate NoLevels(rules: Rules, lhs: Symbol) {
    forall n :: Lookup(rules, Level(lhs, n)) == []
  }

  // No level symbol of lhs occurs anywhere.
  ghost predicate FreshLevels(rules: Rules, lhs: Symbol) {
    && NoLevels(rules, lhs)
    && (forall s, n :: forall a <- Lookup(rules, s) :: Level(lhs, n) !in a.rhs)
  }

  ghost predicate Rewritable(rules: Rules, lhs: Symbol, min: int) {
    && lhs in rules && min <= 0
    && InRange(min, rules[lhs]) && Distinct(rules[lhs])
    && (forall a <- rules[lhs] :: GoodAssoc(a))
    && FreshLevels(rules, lhs)
  }

  // The alternatives placed at level x, in their old order.
  ghost function AtLevel(ps: seq<Placed>, x: int): seq<Alter> {
    if ps == [] then []
    else
      var n := |ps| - 1;
      AtLevel(ps[..n], x) + if ps[n].level == x then [ps[n].alt] else []
  }

  ghost function Base(layer: Layer, lhs: Symbol, x: int): seq<Alter>
    requires x <= 0
  {
    if x < 0 then [StepAlter(layer, S(lhs, x + 1))] else []
  }

  // What a symbol should hold after the first n spine commands and the commands for ps.
  ghost function Expected(layer: Layer, rules: Rules, lhs: Symbol, min: int, n: nat, ps: seq<Placed>, s: Symbol): seq<Alter>
    requires min + n <= 0
  {
    if s == lhs then [StepAlter(layer, S(lhs, min))]
    else if s.Level? && s.base == lhs then
      var x := -(s.depth as int);
      if x < min then []
      else (if x < min + n then Base(layer, lhs, x) else []) + AtLevel(ps, x)
    else Lookup(rules, s)
  }

  ghost predicate Holds(layer: Layer, rules: Rules, lhs: Symbol, min: int, n: nat, ps: seq<Placed>, rules': Rules)
    requires min + n <= 0
  {
    forall s :: Lookup(rules', s) == Expected(layer, rules, lhs, min, n, ps, s)
  }

  ghost predicate IsRewritten(layer: Layer, rules: Rules, lhs: Symbol, min: int, rules': Rules)
    requires Rewritable(rules, lhs, min)
  {
    Holds(layer, rules, lhs, min, -min, PlaceAll(layer, lhs, min, rules[lhs]), rules')
  }

  lemma LevelIsNew(lhs: Symbol, n: nat)
    ensures Level(lhs, n) != lhs
  {
    assert lhs < Level(lhs, n);
  }

  lemma ApplySplit(rules: Rules, cs: seq<Command>, c: Command)
    ensures ApplyAll(rules, cs + [c]) ==
            match ApplyAll(rules, cs) case Success(r) => Apply(r, c) case Failure(e) => Failure(e)
  {
    assert (cs + [c])[..|cs + [c]| - 1] == cs;
  }

  lemma SpineStart(layer: Layer, rules: Rules, lhs: Symbol, min: int)
    requires min <= 0 && NoLevels(rules, lhs)
    ensures Holds(layer, rules, lhs, min, 0, [], (rules - {lhs})[lhs := [StepAlter(layer, S(lhs, min))]])
  {
  }

  lemma SpineStep(layer: Layer, rules: Rules, lhs: Symbol, min: int, n: nat, r: Rules)
    requires min + n < 0 && Holds(layer, rules, lhs, min, n, [], r)
    ensures Lookup(r, S(lhs, min + n)) == []
    ensures Holds(layer, rules, lhs, min, n + 1, [], r[S(lhs, min + n) := [StepAlter(layer, S(lhs, min + n + 1))]])
  {
    var sym := S(lhs, min + n);
    LevelIsNew(lhs, -(min + n));
    var r' := r[sym := [StepAlter(layer, S(lhs, min + n + 1))]];
    forall s ensures Lookup(r', s) == Expected(layer, rules, lhs, min, n + 1, [], s) {
      if s == sym {
        assert Expected(layer, rules, lhs, min, n + 1, [], s) == Base(layer, lhs, min + n);
      } else {
        assert Lookup(r', s) == Lookup(r, s);
        assert s.Level? && s.base == lhs ==> -(s.depth as int) != min + n;
      }
    }
  }

  lemma ApplyHead(layer: Layer, rules: Rules, lhs: Symbol, min: int)
    requires min <= 0
    ensures ApplyAll(rules, HeadCommands(layer, lhs, min)) ==
            Success((rules - {lhs})[lhs := [StepAlter(layer, S(lhs, min))]])
  {
    var c := PriorityRule(layer, lhs, StepAlter(layer, S(lhs, min)));
    assert HeadCommands(layer, lhs, min) == ([] + [Remove(layer, lhs)]) + [c];
    ApplySplit(rules, [] + [Remove(layer, lhs)], c);
    ApplySplit(rules, [], Remove(layer, lhs));
    assert Lookup(rules - {lhs}, lhs) + [c.alt] == [c.alt];
  }

  lemma SpineSnoc(layer: Layer, rules: Rules, lhs: Symbol, min: int, n: nat)
    requires min + n < 0
    ensures ApplyAll(rules, HeadCommands(layer, lhs, min) + SpineCommands(layer, lhs, min, n + 1)) ==
            match ApplyAll(rules, HeadCommands(layer, lhs, min) + SpineCommands(layer, lhs, min, n))
            case Success(r) => Apply(r, PriorityRule(layer, S(lhs, min + n), StepAlter(layer, S(lhs, min + n + 1))))
            case Failure(e) => Failure(e)
  {
    hide Apply;
    var cs := HeadCommands(layer, lhs, min) + SpineCommands(layer, lhs, min, n);
    var c := PriorityRule(layer, S(lhs, min + n), StepAlter(layer, S(lhs, min + n + 1)));
    assert HeadCommands(layer, lhs, min) + SpineCommands(layer, lhs, min, n + 1) == cs + [c];
    ApplySplit(rules, cs, c);
  }

  lemma {:induction false} ApplySpine(layer: Layer, rules: Rules, lhs: Symbol, min: int, n: nat) returns (r: Rules)
    requires min + n <= 0 && NoLevels(rules, lhs)
    ensures ApplyAll(rules, HeadCommands(layer, lhs, min) + SpineCommands(layer, lhs, min, n)) == Success(r)
    ensures Holds(layer, rules, lhs, min, n, [], r)
  {
    hide ApplyAll, Holds, HeadCommands, NoLevels;
    if n == 0 {
      ApplyHead(layer, rules, lhs, min);
      SpineStart(layer, rules, lhs, min);
      assert HeadCommands(layer, lhs, min) + SpineCommands(layer, lhs, min, 0) == HeadCommands(layer, lhs, min);
      r := (rules - {lhs})[lhs := [StepAlter(layer, S(lhs, min))]];
    } else {
      var r0 := ApplySpine(layer, rules, lhs, min, n - 1);
      SpineSnoc(layer, rules, lhs, min, n - 1);
      SpineStep(layer, rules, lhs, min, n - 1, r0);
      var alt := StepAlter(layer, S(lhs, min + n));
      assert Lookup(r0, S(lhs, min + n - 1)) + [alt] == [alt];
      r := r0[S(lhs, min + n - 1) := [alt]];
    }
  }

  // Levelling keeps different right-hand sides apart ...
  lemma LevelRhsInjective(lhs: Symbol, min: int, a: Alter, b: Alter)
    requires min <= a.precedence <= 0 && min <= b.precedence <= 0
    requires forall n :: Level(lhs, n) !in a.rhs && Level(lhs, n) !in b.rhs
    requires LevelRhs(lhs, min, a) == LevelRhs(lhs, min, b)
    ensures a.rhs == b.rhs
  {
    var r := LevelRhs(lhs, min, a);
    assert |a.rhs| == |r| == |b.rhs|;
    forall k | 0 <= k < |r| ensures a.rhs[k] == b.rhs[k] {
      assert r[k] == LevelRhs(lhs, min, b)[k];
      assert a.rhs[k] in a.rhs && b.rhs[k] in b.rhs;
    }
  }

  // ... and away from the spine.
  lemma LevelRhsNotSpine(lhs: Symbol, min: int, a: Alter)
    requires min <= a.precedence < 0 && GoodAssoc(a)
    requires forall n :: Level(lhs, n) !in a.rhs
    ensures LevelRhs(lhs, min, a) != [S(lhs, a.precedence + 1)]
  {
    if |a.rhs| == 1 {
      assert a.rhs[0] in a.rhs;
      assert LevelRhs(lhs, min, a)[0] != S(lhs, a.precedence + 1);
    }
  }

  lemma {:induction false} AtLevelMember(ps: seq<Placed>, x: int, a: Alter) returns (i: nat)
    requires a in AtLevel(ps, x)
    ensures i < |ps| && ps[i] == Placed(x, a)
  {
    var n := |ps| - 1;
    if a in AtLevel(ps[..n], x) {
      i := AtLevelMember(ps[..n], x, a);
    } else {
      i := n;
    }
  }

  // No level receives the same right-hand side twice.
  ghost predicate NoClash(lhs: Symbol, ps: seq<Placed>) {
    && (forall i, j :: 0 <= i < j < |ps| && ps[i].level == ps[j].level ==> ps[i].alt.rhs != ps[j].alt.rhs)
    && (forall i :: 0 <= i < |ps| && ps[i].level < 0 ==> ps[i].alt.rhs != [S(lhs, ps[i].level + 1)])
  }

  lemma NoLevelInside(rules: Rules, lhs: Symbol, min: int)
    requires Rewritable(rules, lhs, min)
    ensures forall i, n :: 0 <= i < |rules[lhs]| ==> Level(lhs, n) !in rules[lhs][i].rhs
  {
    assert forall i :: 0 <= i < |rules[lhs]| ==> rules[lhs][i] in Lookup(rules, lhs);
  }

  lemma PlaceAllNoClash(layer: Layer, rules: Rules, lhs: Symbol, min: int)
    requires Rewritable(rules, lhs, min)
    ensures NoClash(lhs, PlaceAll(layer, lhs, min, rules[lhs]))
  {
    var alts := rules[lhs];
    NoLevelInside(rules, lhs, min);
    hide FreshLevels, LevelRhs, Lookup;
    forall i, j | 0 <= i < j < |alts|
      ensures LevelRhs(lhs, min, alts[i]) != LevelRhs(lhs, min, alts[j])
    {
      if LevelRhs(lhs, min, alts[i]) == LevelRhs(lhs, min, alts[j]) {
        LevelRhsInjective(lhs, min, alts[i], alts[j]);
      }
    }
    forall i | 0 <= i < |alts| && alts[i].precedence < 0
      ensures LevelRhs(lhs, min, alts[i]) != [S(lhs, alts[i].precedence + 1)]
    {
      LevelRhsNotSpine(lhs, min, alts[i]);
    }
  }

  lemma ExpectedSnoc(layer: Layer, rules: Rules, lhs: Symbol, min: int, ps: seq<Placed>, p: Placed, s: Symbol)
    requires min <= p.level <= 0
    ensures Expected(layer, rules, lhs, min, -min, ps + [p], s) ==
            if s == S(lhs, p.level) then Expected(layer, rules, lhs, min, -min, ps, s) + [p.alt]
            else Expected(layer, rules, lhs, min, -min, ps, s)
  {
    LevelIsNew(lhs, -p.level);
    assert (ps + [p])[..|ps|] == ps;
    if s.Level? && s.base == lhs {
      var x := -(s.depth as int);
      assert AtLevel(ps + [p], x) == AtLevel(ps, x) + if p.level == x then [p.alt] else [];
    }
  }

  lemma AlterStep(layer: Layer, rules: Rules, lhs: Symbol, min: int, ps: seq<Placed>, p: Placed, r: Rules)
    requires min <= p.level <= 0
    requires Holds(layer, rules, lhs, min, -min, ps, r)
    ensures Holds(layer, rules, lhs, min, -min, ps + [p], r[S(lhs, p.level) := Lookup(r, S(lhs, p.level)) + [p.alt]])
  {
    var r' := r[S(lhs, p.level) := Lookup(r, S(lhs, p.level)) + [p.alt]];
    forall s ensures Lookup(r', s) == Expected(layer, rules, lhs, min, -min, ps + [p], s) {
      ExpectedSnoc(layer, rules, lhs, min, ps, p, s);
      assert Lookup(r, s) == Expected(layer, rules, lhs, min, -min, ps, s);
    }
  }

  lemma ExpectedLevel(layer: Layer, rules: Rules, lhs: Symbol, min: int, ps: seq<Placed>, x: int)
    requires min <= x <= 0
    ensures Expected(layer, rules, lhs, min, -min, ps, S(lhs, x)) == Base(layer, lhs, x) + AtLevel(ps, x)
  {
    LevelIsNew(lhs, -x);
  }

  // The commands for ps lead from rules to r, and r is what is expected.
  ghost predicate Reached(layer: Layer, rules: Rules, lhs: Symbol, min: int, ps: seq<Placed>, r: Rules)
    requires min <= 0 && PlacedInRange(min, ps)
  {
    && ApplyAll(rules, PlacedCommands(layer, lhs, min, ps)) == Success(r)
    && Holds(layer, rules, lhs, min, -min, ps, r)
  }

  lemma ReachedStep(layer: Layer, rules: Rules, lhs: Symbol, min: int, ps: seq<Placed>, p: Placed, r: Rules) returns (r': Rules)
    requires min <= p.level <= 0 && PlacedInRange(min, ps) && NoClash(lhs, ps + [p])
    requires Reached(layer, rules, lhs, min, ps, r)
    ensures Reached(layer, rules, lhs, min, ps + [p], r')
  {
    AlterStep(layer, rules, lhs, min, ps, p, r);
    Accepted(layer, rules, lhs, min, ps, p, r);
    PlacedSnoc(layer, rules, lhs, min, ps, p);
    r' := r[S(lhs, p.level) := Lookup(r, S(lhs, p.level)) + [p.alt]];
  }

  lemma {:induction false} ApplyPlaced(layer: Layer, rules: Rules, lhs: Symbol, min: int, ps: seq<Placed>) returns (r: Rules)
    requires min <= 0 && PlacedInRange(min, ps) && NoClash(lhs, ps) && NoLevels(rules, lhs)
    ensures Reached(layer, rules, lhs, min, ps, r)
    decreases |ps|
  {
    if ps == [] {
      r := ApplySpine(layer, rules, lhs, min, -min);
      assert PlacedCommands(layer, lhs, min, ps) == HeadCommands(layer, lhs, min) + SpineCommands(layer, lhs, min, -min);
    } else {
      hide Reached, NoLevels, NoClash, PlacedInRange;
      var before, p := FrontFits(lhs, min, ps);
      r := ApplyPlaced(layer, rules, lhs, min, before);
      r := ReachedStep(layer, rules, lhs, min, before, p, r);
    }
  }

  lemma FrontFits(lhs: Symbol, min: int, ps: seq<Placed>) returns (before: seq<Placed>, p: Placed)
    requires PlacedInRange(min, ps) && NoClash(lhs, ps) && ps != []
    ensures ps == before + [p] && PlacedInRange(min, before) && NoClash(lhs, before) && min <= p.level <= 0
  {
    before, p := ps[..|ps| - 1], ps[|ps| - 1];
    assert ps == before + [p];
  }

  lemma PlacedSnoc(layer: Layer, rules: Rules, lhs: Symbol, min: int, ps: seq<Placed>, p: Placed)
    requires min <= p.level <= 0 && PlacedInRange(min, ps)
    ensures ApplyAll(rules, PlacedCommands(layer, lhs, min, ps + [p])) ==
            match ApplyAll(rules, PlacedCommands(layer, lhs, min, ps))
            case Success(r) => Apply(r, PriorityRule(layer, S(lhs, p.level), p.alt))
            case Failure(e) => Failure(e)
  {
    var cs := PlacedCommands(layer, lhs, min, ps);
    var c := PriorityRule(layer, S(lhs, p.level), p.alt);
    assert PlacedCommands(layer, lhs, min, ps + [p]) == cs + [c];
    ApplySplit(rules, cs, c);
  }

  lemma Accepted(layer: Layer, rules: Rules, lhs: Symbol, min: int, ps: seq<Placed>, p: Placed, r: Rules)
    requires min <= p.level <= 0 && NoClash(lhs, ps + [p])
    requires Holds(layer, rules, lhs, min, -min, ps, r)
    ensures forall a <- Lookup(r, S(lhs, p.level)) :: a.rhs != p.alt.rhs
  {
    ExpectedLevel(layer, rules, lhs, min, ps, p.level);
    assert (ps + [p])[|ps|] == p;
    forall a <- Lookup(r, S(lhs, p.level)) ensures a.rhs != p.alt.rhs {
      if a in AtLevel(ps, p.level) {
        var i := AtLevelMember(ps, p.level, a);
        assert (ps + [p])[i] == ps[i];
      }
    }
  }

  /** The container accepts the whole rewrite, and holds exactly the levelled rules after it. */
  lemma RewriteApplies(layer: Layer, rules: Rules, lhs: Symbol, min: int)
    requires Rewritable(rules, lhs, min)
    ensures var r := ApplyAll(rules, Commands(layer, lhs, min, rules[lhs]));
            r.Success? && IsRewritten(layer, rules, lhs, min, r.value)
  {
    PlaceAllNoClash(layer, rules, lhs, min);
    var r := ApplyPlaced(layer, rules, lhs, min, PlaceAll(layer, lhs, min, rules[lhs]));
  }
}
