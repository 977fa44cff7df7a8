/** Per-rule tables with sharing: hidden children and semantics of the G1 rules, how they
    are coded, decoded, and how hidden children are dropped. */
module Masks {
  import opened Options
  import opened Selections

  // ----- Masks and filters -----------------------------------------------------------

  // The filter names just the hidden positions.
  ghost predicate IsFilter(filter: seq<nat>, mask: seq<bool>) {
    Ascending(filter) && forall i: nat :: i in filter <==> i < |mask| && mask[i]
  }

  method Remask(mask: seq<bool>) returns (filter: seq<nat>)
    ensures IsFilter(filter, mask)
  {
    var i: int := -1;
    filter := [];
    for k := 0 to |mask|
      invariant i == k - 1 && Ascending(filter)
      invariant forall j: nat :: j in filter <==> j < k && mask[j]
    {
      i := i + 1;
      assert forall a :: 0 <= a < |filter| ==> filter[a] in filter;
      if !mask[k] { continue; }
      filter := filter + [i];
    }
  }

  // The elements at positions not in the filter, in order.
  function Kept<T>(s: seq<T>, filter: seq<nat>): (r: seq<T>)
    ensures |r| <= |s|
  {
    if s == [] then []
    else Kept(s[..|s| - 1], filter) + if |s| - 1 in filter then [] else [s[|s| - 1]]
  }

  // The children whose flag is false, in order.
  function Visible<T>(s: seq<T>, mask: seq<bool>): seq<T> {
    if s == [] then []
    else Visible(s[..|s| - 1], mask) + if |s| - 1 < |mask| && mask[|s| - 1] then [] else [s[|s| - 1]]
  }

  lemma {:induction false} KeptIsVisible<T>(s: seq<T>, filter: seq<nat>, mask: seq<bool>)
    requires IsFilter(filter, mask)
    ensures Kept(s, filter) == Visible(s, mask)
  {
    if s != [] { KeptIsVisible(s[..|s| - 1], filter, mask); }
  }

  // All positions but those of the filter.
  ghost function Others(n: nat, filter: seq<nat>): set<nat> {
    set k: nat | k < n && k !in filter
  }

  lemma OthersNext(n: nat, filter: seq<nat>)
    ensures Others(n + 1, filter) == if n in filter then Others(n, filter) else Others(n, filter) + {n}
    ensures forall k <- Others(n, filter) :: k < n
  {
  }

  lemma ChosenNext<T>(s: seq<T>, picks: seq<nat>, t: seq<T>)
    requires s != [] && ChosenAt(s[..|s| - 1], picks, t)
    ensures ChosenAt(s, picks, t) && ChosenAt(s, picks + [|s| - 1], t + [s[|s| - 1]])
  {
  }

  lemma NoPositions(filter: seq<nat>)
    ensures Lists([], Others(0, filter))
  {
  }

  // What is kept is what stands there, in order.
  lemma {:induction false} KeptChosen<T>(s: seq<T>, filter: seq<nat>) returns (picks: seq<nat>)
    ensures Lists(picks, Others(|s|, filter)) && ChosenAt(s, picks, Kept(s, filter))
  {
    hide Lists, Others;
    picks := [];
    if s == [] {
      NoPositions(filter);
    } else {
      hide ChosenAt;
      var n := |s| - 1;
      picks := KeptChosen(s[..n], filter);
      OthersNext(n, filter);
      ChosenNext(s, picks, Kept(s[..n], filter));
      assert Kept(s[..n], filter) + [] == Kept(s[..n], filter);
      if n !in filter {
        ListsNext(picks, Others(n, filter), n);
        picks := picks + [n];
      }
    }
  }

  lemma {:induction false} NothingHidden<T>(s: seq<T>)
    ensures Kept(s, []) == s
  {
    if s != [] { NothingHidden(s[..|s| - 1]); }
  }

  // ----- The table ---------------------------------------------------------------------

  datatype Tag = Single | Per

  // The coded table: a tag, and what follows it.
  datatype Coding = Coding(tag: Tag, data: seq<int>)

  function Key(entry: seq<nat>): seq<nat> { [|entry|] + entry }

  // The place of an entry: its length there, then its elements.
  ghost predicate Holds(data: seq<int>, at: int, entry: seq<nat>) {
    0 <= at && at + 1 + |entry| <= |data| && data[at] == |entry| && data[at + 1..at + 1 + |entry|] == entry
  }

  // Rule r's entry is found through the offset; offset 0 is for entries left out.
  ghost predicate Found(data: seq<int>, r: nat, entry: seq<nat>)
    requires r < |data|
  {
    (data[r] == 0 && entry == []) || (data[r] > 0 && Holds(data, data[r], entry))
  }

  ghost predicate Codes(coding: Coding, entries: seq<seq<nat>>) {
    match coding.tag
    case Single => forall r :: 0 <= r < |entries| ==> Holds(coding.data, 0, entries[r])
    case Per => |entries| <= |coding.data| && forall r :: 0 <= r < |entries| ==> Found(coding.data, r, entries[r])
  }

  // Find a rule's entry.
  method Decode(coding: Coding, rule: nat, ghost entries: seq<seq<nat>>) returns (entry: seq<int>)
    requires Codes(coding, entries) && rule < |entries|
    ensures entry == entries[rule]
  {
    match coding.tag
    case Single =>
      var length := coding.data[0];
      if length == 0 { return []; }
      return coding.data[1..1 + length];
    case Per =>
      assert Found(coding.data, rule, entries[rule]);
      var offset := coding.data[rule];
      if offset == 0 { return []; }
      var length := coding.data[offset];
      if length == 0 { return []; }
      return coding.data[offset + 1..offset + 1 + length];
  }

  // Rules with equal entries refer to the same place.
  ghost predicate Shared(data: seq<int>, entries: seq<seq<nat>>) {
    && |entries| <= |data|
    && forall r, q :: 0 <= r < |entries| && 0 <= q < |entries| && entries[r] == entries[q] ==> data[r] == data[q]
  }

  // The entries whose keys were coded are found.
  ghost predicate FoundAmong(code: seq<int>, entries: seq<seq<nat>>, done: seq<seq<nat>>) {
    && |entries| <= |code|
    && forall r :: 0 <= r < |entries| && Key(entries[r]) in done ==>
         Found(code, r, entries[r]) && (code[r] == 0 || code[r] >= |entries|)
  }

  // One more key: its words were added, the offsets of its rules set, all others kept.
  lemma StillFound(code: seq<int>, words: seq<nat>, code': seq<int>, entries: seq<seq<nat>>, done: seq<seq<nat>>, key: seq<nat>, at: int)
    requires FoundAmong(code, entries, done) && key !in done && |code'| == |code + words|
    requires forall k :: 0 <= k < |code'| ==>
               (code'[k] == if k < |entries| && Key(entries[k]) == key then at else (code + words)[k])
    requires (at == 0 && key == [0] && words == []) || (at == |code| > 0 && words == key)
    ensures FoundAmong(code', entries, done + [key])
  {
    forall r | 0 <= r < |entries| && Key(entries[r]) in done + [key]
      ensures Found(code', r, entries[r]) && (code'[r] == 0 || code'[r] >= |entries|)
    {
      if Key(entries[r]) == key {
        assert entries[r] == key[1..];
        if at > 0 { assert code'[at + 1..at + |key|] == key[1..]; }
      } else {
        assert Found(code, r, entries[r]);
        if code[r] > 0 { assert Holds(code, code[r], entries[r]); }
      }
    }
  }

  // ----- Making the table ------------------------------------------------------------------

  ghost predicate Listed(keys: map<seq<nat>, seq<nat>>, k: seq<nat>, r: nat) {
    k in keys && r in keys[k]
  }

  class Table {
    const elide: bool                          // leave out empty entries: so for masks, not for semantics
    var keys: map<seq<nat>, seq<nat>>          // coded entry -> rules with it
    var count: nat

    ghost var entries: seq<seq<nat>>           // by rule

    ghost predicate Valid()
      reads this
    {
      && count == |entries|
      && (forall r :: 0 <= r < count ==> Listed(keys, Key(entries[r]), r))
      && (forall k, r: nat :: Listed(keys, k, r) ==> r < count && Key(entries[r]) == k)
      && (forall k :: k in keys ==> keys[k] != [])
    }

    constructor (elide: bool)
      ensures Valid() && entries == [] && this.elide == elide
    {
      this.elide := elide;
      keys, count, entries := map[], 0, [];
    }

    method Add(entry: seq<nat>)
      requires Valid()
      modifies this
      ensures Valid() && entries == old(entries) + [entry]
    {
      var key := Key(entry);
      keys := keys[key := (if key in keys then keys[key] else []) + [count]];
      count := count + 1;
      entries := entries + [entry];
      assert forall k, r: nat :: Listed(keys, k, r) <==> Listed(old(keys), k, r) || (k == key && r == old(count));
    }

    // The code of the table, keys taken in the given order; the same for equal entries.
    method Finalize(order: seq<seq<nat>>) returns (coding: Coding)
      requires Valid()
      requires forall k :: k in order <==> k in keys
      requires forall i, j :: 0 <= i < j < |order| ==> order[i] != order[j]
      ensures Codes(coding, entries)
      ensures coding.tag == Per ==> Shared(coding.data, entries)
    {
      if |order| == 1 {
        assert forall r :: 0 <= r < count ==> Listed(keys, Key(entries[r]), r) && Key(entries[r]) in order;
        return Coding(Single, order[0]);
      }
      var ref := count;
      var code: seq<int> := seq(count, (_: nat) => -1);
      for i := 0 to |order|
        invariant ref == |code| >= count
        invariant FoundAmong(code, entries, order[..i]) && Shared(code, entries)
      {
        var s := order[i];
        assert s in order && s in keys;
        ghost var before := code;
        ghost var r0 := keys[s][0];
        assert Listed(keys, s, r0);
        assert forall r: nat :: (r in keys[s] <==> Listed(keys, s, r)) && (Listed(keys, s, r) <==> r < count && Key(entries[r]) == s);
        assert order[..i + 1] == order[..i] + [s];
        if s[0] == 0 && elide {
          code := Assign(code, keys[s], 0);
          StillFound(before, [], code, entries, order[..i], s, 0);
          continue;
        }
        code := code + s;
        code := Assign(code, keys[s], ref);
        StillFound(before, s, code, entries, order[..i], s, ref);
        ref := ref + |s|;
      }
      assert order[..|order|] == order;
      assert forall r :: 0 <= r < count ==> Listed(keys, Key(entries[r]), r) && Key(entries[r]) in order;
      return Coding(Per, code);
    }
  }

  method Assign(code: seq<int>, rules: seq<nat>, value: int) returns (code': seq<int>)
    requires forall r :: r in rules ==> r < |code|
    ensures |code'| == |code|
    ensures forall k :: 0 <= k < |code| ==> code'[k] == if k in rules then value else code[k]
  {
    code' := code;
    for j := 0 to |rules|
      invariant |code'| == |code|
      invariant forall k :: 0 <= k < |code| ==> code'[k] == if k in rules[..j] then value else code[k]
    {
      assert rules[j] in rules && rules[..j + 1] == rules[..j] + [rules[j]];
      code' := code'[rules[j] := value];
    }
  }

  // ----- Dropping the hidden children ---------------------------------------------------------

  lemma KeptNone<T>(x: seq<nat>)
    ensures Kept<T>([], x) == []
  {
  }

  lemma KeptNext<T>(s: seq<T>, x: seq<nat>)
    requires s != []
    ensures var n := |s| - 1; Kept(s, x) == if n in x then Kept(s[..n], x) else Kept(s[..n], x) + [s[n]]
  {
  }

  // In place; the freed cells at the end are emptied.
  method Filter<T>(val: array<Option<T>>, size: nat, x: seq<nat>) returns (t: nat)
    requires size <= val.Length && Ascending(x)
    modifies val
    ensures t <= size && val[..t] == Kept(old(val[..size]), x)
    ensures forall k :: t <= k < size ==> val[k] == None
    ensures val[size..] == old(val[size..])
  {
    hide Kept;
    t := 0;
    var j := 0;
    KeptNone<Option<T>>(x);
    for k := 0 to size
      invariant t <= k && j <= |x|
      invariant val[..t] == Kept(old(val[..k]), x)
      invariant forall i :: t <= i < k ==> val[i] == None
      invariant forall i :: k <= i < val.Length ==> val[i] == old(val[i])
      invariant forall i :: 0 <= i < j ==> x[i] < k
      invariant j < |x| ==> k <= x[j]
    {
      ghost var was := old(val[..k + 1]);
      assert was[..k] == old(val[..k]) && was[k] == val[k];
      KeptNext(was, x);
      if j < |x| && k == x[j] {
        val[k] := None;
        j := j + 1;
      } else if t < k {
        val[t] := val[k];
        val[k] := None;
        t := t + 1;
      } else {
        t := t + 1;
      }
    }
  }

  // ----- From masks to visible children ------------------------------------------------------------

  // A G1 rule: whether it is a priority rule, the length of its right-hand side, its mask.
  datatype G1Rule = G1Rule(priority: bool, length: nat, mask: Option<seq<bool>>)

  predicate NeedsMask(r: G1Rule) { r.priority && r.length > 0 }

  // The children a rule shows: the mask hides those of a priority rule with symbols.
  ghost function ShownPlaces(r: G1Rule, size: nat): set<nat> {
    set k: nat | k < size && !(r.priority && r.length > 0 && r.mask.Some? && k < |r.mask.value| && r.mask.value[k])
  }

  // Quantified and empty rules hide nothing; the others must come with a mask.
  predicate HasMask(r: G1Rule) {
    NeedsMask(r) ==> r.mask.Some? && r.mask.value != []
  }

  function Flags(r: G1Rule): seq<bool>
    requires HasMask(r)
  {
    if NeedsMask(r) then r.mask.value else []
  }

  ghost predicate FiltersOf(entries: seq<seq<nat>>, rules: seq<G1Rule>) {
    |entries| == |rules| && forall r :: 0 <= r < |rules| ==> HasMask(rules[r]) && IsFilter(entries[r], Flags(rules[r]))
  }

  method AddMasks(table: Table, rules: seq<G1Rule>) returns (ok: bool)
    requires table.Valid() && table.entries == []
    modifies table
    ensures ok <==> forall r :: 0 <= r < |rules| && rules[r].priority && rules[r].length > 0 ==>
                      rules[r].mask.Some? && rules[r].mask.value != []
    ensures ok ==> table.Valid() && FiltersOf(table.entries, rules)
  {
    for i := 0 to |rules|
      invariant table.Valid() && FiltersOf(table.entries, rules[..i])
      invariant forall r :: 0 <= r < i ==> HasMask(rules[r])
    {
      var filter: seq<nat> := [];
      if rules[i].priority && rules[i].length > 0 {
        if rules[i].mask.None? { return false; }
        if rules[i].mask.value == [] { return false; }
        filter := Remask(rules[i].mask.value);
      }
      table.Add(filter);
    }
    assert rules[..|rules|] == rules;
    ok := true;
  }

  // Of the children of a rule's node just those with a false flag stay, in order.
  method HideChildren<T>(coding: Coding, rule: nat, val: array<Option<T>>, size: nat,
                         ghost entries: seq<seq<nat>>, ghost rules: seq<G1Rule>) returns (t: nat)
    requires Codes(coding, entries) && FiltersOf(entries, rules) && rule < |rules| && size <= val.Length
    modifies val
    ensures t <= size && val[..t] == Visible(old(val[..size]), Flags(rules[rule]))
    ensures Chosen(old(val[..size]), ShownPlaces(rules[rule], size), val[..t])
  {
    ghost var was, r := val[..size], rules[rule];
    ghost var picks := KeptChosen(was, entries[rule]);
    assert Others(size, entries[rule]) == ShownPlaces(r, size);
    ghost var mask := Flags(rules[rule]);
    var filter := Decode(coding, rule, entries);
    KeptIsVisible(val[..size], entries[rule], mask);
    if |filter| == 0 {
      NothingHidden(val[..size]);
      return size;
    }
    t := Filter(val, size, filter);
  }
}
