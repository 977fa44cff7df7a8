/** Reference counts of semantic values held in vectors: the vector operations and the
    recursive release. */
module RefCounts {
  import opened Options
  import opened Masks
  import opened Selections
  import opened References
  import opened EvalStack

  // ----- The heap of values ------------------------------------------------------------------

  class Heap {
    var svs: Svs
    var vecs: Vecs
    var nextSv: nat
    var nextVec: nat

    ghost var held: Refs             // references outside the vectors
    ghost var dying: set<Id>         // values being destroyed

    ghost predicate Valid()
      reads this
    {
      && Sound(svs, vecs, held, dying)
      && (forall id :: id in svs ==> id < nextSv)
      && (forall n: nat :: Alone(n) in vecs ==> n < nextVec)
      && (forall v :: v in vecs ==> |vecs[v].data| <= vecs[v].capacity)
    }

    constructor ()
      ensures Valid() && svs == map[] && vecs == map[] && held == multiset{} && dying == {}
    {
      svs, vecs, nextSv, nextVec, held, dying := map[], map[], 0, 0, multiset{}, {};
    }

    // ----- Counting up and down

    method Ref(x: Id)
      requires Valid() && x in svs && x !in dying
      modifies this`svs, this`held
      ensures Valid() && held == old(held) + multiset{Some(x)}
      ensures svs == old(svs)[x := old(svs)[x].(refCount := old(svs)[x].refCount + 1)]
    {
      TakeReference(svs, vecs, held, dying, x);
      svs := svs[x := svs[x].(refCount := svs[x].refCount + 1)];
      held := held + multiset{Some(x)};
    }

    // The last reference destroys the value, and with it, perhaps, others.
    method Unref(x: Id)
      requires Valid() && Some(x) in held
      modifies this`svs, this`vecs, this`held, this`dying
      ensures Valid() && held == old(held) - multiset{Some(x)} && dying == old(dying)
      ensures Fewer(old(svs), old(vecs), svs, vecs, dying)
      ensures Confined(old(svs), old(vecs), svs, vecs, [Some(x)])
      decreases svs.Keys - dying, 0
    {
      hide Sound, Confined;
      DropReference(svs, vecs, held, dying, x);
      held := held - multiset{Some(x)};
      if svs[x].refCount <= 1 {
        ghost var before := svs.Keys - dying;
        dying := dying + {x};
        assert x in before && svs.Keys - dying < before;
        Destroy(x);
        return;
      }
      ConfinedCount(svs, vecs, x, svs[x].refCount - 1);
      svs := svs[x := svs[x].(refCount := svs[x].refCount - 1)];
    }

    // What a slot held, if anything.
    method UnrefSlot(x: Option<Id>)
      requires Valid() && x in held
      modifies this`svs, this`vecs, this`held, this`dying
      ensures Valid() && held == old(held) - multiset{x} && dying == old(dying)
      ensures Fewer(old(svs), old(vecs), svs, vecs, dying) && Confined(old(svs), old(vecs), svs, vecs, [x])
      decreases svs.Keys - dying, 1
    {
      hide Sound, Confined;
      if x.Some? {
        Unref(x.value);
      } else {
        HoldNull(svs, vecs, held, dying);
        ConfinedSelf(svs, vecs, [x]);
        held := held - multiset{x};
      }
    }

    // Of a value nothing refers to: its vector is released, then the value itself.
    method Destroy(x: Id)
      requires Valid() && x in dying && (svs[x].isVec <==> Own(x) in vecs)
      modifies this`svs, this`vecs, this`held, this`dying
      ensures Valid() && held == old(held) && dying == old(dying) - {x}
      ensures Fewer(old(svs), old(vecs), svs, vecs, old(dying)) && x !in svs
      ensures Confined(old(svs), old(vecs), svs, vecs, [Some(x)])
      decreases svs.Keys - dying, 4
    {
      hide Sound, Confined;
      assert x in svs by { Dying(svs, vecs, held, dying); }
      if svs[x].isVec {
        SvaFree(Own(x));
      }
      Dying(svs, vecs, held, dying);
      Buried(svs, vecs, held, dying, x);
      ConfinedOwner(old(svs), old(vecs), x, svs, vecs);
      svs := svs - {x};
      dying := dying - {x};
    }

    // The vector and all its references are released. (The memory goes last, but nothing
    // looks at it any more.)
    method SvaFree(v: VecId)
      requires Valid() && v in vecs && (v.Own? ==> v.sv in dying)
      modifies this`svs, this`vecs, this`held, this`dying
      ensures Valid() && held == old(held) && dying == old(dying)
      ensures Fewer(old(svs), old(vecs) - {v}, svs, vecs, dying) && v !in vecs
      ensures Confined(old(svs), old(vecs) - {v}, svs, vecs, old(vecs)[v].data)
      decreases svs.Keys - dying, 3
    {
      hide Valid, Fewer, Confined;
      var data := Detach(v);
      ghost var vecs0 := vecs;
      ReleaseAll(data, old(held));
      FewerKeys(old(svs), vecs0, svs, vecs, dying);
    }

    // What the slots held is released, one by one.
    method ReleaseAll(data: Slots, ghost rest: Refs)
      requires Valid() && held == rest + multiset(data)
      modifies this`svs, this`vecs, this`held, this`dying
      ensures Valid() && held == rest && dying == old(dying)
      ensures Fewer(old(svs), old(vecs), svs, vecs, dying) && Confined(old(svs), old(vecs), svs, vecs, data)
      decreases svs.Keys - dying, 2
    {
      hide Valid, Fewer, Confined;
      FewerSelf(svs, vecs, dying);
      ConfinedSelf(svs, vecs, data);
      assert data[0..] == data;
      for k := 0 to |data|
        invariant Valid() && held == rest + multiset(data[k..]) && dying == old(dying)
        invariant Fewer(old(svs), old(vecs), svs, vecs, dying) && Confined(old(svs), old(vecs), svs, vecs, data)
      {
        FewerKeys(old(svs), old(vecs), svs, vecs, dying);
        assert data[k..] == [data[k]] + data[k + 1..];
        ghost var svs1, vecs1 := svs, vecs;
        UnrefSlot(data[k]);
        ReleasedTwice(old(svs), old(vecs), svs1, vecs1, svs, vecs, dying, data, data[k]);
      }
      assert data[|data|..] == [];
    }

    method Detach(v: VecId) returns (data: Slots)
      requires Valid() && v in vecs && (v.Own? ==> v.sv in dying)
      modifies this`vecs, this`held
      ensures Valid() && vecs == old(vecs) - {v} && data == old(vecs)[v].data && held == old(held) + multiset(data)
    {
      hide Sound;
      data := vecs[v].data;
      LetGo(svs, vecs, held, dying, v);
      vecs := vecs - {v};
      held := held + multiset(data);
    }

    // ----- Slots

    ghost predicate Ready()
      reads this
    {
      Valid() && dying == {}
    }

    // A vector in use: it stands alone, or its owner is referred to from outside, or was
    // never referred to at all.
    ghost predicate InUse(v: VecId)
      reads this
    {
      Stays(svs, vecs, held, v)
    }

    // The vector outlasts the release of these of its slots: its owner is referred to from
    // outside, or not at all, or these slots do not lead back to it.
    ghost predicate Outlasts(v: VecId, lo: nat, hi: nat)
      requires v in vecs && lo <= hi <= |vecs[v].data|
      reads this
    {
      InUse(v) || Keeps(vecs, held, v, vecs[v].data[lo..hi])
    }

    lemma OutlastsKeeps(v: VecId, lo: nat, hi: nat)
      requires Ready() && v in vecs && lo <= hi <= |vecs[v].data| && Outlasts(v, lo, hi)
      ensures Keeps(vecs, held, v, vecs[v].data[lo..hi])
    {
      hide Sound, Keeps, Stays;
      if InUse(v) {
        StaysKeeps(svs, vecs, held, v);
        KeepsFewer(vecs, held, v, vecs[v].data, vecs[v].data[lo..hi]);
      }
    }

    method Append(v: VecId, x: Option<Id>)
      requires Ready() && v in vecs && (x.Some? ==> x in held) && |vecs[v].data| < vecs[v].capacity
      modifies this`vecs, this`held
      ensures Ready() && held == old(held) - multiset{x}
      ensures vecs == old(vecs)[v := old(vecs)[v].(data := old(vecs)[v].data + [x])]
    {
      hide Sound;
      var vec := vecs[v];
      ghost var held0 := held;
      held := held - multiset{x};
      Moved(svs, vecs, held0, dying, v, vec.(data := vec.data + [x]), held);
      vecs := vecs[v := vec.(data := vec.data + [x])];
    }

    method Write(v: VecId, at: nat, x: Option<Id>)
      requires Ready() && v in vecs && at < |vecs[v].data| && (x.Some? ==> x in held)
      modifies this`vecs, this`held
      ensures Ready() && held == old(held) - multiset{x} + multiset{old(vecs)[v].data[at]}
      ensures vecs == old(vecs)[v := old(vecs)[v].(data := old(vecs)[v].data[at := x])]
    {
      hide Sound;
      var vec := vecs[v];
      ghost var held0 := held;
      held := held - multiset{x} + multiset{vec.data[at]};
      Moved(svs, vecs, held0, dying, v, vec.(data := vec.data[at := x]), held);
      vecs := vecs[v := vec.(data := vec.data[at := x])];
    }

    method Shrink(v: VecId) returns (x: Option<Id>)
      requires Ready() && v in vecs && vecs[v].data != []
      modifies this`vecs, this`held
      ensures Ready() && held == old(held) + multiset{x} && x == old(vecs)[v].data[|old(vecs)[v].data| - 1]
      ensures vecs == old(vecs)[v := old(vecs)[v].(data := old(vecs)[v].data[..|old(vecs)[v].data| - 1])]
    {
      hide Sound;
      var vec := vecs[v];
      x := vec.data[|vec.data| - 1];
      ghost var held0 := held;
      held := held + multiset{x};
      assert vec.data == vec.data[..|vec.data| - 1] + [x];
      Moved(svs, vecs, held0, dying, v, vec.(data := vec.data[..|vec.data| - 1]), held);
      vecs := vecs[v := vec.(data := vec.data[..|vec.data| - 1])];
    }

    method Expand(v: VecId, newcap: nat)
      requires Ready() && v in vecs && newcap >= |vecs[v].data|
      modifies this`vecs
      ensures Ready() && vecs == old(vecs)[v := old(vecs)[v].(capacity := newcap)]
    {
      hide Sound;
      Moved(svs, vecs, held, dying, v, vecs[v].(capacity := newcap), held);
      vecs := vecs[v := vecs[v].(capacity := newcap)];
    }

    method RefSlot(x: Option<Id>)
      requires Ready() && (x.Some? ==> x.value in svs)
      modifies this`svs, this`held
      ensures Ready() && svs == Counted(old(svs), x) && held == old(held) + multiset{x}
    {
      hide Sound;
      if x.Some? {
        Ref(x.value);
      } else {
        HoldNull(svs, vecs, held, dying);
        held := held + multiset{x};
      }
    }

    // ----- Vector operations

    method Push(v: VecId, x: Option<Id>)
      requires Ready() && v in vecs && (x.Some? ==> x.value in svs)
      requires vecs[v].strict ==> |vecs[v].data| < vecs[v].capacity
      modifies this`svs, this`vecs, this`held
      ensures Ready() && held == old(held)
      ensures svs == Counted(old(svs), x) && Changed(old(vecs), vecs, v, old(vecs)[v].data + [x])
      ensures |old(vecs)[v].data| < old(vecs)[v].capacity ==> vecs[v].capacity == old(vecs)[v].capacity
      ensures Elsewhere(old(svs), old(vecs), svs, vecs, v)
      ensures old(InUse(v)) && MayHold(v, x) ==> InUse(v)
    {
      hide Sound, Stays, Elsewhere, Counted;
      if !vecs[v].strict && |vecs[v].data| == vecs[v].capacity {
        Expand(v, if vecs[v].capacity > 0 then vecs[v].capacity + vecs[v].capacity else 1);
      }
      RefSlot(x);
      Append(v, x);
      assert held == old(held) && vecs == old(vecs)[v := vecs[v]];
      StaysWith(old(svs), old(vecs), held, v, x, vecs[v]);
    }

    // The counts are exact whatever goes; the vector itself stays unless the slot released
    // leads to its owner.
    method Pop(v: VecId) returns (x: Option<Id>)
      requires Ready() && v in vecs && vecs[v].data != []
      modifies this`svs, this`vecs, this`held, this`dying
      ensures Ready() && held == old(held) && x == old(vecs)[v].data[|old(vecs)[v].data| - 1]
      ensures old(Outlasts(v, |vecs[v].data| - 1, |vecs[v].data|)) ==>
                v in vecs && vecs[v] == old(vecs)[v].(data := old(vecs)[v].data[..|old(vecs)[v].data| - 1])
      ensures Elsewhere(old(svs), old(vecs), svs, vecs, v) && (old(InUse(v)) ==> InUse(v))
    {
      hide Valid, Stays, Elsewhere, Keeps;
      ghost var n := |vecs[v].data| - 1;
      if Outlasts(v, n, n + 1) { OutlastsKeeps(v, n, n + 1); }
      x := Shrink(v);
      assert old(vecs)[v].data[n..n + 1] == [x];
      assert held - multiset{x} == old(held);
      NullCounted(old(svs));
      StaysWith(old(svs), old(vecs), old(held), v, None, vecs[v]);
      LetRelease(v, x, old(svs), old(vecs), old(held));
    }

    // What was taken out of a vector is released.
    method LetRelease(v: VecId, x: Option<Id>, ghost svs0: Svs, ghost vecs0: Vecs, ghost held0: Refs)
      requires Ready() && v in vecs && x in held && held - multiset{x} == held0
      requires Elsewhere(svs0, vecs0, svs, vecs, v)
      modifies this`svs, this`vecs, this`held, this`dying
      ensures Ready() && held == held0 && Elsewhere(svs0, vecs0, svs, vecs, v)
      ensures Keeps(vecs0, held0, v, [x]) ==> v in vecs && vecs[v] == old(vecs)[v]
      ensures Stays(old(svs), old(vecs), held0, v) ==> InUse(v)
    {
      hide Sound, Fewer, Stays, Elsewhere, Keeps, Confined;
      ghost var svs1, vecs1, held1 := svs, vecs, held;
      if Keeps(vecs0, held0, v, [x]) { KeepsOn(svs0, vecs0, svs, vecs, held0, v, [x]); }
      UnrefSlot(x);
      StillInUse(svs1, vecs1, held1, svs, vecs, held, v, [x]);
      ElsewhereTwice(svs0, vecs0, svs1, vecs1, svs, vecs, v);
    }

    method Clear(v: VecId)
      requires Ready() && v in vecs && Outlasts(v, 0, |vecs[v].data|)
      modifies this`svs, this`vecs, this`held, this`dying
      ensures Ready() && held == old(held) && v in vecs && (old(InUse(v)) ==> InUse(v))
      ensures vecs[v] == old(vecs)[v].(data := []) && Elsewhere(old(svs), old(vecs), svs, vecs, v)
    {
      hide Sound, Stays, Outlasts, Elsewhere;
      Truncate(v, 0);
    }

    // Pop down to n slots.
    method Truncate(v: VecId, n: nat)
      requires Ready() && v in vecs && n <= |vecs[v].data| && Outlasts(v, n, |vecs[v].data|)
      modifies this`svs, this`vecs, this`held, this`dying
      ensures Ready() && held == old(held) && v in vecs && (old(InUse(v)) ==> InUse(v))
      ensures vecs[v] == old(vecs)[v].(data := old(vecs)[v].data[..n])
      ensures Elsewhere(old(svs), old(vecs), svs, vecs, v)
    {
      hide Valid, Stays, Elsewhere, Keeps;
      ghost var was := vecs[v].data;
      OutlastsKeeps(v, n, |was|);
      assert was[n..|was|] == was[n..];
      ElsewhereSelf(svs, vecs, v);
      while |vecs[v].data| > n
        invariant Ready() && held == old(held) && v in vecs && (old(InUse(v)) ==> InUse(v))
        invariant n <= |vecs[v].data| <= |was| && Keeps(vecs, held, v, was[n..])
        invariant vecs[v] == old(vecs)[v].(data := was[..|vecs[v].data|])
        invariant Elsewhere(old(svs), old(vecs), svs, vecs, v)
      {
        ghost var svs1, vecs1 := svs, vecs;
        ghost var last := vecs[v].data[|vecs[v].data| - 1..|vecs[v].data|];
        assert last[0] == was[n..][|vecs[v].data| - 1 - n];
        KeepsFewer(vecs, held, v, was[n..], last);
        var _ := Pop(v);
        KeepsOn(svs1, vecs1, svs, vecs, held, v, was[n..]);
        ElsewhereTwice(old(svs), old(vecs), svs1, vecs1, svs, vecs, v);
      }
    }

    method Set(v: VecId, at: nat, x: Option<Id>)
      requires Ready() && v in vecs && at < |vecs[v].data| && (x.Some? ==> x.value in svs)
      modifies this`svs, this`vecs, this`held, this`dying
      ensures Ready() && held == old(held)
      ensures old(Outlasts(v, at, at + 1)) ==> v in vecs && vecs[v] == old(vecs)[v].(data := old(vecs)[v].data[at := x])
      ensures Elsewhere(old(svs), old(vecs), svs, vecs, v)
      ensures old(InUse(v)) && MayHold(v, x) ==> InUse(v)
    {
      hide Valid, Stays, Elsewhere, Counted, Keeps, MayHold;
      if Outlasts(v, at, at + 1) { OutlastsKeeps(v, at, at + 1); }
      var was := Exchange(v, at, x);
      assert old(vecs)[v].data[at..at + 1] == [was];
      assert held - multiset{was} == old(held);
      LetRelease(v, was, old(svs), old(vecs), old(held));
    }

    // One value is counted and put where another was.
    method Exchange(v: VecId, at: nat, x: Option<Id>) returns (was: Option<Id>)
      requires Ready() && v in vecs && at < |vecs[v].data| && (x.Some? ==> x.value in svs)
      modifies this`svs, this`vecs, this`held
      ensures Ready() && was == old(vecs)[v].data[at] && held == old(held) + multiset{was}
      ensures v in vecs && vecs[v] == old(vecs)[v].(data := old(vecs)[v].data[at := x])
      ensures Elsewhere(old(svs), old(vecs), svs, vecs, v)
      ensures old(InUse(v)) && MayHold(v, x) ==> Stays(svs, vecs, old(held), v)
    {
      hide Valid, Stays, Elsewhere, Counted, MayHold;
      was := vecs[v].data[at];
      RefSlot(x);
      Write(v, at, x);
      StaysWith(old(svs), old(vecs), old(held), v, x, vecs[v]);
    }

    // Store into a slot, filling up with nulls before it.
    method SetFill(v: VecId, at: nat, x: Option<Id>)
      requires Ready() && v in vecs && (x.Some? ==> x.value in svs) && (vecs[v].strict ==> at < vecs[v].capacity)
      modifies this`svs, this`vecs, this`held, this`dying
      ensures Ready() && held == old(held)
      ensures old(at < |vecs[v].data| ==> Outlasts(v, at, at + 1)) ==>
                v in vecs && vecs[v].data == Filled(old(vecs)[v].data, at)[at := x] && vecs[v].strict == old(vecs)[v].strict
      ensures Elsewhere(old(svs), old(vecs), svs, vecs, v)
      ensures old(InUse(v)) && MayHold(v, x) ==> InUse(v)
    {
      hide Valid, Stays, Elsewhere, Counted, Keeps;
      WithinCapacity(v);
      ghost var was := vecs[v].data;
      if at < |was| && Outlasts(v, at, at + 1) { OutlastsKeeps(v, at, at + 1); }
      var newcap := if vecs[v].capacity == 0 then at + 1 else vecs[v].capacity;
      while at >= newcap
        invariant newcap > 0 && newcap >= |vecs[v].data|
        decreases at - newcap
      {
        newcap := newcap + newcap;
      }
      StaysWith(svs, vecs, held, v, None, vecs[v].(capacity := newcap));
      NullCounted(svs);
      Expand(v, newcap);
      while |vecs[v].data| <= at
        invariant Ready() && held == old(held) && svs == old(svs) && v in vecs
        invariant vecs[v] == Vec(newcap, old(vecs)[v].strict, vecs[v].data)
        invariant |was| <= |vecs[v].data| && vecs == old(vecs)[v := vecs[v]]
        invariant vecs[v].data == was + Nones(|vecs[v].data| - |was|)
        invariant vecs[v].data == was || |vecs[v].data| <= at + 1
        decreases at + 1 - |vecs[v].data|
      {
        NullCounted(svs);
        Push(v, None);
      }
      StaysWith(old(svs), old(vecs), held, v, None, vecs[v]);
      ghost var svs1, vecs1 := svs, vecs;
      NullCounted(svs);
      if at >= |was| {
        NullKeeps(vecs, held, v);
        assert [None] == vecs[v].data[at..at + 1];
      } else if Keeps(old(vecs), held, v, was[at..at + 1]) {
        KeepsOn(old(svs), old(vecs), svs, vecs, held, v, was[at..at + 1]);
      }
      Set(v, at, x);
      ElsewhereTwice(old(svs), old(vecs), svs1, vecs1, svs, vecs, v);
    }

    // Store into a slot, and drop those after it.
    method SetTrunc(v: VecId, at: nat, x: Option<Id>)
      requires Ready() && v in vecs && (x.Some? ==> x.value in svs) && at < |vecs[v].data|
      requires Outlasts(v, at, |vecs[v].data|)
      modifies this`svs, this`vecs, this`held, this`dying
      ensures Ready() && held == old(held) && v in vecs && (old(InUse(v)) && MayHold(v, x) ==> InUse(v))
      ensures vecs[v] == old(vecs)[v].(data := old(vecs)[v].data[..at] + [x])
      ensures Elsewhere(old(svs), old(vecs), svs, vecs, v)
    {
      hide Valid, Stays, Elsewhere, Keeps;
      ghost var was := vecs[v].data;
      OutlastsKeeps(v, at, |was|);
      ghost var rest := was[at..|was|];
      assert was[at..at + 1][0] == rest[0];
      KeepsFewer(vecs, held, v, rest, was[at..at + 1]);
      Set(v, at, x);
      ghost var svs1, vecs1 := svs, vecs;
      assert was[at := x][..at + 1] == was[..at] + [x] && was[at := x][at + 1..|was|] == rest[1..];
      KeepsOn(old(svs), old(vecs), svs, vecs, held, v, rest);
      KeepsFewer(vecs, held, v, rest, rest[1..]);
      Truncate(v, at + 1);
      ElsewhereTwice(old(svs), old(vecs), svs1, vecs1, svs, vecs, v);
    }

    // Any change of the slots that keeps the references.
    method Rearrange(v: VecId, data: Slots)
      requires Ready() && v in vecs && |data| <= vecs[v].capacity && SameReferences(data, vecs[v].data)
      modifies this`vecs
      ensures Ready() && vecs == old(vecs)[v := old(vecs)[v].(data := data)]
    {
      hide Sound;
      Moved(svs, vecs, held, dying, v, vecs[v].(data := data), held);
      vecs := vecs[v := vecs[v].(data := data)];
    }

    // A slot is released; the vector still outlasts the rest.
    method Blank(v: VecId, k: nat, ghost rest: Slots)
      requires Ready() && v in vecs && k < |vecs[v].data| && vecs[v].data[k] in rest && Keeps(vecs, held, v, rest)
      modifies this`svs, this`vecs, this`held, this`dying
      ensures Ready() && held == old(held) && v in vecs && Keeps(vecs, held, v, rest) && (old(InUse(v)) ==> InUse(v))
      ensures vecs[v] == old(vecs)[v].(data := old(vecs)[v].data[k := None])
      ensures Elsewhere(old(svs), old(vecs), svs, vecs, v)
    {
      hide Valid, Stays, Elsewhere, Keeps;
      ghost var svs0, vecs0, slot := svs, vecs, vecs[v].data[k..k + 1];
      assert slot == [vecs[v].data[k]];
      KeepsFewer(vecs, held, v, rest, slot);
      Set(v, k, None);
      KeepsOn(svs0, vecs0, svs, vecs, held, v, rest);
    }

    method Shift(v: VecId, data: Slots, ghost rest: Slots)
      requires Ready() && v in vecs && |data| <= vecs[v].capacity && SameReferences(data, vecs[v].data) && Keeps(vecs, held, v, rest)
      modifies this`vecs
      ensures Ready() && v in vecs && Keeps(vecs, held, v, rest) && (old(InUse(v)) ==> InUse(v))
      ensures vecs[v] == old(vecs)[v].(data := data) && Elsewhere(svs, old(vecs), svs, vecs, v)
    {
      hide Valid, Stays, Elsewhere, Keeps, SameReferences;
      Rearrange(v, data);
      NullCounted(svs);
      StaysWith(svs, old(vecs), held, v, None, vecs[v]);
      KeepsOn(svs, old(vecs), svs, vecs, held, v, rest);
    }

    // Drop the slots named, in place: their references are released, the others move down.
    method Filter(v: VecId, x: seq<nat>)
      requires Ready() && v in vecs && Outlasts(v, 0, |vecs[v].data|) && Ascending(x)
      modifies this`svs, this`vecs, this`held, this`dying
      ensures Ready() && held == old(held) && v in vecs && (old(InUse(v)) ==> InUse(v))
      ensures vecs[v] == old(vecs)[v].(data := Kept(old(vecs)[v].data, x))
      ensures Elsewhere(old(svs), old(vecs), svs, vecs, v)
    {
      hide Valid, Stays, Elsewhere, Kept, Squeezed, SameReferences, Keeps;
      WithinCapacity(v);
      ghost var was := vecs[v].data;
      OutlastsKeeps(v, 0, |was|);
      assert was[0..|was|] == was;
      var size, t, j := |vecs[v].data|, 0, 0;
      Unsqueezed(was, x);
      ElsewhereSelf(svs, vecs, v);
      for k := 0 to size
        invariant Ready() && held == old(held) && v in vecs && Elsewhere(old(svs), old(vecs), svs, vecs, v)
        invariant Keeps(vecs, held, v, was) && (old(InUse(v)) ==> InUse(v))
        invariant vecs[v] == old(vecs)[v].(data := vecs[v].data) && |vecs[v].data| == size
        invariant Squeezed(was, x, k, t, vecs[v].data)
        invariant j <= |x| && (forall i :: 0 <= i < j ==> x[i] < k) && (j < |x| ==> k <= x[j])
      {
        ghost var svs1, vecs1 := svs, vecs;
        FilterStep(was, x, j, k);
        SqueezeOn(was, x, k, t, vecs[v].data);
        if j < |x| && k == x[j] {
          Blank(v, k, was);
          j := j + 1;
        } else if t < k {
          var data := vecs[v].data;
          Shift(v, data[t := data[k]][k := None], was);
          t := t + 1;
        } else {
          ElsewhereSelf(svs, vecs, v);
          t := t + 1;
        }
        ElsewhereTwice(old(svs), old(vecs), svs1, vecs1, svs, vecs, v);
      }
      ghost var svs1, vecs1 := svs, vecs;
      CutNulls(was, x, t, vecs[v].data);
      Shift(v, vecs[v].data[..t], was);
      ElsewhereTwice(old(svs), old(vecs), svs1, vecs1, svs, vecs, v);
    }

    // Append slots of another vector (or of the same). Doubling needs a capacity to double.
    method Copy(dst: VecId, src: VecId, lo: nat, hi: nat)
      requires Ready() && dst in vecs && src in vecs && lo <= hi < |vecs[src].data|
      requires vecs[dst].capacity > 0
      requires vecs[dst].strict ==> |vecs[dst].data| + (hi - lo + 1) <= vecs[dst].capacity
      modifies this`svs, this`vecs, this`held
      ensures Ready() && held == old(held) && svs.Keys == old(svs).Keys
      ensures Changed(old(vecs), vecs, dst, old(vecs)[dst].data + old(vecs)[src].data[lo..hi + 1])
      ensures Elsewhere(old(svs), old(vecs), svs, vecs, dst) && FloatingKept(old(svs), svs)
      ensures old(InUse(dst)) ==> InUse(dst)
    {
      hide Valid, Stays, Elsewhere, Counted;
      Grow(dst, |vecs[dst].data| + (hi - lo + 1));
      for k := lo to hi + 1
        invariant Ready() && held == old(held) && svs.Keys == old(svs).Keys
        invariant Changed(old(vecs), vecs, dst, old(vecs)[dst].data + old(vecs)[src].data[lo..k])
        invariant vecs[dst].capacity >= |old(vecs)[dst].data| + (hi - lo + 1)
        invariant Elsewhere(old(svs), old(vecs), svs, vecs, dst) && FloatingKept(old(svs), svs)
      {
        var x := vecs[src].data[k];
        assert x == old(vecs)[src].data[k];
        SlotHere(src, k);
        ghost var svs1, vecs1 := svs, vecs;
        CountedKeys(svs, x);
        CountedFloating(old(svs), svs, x);
        Push(dst, x);
        ElsewhereTwice(old(svs), old(vecs), svs1, vecs1, svs, vecs, dst);
        ghost var slots := old(vecs)[src].data;
        SliceNext(slots, lo, k);
        assert vecs1[dst].data + [x] == old(vecs)[dst].data + slots[lo..k + 1];
        ChangedTwice(old(vecs), vecs1, vecs, dst, vecs1[dst].data, old(vecs)[dst].data + slots[lo..k + 1]);
      }
      StaysCopied(old(svs), old(vecs), svs, vecs, held, dst);
    }

    lemma WithinCapacity(v: VecId)
      requires Valid() && v in vecs
      ensures |vecs[v].data| <= vecs[v].capacity
    {
    }

    lemma SlotHere(v: VecId, k: nat)
      requires Ready() && v in vecs && k < |vecs[v].data|
      ensures vecs[v].data[k].Some? ==> vecs[v].data[k].value in svs && svs[vecs[v].data[k].value].refCount > 0
    {
      SlotThere(svs, vecs, held, v, k);
    }

    method Grow(v: VecId, newsize: nat)
      requires Ready() && v in vecs && vecs[v].capacity > 0 && (vecs[v].strict ==> newsize <= vecs[v].capacity)
      modifies this`vecs
      ensures Ready() && Changed(old(vecs), vecs, v, old(vecs)[v].data)
      ensures vecs[v].capacity >= newsize && Elsewhere(svs, old(vecs), svs, vecs, v)
    {
      hide Sound, Stays, Elsewhere;
      var capacity := vecs[v].capacity;
      while newsize > capacity
        invariant capacity >= vecs[v].capacity
        decreases newsize - capacity
      {
        capacity := capacity + capacity;
      }
      StaysWith(svs, vecs, held, v, None, vecs[v].(capacity := capacity));
      NullCounted(svs);
      Expand(v, capacity);
    }

    // ----- Making and destroying

    method ConsScalar(value: Value) returns (id: Id)
      requires Ready()
      modifies this`svs, this`nextSv
      ensures Ready() && id !in old(svs) && svs == old(svs)[id := Sv(0, false, value)]
    {
      hide Sound;
      id := nextSv;
      Born(svs, vecs, held, id, value, None);
      svs := svs[id := Sv(0, false, value)];
      nextSv := nextSv + 1;
    }

    method ConsVec(capacity: nat, strict: bool) returns (id: Id)
      requires Ready()
      modifies this`svs, this`vecs, this`nextSv
      ensures Ready() && id !in old(svs) && svs == old(svs)[id := Sv(0, true, Null)]
      ensures Own(id) !in old(vecs) && vecs == old(vecs)[Own(id) := Vec(capacity, strict, [])]
    {
      hide Sound;
      id := nextSv;
      Born(svs, vecs, held, id, Null, Some(Vec(capacity, strict, [])));
      svs := svs[id := Sv(0, true, Null)];
      vecs := vecs[Own(id) := Vec(capacity, strict, [])];
      nextSv := nextSv + 1;
    }

    method SvaCons(capacity: nat, strict: bool) returns (v: VecId)
      requires Ready()
      modifies this`vecs, this`nextVec
      ensures Ready() && v.Alone? && v !in old(vecs) && vecs == old(vecs)[v := Vec(capacity, strict, [])]
    {
      hide Sound;
      v := Alone(nextVec);
      StandsAlone(svs, vecs, held, v, Vec(capacity, strict, []));
      vecs := vecs[v := Vec(capacity, strict, [])];
      nextVec := nextVec + 1;
    }

    // A copy of a vector, of just its size.
    method Dup(v: VecId, strict: bool) returns (copy: VecId)
      requires Ready() && v in vecs
      modifies this`svs, this`vecs, this`held, this`nextVec
      ensures Ready() && held == old(held) && svs.Keys == old(svs).Keys
      ensures copy.Alone? && copy !in old(vecs) && copy in vecs && vecs == old(vecs)[copy := vecs[copy]]
      ensures vecs[copy].data == old(vecs)[v].data
    {
      hide Sound;
      copy := SvaCons(|vecs[v].data|, strict);
      if |vecs[v].data| > 0 {
        Copy(copy, v, 0, |vecs[v].data| - 1);
      }
    }

    // A vector value holding what a vector holds.
    method ConsVecCp(v: VecId) returns (id: Id)
      requires Ready() && v in vecs
      modifies this`svs, this`vecs, this`held, this`nextSv
      ensures Ready() && held == old(held) && id !in old(svs) && svs.Keys == old(svs).Keys + {id}
      ensures svs[id] == Sv(0, true, Null) && FloatingKept(old(svs), svs)
      ensures forall x :: x in old(svs) ==> x in svs && SameKind(old(svs)[x], svs[x])
      ensures Own(id) in vecs && Own(id) !in old(vecs) && vecs == old(vecs)[Own(id) := vecs[Own(id)]]
      ensures vecs[Own(id)].data == old(vecs)[v].data
    {
      hide Sound;
      SlotsOld(v);
      id := ConsVec(|vecs[v].data|, true);
      if |vecs[v].data| > 0 {
        Floating(svs, vecs, held, id);
        Copy(Own(id), v, 0, |vecs[v].data| - 1);
      }
    }

    lemma SlotsOld(v: VecId)
      requires Ready() && v in vecs
      ensures forall k :: 0 <= k < |vecs[v].data| && vecs[v].data[k].Some? ==> vecs[v].data[k].value in svs
    {
      forall k | 0 <= k < |vecs[v].data| ensures vecs[v].data[k].Some? ==> vecs[v].data[k].value in svs {
        SlotHere(v, k);
      }
    }

    // Of a value that never had a reference.
    method DestroyFloating(x: Id)
      requires Ready() && x in svs && svs[x].refCount == 0
      modifies this`svs, this`vecs, this`held, this`dying
      ensures Ready() && held == old(held) && x !in svs
      ensures Fewer(old(svs), old(vecs), svs, vecs, {x}) && Confined(old(svs), old(vecs), svs, vecs, [Some(x)])
    {
      dying := {x};
      Destroy(x);
    }

    // Free a vector standing alone.
    method FreeVec(v: VecId)
      requires Ready() && v in vecs && v.Alone?
      modifies this`svs, this`vecs, this`held, this`dying
      ensures Ready() && held == old(held) && v !in vecs && Fewer(old(svs), old(vecs) - {v}, svs, vecs, {})
    {
      SvaFree(v);
    }
  }
}
