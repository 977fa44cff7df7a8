/** Values, the vectors holding them, and when the values' reference counts are right. */
module References {
  import opened Options
  import opened Masks
  import opened Selections
  import opened EvalStack

  // ----- The heap ---------------------------------------------------------------------

  type Id = nat

  // Values have a count; vector values own a vector, the others have what they stand for.
  datatype Sv = Sv(refCount: nat, isVec: bool, scalar: Value)

  datatype VecId = Own(sv: Id) | Alone(n: nat)

  // The used slots of a vector; null or a value.
  type Slots = seq<Option<Id>>

  datatype Vec = Vec(capacity: nat, strict: bool, data: Slots)

  type Svs = map<Id, Sv>
  type Vecs = map<VecId, Vec>

  // ----- Counting -----------------------------------------------------------------------

  // References: of slots, or of those holding values from outside.
  type Refs = multiset<Option<Id>>

  ghost function Occ(data: Slots, id: Id): nat { multiset(data)[Some(id)] }

  // The number of slots of all vectors that hold the value.
  ghost function Total(vecs: Vecs, id: Id): nat
    decreases |vecs|
  {
    if vecs == map[] then 0 else
      assert (forall k :: k !in vecs) ==> vecs == map[];
      var k :| k in vecs;
      Occ(vecs[k].data, id) + Total(vecs - {k}, id)
  }

  lemma TotalPick(vecs: Vecs, id: Id) returns (j: VecId)
    requires vecs != map[]
    ensures j in vecs && Total(vecs, id) == Occ(vecs[j].data, id) + Total(vecs - {j}, id)
  {
    assert (forall k :: k !in vecs) ==> vecs == map[];
    j :| j in vecs && Total(vecs, id) == Occ(vecs[j].data, id) + Total(vecs - {j}, id);
  }

  lemma {:induction false} TotalWithout(vecs: Vecs, k: VecId, id: Id)
    requires k in vecs
    ensures Total(vecs, id) == Occ(vecs[k].data, id) + Total(vecs - {k}, id)
    decreases |vecs|
  {
    var j := TotalPick(vecs, id);
    hide Total, Occ;
    if j != k {
      TotalWithout(vecs - {j}, k, id);
      TotalWithout(vecs - {k}, j, id);
      assert vecs - {j} - {k} == vecs - {k} - {j};
    }
  }

  lemma TotalUpdate(vecs: Vecs, k: VecId, v: Vec, id: Id)
    requires k in vecs
    ensures Total(vecs[k := v], id) + Occ(vecs[k].data, id) == Total(vecs, id) + Occ(v.data, id)
  {
    TotalWithout(vecs, k, id);
    TotalWithout(vecs[k := v], k, id);
    assert vecs[k := v] - {k} == vecs - {k};
  }

  lemma TotalAdd(vecs: Vecs, k: VecId, v: Vec, id: Id)
    requires k !in vecs
    ensures Total(vecs[k := v], id) == Total(vecs, id) + Occ(v.data, id)
  {
    TotalWithout(vecs[k := v], k, id);
    assert vecs[k := v] - {k} == vecs;
  }

  // ----- What every operation keeps ----------------------------------------------------------

  // All references there are to a value.
  ghost function Count(vecs: Vecs, held: Refs, id: Id): nat {
    Total(vecs, id) + held[Some(id)]
  }

  // Counts are exact: slots and references held outside. What is referred to is there, and
  // of what is being destroyed nothing refers to it any more.
  ghost predicate Sound(svs: Svs, vecs: Vecs, held: Refs, dying: set<Id>) {
    && dying <= svs.Keys
    && (forall id :: id in svs && id !in dying ==> svs[id].refCount == Count(vecs, held, id))
    && (forall id :: Count(vecs, held, id) > 0 ==> id in svs && id !in dying)
    && (forall id :: Own(id) in vecs ==> id in svs)
    && (forall id :: id in svs && id !in dying ==> (svs[id].isVec <==> Own(id) in vecs))
  }

  ghost predicate SameKind(a: Sv, b: Sv) {
    a.isVec == b.isVec && a.scalar == b.scalar
  }

  // A release only lets go of values, and of the vectors they own: what is left is as it
  // was but for counts, no count was lowered to zero and kept, and none from zero.
  ghost predicate Fewer(svs0: Svs, vecs0: Vecs, svs: Svs, vecs: Vecs, dying: set<Id>) {
    && (forall id :: id in svs ==> id in svs0 && SameKind(svs0[id], svs[id]) && svs[id].refCount <= svs0[id].refCount)
    && (forall id :: id in svs && id !in dying && svs[id].refCount == 0 ==> svs0[id].refCount == 0)
    && (forall id :: id in svs0 && id !in dying && svs0[id].refCount == 0 ==> id in svs && svs[id].refCount == 0)
    && (forall v :: v in vecs ==> v in vecs0 && vecs[v] == vecs0[v])
    && (forall n :: Alone(n) in vecs0 ==> Alone(n) in vecs)
  }

  lemma FewerSelf(svs: Svs, vecs: Vecs, dying: set<Id>)
    ensures Fewer(svs, vecs, svs, vecs, dying)
  {
  }

  lemma FewerKeys(svs0: Svs, vecs0: Vecs, svs: Svs, vecs: Vecs, dying: set<Id>)
    requires Fewer(svs0, vecs0, svs, vecs, dying)
    ensures svs.Keys <= svs0.Keys && vecs.Keys <= vecs0.Keys
    ensures svs.Keys - dying == svs0.Keys - dying || svs.Keys - dying < svs0.Keys - dying
  {
  }

  lemma FewerTwice(svs0: Svs, vecs0: Vecs, svs1: Svs, vecs1: Vecs, svs2: Svs, vecs2: Vecs, dying: set<Id>)
    requires Fewer(svs0, vecs0, svs1, vecs1, dying) && Fewer(svs1, vecs1, svs2, vecs2, dying)
    ensures Fewer(svs0, vecs0, svs2, vecs2, dying)
  {
  }

  lemma TakeReference(svs: Svs, vecs: Vecs, held: Refs, dying: set<Id>, x: Id)
    requires Sound(svs, vecs, held, dying) && x in svs && x !in dying
    ensures Sound(svs[x := svs[x].(refCount := svs[x].refCount + 1)], vecs, held + multiset{Some(x)}, dying)
  {
    hide Total;
    assert forall id :: Count(vecs, held + multiset{Some(x)}, id) == Count(vecs, held, id) + if id == x then 1 else 0;
  }

  lemma DropReference(svs: Svs, vecs: Vecs, held: Refs, dying: set<Id>, x: Id)
    requires Sound(svs, vecs, held, dying) && Some(x) in held
    ensures x in svs && x !in dying && svs[x].refCount >= 1 && (svs[x].isVec <==> Own(x) in vecs)
    ensures svs[x].refCount > 1 ==> Sound(svs[x := svs[x].(refCount := svs[x].refCount - 1)], vecs, held - multiset{Some(x)}, dying)
    ensures svs[x].refCount <= 1 ==> Sound(svs, vecs, held - multiset{Some(x)}, dying + {x})
  {
    hide Total;
    assert Count(vecs, held, x) > 0;
    assert forall id :: Count(vecs, held - multiset{Some(x)}, id) == Count(vecs, held, id) - if id == x then 1 else 0;
  }

  // References may move between slots and outside.
  lemma MoveReferences(svs: Svs, vecs: Vecs, held: Refs, vecs': Vecs, held': Refs, dying: set<Id>)
    requires Sound(svs, vecs, held, dying) && forall id :: Count(vecs', held', id) == Count(vecs, held, id)
    requires forall id :: id in svs && id !in dying ==> (Own(id) in vecs' <==> Own(id) in vecs)
    requires forall id :: Own(id) in vecs' ==> Own(id) in vecs
    ensures Sound(svs, vecs', held', dying)
  {
    hide Count;
  }

  lemma Dying(svs: Svs, vecs: Vecs, held: Refs, dying: set<Id>)
    requires Sound(svs, vecs, held, dying)
    ensures dying <= svs.Keys
  {
  }

  lemma HoldNull(svs: Svs, vecs: Vecs, held: Refs, dying: set<Id>)
    requires Sound(svs, vecs, held, dying)
    ensures Sound(svs, vecs, held - multiset{None}, dying) && Sound(svs, vecs, held + multiset{None}, dying)
  {
    hide Total;
    assert forall id :: Count(vecs, held - multiset{None}, id) == Count(vecs, held, id);
    assert forall id :: Count(vecs, held + multiset{None}, id) == Count(vecs, held, id);
  }

  // All references of a vector become outside ones.
  lemma LetGo(svs: Svs, vecs: Vecs, held: Refs, dying: set<Id>, v: VecId)
    requires Sound(svs, vecs, held, dying) && v in vecs && (v.Own? ==> v.sv in dying)
    ensures Sound(svs, vecs - {v}, held + multiset(vecs[v].data), dying)
  {
    forall id ensures Count(vecs - {v}, held + multiset(vecs[v].data), id) == Count(vecs, held, id) {
      hide Total;
      TotalWithout(vecs, v, id);
    }
    hide Count;
    MoveReferences(svs, vecs, held, vecs - {v}, held + multiset(vecs[v].data), dying);
  }

  lemma Buried(svs: Svs, vecs: Vecs, held: Refs, dying: set<Id>, x: Id)
    requires Sound(svs, vecs, held, dying) && x in dying && Own(x) !in vecs
    ensures Sound(svs - {x}, vecs, held, dying - {x})
  {
    hide Count;
  }

  // A new value without references.
  lemma Born(svs: Svs, vecs: Vecs, held: Refs, id: Id, scalar: Value, vec: Option<Vec>)
    requires Sound(svs, vecs, held, {}) && id !in svs && (vec.Some? ==> vec.value.data == [])
    ensures Own(id) !in vecs
    ensures var vecs' := if vec.Some? then vecs[Own(id) := vec.value] else vecs;
            Sound(svs[id := Sv(0, vec.Some?, scalar)], vecs', held, {})
  {
    assert Count(vecs, held, id) == 0;
    if vec.Some? {
      forall x ensures Count(vecs[Own(id) := vec.value], held, x) == Count(vecs, held, x) {
        hide Total;
        TotalAdd(vecs, Own(id), vec.value, x);
      }
    }
    hide Count;
  }

  lemma Floating(svs: Svs, vecs: Vecs, held: Refs, id: Id)
    requires Sound(svs, vecs, held, {}) && id in svs && svs[id].refCount == 0
    ensures Some(id) !in held
  {
  }

  lemma StandsAlone(svs: Svs, vecs: Vecs, held: Refs, v: VecId, vec: Vec)
    requires Sound(svs, vecs, held, {}) && v !in vecs && v.Alone? && vec.data == []
    ensures Sound(svs, vecs[v := vec], held, {})
  {
    forall x ensures Count(vecs[v := vec], held, x) == Count(vecs, held, x) {
      hide Total;
      TotalAdd(vecs, v, vec, x);
    }
    hide Count;
  }

  ghost predicate SameReferences(a: Slots, b: Slots) {
    forall id :: Occ(a, id) == Occ(b, id)
  }

  // Up to slot k the slots kept have moved down to the first t, leaving nulls.
  ghost predicate Squeezed(was: Slots, x: seq<nat>, k: nat, t: nat, data: Slots) {
    && k <= |was| && t <= k && |Kept(was[..k], x)| == t
    && data == Kept(was[..k], x) + Nones(k - t) + was[k..]
  }

  lemma Unsqueezed(was: Slots, x: seq<nat>)
    ensures Squeezed(was, x, 0, 0, was)
  {
    assert was[..0] == [] && was[0..] == was;
  }

  lemma SqueezeOn(was: Slots, x: seq<nat>, k: nat, t: nat, data: Slots)
    requires Squeezed(was, x, k, t, data) && k < |was|
    ensures t <= k < |data| && data[k] == was[k]
    ensures k in x ==> Squeezed(was, x, k + 1, t, data[k := None])
    ensures k !in x && t < k ==>
              SameReferences(data[t := data[k]][k := None], data) && Squeezed(was, x, k + 1, t + 1, data[t := data[k]][k := None])
    ensures k !in x && t == k ==> Squeezed(was, x, k + 1, t + 1, data)
  {
    hide Kept, SameReferences, Nones;
    KeptStep(was, x, k);
    assert was[k..] == [was[k]] + was[k + 1..];
    ShiftDrop(Kept(was[..k], x), k - t, was[k], was[k + 1..]);
    if t < k {
      ShiftMove(Kept(was[..k], x), k - t, was[k], was[k + 1..]);
      MoveDown(data, t, k);
    } else {
      ShiftKeep(Kept(was[..k], x), was[k], was[k + 1..]);
    }
  }

  lemma KeptStep(was: Slots, x: seq<nat>, k: nat)
    requires k < |was|
    ensures Kept(was[..k + 1], x) == if k in x then Kept(was[..k], x) else Kept(was[..k], x) + [was[k]]
  {
    assert was[..k + 1][..k] == was[..k];
  }

  // Three ways on, with n nulls between what is kept and the rest.
  lemma ShiftDrop(kept: Slots, n: nat, y: Option<Id>, rest: Slots)
    ensures var data := kept + Nones(n) + ([y] + rest);
            data[|kept| + n] == y && data[|kept| + n := None] == kept + Nones(n + 1) + rest
  {
  }

  lemma ShiftMove(kept: Slots, n: nat, y: Option<Id>, rest: Slots)
    requires n > 0
    ensures var data := kept + Nones(n) + ([y] + rest);
            var data' := data[|kept| := y][|kept| + n := None];
            data[|kept|] == None && data' == (kept + [y]) + Nones(n) + rest
  {
  }

  lemma MoveDown(data: Slots, t: nat, k: nat)
    requires t < k < |data| && data[t] == None
    ensures SameReferences(data[t := data[k]][k := None], data)
  {
  }

  lemma ShiftKeep(kept: Slots, y: Option<Id>, rest: Slots)
    ensures kept + Nones(0) + ([y] + rest) == (kept + [y]) + Nones(0) + rest
  {
  }

  lemma CutNulls(was: Slots, x: seq<nat>, t: nat, data: Slots)
    requires Squeezed(was, x, |was|, t, data)
    ensures t <= |data| && SameReferences(data[..t], data) && data[..t] == Kept(was, x)
  {
    hide Kept;
    assert was[..|was|] == was && was[|was|..] == [];
    assert data[..t] == Kept(was, x) && data[t..] == Nones(|was| - t);
    NullsHoldNothing(data[..t], |was| - t);
    assert data == data[..t] + data[t..];
  }

  lemma NullsHoldNothing(data: Slots, n: nat)
    ensures SameReferences(data, data + Nones(n))
  {
    forall id: Id ensures Occ(Nones(n), id) == 0 {
      assert Some(id) !in Nones(n);
    }
  }

  // Whether a slot goes is seen from the next one to go.
  lemma FilterStep(data: Slots, x: seq<nat>, j: nat, k: nat)
    requires Ascending(x) && j <= |x| && (forall i :: 0 <= i < j ==> x[i] < k) && (j < |x| ==> k <= x[j])
    ensures k in x <==> j < |x| && k == x[j]
    ensures j < |x| && k == x[j] ==> (j + 1 < |x| ==> k + 1 <= x[j + 1])
  {
  }

  lemma ElsewhereSelf(svs: Svs, vecs: Vecs, v: VecId)
    ensures Elsewhere(svs, vecs, svs, vecs, v)
  {
  }

  function Nones(n: nat): (r: Slots)
    ensures |r| == n && forall i :: 0 <= i < n ==> r[i] == None
  {
    seq(n, (_: nat) => None)
  }

  // Nulls up to and including a slot.
  function Filled(data: Slots, at: nat): (r: Slots)
    ensures |r| > at
  {
    if at < |data| then data else data + Nones(at + 1 - |data|)
  }

  // Values without references are as they were.
  ghost predicate FloatingKept(svs0: Svs, svs: Svs) {
    forall id :: id in svs0 && svs0[id].refCount == 0 ==> id in svs && svs[id] == svs0[id]
  }

  lemma CountedFloating(svs0: Svs, svs: Svs, x: Option<Id>)
    requires FloatingKept(svs0, svs) && (x.Some? ==> x.value in svs && svs[x.value].refCount > 0)
    ensures FloatingKept(svs0, Counted(svs, x))
  {
  }

  lemma CountedKeys(svs: Svs, x: Option<Id>)
    requires x.Some? ==> x.value in svs
    ensures Counted(svs, x).Keys == svs.Keys
  {
  }

  lemma SlotThere(svs: Svs, vecs: Vecs, held: Refs, v: VecId, k: nat)
    requires Sound(svs, vecs, held, {}) && v in vecs && k < |vecs[v].data|
    ensures vecs[v].data[k].Some? ==> vecs[v].data[k].value in svs && svs[vecs[v].data[k].value].refCount > 0
  {
    if vecs[v].data[k].Some? {
      var id := vecs[v].data[k].value;
      TotalWithout(vecs, v, id);
      assert vecs[v].data[k] in vecs[v].data;
      hide Total;
      assert Occ(vecs[v].data, id) > 0 && Count(vecs, held, id) > 0;
    }
  }

  lemma NullCounted(svs: Svs)
    ensures Counted(svs, None) == svs
  {
  }

  // One more reference to it.
  function Counted(svs: Svs, x: Option<Id>): Svs
    requires x.Some? ==> x.value in svs
  {
    if x.None? then svs else svs[x.value := svs[x.value].(refCount := svs[x.value].refCount + 1)]
  }

  // Null, or a value other than the owner of the vector.
  ghost predicate MayHold(v: VecId, x: Option<Id>) {
    x.Some? ==> v != Own(x.value)
  }

  ghost predicate Changed(vecs0: Vecs, vecs: Vecs, v: VecId, data: Slots)
    requires v in vecs0
  {
    v in vecs && vecs == vecs0[v := vecs[v]] && vecs[v].strict == vecs0[v].strict && vecs[v].data == data
  }

  lemma SliceNext(s: Slots, lo: nat, k: nat)
    requires lo <= k < |s|
    ensures s[lo..k] + [s[k]] == s[lo..k + 1]
  {
  }

  lemma ChangedTwice(vecs0: Vecs, vecs1: Vecs, vecs2: Vecs, v: VecId, data1: Slots, data2: Slots)
    requires v in vecs0 && Changed(vecs0, vecs1, v, data1) && v in vecs1 && Changed(vecs1, vecs2, v, data2)
    ensures Changed(vecs0, vecs2, v, data2)
  {
  }

  // Apart from the vector v and counts everything is as it was or gone, and no value has
  // come to be without references.
  ghost predicate Elsewhere(svs0: Svs, vecs0: Vecs, svs: Svs, vecs: Vecs, v: VecId) {
    && (forall id :: id in svs ==> id in svs0 && SameKind(svs0[id], svs[id]))
    && (forall id :: id in svs && svs[id].refCount == 0 ==> svs0[id].refCount == 0)
    && (forall w :: w in vecs && w != v ==> w in vecs0 && vecs[w] == vecs0[w])
    && (forall n :: Alone(n) in vecs0 ==> Alone(n) in vecs)
  }

  // A reference to a value put into the vector.
  lemma StaysWith(svs: Svs, vecs: Vecs, held: Refs, v: VecId, x: Option<Id>, vec: Vec)
    requires v in vecs && (x.Some? ==> x.value in svs)
    ensures Stays(svs, vecs, held, v) && MayHold(v, x) ==> Stays(Counted(svs, x), vecs[v := vec], held, v)
    ensures Elsewhere(svs, vecs, Counted(svs, x), vecs[v := vec], v)
  {
  }

  lemma ElsewhereTwice(svs0: Svs, vecs0: Vecs, svs1: Svs, vecs1: Vecs, svs2: Svs, vecs2: Vecs, v: VecId)
    requires Elsewhere(svs0, vecs0, svs1, vecs1, v) && Elsewhere(svs1, vecs1, svs2, vecs2, v)
    ensures Elsewhere(svs0, vecs0, svs2, vecs2, v)
  {
  }

  // The vector stands alone, or its owner is referred to from outside, or not at all.
  ghost predicate Stays(svs: Svs, vecs: Vecs, held: Refs, v: VecId) {
    && v in vecs
    && (v.Own? ==> v.sv in svs && svs[v.sv].isVec && (Some(v.sv) in held || svs[v.sv].refCount == 0))
  }

  lemma StaysCopied(svs0: Svs, vecs0: Vecs, svs: Svs, vecs: Vecs, held: Refs, v: VecId)
    requires Elsewhere(svs0, vecs0, svs, vecs, v) && FloatingKept(svs0, svs) && svs.Keys == svs0.Keys && v in vecs
    ensures Stays(svs0, vecs0, held, v) ==> Stays(svs, vecs, held, v)
  {
  }

  // References moved between one vector and outside.
  lemma Moved(svs: Svs, vecs: Vecs, held: Refs, dying: set<Id>, v: VecId, vec: Vec, held': Refs)
    requires Sound(svs, vecs, held, dying) && v in vecs
    requires forall id :: Occ(vec.data, id) + held'[Some(id)] == Occ(vecs[v].data, id) + held[Some(id)]
    ensures Sound(svs, vecs[v := vec], held', dying)
  {
    forall id ensures Count(vecs[v := vec], held', id) == Count(vecs, held, id) {
      hide Total;
      TotalUpdate(vecs, v, vec, id);
    }
    hide Count;
    MoveReferences(svs, vecs, held, vecs[v := vec], held', dying);
  }

  // ----- What a release reaches ---------------------------------------------------------

  ghost predicate Within(data: Slots, ids: set<Id>) {
    forall k :: 0 <= k < |data| && data[k].Some? ==> data[k].value in ids
  }

  // The values hold nothing but one another.
  ghost predicate Closed(vecs: Vecs, ids: set<Id>) {
    forall id :: id in ids && Own(id) in vecs ==> Within(vecs[Own(id)].data, ids)
  }

  // All other values are as they were, counts included, and have their vectors.
  ghost predicate Spared(svs0: Svs, vecs0: Vecs, svs: Svs, vecs: Vecs, ids: set<Id>) {
    && (forall id :: id in svs0 && id !in ids ==> id in svs && svs[id] == svs0[id])
    && (forall id :: Own(id) in vecs0 && id !in ids ==> Own(id) in vecs)
  }

  // The release of what the slots held gets no further than what they led to.
  ghost predicate Confined(svs0: Svs, vecs0: Vecs, svs: Svs, vecs: Vecs, data: Slots) {
    forall ids: set<Id> :: Closed(vecs0, ids) && Within(data, ids) ==> Spared(svs0, vecs0, svs, vecs, ids)
  }

  lemma ConfinedSelf(svs: Svs, vecs: Vecs, data: Slots)
    ensures Confined(svs, vecs, svs, vecs, data)
  {
  }

  lemma ReleasedTwice(svs0: Svs, vecs0: Vecs, svs1: Svs, vecs1: Vecs, svs2: Svs, vecs2: Vecs, dying: set<Id>, data: Slots, x: Option<Id>)
    requires Fewer(svs0, vecs0, svs1, vecs1, dying) && Confined(svs0, vecs0, svs1, vecs1, data)
    requires Fewer(svs1, vecs1, svs2, vecs2, dying) && Confined(svs1, vecs1, svs2, vecs2, [x]) && x in data
    ensures Fewer(svs0, vecs0, svs2, vecs2, dying) && Confined(svs0, vecs0, svs2, vecs2, data)
  {
    FewerTwice(svs0, vecs0, svs1, vecs1, svs2, vecs2, dying);
    forall ids: set<Id> | Closed(vecs0, ids) && Within(data, ids) ensures Spared(svs0, vecs0, svs2, vecs2, ids) {
      assert Closed(vecs1, ids) && Within([x], ids);
      assert Spared(svs0, vecs0, svs1, vecs1, ids) && Spared(svs1, vecs1, svs2, vecs2, ids);
    }
  }

  // Of a value and its vector.
  lemma ConfinedOwner(svs0: Svs, vecs0: Vecs, x: Id, svs: Svs, vecs: Vecs)
    requires Own(x) in vecs0 ==> Confined(svs0, vecs0 - {Own(x)}, svs, vecs, vecs0[Own(x)].data)
    requires Own(x) !in vecs0 ==> svs == svs0 && vecs == vecs0
    ensures Confined(svs0, vecs0, svs - {x}, vecs, [Some(x)])
  {
    forall ids: set<Id> | Closed(vecs0, ids) && Within([Some(x)], ids) ensures Spared(svs0, vecs0, svs - {x}, vecs, ids) {
      assert [Some(x)][0].value in ids;
      if Own(x) in vecs0 {
        assert Closed(vecs0 - {Own(x)}, ids) && Within(vecs0[Own(x)].data, ids);
        assert Spared(svs0, vecs0 - {Own(x)}, svs, vecs, ids);
      }
    }
  }

  lemma ConfinedCount(svs: Svs, vecs: Vecs, x: Id, n: nat)
    requires x in svs
    ensures Confined(svs, vecs, svs[x := svs[x].(refCount := n)], vecs, [Some(x)])
  {
    forall ids: set<Id> | Within([Some(x)], ids) ensures x in ids {
      assert [Some(x)][0].value in ids;
    }
  }

  // What the slots held does not lead to the owner of the vector, or that is referred to
  // from outside.
  ghost predicate Keeps(vecs: Vecs, held: Refs, v: VecId, rest: Slots) {
    v in vecs && (v.Own? ==> Some(v.sv) in held || Escapes(vecs, v.sv, rest))
  }

  ghost predicate Escapes(vecs: Vecs, id: Id, rest: Slots) {
    exists ids: set<Id> :: Closed(vecs, ids) && Within(rest, ids) && id !in ids
  }

  // What becomes of the vector itself makes no difference, nor that others go.
  lemma KeepsOn(svs0: Svs, vecs0: Vecs, svs: Svs, vecs: Vecs, held: Refs, v: VecId, rest: Slots)
    requires Keeps(vecs0, held, v, rest) && Elsewhere(svs0, vecs0, svs, vecs, v) && v in vecs
    ensures Keeps(vecs, held, v, rest)
  {
    if v.Own? && Some(v.sv) !in held {
      var ids: set<Id> :| Closed(vecs0, ids) && Within(rest, ids) && v.sv !in ids;
      assert Closed(vecs, ids);
    }
  }

  lemma KeepsFewer(vecs: Vecs, held: Refs, v: VecId, rest: Slots, rest': Slots)
    requires Keeps(vecs, held, v, rest) && forall x :: x in rest' ==> x in rest
    ensures Keeps(vecs, held, v, rest')
  {
    if v.Own? && Some(v.sv) !in held {
      var ids: set<Id> :| Closed(vecs, ids) && Within(rest, ids) && v.sv !in ids;
      assert Within(rest', ids) by {
        forall k | 0 <= k < |rest'| && rest'[k].Some? ensures rest'[k].value in ids { assert rest'[k] in rest; }
      }
    }
  }

  lemma NullKeeps(vecs: Vecs, held: Refs, v: VecId)
    requires v in vecs
    ensures Keeps(vecs, held, v, [None])
  {
    assert Closed(vecs, {}) && Within([None], {});
  }

  // What nothing refers to is led to by nothing.
  lemma StaysKeeps(svs: Svs, vecs: Vecs, held: Refs, v: VecId)
    requires Sound(svs, vecs, held, {}) && Stays(svs, vecs, held, v)
    ensures Keeps(vecs, held, v, vecs[v].data)
  {
    if v.Own? && Some(v.sv) !in held {
      var ids := svs.Keys - {v.sv};
      forall id, k | Own(id) in vecs && 0 <= k < |vecs[Own(id)].data| && vecs[Own(id)].data[k].Some?
        ensures vecs[Own(id)].data[k].value in ids
      {
        SlotThere(svs, vecs, held, Own(id), k);
      }
      assert Closed(vecs, ids) && Within(vecs[v].data, ids);
    }
  }

  // Every value ranks above what its vector holds: none is inside itself, directly or not.
  ghost predicate Layered(vecs: Vecs, rank: Id -> nat) {
    forall v, k :: v in vecs && v.Own? && 0 <= k < |vecs[v].data| && vecs[v].data[k].Some? ==>
      rank(vecs[v].data[k].value) < rank(v.sv)
  }

  /** If no value is inside itself, every vector outlasts the release of what it held. */
  lemma LayeredKeeps(svs: Svs, vecs: Vecs, held: Refs, rank: Id -> nat, v: VecId)
    requires Sound(svs, vecs, held, {}) && Layered(vecs, rank) && v in vecs
    ensures Keeps(vecs, held, v, vecs[v].data)
  {
    if v.Own? {
      var ids := set id | id in svs && rank(id) < rank(v.sv);
      forall w, k | w in vecs && 0 <= k < |vecs[w].data| && vecs[w].data[k].Some?
        ensures vecs[w].data[k].value in svs
      {
        SlotThere(svs, vecs, held, w, k);
      }
      assert Closed(vecs, ids) && Within(vecs[v].data, ids);
    }
  }

  /** A release of what the slots held leaves a vector alone, if its owner is referred to
      from outside or not led to by them. */
  lemma StillInUse(svs0: Svs, vecs0: Vecs, held0: Refs, svs: Svs, vecs: Vecs, held: Refs, v: VecId, rest: Slots)
    requires Sound(svs0, vecs0, held0, {}) && Fewer(svs0, vecs0, svs, vecs, {}) && Confined(svs0, vecs0, svs, vecs, rest)
    requires Sound(svs, vecs, held, {}) && v in vecs0
    ensures Elsewhere(svs0, vecs0, svs, vecs, v)
    ensures Keeps(vecs0, held, v, rest) ==> v in vecs && vecs[v] == vecs0[v]
    ensures Stays(svs0, vecs0, held, v) ==> Stays(svs, vecs, held, v)
  {
    hide Total;
    if v.Own? {
      if Some(v.sv) in held { assert Count(vecs, held, v.sv) > 0; }
      if Escapes(vecs0, v.sv, rest) {
        var ids: set<Id> :| Closed(vecs0, ids) && Within(rest, ids) && v.sv !in ids;
        assert Spared(svs0, vecs0, svs, vecs, ids);
      }
    }
  }

  // ----- Leaks ----------------------------------------------------------------------------

  lemma {:induction false} SomeSlot(vecs: Vecs, id: Id) returns (v: VecId, k: nat)
    requires Total(vecs, id) > 0
    ensures v in vecs && k < |vecs[v].data| && vecs[v].data[k] == Some(id)
    decreases |vecs|
  {
    v := TotalPick(vecs, id);
    k := 0;
    if Some(id) in vecs[v].data {
      k :| 0 <= k < |vecs[v].data| && vecs[v].data[k] == Some(id);
    } else {
      v, k := SomeSlot(vecs - {v}, id);
    }
  }

  lemma {:induction false} Highest(ids: set<Id>, rank: Id -> nat) returns (top: Id)
    requires ids != {}
    ensures top in ids && forall id :: id in ids ==> rank(id) <= rank(top)
    decreases |ids|
  {
    assert (forall x :: x !in ids) ==> ids == {};
    top :| top in ids;
    if ids - {top} != {} {
      var other := Highest(ids - {top}, rank);
      if rank(other) > rank(top) { top := other; }
    }
    forall id | id in ids ensures rank(id) <= rank(top) {
      assert id in ids - {top} || id == top || id !in ids - {top};
    }
  }

  /** With no references outside, no vectors standing alone, no value never referred to and
      no vector value inside itself, directly or not, nothing is left: as no release leaves
      a value without references, values are lost only in cycles. */
  lemma NothingLeaks(svs: Svs, vecs: Vecs, rank: Id -> nat)
    requires Sound(svs, vecs, multiset{}, {})
    requires forall v :: v in vecs ==> v.Own?
    requires forall id :: id in svs ==> svs[id].refCount > 0
    requires Layered(vecs, rank)
    ensures svs == map[]
  {
    if svs.Keys != {} {
      var top := Highest(svs.Keys, rank);
      assert Count(vecs, multiset{}, top) > 0;
      var _, _ := SomeSlot(vecs, top);
    }
  }
}
