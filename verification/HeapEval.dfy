/** The evaluation of parse trees on counted values in vectors does what the evaluation on
    plain values does. */
module HeapEval {
  import opened Options
  import opened Masks
  import opened Selections
  import opened EvalStack
  import opened References
  import opened RefCounts

  // ----- Counted values as plain values --------------------------------------------------

  // What a slot holds stands for a value: its vector's slots for the value's items.
  ghost predicate Represents(svs: Svs, vecs: Vecs, x: Option<Id>, v: Value)
    decreases v
  {
    match v
    case Null => x == None
    case Vector(items) =>
      && x.Some? && x.value in svs && svs[x.value].isVec && Own(x.value) in vecs
      && |vecs[Own(x.value)].data| == |items|
      && forall i :: 0 <= i < |items| ==> Represents(svs, vecs, vecs[Own(x.value)].data[i], items[i])
    case _ => x.Some? && x.value in svs && !svs[x.value].isVec && svs[x.value].scalar == v
  }

  ghost predicate AllRepresent(svs: Svs, vecs: Vecs, data: Slots, vs: seq<Value>) {
    |data| == |vs| && forall i :: 0 <= i < |vs| ==> Represents(svs, vecs, data[i], vs[i])
  }

  // Vectors standing alone that can grow, with the values their slots are to stand for.
  type Watch = map<VecId, seq<Value>>

  ghost predicate Shown(svs: Svs, vecs: Vecs, watch: Watch) {
    forall w :: w in watch ==>
      w in vecs && w.Alone? && Expandable(vecs[w]) && AllRepresent(svs, vecs, vecs[w].data, watch[w])
  }

  ghost predicate Expandable(vec: Vec) { !vec.strict && vec.capacity > 0 }

  // Values still there are of the same kind, and own the same slots, some excepted.
  ghost predicate Undisturbed(svs0: Svs, vecs0: Vecs, svs: Svs, vecs: Vecs, but: set<Id>) {
    && (forall id :: id in svs0 && id in svs ==> SameKind(svs0[id], svs[id]))
    && (forall id :: Own(id) in vecs0 && Own(id) in vecs && id !in but ==> vecs[Own(id)] == vecs0[Own(id)])
  }

  lemma ElsewhereUndisturbed(svs0: Svs, vecs0: Vecs, svs: Svs, vecs: Vecs, v: VecId)
    requires Elsewhere(svs0, vecs0, svs, vecs, v)
    ensures Undisturbed(svs0, vecs0, svs, vecs, if v.Own? then {v.sv} else {})
  {
  }

  // There, and not the value whose vector changed.
  ghost predicate Apart(svs: Svs, but: set<Id>, x: Option<Id>) {
    x.Some? ==> x.value in svs && x.value !in but
  }

  // The values whose vectors changed are referred to by nothing.
  ghost predicate Unreferred(svs: Svs, but: set<Id>) {
    forall id :: id in but && id in svs ==> svs[id].refCount == 0
  }

  lemma SlotsApart(svs: Svs, vecs: Vecs, held: Refs, but: set<Id>, v: VecId)
    requires Sound(svs, vecs, held, {}) && v in vecs && Unreferred(svs, but)
    ensures forall k :: 0 <= k < |vecs[v].data| ==> Apart(svs, but, vecs[v].data[k])
  {
    forall k | 0 <= k < |vecs[v].data| ensures Apart(svs, but, vecs[v].data[k]) {
      SlotThere(svs, vecs, held, v, k);
    }
  }

  /** Whatever is still there stands for what it stood for. */
  lemma {:induction false} StillRepresents(svs0: Svs, vecs0: Vecs, svs: Svs, vecs: Vecs, held: Refs, but: set<Id>,
                                           x: Option<Id>, v: Value)
    requires Sound(svs, vecs, held, {}) && Undisturbed(svs0, vecs0, svs, vecs, but) && Unreferred(svs, but)
    requires Represents(svs0, vecs0, x, v) && Apart(svs, but, x)
    ensures Represents(svs, vecs, x, v)
    decreases v
  {
    if v.Vector? {
      var w := Own(x.value);
      OwnsVector(svs, vecs, held, x.value);
      hide Sound;
      SlotsApart(svs, vecs, held, but, w);
      forall i | 0 <= i < |v.items| ensures Represents(svs, vecs, vecs[w].data[i], v.items[i]) {
        StillRepresents(svs0, vecs0, svs, vecs, held, but, vecs[w].data[i], v.items[i]);
      }
    }
  }

  lemma OwnsVector(svs: Svs, vecs: Vecs, held: Refs, id: Id)
    requires Sound(svs, vecs, held, {}) && id in svs
    ensures svs[id].isVec <==> Own(id) in vecs
  {
  }

  lemma AllStillRepresent(svs0: Svs, vecs0: Vecs, svs: Svs, vecs: Vecs, held: Refs, but: set<Id>, v: VecId, vs: seq<Value>)
    requires Sound(svs, vecs, held, {}) && Undisturbed(svs0, vecs0, svs, vecs, but) && Unreferred(svs, but)
    requires v in vecs && AllRepresent(svs0, vecs0, vecs[v].data, vs)
    ensures AllRepresent(svs, vecs, vecs[v].data, vs)
  {
    hide Sound, Undisturbed, Unreferred;
    SlotsApart(svs, vecs, held, but, v);
    forall i | 0 <= i < |vs| ensures Represents(svs, vecs, vecs[v].data[i], vs[i]) {
      StillRepresents(svs0, vecs0, svs, vecs, held, but, vecs[v].data[i], vs[i]);
    }
  }

  lemma StillShown(svs0: Svs, vecs0: Vecs, svs: Svs, vecs: Vecs, held: Refs, but: set<Id>, watch: Watch)
    requires Sound(svs, vecs, held, {}) && Undisturbed(svs0, vecs0, svs, vecs, but) && Unreferred(svs, but)
    requires Shown(svs0, vecs0, watch) && forall w :: w in watch ==> w in vecs && vecs[w] == vecs0[w]
    ensures Shown(svs, vecs, watch)
  {
    hide Sound, Undisturbed, Unreferred, AllRepresent;
    forall w | w in watch ensures AllRepresent(svs, vecs, vecs[w].data, watch[w]) {
      AllStillRepresent(svs0, vecs0, svs, vecs, held, but, w, watch[w]);
    }
  }

  lemma IsShown(svs: Svs, vecs: Vecs, watch: Watch, v: VecId)
    requires Shown(svs, vecs, watch) && v in watch
    ensures v in vecs && v.Alone? && Expandable(vecs[v])
    ensures AllRepresent(svs, vecs, vecs[v].data, watch[v]) && |vecs[v].data| == |watch[v]|
  {
  }

  // After a change of one watched vector.
  lemma Reshown(svs0: Svs, vecs0: Vecs, svs: Svs, vecs: Vecs, held: Refs, v: VecId, watch: Watch, vs: seq<Value>)
    requires Sound(svs, vecs, held, {}) && Elsewhere(svs0, vecs0, svs, vecs, v) && Shown(svs0, vecs0, watch)
    requires v in vecs && v.Alone? && Expandable(vecs[v]) && AllRepresent(svs0, vecs0, vecs[v].data, vs)
    ensures Shown(svs, vecs, watch[v := vs])
  {
    hide Sound, Undisturbed, AllRepresent;
    ElsewhereUndisturbed(svs0, vecs0, svs, vecs, v);
    assert Unreferred(svs, {});
    forall w | w in watch[v := vs]
      ensures w in vecs && w.Alone? && Expandable(vecs[w]) && AllRepresent(svs, vecs, vecs[w].data, watch[v := vs][w])
    {
      if w != v { IsShown(svs0, vecs0, watch, w); }
      AllStillRepresent(svs0, vecs0, svs, vecs, held, {}, w, watch[v := vs][w]);
    }
  }

  // Everything referred to from outside stands for what it stood for.
  ghost predicate HeldStill(svs0: Svs, vecs0: Vecs, svs: Svs, vecs: Vecs, held: Refs) {
    forall x: Option<Id>, v :: (x.Some? ==> x in held) && Represents(svs0, vecs0, x, v) ==> Represents(svs, vecs, x, v)
  }

  lemma HeldSelf(svs: Svs, vecs: Vecs, held: Refs)
    ensures HeldStill(svs, vecs, svs, vecs, held)
  {
  }

  lemma HeldTwice(svs0: Svs, vecs0: Vecs, svs1: Svs, vecs1: Vecs, svs: Svs, vecs: Vecs, held: Refs)
    requires HeldStill(svs0, vecs0, svs1, vecs1, held) && HeldStill(svs1, vecs1, svs, vecs, held)
    ensures HeldStill(svs0, vecs0, svs, vecs, held)
  {
    hide Represents;
  }

  lemma HeldApart(svs: Svs, vecs: Vecs, held: Refs, but: set<Id>, x: Option<Id>)
    requires Sound(svs, vecs, held, {}) && Unreferred(svs, but) && (x.Some? ==> x in held)
    ensures Apart(svs, but, x)
  {
    hide Total;
    if x.Some? { assert Count(vecs, held, x.value) > 0; }
  }

  lemma HeldOn(svs0: Svs, vecs0: Vecs, svs: Svs, vecs: Vecs, held: Refs, but: set<Id>)
    requires Sound(svs, vecs, held, {}) && Undisturbed(svs0, vecs0, svs, vecs, but) && Unreferred(svs, but)
    ensures HeldStill(svs0, vecs0, svs, vecs, held)
  {
    hide Sound, Undisturbed, Unreferred, Apart, Represents;
    forall x: Option<Id>, v | (x.Some? ==> x in held) && Represents(svs0, vecs0, x, v) ensures Represents(svs, vecs, x, v) {
      HeldApart(svs, vecs, held, but, x);
      StillRepresents(svs0, vecs0, svs, vecs, held, but, x, v);
    }
  }

  lemma HeldElsewhere(svs0: Svs, vecs0: Vecs, svs: Svs, vecs: Vecs, held: Refs, v: VecId)
    requires Sound(svs, vecs, held, {}) && Elsewhere(svs0, vecs0, svs, vecs, v) && v.Alone?
    ensures HeldStill(svs0, vecs0, svs, vecs, held)
  {
    hide Sound, Undisturbed;
    ElsewhereUndisturbed(svs0, vecs0, svs, vecs, v);
    assert Unreferred(svs, {});
    HeldOn(svs0, vecs0, svs, vecs, held, {});
  }

  lemma {:induction false} KeptRepresent(svs: Svs, vecs: Vecs, data: Slots, vs: seq<Value>, x: seq<nat>)
    requires AllRepresent(svs, vecs, data, vs)
    ensures AllRepresent(svs, vecs, Kept(data, x), Kept(vs, x))
  {
    if data != [] {
      hide Represents;
      KeptRepresent(svs, vecs, data[..|data| - 1], vs[..|vs| - 1], x);
    }
  }

  lemma Ready(h: Heap)
    requires h.Ready()
    ensures Sound(h.svs, h.vecs, h.held, {})
    ensures forall v :: v in h.vecs ==> |h.vecs[v].data| <= h.vecs[v].capacity
  {
  }

  // ----- The vector operations, on what they stand for ----------------------------------------

  method CopySlots(h: Heap, dst: VecId, src: VecId, lo: nat, hi: nat, ghost watch: Watch)
    requires h.Ready() && Shown(h.svs, h.vecs, watch) && dst in watch && src in watch && lo <= hi < |watch[src]|
    modifies h
    ensures h.Ready() && h.held == old(h.held) && Shown(h.svs, h.vecs, watch[dst := watch[dst] + watch[src][lo..hi + 1]])
    ensures HeldStill(old(h.svs), old(h.vecs), h.svs, h.vecs, h.held)
  {
    hide Heap.Valid, Elsewhere, Represents, Sound;
    ghost var svs0, vecs0 := h.svs, h.vecs;
    IsShown(svs0, vecs0, watch, dst);
    IsShown(svs0, vecs0, watch, src);
    h.Copy(dst, src, lo, hi);
    Ready(h);
    HeldElsewhere(svs0, vecs0, h.svs, h.vecs, h.held, dst);
    Reshown(svs0, vecs0, h.svs, h.vecs, h.held, dst, watch, watch[dst] + watch[src][lo..hi + 1]);
  }

  method FilterSlots(h: Heap, v: VecId, x: seq<nat>, ghost watch: Watch)
    requires h.Ready() && Shown(h.svs, h.vecs, watch) && v in watch && Ascending(x)
    modifies h
    ensures h.Ready() && h.held == old(h.held) && Shown(h.svs, h.vecs, watch[v := Kept(watch[v], x)])
    ensures HeldStill(old(h.svs), old(h.vecs), h.svs, h.vecs, h.held)
  {
    hide Heap.Valid, Elsewhere, Represents, Sound, Kept;
    ghost var svs0, vecs0 := h.svs, h.vecs;
    IsShown(svs0, vecs0, watch, v);
    h.Filter(v, x);
    Ready(h);
    KeptRepresent(svs0, vecs0, vecs0[v].data, watch[v], x);
    HeldElsewhere(svs0, vecs0, h.svs, h.vecs, h.held, v);
    Reshown(svs0, vecs0, h.svs, h.vecs, h.held, v, watch, Kept(watch[v], x));
  }

  method StoreTruncating(h: Heap, v: VecId, at: nat, x: Option<Id>, ghost value: Value, ghost watch: Watch)
    requires h.Ready() && Shown(h.svs, h.vecs, watch) && v in watch && at < |watch[v]|
    requires Represents(h.svs, h.vecs, x, value)
    modifies h
    ensures h.Ready() && h.held == old(h.held) && Shown(h.svs, h.vecs, watch[v := watch[v][..at] + [value]])
    ensures HeldStill(old(h.svs), old(h.vecs), h.svs, h.vecs, h.held)
  {
    hide Heap.Valid, Sound;
    ghost var svs0, vecs0 := h.svs, h.vecs;
    IsShown(svs0, vecs0, watch, v);
    h.SetTrunc(v, at, x);
    hide Represents, Elsewhere;
    Ready(h);
    HeldElsewhere(svs0, vecs0, h.svs, h.vecs, h.held, v);
    Reshown(svs0, vecs0, h.svs, h.vecs, h.held, v, watch, watch[v][..at] + [value]);
  }

  method StoreFilling(h: Heap, v: VecId, at: nat, x: Option<Id>, ghost value: Value, ghost watch: Watch)
    requires h.Ready() && Shown(h.svs, h.vecs, watch) && v in watch
    requires Represents(h.svs, h.vecs, x, value)
    modifies h
    ensures h.Ready() && h.held == old(h.held) && Shown(h.svs, h.vecs, watch[v := Fill(watch[v], at, value)])
    ensures HeldStill(old(h.svs), old(h.vecs), h.svs, h.vecs, h.held)
  {
    hide Heap.Valid, Sound;
    ghost var svs0, vecs0 := h.svs, h.vecs;
    IsShown(svs0, vecs0, watch, v);
    h.SetFill(v, at, x);
    FilledRepresent(svs0, vecs0, vecs0[v].data, watch[v], at, x, value);
    hide Represents, Elsewhere;
    Ready(h);
    HeldElsewhere(svs0, vecs0, h.svs, h.vecs, h.held, v);
    Reshown(svs0, vecs0, h.svs, h.vecs, h.held, v, watch, Fill(watch[v], at, value));
  }

  lemma FilledRepresent(svs: Svs, vecs: Vecs, data: Slots, vs: seq<Value>, at: nat, x: Option<Id>, value: Value)
    requires AllRepresent(svs, vecs, data, vs) && Represents(svs, vecs, x, value)
    ensures AllRepresent(svs, vecs, Filled(data, at)[at := x], Fill(vs, at, value))
  {
  }

  method ClearSlots(h: Heap, v: VecId, ghost watch: Watch)
    requires h.Ready() && Shown(h.svs, h.vecs, watch) && v in watch
    modifies h
    ensures h.Ready() && h.held == old(h.held) && Shown(h.svs, h.vecs, watch[v := []])
    ensures HeldStill(old(h.svs), old(h.vecs), h.svs, h.vecs, h.held)
  {
    hide Heap.Valid, Sound, Represents;
    ghost var svs0, vecs0 := h.svs, h.vecs;
    IsShown(svs0, vecs0, watch, v);
    h.Clear(v);
    Ready(h);
    HeldElsewhere(svs0, vecs0, h.svs, h.vecs, h.held, v);
    Reshown(svs0, vecs0, h.svs, h.vecs, h.held, v, watch, []);
  }

  // ----- A rule's value -----------------------------------------------------------------------

  // A new value: nothing known is disturbed.
  lemma NewShown(svs0: Svs, vecs0: Vecs, svs: Svs, vecs: Vecs, held: Refs, watch: Watch)
    requires Sound(svs, vecs, held, {}) && Shown(svs0, vecs0, watch)
    requires forall id :: id in svs0 ==> id in svs && SameKind(svs0[id], svs[id])
    requires forall v :: v in vecs0 ==> v in vecs && vecs[v] == vecs0[v]
    ensures Undisturbed(svs0, vecs0, svs, vecs, {}) && Shown(svs, vecs, watch) && HeldStill(svs0, vecs0, svs, vecs, held)
  {
    hide Sound;
    HeldOn(svs0, vecs0, svs, vecs, held, {});
    StillShown(svs0, vecs0, svs, vecs, held, {}, watch);
  }

  // The piece of a value for a key.
  method MakePiece(h: Heap, kn: Knowledge, key: nat, rule: nat, start: int, end: int, rhs: VecId, ghost watch: Watch)
    returns (piece: Id)
    requires h.Ready() && Shown(h.svs, h.vecs, watch) && rhs in watch && IsKey(key) && key != FIRST
    modifies h
    ensures h.Ready() && h.held == old(h.held) && Shown(h.svs, h.vecs, watch) && FloatingKept(old(h.svs), h.svs)
    ensures piece !in old(h.svs) && piece in h.svs && Undisturbed(old(h.svs), old(h.vecs), h.svs, h.vecs, {})
    ensures forall id :: id in old(h.svs) ==> id in h.svs
    ensures forall v :: v in old(h.vecs) ==> v in h.vecs && h.vecs[v] == old(h.vecs)[v]
    ensures Represents(h.svs, h.vecs, Some(piece), Piece(kn, key, rule, start, end, watch[rhs]))
    ensures HeldStill(old(h.svs), old(h.vecs), h.svs, h.vecs, h.held)
  {
    hide Heap.Valid, Sound;
    ghost var svs0, vecs0 := h.svs, h.vecs;
    IsShown(svs0, vecs0, watch, rhs);
    if key == VALUE {
      piece := h.ConsVecCp(rhs);
      Ready(h);
      NewShown(svs0, vecs0, h.svs, h.vecs, h.held, watch);
      assert Unreferred(h.svs, {});
      AllStillRepresent(svs0, vecs0, h.svs, h.vecs, h.held, {}, Own(piece), watch[rhs]);
    } else {
      piece := h.ConsScalar(Piece(kn, key, rule, start, end, []));
      Ready(h);
      NewShown(svs0, vecs0, h.svs, h.vecs, h.held, watch);
    }
  }

  // The half-made value: floating, its slots standing for the pieces so far.
  ghost predicate HalfMade(h: Heap, id: Id, size: nat, items: seq<Value>)
    reads h
  {
    && id in h.svs && h.svs[id] == Sv(0, true, Null) && Own(id) in h.vecs
    && h.vecs[Own(id)].capacity == size && h.vecs[Own(id)].strict
    && AllRepresent(h.svs, h.vecs, h.vecs[Own(id)].data, items)
  }

  // The pieces made so far.
  ghost predicate Cached(h: Heap, id: Id, cache: map<nat, Id>, kn: Knowledge, rule: nat, start: int, end: int, vs: seq<Value>)
    reads h
  {
    forall key :: key in cache ==>
      && IsKey(key) && key != FIRST && cache[key] in h.svs && cache[key] != id
      && Represents(h.svs, h.vecs, Some(cache[key]), Piece(kn, key, rule, start, end, vs))
  }

  ghost predicate OnePerKey(cache: map<nat, Id>) {
    forall k, l :: k in cache && l in cache && cache[k] == cache[l] ==> k == l
  }

  // The slots hold the pieces cached for the keys.
  ghost predicate FromCache(data: Slots, keys: seq<nat>, cache: map<nat, Id>) {
    |data| == |keys| && forall i :: 0 <= i < |keys| ==> keys[i] in cache && data[i] == Some(cache[keys[i]])
  }

  // One value for each key, shared where the key comes again.
  ghost predicate SharedByKey(data: Slots, keys: seq<nat>) {
    |data| == |keys| && forall i, j :: 0 <= i < |keys| && 0 <= j < |keys| ==> (data[i] == data[j] <==> keys[i] == keys[j])
  }

  lemma CacheShares(data: Slots, keys: seq<nat>, cache: map<nat, Id>)
    requires FromCache(data, keys, cache) && OnePerKey(cache)
    ensures SharedByKey(data, keys)
  {
  }

  lemma FromCacheNext(data: Slots, keys: seq<nat>, cache: map<nat, Id>, cache': map<nat, Id>, k: nat)
    requires k < |keys| && FromCache(data, keys[..k], cache)
    requires keys[k] in cache' && forall key :: key in cache ==> key in cache' && cache'[key] == cache[key]
    ensures FromCache(data + [Some(cache'[keys[k]])], keys[..k + 1], cache')
  {
  }

  method PushPiece(h: Heap, id: Id, piece: Id, size: nat, ghost items: seq<Value>, ghost value: Value, ghost watch: Watch,
                   ghost cache: map<nat, Id>, ghost kn: Knowledge, ghost rule: nat, ghost start: int, ghost end: int, ghost vs: seq<Value>)
    requires h.Ready() && Shown(h.svs, h.vecs, watch) && HalfMade(h, id, size, items) && |items| < size
    requires piece in h.svs && piece != id && Represents(h.svs, h.vecs, Some(piece), value)
    requires Cached(h, id, cache, kn, rule, start, end, vs)
    modifies h
    ensures h.Ready() && h.held == old(h.held) && Shown(h.svs, h.vecs, watch) && HalfMade(h, id, size, items + [value])
    ensures Cached(h, id, cache, kn, rule, start, end, vs) && h.vecs[Own(id)].data == old(h.vecs)[Own(id)].data + [Some(piece)]
    ensures HeldStill(old(h.svs), old(h.vecs), h.svs, h.vecs, h.held)
  {
    hide Heap.Valid, Sound, Represents;
    ghost var svs0, vecs0 := h.svs, h.vecs;
    h.Push(Own(id), Some(piece));
    Ready(h);
    assert h.svs[id] == Sv(0, true, Null);
    ElsewhereUndisturbed(svs0, vecs0, h.svs, h.vecs, Own(id));
    AllStillRepresent(svs0, vecs0, h.svs, h.vecs, h.held, {id}, Own(id), items + [value]);
    StillShown(svs0, vecs0, h.svs, h.vecs, h.held, {id}, watch);
    HeldOn(svs0, vecs0, h.svs, h.vecs, h.held, {id});
    forall key | key in cache ensures Represents(h.svs, h.vecs, Some(cache[key]), Piece(kn, key, rule, start, end, vs)) {
      StillRepresents(svs0, vecs0, h.svs, h.vecs, h.held, {id}, Some(cache[key]), Piece(kn, key, rule, start, end, vs));
    }
  }

  // One more piece, made or found in the cache.
  method AddPiece(h: Heap, id: Id, size: nat, cache: map<nat, Id>, kn: Knowledge, key: nat, rule: nat, start: int, end: int,
                  rhs: VecId, ghost items: seq<Value>, ghost watch: Watch) returns (cache': map<nat, Id>)
    requires h.Ready() && Shown(h.svs, h.vecs, watch) && rhs in watch && IsKey(key) && key != FIRST
    requires HalfMade(h, id, size, items) && |items| < size && Cached(h, id, cache, kn, rule, start, end, watch[rhs])
    requires Own(id) in h.vecs && OnePerKey(cache)
    modifies h
    ensures h.Ready() && h.held == old(h.held) && Shown(h.svs, h.vecs, watch)
    ensures HalfMade(h, id, size, items + [Piece(kn, key, rule, start, end, watch[rhs])])
    ensures Cached(h, id, cache', kn, rule, start, end, watch[rhs]) && OnePerKey(cache')
    ensures key in cache' && (forall k :: k in cache ==> k in cache' && cache'[k] == cache[k])
    ensures Own(id) in h.vecs && h.vecs[Own(id)].data == old(h.vecs)[Own(id)].data + [Some(cache'[key])]
    ensures HeldStill(old(h.svs), old(h.vecs), h.svs, h.vecs, h.held)
  {
    hide Heap.Valid, Sound, Represents, Shown, HeldStill;
    cache' := cache;
    ghost var vs := watch[rhs];
    if key !in cache {
      ghost var svs0, vecs0 := h.svs, h.vecs;
      var piece := MakePiece(h, kn, key, rule, start, end, rhs, watch);
      Ready(h);
      assert Unreferred(h.svs, {});
      AllStillRepresent(svs0, vecs0, h.svs, h.vecs, h.held, {}, Own(id), items);
      forall k | k in cache ensures Represents(h.svs, h.vecs, Some(cache[k]), Piece(kn, k, rule, start, end, vs)) {
        StillRepresents(svs0, vecs0, h.svs, h.vecs, h.held, {}, Some(cache[k]), Piece(kn, k, rule, start, end, vs));
      }
      cache' := cache[key := piece];
    }
    ghost var svs1, vecs1 := h.svs, h.vecs;
    assert HeldStill(old(h.svs), old(h.vecs), svs1, vecs1, h.held) by { if key in cache { HeldSelf(svs1, vecs1, h.held); } }
    PushPiece(h, id, cache'[key], size, items, Piece(kn, key, rule, start, end, vs), watch, cache', kn, rule, start, end, vs);
    HeldTwice(old(h.svs), old(h.vecs), svs1, vecs1, h.svs, h.vecs, h.held);
  }

  // The value of a rule; for its first child the half-made value goes again.
  method GetSv(h: Heap, kn: Knowledge, semantics: Coding, rule: nat, start: int, end: int, rhs: VecId, ghost watch: Watch)
    returns (ok: bool, sv: Option<Id>)
    requires KnowsRule(kn, rule) && Codes(semantics, kn.keys) && h.Ready() && Shown(h.svs, h.vecs, watch) && rhs in watch
    modifies h
    ensures ok == Semantics(kn, rule, start, end, watch[rhs]).Some?
    ensures h.Ready() && h.held == old(h.held) && Shown(h.svs, h.vecs, watch)
    ensures ok ==> Represents(h.svs, h.vecs, sv, Semantics(kn, rule, start, end, watch[rhs]).value)
    ensures ok && FIRST !in kn.keys[rule] ==>
              sv.Some? && Own(sv.value) in h.vecs && SharedByKey(h.vecs[Own(sv.value)].data, kn.keys[rule])
    ensures HeldStill(old(h.svs), old(h.vecs), h.svs, h.vecs, h.held)
  {
    hide Heap.Valid, Sound, Represents, Cached, HalfMade, Shown, Codes, FromCache, OnePerKey, SharedByKey, HeldStill;
    var keys := Decode(semantics, rule, kn.keys);
    var id := Begin(h, |keys|, watch);
    var cache: map<nat, Id> := map[];
    NoneCached(h, id, kn, rule, start, end, watch[rhs]);
    assert kn.keys[rule][..0] == [];
    ghost var items := [];
    for k := 0 to |keys|
      invariant h.Ready() && h.held == old(h.held) && Shown(h.svs, h.vecs, watch)
      invariant FIRST !in kn.keys[rule][..k] && |items| == k
      invariant forall i :: 0 <= i < k ==> items[i] == Piece(kn, kn.keys[rule][i], rule, start, end, watch[rhs])
      invariant HalfMade(h, id, |keys|, items) && Cached(h, id, cache, kn, rule, start, end, watch[rhs])
      invariant Own(id) in h.vecs && FromCache(h.vecs[Own(id)].data, keys[..k], cache) && OnePerKey(cache)
      invariant HeldStill(old(h.svs), old(h.vecs), h.svs, h.vecs, h.held)
    {
      ghost var svs1, vecs1, cache1 := h.svs, h.vecs, cache;
      assert kn.keys[rule][k] in kn.keys[rule];
      if keys[k] == FIRST {
        ok, sv := First(h, id, |keys|, rhs, items, watch);
        HeldTwice(old(h.svs), old(h.vecs), svs1, vecs1, h.svs, h.vecs, h.held);
        return;
      }
      cache := AddPiece(h, id, |keys|, cache, kn, keys[k], rule, start, end, rhs, items, watch);
      items := items + [Piece(kn, keys[k], rule, start, end, watch[rhs])];
      FromCacheNext(vecs1[Own(id)].data, keys, cache1, cache, k);
      HeldTwice(old(h.svs), old(h.vecs), svs1, vecs1, h.svs, h.vecs, h.held);
    }
    CacheShares(h.vecs[Own(id)].data, keys[..|keys|], cache);
    assert kn.keys[rule][..|keys|] == kn.keys[rule] && items == Pieces(kn, rule, start, end, watch[rhs]);
    Made(h, id, |keys|, items);
    return true, Some(id);
  }

  lemma NoneCached(h: Heap, id: Id, kn: Knowledge, rule: nat, start: int, end: int, vs: seq<Value>)
    ensures Cached(h, id, map[], kn, rule, start, end, vs) && OnePerKey(map[]) && FromCache([], [], map[])
  {
  }

  lemma Made(h: Heap, id: Id, size: nat, items: seq<Value>)
    requires HalfMade(h, id, size, items)
    ensures Represents(h.svs, h.vecs, Some(id), Vector(items))
  {
  }

  method Begin(h: Heap, size: nat, ghost watch: Watch) returns (id: Id)
    requires h.Ready() && Shown(h.svs, h.vecs, watch)
    modifies h
    ensures h.Ready() && h.held == old(h.held) && Shown(h.svs, h.vecs, watch) && HalfMade(h, id, size, [])
    ensures Own(id) in h.vecs && h.vecs[Own(id)].data == []
    ensures HeldStill(old(h.svs), old(h.vecs), h.svs, h.vecs, h.held)
  {
    hide Heap.Valid, Sound, Represents;
    ghost var svs0, vecs0 := h.svs, h.vecs;
    id := h.ConsVec(size, true);
    Ready(h);
    NewShown(svs0, vecs0, h.svs, h.vecs, h.held, watch);
  }

  method First(h: Heap, id: Id, size: nat, rhs: VecId, ghost items: seq<Value>, ghost watch: Watch)
    returns (ok: bool, sv: Option<Id>)
    requires h.Ready() && Shown(h.svs, h.vecs, watch) && rhs in watch && HalfMade(h, id, size, items)
    modifies h
    ensures h.Ready() && h.held == old(h.held) && Shown(h.svs, h.vecs, watch) && ok == (watch[rhs] != [])
    ensures ok ==> Represents(h.svs, h.vecs, sv, watch[rhs][0])
    ensures HeldStill(old(h.svs), old(h.vecs), h.svs, h.vecs, h.held)
  {
    hide Heap.Valid, Sound, Represents;
    ghost var svs0, vecs0 := h.svs, h.vecs;
    h.DestroyFloating(id);
    Ready(h);
    assert Undisturbed(svs0, vecs0, h.svs, h.vecs, {}) && Unreferred(h.svs, {});
    StillShown(svs0, vecs0, h.svs, h.vecs, h.held, {}, watch);
    HeldOn(svs0, vecs0, h.svs, h.vecs, h.held, {});
    IsShown(h.svs, h.vecs, watch, rhs);
    if |h.vecs[rhs].data| == 0 { return false, None; }
    return true, h.vecs[rhs].data[0];
  }

  // ----- Steps, and whole trees ------------------------------------------------------------------

  ghost predicate MasksAscend(kn: Knowledge) {
    forall r :: 0 <= r < |kn.masks| ==> Ascending(kn.masks[r])
  }

  // The stack, the scratch vector and the store of token values.
  datatype Vectors = Vectors(es: VecId, rhs: VecId, store: VecId) {
    ghost predicate Distinct() { es != rhs && es != store && rhs != store }
  }

  // What they stand for.
  ghost function Holding(vs: Vectors, es: seq<Value>, rhs: seq<Value>, store: seq<Value>): Watch {
    map[vs.es := es, vs.rhs := rhs, vs.store := store]
  }

  lemma HoldingNext(vs: Vectors, es: seq<Value>, rhs: seq<Value>, store: seq<Value>, next: seq<Value>)
    requires vs.Distinct()
    ensures Holding(vs, es, rhs, store)[vs.rhs := next] == Holding(vs, es, next, store)
    ensures Holding(vs, es, rhs, store)[vs.es := next] == Holding(vs, next, rhs, store)
  {
  }

  // The arguments, less the hidden ones, in the scratch vector.
  method TakeChildren(h: Heap, kn: Knowledge, masks: Coding, vs: Vectors, rule: nat, arg0: nat, argN: nat,
                      ghost es: seq<Value>, ghost store: seq<Value>)
    requires KnowsRule(kn, rule) && Codes(masks, kn.masks) && MasksAscend(kn) && arg0 <= argN < |es|
    requires h.Ready() && vs.Distinct() && Shown(h.svs, h.vecs, Holding(vs, es, [], store))
    modifies h
    ensures h.Ready() && h.held == old(h.held)
    ensures Shown(h.svs, h.vecs, Holding(vs, es, Kept(es[arg0..argN + 1], kn.masks[rule]), store))
    ensures HeldStill(old(h.svs), old(h.vecs), h.svs, h.vecs, h.held)
  {
    hide Heap.Valid, Shown, Codes, Kept, IsKey, HeldStill;
    ghost var args := es[arg0..argN + 1];
    CopySlots(h, vs.rhs, vs.es, arg0, argN, Holding(vs, es, [], store));
    assert [] + args == args;
    HoldingNext(vs, es, [], store, args);
    var mask := Decode(masks, rule, kn.masks);
    if |mask| > 0 {
      ghost var svs1, vecs1 := h.svs, h.vecs;
      FilterSlots(h, vs.rhs, mask, Holding(vs, es, args, store));
      HoldingNext(vs, es, args, store, Kept(args, mask));
      HeldTwice(old(h.svs), old(h.vecs), svs1, vecs1, h.svs, h.vecs, h.held);
    } else {
      NothingHidden(args);
    }
  }

  // A rule's step.
  method RunRule(h: Heap, kn: Knowledge, masks: Coding, semantics: Coding, vs: Vectors, rule: nat, start: int, end: int,
                 arg0: nat, argN: nat, result: nat, ghost es: seq<Value>, ghost store: seq<Value>) returns (ok: bool)
    requires KnowsRule(kn, rule) && Codes(masks, kn.masks) && Codes(semantics, kn.keys) && MasksAscend(kn)
    requires h.Ready() && vs.Distinct() && Shown(h.svs, h.vecs, Holding(vs, es, [], store))
    modifies h
    ensures h.Ready() && h.held == old(h.held)
    ensures var r := Execute(kn, es, RuleStep(rule, start, end, arg0, argN, result));
            ok == r.Some? && (ok ==> Shown(h.svs, h.vecs, Holding(vs, r.value, [], store)))
    ensures HeldStill(old(h.svs), old(h.vecs), h.svs, h.vecs, h.held)
  {
    hide Heap.Valid, Represents, Shown, Codes, Semantics, Kept, IsKey, HeldStill, SharedByKey;
    HeldSelf(h.svs, h.vecs, h.held);
    IsShown(h.svs, h.vecs, Holding(vs, es, [], store), vs.es);
    if !(arg0 <= argN < |h.vecs[vs.es].data| && result < |h.vecs[vs.es].data|) { return false; }
    TakeChildren(h, kn, masks, vs, rule, arg0, argN, es, store);
    ghost var svs1, vecs1 := h.svs, h.vecs;
    ghost var kept := Kept(es[arg0..argN + 1], kn.masks[rule]);
    var sv;
    ok, sv := GetSv(h, kn, semantics, rule, start, end, vs.rhs, Holding(vs, es, kept, store));
    HeldTwice(old(h.svs), old(h.vecs), svs1, vecs1, h.svs, h.vecs, h.held);
    if !ok { return; }
    ghost var svs2, vecs2 := h.svs, h.vecs;
    ghost var value := Semantics(kn, rule, start, end, kept).value;
    StoreTruncating(h, vs.es, result, sv, value, Holding(vs, es, kept, store));
    HeldTwice(old(h.svs), old(h.vecs), svs2, vecs2, h.svs, h.vecs, h.held);
    ghost var svs3, vecs3 := h.svs, h.vecs;
    ghost var es' := es[..result] + [value];
    HoldingNext(vs, es, kept, store, es');
    ClearSlots(h, vs.rhs, Holding(vs, es', kept, store));
    HoldingNext(vs, es', kept, store, []);
    HeldTwice(old(h.svs), old(h.vecs), svs3, vecs3, h.svs, h.vecs, h.held);
  }

  // The store holds the token values.
  ghost predicate StoreFits(kn: Knowledge, store: seq<Value>) {
    forall k :: 0 <= k < |store| ==> kn.store(k) == store[k]
  }

  // The values of the tokens are in the store.
  ghost predicate TokensStored(steps: seq<Step>, size: nat) {
    forall k :: 0 <= k < |steps| && steps[k].TokenStep? ==> steps[k].value < size
  }

  method RunStep(h: Heap, kn: Knowledge, masks: Coding, semantics: Coding, vs: Vectors, s: Step,
                 ghost es: seq<Value>, ghost store: seq<Value>) returns (ok: bool)
    requires Codes(masks, kn.masks) && Codes(semantics, kn.keys) && MasksAscend(kn) && StoreFits(kn, store)
    requires (s.RuleStep? ==> KnowsRule(kn, s.rule)) && (s.TokenStep? ==> s.value < |store|)
    requires h.Ready() && vs.Distinct() && Shown(h.svs, h.vecs, Holding(vs, es, [], store))
    modifies h
    ensures h.Ready() && h.held == old(h.held)
    ensures var r := Execute(kn, es, s);
            ok == r.Some? && (ok ==> Shown(h.svs, h.vecs, Holding(vs, r.value, [], store)))
    ensures HeldStill(old(h.svs), old(h.vecs), h.svs, h.vecs, h.held)
  {
    hide Heap.Valid, Shown, Codes, Semantics, KnowsRule, MasksAscend, HeldStill;
    HeldSelf(h.svs, h.vecs, h.held);
    ghost var w := Holding(vs, es, [], store);
    ok := true;
    match s {
      case InternalStep =>
      case TokenStep(v, at) =>
        IsShown(h.svs, h.vecs, w, vs.store);
        StoreFilling(h, vs.es, at, h.vecs[vs.store].data[v], store[v], w);
        HoldingNext(vs, es, [], store, Fill(es, at, store[v]));
      case NullStep(at) =>
        StoreFilling(h, vs.es, at, None, Null, w);
        HoldingNext(vs, es, [], store, Fill(es, at, Null));
      case RuleStep(rule, start, end, arg0, argN, at) =>
        ok := RunRule(h, kn, masks, semantics, vs, rule, start, end, arg0, argN, at, es, store);
    }
  }

  // All steps: just what they make of the plain values.
  method Run(h: Heap, kn: Knowledge, masks: Coding, semantics: Coding, vs: Vectors, steps: seq<Step>,
             ghost es: seq<Value>, ghost store: seq<Value>) returns (ok: bool)
    requires Codes(masks, kn.masks) && Codes(semantics, kn.keys) && MasksAscend(kn) && StoreFits(kn, store)
    requires StepsKnown(kn, steps) && TokensStored(steps, |store|)
    requires h.Ready() && vs.Distinct() && Shown(h.svs, h.vecs, Holding(vs, es, [], store))
    modifies h
    ensures h.Ready() && h.held == old(h.held)
    ensures var r := ExecuteAll(kn, es, steps);
            ok == r.Some? && (ok ==> Shown(h.svs, h.vecs, Holding(vs, r.value, [], store)))
    ensures HeldStill(old(h.svs), old(h.vecs), h.svs, h.vecs, h.held)
  {
    hide Heap.Valid, Execute, KnowsRule, Codes, Shown, Holding, MasksAscend, StoreFits, HeldStill;
    HeldSelf(h.svs, h.vecs, h.held);
    ghost var now := es;
    for k := 0 to |steps|
      invariant h.Ready() && h.held == old(h.held)
      invariant ExecuteAll(kn, es, steps[..k]) == Some(now) && Shown(h.svs, h.vecs, Holding(vs, now, [], store))
      invariant HeldStill(old(h.svs), old(h.vecs), h.svs, h.vecs, h.held)
    {
      ghost var svs1, vecs1 := h.svs, h.vecs;
      ExecutePlus(kn, es, steps[..k], [steps[k]]);
      SingleStep(kn, now, steps[k]);
      assert steps[..k + 1] == steps[..k] + [steps[k]];
      ExecutePlus(kn, es, steps[..k + 1], steps[k + 1..]);
      assert steps == steps[..k + 1] + steps[k + 1..];
      ok := RunStep(h, kn, masks, semantics, vs, steps[k], now, store);
      HeldTwice(old(h.svs), old(h.vecs), svs1, vecs1, h.svs, h.vecs, h.held);
      if !ok { return; }
      now := Execute(kn, now, steps[k]).value;
    }
    assert steps[..|steps|] == steps;
    return true;
  }

  // The tokens of the tree have values in the store.
  predicate LeavesStored(t: Tree, size: nat)
    decreases t
  {
    match t
    case Leaf(v) => v < size
    case Nulled => true
    case Node(_, _, _, children) => forall i :: 0 <= i < |children| ==> LeavesStored(children[i], size)
  }

  lemma {:induction false} TreeTokensStored(t: Tree, b: nat, size: nat)
    requires LeavesStored(t, size)
    ensures TokensStored(Steps(t, b), size)
    decreases t
  {
    if t.Node? { ForestTokensStored(t.children, b, size); }
  }

  lemma {:induction false} ForestTokensStored(ts: seq<Tree>, b: nat, size: nat)
    requires forall i :: 0 <= i < |ts| ==> LeavesStored(ts[i], size)
    ensures TokensStored(StepsOf(ts, b), size)
    decreases ts
  {
    hide LeavesStored, Steps;
    if ts != [] {
      ForestTokensStored(ts[..|ts| - 1], b, size);
      TreeTokensStored(ts[|ts| - 1], b + |ts| - 1, size);
    }
  }

  /** The steps of a tree, on counted values, leave just one value on the stack, standing
      for the tree's meaning, with all counts exact; they fail just where it has none. */
  method Evaluate(h: Heap, kn: Knowledge, masks: Coding, semantics: Coding, vs: Vectors, t: Tree, ghost store: seq<Value>)
    returns (ok: bool, sv: Option<Id>)
    requires Codes(masks, kn.masks) && Codes(semantics, kn.keys) && MasksAscend(kn) && StoreFits(kn, store)
    requires KnowsRules(kn, t) && LeavesStored(t, |store|)
    requires h.Ready() && vs.Distinct() && Shown(h.svs, h.vecs, Holding(vs, [], [], store))
    modifies h
    ensures h.Ready() && h.held == old(h.held) && ok == Meaning(kn, t).Some?
    ensures ok ==>
              && Shown(h.svs, h.vecs, Holding(vs, [Meaning(kn, t).value], [], store))
              && vs.es in h.vecs && h.vecs[vs.es].data == [sv] && Represents(h.svs, h.vecs, sv, Meaning(kn, t).value)
    ensures HeldStill(old(h.svs), old(h.vecs), h.svs, h.vecs, h.held)
  {
    hide Heap.Valid, HeldStill, Represents, Shown, Codes, MasksAscend, StoreFits, KnowsRules, Meaning, ExecuteAll, Steps;
    TreeTokensStored(t, 0, |store|);
    TreeStepsKnown(kn, t, 0);
    TreeEvaluates(kn, t, 0, []);
    ok := Run(h, kn, masks, semantics, vs, Steps(t, 0), [], store);
    if !ok { return false, None; }
    ghost var value := Meaning(kn, t).value;
    assert Below([], 0) + [value] == [value];
    IsShown(h.svs, h.vecs, Holding(vs, [value], [], store), vs.es);
    sv := h.vecs[vs.es].data[0];
  }

  // New vectors for the evaluation, and an untouched store.
  method NewVectors(h: Heap, st: VecId, ghost store: seq<Value>) returns (vs: Vectors)
    requires h.Ready() && Shown(h.svs, h.vecs, map[st := store])
    modifies h
    ensures h.Ready() && h.held == old(h.held) && vs.Distinct() && vs.store == st
    ensures Shown(h.svs, h.vecs, Holding(vs, [], [], store))
    ensures HeldStill(old(h.svs), old(h.vecs), h.svs, h.vecs, h.held)
  {
    hide Heap.Valid, Sound, Represents;
    ghost var svs0, vecs0, w := h.svs, h.vecs, map[st := store];
    IsShown(svs0, vecs0, w, st);
    var es := h.SvaCons(10, false);
    var rhs := h.SvaCons(10, false);
    vs := Vectors(es, rhs, st);
    Ready(h);
    NewShown(svs0, vecs0, h.svs, h.vecs, h.held, w);
  }

  // The vectors of the evaluation are freed.
  method FreeVectors(h: Heap, vs: Vectors, ghost store: seq<Value>)
    requires h.Ready() && vs.Distinct() && Shown(h.svs, h.vecs, Holding(vs, [], [], store))
    modifies h
    ensures h.Ready() && h.held == old(h.held) && vs.es !in h.vecs && vs.rhs !in h.vecs
    ensures Shown(h.svs, h.vecs, map[vs.store := store])
    ensures HeldStill(old(h.svs), old(h.vecs), h.svs, h.vecs, h.held)
  {
    hide Heap.Valid, Sound, Represents, HeldStill;
    IsShown(h.svs, h.vecs, Holding(vs, [], [], store), vs.es);
    IsShown(h.svs, h.vecs, Holding(vs, [], [], store), vs.rhs);
    ghost var svs0, vecs0, w := h.svs, h.vecs, map[vs.store := store];
    FreeOne(h, vs.rhs, w);
    ghost var svs1, vecs1 := h.svs, h.vecs;
    FreeOne(h, vs.es, w);
    HeldTwice(svs0, vecs0, svs1, vecs1, h.svs, h.vecs, h.held);
  }

  method FreeOne(h: Heap, v: VecId, ghost watch: Watch)
    requires h.Ready() && v in h.vecs && v.Alone? && v !in watch && Shown(h.svs, h.vecs, watch)
    modifies h
    ensures h.Ready() && h.held == old(h.held) && Shown(h.svs, h.vecs, watch) && v !in h.vecs
    ensures h.vecs.Keys <= old(h.vecs).Keys
    ensures forall n :: Alone(n) in old(h.vecs) && Alone(n) != v ==> Alone(n) in h.vecs
    ensures HeldStill(old(h.svs), old(h.vecs), h.svs, h.vecs, h.held)
  {
    hide Heap.Valid, Sound, Represents;
    ghost var svs0, vecs0 := h.svs, h.vecs;
    h.FreeVec(v);
    Ready(h);
    assert Unreferred(h.svs, {});
    StillShown(svs0, vecs0, h.svs, h.vecs, h.held, {}, watch);
    HeldOn(svs0, vecs0, h.svs, h.vecs, h.held, {});
  }

  // The caller takes a reference to the value it is given.
  method Give(h: Heap, sv: Option<Id>, ghost value: Value, ghost watch: Watch)
    requires h.Ready() && Shown(h.svs, h.vecs, watch) && Represents(h.svs, h.vecs, sv, value)
    modifies h
    ensures h.Ready() && h.held == old(h.held) + multiset{sv} && Shown(h.svs, h.vecs, watch)
    ensures HeldStill(old(h.svs), old(h.vecs), h.svs, h.vecs, h.held) && Represents(h.svs, h.vecs, sv, value)
  {
    hide Heap.Valid, Sound;
    ghost var svs0, vecs0 := h.svs, h.vecs;
    h.RefSlot(sv);
    Ready(h);
    hide Represents;
    NewShown(svs0, vecs0, h.svs, h.vecs, h.held, watch);
    assert (sv.Some? ==> sv in h.held) && Represents(svs0, vecs0, sv, value);
  }

  // What was given before and is held still stands for its value.
  lemma GivenStill(svs0: Svs, vecs0: Vecs, svs: Svs, vecs: Vecs, held0: Refs, held: Refs, given: Slots, values: seq<Value>)
    requires HeldStill(svs0, vecs0, svs, vecs, held) && AllRepresent(svs0, vecs0, given, values)
    requires held == held0 + multiset(given)
    ensures AllRepresent(svs, vecs, given, values)
  {
    hide Represents;
    forall i | 0 <= i < |values| ensures Represents(svs, vecs, given[i], values[i]) {
      assert given[i] in multiset(given);
    }
  }

  lemma HeldLess(svs0: Svs, vecs0: Vecs, svs: Svs, vecs: Vecs, held: Refs, more: Refs)
    requires HeldStill(svs0, vecs0, svs, vecs, held + more)
    ensures HeldStill(svs0, vecs0, svs, vecs, held)
  {
    hide Represents;
  }

  lemma GivenNext(svs: Svs, vecs: Vecs, given: Slots, values: seq<Value>, sv: Option<Id>, value: Value)
    requires AllRepresent(svs, vecs, given, values) && Represents(svs, vecs, sv, value)
    ensures AllRepresent(svs, vecs, given + [sv], values + [value])
  {
    hide Represents;
  }

  lemma NoneGiven(svs: Svs, vecs: Vecs)
    ensures AllRepresent(svs, vecs, [], [])
  {
  }

  // One tree: its value is given, and goes from the stack.
  method CompleteTree(h: Heap, kn: Knowledge, masks: Coding, semantics: Coding, vs: Vectors, t: Tree, ghost store: seq<Value>)
    returns (ok: bool, sv: Option<Id>)
    requires Codes(masks, kn.masks) && Codes(semantics, kn.keys) && MasksAscend(kn) && StoreFits(kn, store)
    requires KnowsRules(kn, t) && LeavesStored(t, |store|)
    requires h.Ready() && vs.Distinct() && Shown(h.svs, h.vecs, Holding(vs, [], [], store))
    modifies h
    ensures h.Ready() && ok == Meaning(kn, t).Some? && h.held == old(h.held) + if ok then multiset{sv} else multiset{}
    ensures ok ==> Shown(h.svs, h.vecs, Holding(vs, [], [], store)) && Represents(h.svs, h.vecs, sv, Meaning(kn, t).value)
    ensures HeldStill(old(h.svs), old(h.vecs), h.svs, h.vecs, old(h.held))
  {
    hide Heap.Valid, Represents, Shown, Codes, MasksAscend, StoreFits, KnowsRules, LeavesStored, Meaning, Holding, HeldStill;
    ghost var held0 := h.held;
    ok, sv := Evaluate(h, kn, masks, semantics, vs, t, store);
    if !ok { return; }
    ghost var value, svs1, vecs1 := Meaning(kn, t).value, h.svs, h.vecs;
    Give(h, sv, value, Holding(vs, [value], [], store));
    HeldLess(svs1, vecs1, h.svs, h.vecs, held0, multiset{sv});
    HeldTwice(old(h.svs), old(h.vecs), svs1, vecs1, h.svs, h.vecs, held0);
    ghost var svs2, vecs2 := h.svs, h.vecs;
    Empty(h, vs, value, store);
    GivenStands(svs2, vecs2, h.svs, h.vecs, h.held, sv, value);
    HeldLess(svs2, vecs2, h.svs, h.vecs, held0, multiset{sv});
    HeldTwice(old(h.svs), old(h.vecs), svs2, vecs2, h.svs, h.vecs, held0);
  }

  lemma GivenStands(svs0: Svs, vecs0: Vecs, svs: Svs, vecs: Vecs, held: Refs, sv: Option<Id>, value: Value)
    requires HeldStill(svs0, vecs0, svs, vecs, held) && Represents(svs0, vecs0, sv, value) && sv in held
    ensures Represents(svs, vecs, sv, value)
  {
    hide Represents;
  }

  /** All trees, in order, up to the first without a meaning: each gives the caller a value
      standing for its meaning, and a reference to it. All values given, and whatever else
      was referred to from outside, still stand for the same when all is done, the counts
      are exact, and the vectors used are freed. */
  method Complete(h: Heap, kn: Knowledge, masks: Coding, semantics: Coding, st: VecId, trees: seq<Tree>, ghost store: seq<Value>)
    returns (ok: bool, given: Slots, ghost values: seq<Value>)
    requires Codes(masks, kn.masks) && Codes(semantics, kn.keys) && MasksAscend(kn) && StoreFits(kn, store)
    requires forall i :: 0 <= i < |trees| ==> KnowsRules(kn, trees[i]) && LeavesStored(trees[i], |store|)
    requires h.Ready() && Shown(h.svs, h.vecs, map[st := store])
    modifies h
    ensures h.Ready() && h.held == old(h.held) + multiset(given)
    ensures |given| <= |trees| && Meanings(kn, trees[..|given|]) == Some(values)
    ensures ok <==> Meanings(kn, trees).Some?
    ensures ok ==> |given| == |trees| && Shown(h.svs, h.vecs, map[st := store])
    ensures !ok ==> |given| < |trees| && Meaning(kn, trees[|given|]).None?
    ensures AllRepresent(h.svs, h.vecs, given, values)
    ensures HeldStill(old(h.svs), old(h.vecs), h.svs, h.vecs, old(h.held))
  {
    hide Heap.Valid, Represents, Shown, Codes, MasksAscend, StoreFits, KnowsRules, LeavesStored, Meaning, Holding, HeldStill, AllRepresent;
    var vs := NewVectors(h, st, store);
    given, values := [], [];
    NoneGiven(h.svs, h.vecs);
    for i := 0 to |trees|
      invariant h.Ready() && h.held == old(h.held) + multiset(given) && Shown(h.svs, h.vecs, Holding(vs, [], [], store))
      invariant |given| == i && Meanings(kn, trees[..i]) == Some(values)
      invariant AllRepresent(h.svs, h.vecs, given, values)
      invariant HeldStill(old(h.svs), old(h.vecs), h.svs, h.vecs, old(h.held))
    {
      assert trees[..i + 1][..i] == trees[..i];
      ghost var svs0, vecs0, held0 := h.svs, h.vecs, old(h.held);
      var sv;
      ok, sv := CompleteTree(h, kn, masks, semantics, vs, trees[i], store);
      GivenStill(svs0, vecs0, h.svs, h.vecs, held0, held0 + multiset(given), given, values);
      HeldLess(svs0, vecs0, h.svs, h.vecs, held0, multiset(given));
      HeldTwice(old(h.svs), old(h.vecs), svs0, vecs0, h.svs, h.vecs, held0);
      if !ok {
        NoMeaning(kn, trees, i + 1);
        return;
      }
      ghost var value := Meaning(kn, trees[i]).value;
      GivenNext(h.svs, h.vecs, given, values, sv, value);
      given := given + [sv];
      values := values + [value];
    }
    assert trees[..|trees|] == trees;
    ghost var svs0, vecs0 := h.svs, h.vecs;
    FreeVectors(h, vs, store);
    GivenStill(svs0, vecs0, h.svs, h.vecs, old(h.held), h.held, given, values);
    HeldLess(svs0, vecs0, h.svs, h.vecs, old(h.held), multiset(given));
    HeldTwice(old(h.svs), old(h.vecs), svs0, vecs0, h.svs, h.vecs, old(h.held));
    ok := true;
  }

  method Empty(h: Heap, vs: Vectors, ghost value: Value, ghost store: seq<Value>)
    requires h.Ready() && vs.Distinct() && Shown(h.svs, h.vecs, Holding(vs, [value], [], store))
    modifies h
    ensures h.Ready() && h.held == old(h.held) && Shown(h.svs, h.vecs, Holding(vs, [], [], store))
    ensures HeldStill(old(h.svs), old(h.vecs), h.svs, h.vecs, h.held)
  {
    hide Heap.Valid, Shown, HeldStill;
    ClearSlots(h, vs.es, Holding(vs, [value], [], store));
    HoldingNext(vs, [value], [], store, []);
  }
}
