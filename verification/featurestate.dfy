/** The feature-state binder (`MapState` in lib/src/MapSource/MapState.tsx and
    src/MapSource/MapState.tsx): it flags features of its source with
    `{[attributeKey]: value}` on mount, unflags them on cleanup, and on every
    later change of the attribute list or source layer issues the difference. */
module FeatureState {
  import opened Wrappers
  import opened Engine

  /** One element of the `attributes` prop. `ref` is the element's object
      identity, which is what the set difference of the binder compares. */
  datatype Attribute = Attribute(ref: nat, id: int, value: JsObject.JsValue)

  /** The feature-state address `{id, source, sourceLayer}` of an attribute. */
  function TargetFor(sourceKey: string, sourceLayer: Option<string>, a: Attribute): Target {
    Target(NumId(a.id), sourceKey, sourceLayer)
  }

  /** The feature-state entry an attribute writes. */
  function SlotFor(sourceKey: string, sourceLayer: Option<string>, key: string, a: Attribute): Slot {
    Slot(TargetFor(sourceKey, sourceLayer, a), key)
  }

  /** `attributes.forEach(a => map.setFeatureState(target(a), {[key]: a.value}))` */
  function Sets(sourceKey: string, sourceLayer: Option<string>, key: string, atts: seq<Attribute>): (r: seq<Effect>)
    ensures |r| == |atts|
    ensures forall i :: 0 <= i < |atts| ==> r[i] == SetFeatureState(TargetFor(sourceKey, sourceLayer, atts[i]), key, atts[i].value)
  {
    seq(|atts|, i requires 0 <= i < |atts| => SetFeatureState(TargetFor(sourceKey, sourceLayer, atts[i]), key, atts[i].value))
  }

  /** `attributes.forEach(a => map.removeFeatureState(target(a), key))` */
  function Removes(sourceKey: string, sourceLayer: Option<string>, key: string, atts: seq<Attribute>): (r: seq<Effect>)
    ensures |r| == |atts|
    ensures forall i :: 0 <= i < |atts| ==> r[i] == RemoveFeatureState(TargetFor(sourceKey, sourceLayer, atts[i]), key)
  {
    seq(|atts|, i requires 0 <= i < |atts| => RemoveFeatureState(TargetFor(sourceKey, sourceLayer, atts[i]), key))
  }

  /** The entries a list of attributes addresses. */
  function SlotsOf(sourceKey: string, sourceLayer: Option<string>, key: string, atts: seq<Attribute>): set<Slot> {
    set a | a in atts :: SlotFor(sourceKey, sourceLayer, key, a)
  }

  /** The entries a list of attributes writes, a later attribute overriding an
      earlier one with the same feature id. */
  function Assigned(sourceKey: string, sourceLayer: Option<string>, key: string, atts: seq<Attribute>): map<Slot, JsObject.JsValue>
    decreases |atts|
  {
    if |atts| == 0 then map[]
    else map[SlotFor(sourceKey, sourceLayer, key, atts[0]) := atts[0].value] + Assigned(sourceKey, sourceLayer, key, atts[1..])
  }

  /** No two attributes address the same feature. */
  predicate DistinctIds(atts: seq<Attribute>) {
    forall i, j :: 0 <= i < j < |atts| ==> atts[i].id != atts[j].id
  }

  /** Removing the entries of a list of attributes drops exactly those entries. */
  lemma {:induction false} ApplyRemoves(st: FeatureStates, sourceKey: string, sourceLayer: Option<string>, key: string, atts: seq<Attribute>)
    ensures Apply(st, Removes(sourceKey, sourceLayer, key, atts)) == st - SlotsOf(sourceKey, sourceLayer, key, atts)
    decreases |atts|
  {
    var tr := Removes(sourceKey, sourceLayer, key, atts);
    if |atts| == 0 {
      assert SlotsOf(sourceKey, sourceLayer, key, atts) == {};
    } else {
      var s0 := SlotFor(sourceKey, sourceLayer, key, atts[0]);
      assert tr[1..] == Removes(sourceKey, sourceLayer, key, atts[1..]);
      ApplyRemoves(st - {s0}, sourceKey, sourceLayer, key, atts[1..]);
      SlotsOfCons(sourceKey, sourceLayer, key, atts);
      assert st - {s0} - SlotsOf(sourceKey, sourceLayer, key, atts[1..]) == st - SlotsOf(sourceKey, sourceLayer, key, atts);
    }
  }

  /** Setting the entries of a list of attributes writes exactly `Assigned`
      over the previous state. */
  lemma {:induction false} ApplySets(st: FeatureStates, sourceKey: string, sourceLayer: Option<string>, key: string, atts: seq<Attribute>)
    ensures Apply(st, Sets(sourceKey, sourceLayer, key, atts)) == st + Assigned(sourceKey, sourceLayer, key, atts)
    decreases |atts|
  {
    var tr := Sets(sourceKey, sourceLayer, key, atts);
    if |atts| > 0 {
      var s0 := SlotFor(sourceKey, sourceLayer, key, atts[0]);
      assert ApplyEffect(st, tr[0]) == st[s0 := atts[0].value];
      assert tr[1..] == Sets(sourceKey, sourceLayer, key, atts[1..]);
      ApplySets(st[s0 := atts[0].value], sourceKey, sourceLayer, key, atts[1..]);
      UpdateThenMerge(st, s0, atts[0].value, Assigned(sourceKey, sourceLayer, key, atts[1..]));
    }
  }

  /** Writing one entry and then a batch is writing the batch over that entry. */
  lemma UpdateThenMerge<K, V>(m: map<K, V>, k: K, v: V, rest: map<K, V>)
    ensures m[k := v] + rest == m + (map[k := v] + rest)
  {
  }

  /** The entries of a non-empty list: the head's and the tail's. */
  lemma SlotsOfCons(sourceKey: string, sourceLayer: Option<string>, key: string, atts: seq<Attribute>)
    requires |atts| > 0
    ensures SlotsOf(sourceKey, sourceLayer, key, atts)
         == {SlotFor(sourceKey, sourceLayer, key, atts[0])} + SlotsOf(sourceKey, sourceLayer, key, atts[1..])
  {
    assert forall a :: a in atts <==> a == atts[0] || a in atts[1..];
  }

  /** With distinct feature ids, the head's entry is not among the tail's. */
  lemma HeadSlotNotInTail(sourceKey: string, sourceLayer: Option<string>, key: string, atts: seq<Attribute>)
    requires |atts| > 0 && DistinctIds(atts)
    ensures SlotFor(sourceKey, sourceLayer, key, atts[0]) !in SlotsOf(sourceKey, sourceLayer, key, atts[1..])
  {
    var tail := atts[1..];
    forall a | a in tail ensures a.id != atts[0].id {
      var j :| 0 <= j < |tail| && tail[j] == a;
      assert atts[j + 1] == a;
    }
  }

  /** With distinct feature ids, the entries written are exactly the
      attributes' entries, each holding its own attribute's value. */
  lemma {:induction false} AssignedValues(sourceKey: string, sourceLayer: Option<string>, key: string, atts: seq<Attribute>)
    requires DistinctIds(atts)
    ensures Assigned(sourceKey, sourceLayer, key, atts).Keys == SlotsOf(sourceKey, sourceLayer, key, atts)
    ensures forall a :: a in atts ==> Assigned(sourceKey, sourceLayer, key, atts)[SlotFor(sourceKey, sourceLayer, key, a)] == a.value
    decreases |atts|
  {
    if |atts| == 0 {
      assert SlotsOf(sourceKey, sourceLayer, key, atts) == {};
    } else {
      var tail := atts[1..];
      var s0 := SlotFor(sourceKey, sourceLayer, key, atts[0]);
      var rest := Assigned(sourceKey, sourceLayer, key, tail);
      assert DistinctIds(tail);
      AssignedValues(sourceKey, sourceLayer, key, tail);
      SlotsOfCons(sourceKey, sourceLayer, key, atts);
      HeadSlotNotInTail(sourceKey, sourceLayer, key, atts);
      assert s0 !in rest;
      forall a | a in atts
        ensures Assigned(sourceKey, sourceLayer, key, atts)[SlotFor(sourceKey, sourceLayer, key, a)] == a.value
      {
        if a != atts[0] {
          assert a in tail;
        }
      }
    }
  }

  /** The mount effect: with an engine and a source key, every initial
      attribute is flagged under the current source layer. */
  function MountState(hasMap: bool, sourceKey: string, sourceLayer: Option<string>, key: string, initial: seq<Attribute>): (r: seq<Effect>)
    ensures !hasMap || sourceKey == "" ==> r == []
    ensures hasMap && sourceKey != "" ==>
      && |r| == |initial|
      && (forall i :: 0 <= i < |r| ==>
            && r[i].SetFeatureState? && r[i].key == key
            && r[i].target == Target(NumId(initial[i].id), sourceKey, sourceLayer) && r[i].value == initial[i].value)
  {
    if !hasMap || sourceKey == "" then [] else Sets(sourceKey, sourceLayer, key, initial)
  }

  /** The mount effect's cleanup: when the mount did something, and unless the
      engine is gone or the source was unregistered meanwhile, every initial
      attribute is unflagged again. */
  function CleanupState(hasMap: bool, sourceKey: string, sourceLayer: Option<string>, key: string, initial: seq<Attribute>,
                        mapDestroyed: bool, sourceDefined: bool): (r: seq<Effect>)
    ensures !hasMap || sourceKey == "" || mapDestroyed || !sourceDefined ==> r == []
    ensures hasMap && sourceKey != "" && !mapDestroyed && sourceDefined ==>
      && |r| == |initial|
      && (forall i :: 0 <= i < |r| ==> r[i] == RemoveFeatureState(Target(NumId(initial[i].id), sourceKey, sourceLayer), key))
  {
    if !hasMap || sourceKey == "" then []
    else if mapDestroyed || !sourceDefined then []
    else Removes(sourceKey, sourceLayer, key, initial)
  }

  /** A mount followed by its cleanup leaves the engine's feature state as it
      found it, except that the entries the initial attributes address are
      gone; when the cleanup is skipped, the flags stay as the mount set them. */
  lemma MountThenCleanup(st: FeatureStates, sourceKey: string, sourceLayer: Option<string>, key: string, initial: seq<Attribute>,
                         mapDestroyed: bool, sourceDefined: bool)
    requires sourceKey != ""
    ensures !mapDestroyed && sourceDefined ==>
      Apply(st, MountState(true, sourceKey, sourceLayer, key, initial)
                + CleanupState(true, sourceKey, sourceLayer, key, initial, mapDestroyed, sourceDefined))
      == st - SlotsOf(sourceKey, sourceLayer, key, initial)
    ensures mapDestroyed || !sourceDefined ==>
      Apply(st, MountState(true, sourceKey, sourceLayer, key, initial)
                + CleanupState(true, sourceKey, sourceLayer, key, initial, mapDestroyed, sourceDefined))
      == st + Assigned(sourceKey, sourceLayer, key, initial)
  {
    var mount := MountState(true, sourceKey, sourceLayer, key, initial);
    var cleanup := CleanupState(true, sourceKey, sourceLayer, key, initial, mapDestroyed, sourceDefined);
    ApplyAppend(st, mount, cleanup);
    ApplySets(st, sourceKey, sourceLayer, key, initial);
    var mounted := st + Assigned(sourceKey, sourceLayer, key, initial);
    if !mapDestroyed && sourceDefined {
      ApplyRemoves(mounted, sourceKey, sourceLayer, key, initial);
      AssignedWithin(sourceKey, sourceLayer, key, initial);
      assert mounted - SlotsOf(sourceKey, sourceLayer, key, initial) == st - SlotsOf(sourceKey, sourceLayer, key, initial);
    } else {
      assert cleanup == [];
    }
  }

  /** Whatever the ids, the entries written are among the attributes' entries. */
  lemma {:induction false} AssignedWithin(sourceKey: string, sourceLayer: Option<string>, key: string, atts: seq<Attribute>)
    ensures Assigned(sourceKey, sourceLayer, key, atts).Keys <= SlotsOf(sourceKey, sourceLayer, key, atts)
    decreases |atts|
  {
    if |atts| > 0 {
      AssignedWithin(sourceKey, sourceLayer, key, atts[1..]);
      SlotsOfCons(sourceKey, sourceLayer, key, atts);
    }
  }

  /** `difference(new Set(a), new Set(b))`: the distinct elements of `a`, in
      first-occurrence order, that are not elements of `b`. */
  function Difference(a: seq<Attribute>, b: seq<Attribute>): (r: seq<Attribute>)
    ensures forall x :: x in r <==> x in a && x !in b
    ensures forall i, j :: 0 <= i < j < |r| ==> r[i] != r[j]
    decreases |a|
  {
    if |a| == 0 then []
    else if a[0] in b then
      assert forall x :: x in a <==> x == a[0] || x in a[1..];
      Difference(a[1..], b)
    else
      var t := Difference(a[1..], b + [a[0]]);
      assert forall x :: x in a <==> x == a[0] || x in a[1..];
      assert forall x :: x in b + [a[0]] <==> x in b || x == a[0];
      [a[0]] + t
  }

  /** The entries unflagged when the source layer is unchanged. */
  function ToBeDeleted(prev: seq<Attribute>, curr: seq<Attribute>): seq<Attribute> {
    Difference(prev, curr)
  }

  /** The entries flagged again when the source layer is unchanged. */
  function ToBeAddedModified(prev: seq<Attribute>, curr: seq<Attribute>): seq<Attribute> {
    Difference(curr, ToBeDeleted(prev, curr))
  }

  /** The two halves of the diff never share an attribute, the removals are
      the attributes that were dropped, and the re-flagged attributes are
      exactly the current ones. */
  lemma DiffShape(prev: seq<Attribute>, curr: seq<Attribute>)
    ensures forall x :: !(x in ToBeDeleted(prev, curr) && x in ToBeAddedModified(prev, curr))
    ensures forall x :: x in ToBeDeleted(prev, curr) <==> x in prev && x !in curr
    ensures forall x :: x in ToBeAddedModified(prev, curr) <==> x in curr
  {
  }

  /** The update effect, given the previous render's attributes and source layer. */
  function UpdateState(hasMap: bool, sourceKey: string, prevSourceLayer: Option<string>, sourceLayer: Option<string>,
                       key: string, prev: seq<Attribute>, curr: seq<Attribute>): (r: seq<Effect>)
    ensures !hasMap || sourceKey == "" ==> r == []
    ensures hasMap && sourceKey != "" && sourceLayer != prevSourceLayer ==>
      r == Removes(sourceKey, prevSourceLayer, key, prev) + Sets(sourceKey, sourceLayer, key, curr)
    ensures hasMap && sourceKey != "" && sourceLayer == prevSourceLayer ==>
      && (forall i :: 0 <= i < |r| && r[i].RemoveFeatureState? ==>
            exists a :: a in prev && a !in curr && r[i].target == TargetFor(sourceKey, sourceLayer, a))
      && (forall i :: 0 <= i < |r| && r[i].SetFeatureState? ==>
            exists a :: a in curr && r[i].target == TargetFor(sourceKey, sourceLayer, a) && r[i].value == a.value)
      && (forall i, j :: 0 <= i < j < |r| && r[j].RemoveFeatureState? ==> r[i].RemoveFeatureState?)
  {
    if !hasMap || sourceKey == "" then []
    else if sourceLayer != prevSourceLayer then
      Removes(sourceKey, prevSourceLayer, key, prev) + Sets(sourceKey, sourceLayer, key, curr)
    else
      var del := ToBeDeleted(prev, curr);
      var add := ToBeAddedModified(prev, curr);
      var r := Removes(sourceKey, sourceLayer, key, del) + Sets(sourceKey, sourceLayer, key, add);
      assert forall i :: 0 <= i < |del| ==> del[i] in del;
      assert forall i :: 0 <= i < |add| ==> add[i] in add;
      r
  }

  /** After an update with distinct feature ids in the current list, the
      engine holds exactly the current attributes' values under the current
      source layer: every current attribute is flagged with its value, every
      feature of the previous list that is no longer listed is unflagged, and
      every other entry is as it was. */
  lemma UpdateReachesCurrent(st: FeatureStates, sourceKey: string, prevSourceLayer: Option<string>, sourceLayer: Option<string>,
                             key: string, prev: seq<Attribute>, curr: seq<Attribute>)
    requires sourceKey != "" && DistinctIds(curr)
    ensures var after := Apply(st, UpdateState(true, sourceKey, prevSourceLayer, sourceLayer, key, prev, curr));
      && (forall a :: a in curr ==> SlotFor(sourceKey, sourceLayer, key, a) in after
                                    && after[SlotFor(sourceKey, sourceLayer, key, a)] == a.value)
      && (forall a :: a in prev && a !in curr && SlotFor(sourceKey, prevSourceLayer, key, a) !in SlotsOf(sourceKey, sourceLayer, key, curr) ==>
            SlotFor(sourceKey, prevSourceLayer, key, a) !in after)
      && (forall s :: s !in SlotsOf(sourceKey, prevSourceLayer, key, prev) && s !in SlotsOf(sourceKey, sourceLayer, key, curr) ==>
            (s in after <==> s in st) && (s in st ==> after[s] == st[s]))
  {
    var after := Apply(st, UpdateState(true, sourceKey, prevSourceLayer, sourceLayer, key, prev, curr));
    var removed := if sourceLayer != prevSourceLayer then prev else ToBeDeleted(prev, curr);
    var added := if sourceLayer != prevSourceLayer then curr else ToBeAddedModified(prev, curr);
    var rm := Removes(sourceKey, prevSourceLayer, key, removed);
    var ad := Sets(sourceKey, sourceLayer, key, added);
    assert UpdateState(true, sourceKey, prevSourceLayer, sourceLayer, key, prev, curr) == rm + ad;
    ApplyAppend(st, rm, ad);
    ApplyRemoves(st, sourceKey, prevSourceLayer, key, removed);
    var mid := st - SlotsOf(sourceKey, prevSourceLayer, key, removed);
    ApplySets(mid, sourceKey, sourceLayer, key, added);
    assert after == mid + Assigned(sourceKey, sourceLayer, key, added);
    SameSlots(sourceKey, sourceLayer, key, added, curr);
    AssignedAgree(sourceKey, sourceLayer, key, added, curr);
    assert SlotsOf(sourceKey, prevSourceLayer, key, removed) <= SlotsOf(sourceKey, prevSourceLayer, key, prev);
    forall a | a in prev && a !in curr
      ensures a in removed
    {
    }
  }

  /** Two lists with the same elements address the same entries. */
  lemma SameSlots(sourceKey: string, sourceLayer: Option<string>, key: string, a: seq<Attribute>, b: seq<Attribute>)
    requires forall x :: x in a <==> x in b
    ensures SlotsOf(sourceKey, sourceLayer, key, a) == SlotsOf(sourceKey, sourceLayer, key, b)
  {
  }

  /** A duplicate-free list with the same elements as a list of distinct
      feature ids writes the same entries with the same values. */
  lemma AssignedAgree(sourceKey: string, sourceLayer: Option<string>, key: string, a: seq<Attribute>, b: seq<Attribute>)
    requires forall x :: x in a <==> x in b
    requires forall i, j :: 0 <= i < j < |a| ==> a[i] != a[j]
    requires DistinctIds(b)
    ensures Assigned(sourceKey, sourceLayer, key, a).Keys == SlotsOf(sourceKey, sourceLayer, key, b)
    ensures forall x :: x in b ==> Assigned(sourceKey, sourceLayer, key, a)[SlotFor(sourceKey, sourceLayer, key, x)] == x.value
  {
    assert DistinctIds(a) by {
      forall i, j | 0 <= i < j < |a|
        ensures a[i].id != a[j].id
      {
        assert a[i] in b && a[j] in b;
        var p :| 0 <= p < |b| && b[p] == a[i];
        var q :| 0 <= q < |b| && b[q] == a[j];
      }
    }
    AssignedValues(sourceKey, sourceLayer, key, a);
    SameSlots(sourceKey, sourceLayer, key, a, b);
  }

  /** `usePreviousValue`: the value each render reads from the ref, for a run
      of renders with the given values, when the ref starts at `initial` and
      every commit stores the rendered value. */
  function PreviousValues<T>(initial: T, values: seq<T>): (r: seq<T>)
    ensures |r| == |values|
    ensures |values| > 0 ==> r[0] == initial
    ensures forall i :: 1 <= i < |values| ==> r[i] == values[i - 1]
    decreases |values|
  {
    if |values| == 0 then [] else [initial] + PreviousValues(values[0], values[1..])
  }
}
