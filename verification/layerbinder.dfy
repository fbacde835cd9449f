/** The layer binder (`MapLayer` in lib/src/MapSource/MapLayer.tsx): it adds
    a native layer for a managed source, registers the layer with its source
    binder, keeps the registry entry's handlers current and pushes paint,
    layout and filter changes to the engine. */
module LayerBinder {
  import opened Wrappers
  import opened JsObject
  import opened Engine
  import opened Registry
  import SourceBinder
  import Utils

  /** `removeUndefined`: keeps the properties with a non-empty name and a
      truthy value (so `0`, `false` and `""` go too), in their order. */
  function RemoveUndefined(obj: Object<JsValue>): (r: Object<JsValue>)
    ensures forall p :: p in r <==> p in obj && p.key != "" && Truthy(p.value)
    ensures |r| <= |obj|
  {
    if |obj| == 0 then []
    else
      var rest := RemoveUndefined(obj[1..]);
      assert forall p :: p in obj <==> p == obj[0] || p in obj[1..];
      if obj[0].key != "" && Truthy(obj[0].value) then [obj[0]] + rest else rest
  }

  /** Read back by name, a cleaned object holds exactly the truthy values of
      the non-empty names. */
  lemma {:induction false} RemoveUndefinedGet(obj: Object<JsValue>, k: string)
    requires UniqueKeys(obj)
    ensures Get(RemoveUndefined(obj), k) ==
      if k != "" && Get(obj, k).Some? && Truthy(Get(obj, k).value) then Get(obj, k) else None
    decreases |obj|
  {
    if |obj| > 0 {
      var r := RemoveUndefined(obj);
      var rest := RemoveUndefined(obj[1..]);
      var kept := obj[0].key != "" && Truthy(obj[0].value);
      RemoveUndefinedGet(obj[1..], k);
      if kept {
        assert r == [obj[0]] + rest;
      } else {
        assert r == rest;
      }
      if obj[0].key == k {
        assert Keys(obj)[0] == k;
        assert Get(obj, k) == Some(obj[0].value);
        assert !Has(obj[1..], k) by {
          forall j | 0 <= j < |obj[1..]|
            ensures Keys(obj[1..])[j] != k
          {
            assert obj[1..][j] == obj[j + 1];
          }
        }
        if kept {
          assert Keys(r)[0] == k;
        }
      } else {
        DropFirst(obj, k);
        if kept {
          assert r[1..] == rest;
          DropFirst(r, k);
        }
      }
    }
  }

  /** The options of the native layer: the caller's options with `id` and
      `source` forced to the native id and the source key, then cleaned. */
  function AddLayerOptions(layerOptions: Object<JsValue>, id: string, sourceKey: string): (r: Object<JsValue>)
    requires id != "" && sourceKey != ""
    ensures Get(r, "id") == Some(Str(id)) || !UniqueKeys(layerOptions)
    ensures Get(r, "source") == Some(Str(sourceKey)) || !UniqueKeys(layerOptions)
    ensures forall p :: p in r ==> Truthy(p.value)
    ensures UniqueKeys(layerOptions) ==> forall k :: k != "id" && k != "source" ==>
      Get(r, k) == if k != "" && Get(layerOptions, k).Some? && Truthy(Get(layerOptions, k).value) then Get(layerOptions, k) else None
  {
    CleanedSpreadReadsBack(layerOptions, id, sourceKey);
    CleanedSpreadPassesThrough(layerOptions, id, sourceKey);
    RemoveUndefined(Put(Put(layerOptions, "id", Str(id)), "source", Str(sourceKey)))
  }

  /** Cleaning keeps the forced id and source, which are truthy. */
  lemma CleanedSpreadReadsBack(layerOptions: Object<JsValue>, id: string, sourceKey: string)
    requires id != "" && sourceKey != ""
    ensures var r := RemoveUndefined(Put(Put(layerOptions, "id", Str(id)), "source", Str(sourceKey)));
      UniqueKeys(layerOptions) ==> Get(r, "id") == Some(Str(id)) && Get(r, "source") == Some(Str(sourceKey))
  {
    var spread := Put(Put(layerOptions, "id", Str(id)), "source", Str(sourceKey));
    if UniqueKeys(layerOptions) {
      SpreadReadsBack(layerOptions, id, sourceKey);
      RemoveUndefinedKeeps(spread, "id", Str(id));
      RemoveUndefinedKeeps(spread, "source", Str(sourceKey));
    }
  }

  /** Every other option reaches the native layer when it is truthy under a
      non-empty name, and is dropped otherwise. */
  lemma CleanedSpreadPassesThrough(layerOptions: Object<JsValue>, id: string, sourceKey: string)
    ensures var r := RemoveUndefined(Put(Put(layerOptions, "id", Str(id)), "source", Str(sourceKey)));
      UniqueKeys(layerOptions) ==> forall k :: k != "id" && k != "source" ==>
        Get(r, k) == if k != "" && Get(layerOptions, k).Some? && Truthy(Get(layerOptions, k).value) then Get(layerOptions, k) else None
  {
    var spread := Put(Put(layerOptions, "id", Str(id)), "source", Str(sourceKey));
    if UniqueKeys(layerOptions) {
      SpreadReadsBack(layerOptions, id, sourceKey);
      forall k | k != "id" && k != "source"
        ensures Get(RemoveUndefined(spread), k) ==
          if k != "" && Get(layerOptions, k).Some? && Truthy(Get(layerOptions, k).value) then Get(layerOptions, k) else None
      {
        assert Get(spread, k) == Get(layerOptions, k);
        RemoveUndefinedGet(spread, k);
      }
    }
  }

  /** Cleaning an object whose names are all non-empty and whose values are
      all truthy leaves it as it is. */
  lemma {:induction false} RemoveUndefinedKeepsClean(obj: Object<JsValue>)
    requires forall p :: p in obj ==> p.key != "" && Truthy(p.value)
    ensures RemoveUndefined(obj) == obj
    decreases |obj|
  {
    if |obj| > 0 {
      assert obj[0] in obj;
      assert forall p :: p in obj[1..] ==> p in obj;
      RemoveUndefinedKeepsClean(obj[1..]);
      assert obj == [obj[0]] + obj[1..];
    }
  }

  /** A layer without options of its own gets exactly its id and source. */
  lemma BareLayerOptions(id: string, sourceKey: string)
    requires id != "" && sourceKey != ""
    ensures AddLayerOptions([], id, sourceKey) == [Prop("id", Str(id)), Prop("source", Str(sourceKey))]
  {
    var spread := BareSpread(id, sourceKey);
    RemoveUndefinedKeepsClean(spread);
  }

  /** `{id, source}` spread over no options. */
  lemma BareSpread(id: string, sourceKey: string) returns (spread: Object<JsValue>)
    ensures spread == Put(Put([], "id", Str(id)), "source", Str(sourceKey))
    ensures spread == [Prop("id", Str(id)), Prop("source", Str(sourceKey))]
  {
    var withId := Put([], "id", Str(id));
    PutFreshAppends([], "id", Str(id));
    assert withId == [Prop("id", Str(id))];
    assert Keys(withId) == ["id"];
    assert "source"[0] != "id"[0];
    PutFreshAppends(withId, "source", Str(sourceKey));
    spread := Put(withId, "source", Str(sourceKey));
  }

  /** A truthy value under a non-empty name survives cleaning. */
  lemma RemoveUndefinedKeeps(obj: Object<JsValue>, k: string, v: JsValue)
    requires UniqueKeys(obj) && k != "" && Get(obj, k) == Some(v) && Truthy(v)
    ensures Get(RemoveUndefined(obj), k) == Some(v)
  {
    RemoveUndefinedGet(obj, k);
  }

  /** `{...layerOptions, id, source}` keeps names distinct and reads back the
      forced id and source. */
  lemma SpreadReadsBack(layerOptions: Object<JsValue>, id: string, sourceKey: string)
    requires UniqueKeys(layerOptions)
    ensures var spread := Put(Put(layerOptions, "id", Str(id)), "source", Str(sourceKey));
      && UniqueKeys(spread)
      && Get(spread, "id") == Some(Str(id))
      && Get(spread, "source") == Some(Str(sourceKey))
  {
    var withId := Put(layerOptions, "id", Str(id));
    PutKeepsUnique(layerOptions, "id", Str(id));
    PutKeepsUnique(withId, "source", Str(sourceKey));
    assert "id"[0] != "source"[0];
    assert Get(withId, "id") == Some(Str(id));
  }

  /** The mount effect. Without an engine, a source key or a layer key it
      does nothing. A managed source gets a native layer under the qualified
      id, placed beneath `beneath`; the layer is then registered as a bare
      `{name: layerKey}` entry, replacing whatever the slot held. */
  function MountLayer(
    sources: Sources, sourceKey: string, layerKey: string, managed: bool,
    layerOptions: Object<JsValue>, beneath: Option<string>, hasMap: bool): (r: Step<Sources>)
    ensures !hasMap || sourceKey == "" || layerKey == "" ==> r == Step(sources, [])
    ensures hasMap && sourceKey != "" && layerKey != "" ==>
      && r.next == SourceBinder.SetLayer(sources, sourceKey, layerKey, (_: Option<Layer>) => Some(Layer(layerKey, NoHandlers)))
      && (managed <==> r.trace != [])
      && (managed ==> |r.trace| == 1 && r.trace[0].AddLayer? && r.trace[0].beneath == beneath
                      && (UniqueKeys(layerOptions) ==>
                            && Get(r.trace[0].options, "id") == Some(Str(Utils.GetLayerName(sourceKey, layerKey, true)))
                            && Get(r.trace[0].options, "source") == Some(Str(sourceKey))
                            && forall k :: k != "id" && k != "source" ==>
                                 Get(r.trace[0].options, k) ==
                                   if k != "" && Get(layerOptions, k).Some? && Truthy(Get(layerOptions, k).value)
                                   then Get(layerOptions, k) else None))
    ensures WellFormed(sources) && GetSource(sources, sourceKey).Some? && hasMap && sourceKey != "" && layerKey != "" ==>
      SourceBinder.GetLayer(r.next, sourceKey, layerKey) == Some(Layer(layerKey, NoHandlers))
  {
    if !hasMap || sourceKey == "" || layerKey == "" then Step(sources, [])
    else
      var id := Utils.GetLayerName(sourceKey, layerKey, managed);
      var trace := if managed then [AddLayer(AddLayerOptions(layerOptions, id, sourceKey), beneath)] else [];
      Step(SourceBinder.SetLayer(sources, sourceKey, layerKey, (_: Option<Layer>) => Some(Layer(layerKey, NoHandlers))), trace)
  }

  /** Mounting a layer that is not registered yet appends its entry to the
      layer map of its source and changes nothing else. */
  lemma MountAppends(
    sources: Sources, sourceKey: string, layerKey: string, managed: bool,
    layerOptions: Object<JsValue>, beneath: Option<string>)
    requires WellFormed(sources) && GetSource(sources, sourceKey).Some?
    requires sourceKey != "" && layerKey != ""
    requires SourceBinder.GetLayer(sources, sourceKey, layerKey).None?
    ensures var source := GetSource(sources, sourceKey).value;
      var m := MountLayer(sources, sourceKey, layerKey, managed, layerOptions, beneath, true);
      && WellFormed(m.next)
      && GetSource(m.next, sourceKey) == Some(source.(layers := source.layers + [Prop(layerKey, Layer(layerKey, NoHandlers))]))
      && forall k :: k != sourceKey ==> GetSource(m.next, k) == GetSource(sources, k)
  {
    var source := GetSource(sources, sourceKey).value;
    EntryWellFormed(sources, sourceKey);
    var entry := Layer(layerKey, NoHandlers);
    assert Put(source.layers, layerKey, entry) == source.layers + [Prop(layerKey, entry)];
    PutKeepsUnique(source.layers, layerKey, entry);
    SourceBinder.ReplaceLayers(sources, sourceKey, Put(source.layers, layerKey, entry));
  }

  /** The `destroy` capability a mounted layer leaves in its entry: nothing
      when the layer is no longer registered, otherwise `removeLayer`. */
  function DestroyLayer(sources: Sources, sourceKey: string, layerKey: string, hasMap: bool): (r: Step<Sources>)
    ensures SourceBinder.GetLayer(sources, sourceKey, layerKey).None? ==> r == Step(sources, [])
    ensures WellFormed(sources) ==> WellFormed(r.next) && SourceBinder.GetLayer(r.next, sourceKey, layerKey).None?
  {
    if SourceBinder.GetLayer(sources, sourceKey, layerKey).None? then Step(sources, [])
    else SourceBinder.RemoveLayer(sources, sourceKey, layerKey, hasMap)
  }

  /** The guard in `destroy` is redundant: it behaves exactly as
      `removeLayer` does. */
  lemma DestroyLayerIsRemoveLayer(sources: Sources, sourceKey: string, layerKey: string, hasMap: bool)
    ensures DestroyLayer(sources, sourceKey, layerKey, hasMap) == SourceBinder.RemoveLayer(sources, sourceKey, layerKey, hasMap)
  {
  }

  /** Mounting a fresh layer and destroying it again restores the registry
      exactly, and the native layer added for a managed source is the one
      removed. */
  lemma MountThenDestroy(
    sources: Sources, sourceKey: string, layerKey: string,
    layerOptions: Object<JsValue>, beneath: Option<string>)
    requires WellFormed(sources) && GetSource(sources, sourceKey).Some?
    requires sourceKey != "" && layerKey != ""
    requires SourceBinder.GetLayer(sources, sourceKey, layerKey).None?
    ensures var managed := GetSource(sources, sourceKey).value.managed;
      var m := MountLayer(sources, sourceKey, layerKey, managed, layerOptions, beneath, true);
      var d := DestroyLayer(m.next, sourceKey, layerKey, true);
      && d.next == sources
      && d.trace == (if managed then [Engine.RemoveLayer(Utils.GetLayerName(sourceKey, layerKey, true))] else [])
  {
    var source := GetSource(sources, sourceKey).value;
    EntryWellFormed(sources, sourceKey);
    var m := MountLayer(sources, sourceKey, layerKey, source.managed, layerOptions, beneath, true);
    var entry := Layer(layerKey, NoHandlers);
    assert !Has(source.layers, layerKey);
    var mounted := source.(layers := Put(source.layers, layerKey, entry));
    assert m.next == SetSource(sources, mounted);
    assert GetSource(m.next, sourceKey) == Some(mounted);
    var d := DestroyLayer(m.next, sourceKey, layerKey, true);
    assert d == SourceBinder.RemoveLayer(m.next, sourceKey, layerKey, true);
    DeletePutFresh(source.layers, layerKey, entry);
    assert mounted.name == sourceKey;
    assert d.next == SetSource(SetSource(sources, mounted), source);
    PutPut(sources, sourceKey, mounted, source);
    PutSameValue(sources, sourceKey, source);
  }

  /** The handler patch: `layer && {...layer, hoverable, handlers}`. An
      existing entry gets the current handlers; an absent one stays absent. */
  function PatchHandlers(sources: Sources, sourceKey: string, layerKey: string, handlers: Handlers, hasMap: bool): (r: Sources)
    ensures !hasMap || sourceKey == "" || layerKey == "" ==> r == sources
    ensures WellFormed(sources) ==> WellFormed(r)
    ensures WellFormed(sources) && hasMap && sourceKey != "" && layerKey != "" ==>
      && (SourceBinder.GetLayer(sources, sourceKey, layerKey).None? ==> r == sources)
      && (SourceBinder.GetLayer(sources, sourceKey, layerKey).Some? ==>
            SourceBinder.GetLayer(r, sourceKey, layerKey)
              == Some(SourceBinder.GetLayer(sources, sourceKey, layerKey).value.(handlers := handlers)))
      && (forall k :: k != layerKey ==> SourceBinder.GetLayer(r, sourceKey, k) == SourceBinder.GetLayer(sources, sourceKey, k))
  {
    if !hasMap || sourceKey == "" || layerKey == "" then sources
    else
      var r := SourceBinder.SetLayer(sources, sourceKey, layerKey, Patch(handlers));
      assert WellFormed(sources) && SourceBinder.GetLayer(sources, sourceKey, layerKey).None? ==> r == sources by {
        if WellFormed(sources) && SourceBinder.GetLayer(sources, sourceKey, layerKey).None? {
          if GetSource(sources, sourceKey).Some? {
            var source := GetSource(sources, sourceKey).value;
            EntryWellFormed(sources, sourceKey);
            assert Delete(source.layers, layerKey) == source.layers;
            assert source.(layers := source.layers) == source;
            PutSameValue(sources, sourceKey, source);
          }
        }
      }
      r
  }

  /** `layer => layer && {...layer, ...handlers}` */
  function Patch(handlers: Handlers): Option<Layer> -> Option<Layer> {
    (l: Option<Layer>) => if l.Some? then Some(l.value.(handlers := handlers)) else None
  }

  /** The kind of property a push writes. */
  datatype PropertyKind = Paint | Layout

  /** The engine call writing one property of a native layer. */
  function SetProperty(kind: PropertyKind, id: string, p: Prop<JsValue>): Effect {
    match kind
    case Paint => SetPaintProperty(id, p.key, p.value)
    case Layout => SetLayoutProperty(id, p.key, p.value)
  }

  /** The paint and layout effects: with an engine, both keys and a value
      object, one property write per entry, in entry order, on the layer's
      native id. */
  method PushProperties(
    kind: PropertyKind, sourceKey: string, layerKey: string, managed: bool,
    props: Option<Object<JsValue>>, hasMap: bool) returns (trace: seq<Effect>)
    ensures !hasMap || sourceKey == "" || layerKey == "" || props.None? ==> trace == []
    ensures hasMap && sourceKey != "" && layerKey != "" && props.Some? ==>
      && |trace| == |props.value|
      && forall i :: 0 <= i < |trace| ==>
           trace[i] == SetProperty(kind, Utils.GetLayerName(sourceKey, layerKey, managed), props.value[i])
  {
    trace := [];
    if !hasMap || sourceKey == "" || layerKey == "" || props.None? {
      return;
    }
    var id := Utils.GetLayerName(sourceKey, layerKey, managed);
    var entries := props.value;
    var i := 0;
    while i < |entries|
      invariant 0 <= i <= |entries|
      invariant |trace| == i
      invariant forall j :: 0 <= j < i ==> trace[j] == SetProperty(kind, id, entries[j])
    {
      trace := trace + [SetProperty(kind, id, entries[i])];
      i := i + 1;
    }
  }

  /** The filter effect: with an engine and both keys, the current filter
      (possibly undefined, which clears it) is set on the native id. */
  function PushFilter(sourceKey: string, layerKey: string, managed: bool, filter: JsValue, hasMap: bool): (r: seq<Effect>)
    ensures |r| <= 1
    ensures r != [] <==> hasMap && sourceKey != "" && layerKey != ""
    ensures r != [] ==> r == [SetFilter(Utils.GetLayerName(sourceKey, layerKey, managed), filter)]
  {
    if !hasMap || sourceKey == "" || layerKey == "" then []
    else [SetFilter(Utils.GetLayerName(sourceKey, layerKey, managed), filter)]
  }
}
