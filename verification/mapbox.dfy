/** The mapbox snapshot of the binders (src/MapSource/index.tsx and
    src/MapSource/MapLayer.tsx), where it departs from the maplibre one. Its
    coordinator (src/Map.tsx) is the maplibre coordinator of module
    `Interaction`, and its feature-state and bounds binders are those of
    `FeatureState` and `MapBounds`. */
module Mapbox {
  import opened Wrappers
  import opened JsObject
  import opened Engine
  import opened Registry
  import Utils
  import SourceBinder
  import LayerBinder

  /** The `managed` flag a layer binder reads from its source's context. The
      source binder of this snapshot never provides one, and an absent flag
      reads as falsy wherever it is checked. */
  const ContextManaged: bool := false

  /** The registration effect: without an engine, a source key or a style it
      does nothing; otherwise the native source is always added (a throwing
      `addSource` is caught and logged) and the source registered with an
      empty layer map and no `managed` flag. */
  function RegisterSource(
    sources: Sources, sourceKey: string, sourceOptions: Object<JsValue>,
    initialGeoJson: JsValue, hasMap: bool, hasStyle: bool): (r: Step<Sources>)
    ensures !hasMap || sourceKey == "" || !hasStyle ==> r == Step(sources, [])
    ensures hasMap && sourceKey != "" && hasStyle ==>
      && r.trace == [AddSource(sourceKey, SourceBinder.SourceOptions(sourceOptions, initialGeoJson))]
      && r.next == SourceBinder.RegisterSource(sources, sourceKey, false, Some(sourceOptions), initialGeoJson, true, true).next
      && GetSource(r.next, sourceKey) == Some(Source(sourceKey, ContextManaged, []))
  {
    if !hasMap || sourceKey == "" || !hasStyle then Step(sources, [])
    else Step(SetSource(sources, Source(sourceKey, ContextManaged, [])),
              [AddSource(sourceKey, SourceBinder.SourceOptions(sourceOptions, initialGeoJson))])
  }

  /** The layer mount as written: the binder passes the context's flag on,
      so it qualifies nothing and adds no native layer. */
  function MountLayerAsWritten(
    sources: Sources, sourceKey: string, layerKey: string,
    layerOptions: Object<JsValue>, beneath: Option<string>, hasMap: bool): (r: Step<Sources>)
    ensures r.trace == []
    ensures r.next == LayerBinder.MountLayer(sources, sourceKey, layerKey, true, layerOptions, beneath, hasMap).next
  {
    LayerBinder.MountLayer(sources, sourceKey, layerKey, ContextManaged, layerOptions, beneath, hasMap)
  }

  /** The discrepancy: a source and a layer mounted on it, both with an engine
      and a style. The native source is added, but no native layer ever is,
      and the hit-test expects the layer under its bare key. */
  lemma SourceAddedButLayerNever(sourceKey: string, layerKey: string, options: Object<JsValue>,
                                 layerOptions: Object<JsValue>, beneath: Option<string>)
    requires sourceKey != "" && layerKey != ""
    ensures var registered := RegisterSource(Empty, sourceKey, options, Undefined, true, true);
      var mounted := MountLayerAsWritten(registered.next, sourceKey, layerKey, layerOptions, beneath, true);
      && registered.trace != []
      && mounted.trace == []
      && ResolveLayer(mounted.next, layerKey).Some?
      && ResolveLayer(mounted.next, Utils.GetLayerName(sourceKey, layerKey, true)).None?
  {
    var registered := RegisterSource(Empty, sourceKey, options, Undefined, true, true);
    assert registered.next == [Prop(sourceKey, Source(sourceKey, false, []))];
    var mounted := MountLayerAsWritten(registered.next, sourceKey, layerKey, layerOptions, beneath, true);
    MountOnSingleSource(sourceKey, layerKey, layerOptions, beneath);
    Utils.ManagedNameIsNotTheKey(sourceKey, layerKey);
    SingleLayerResolves(sourceKey, layerKey, false, Layer(layerKey, NoHandlers), layerKey);
    SingleLayerResolves(sourceKey, layerKey, false, Layer(layerKey, NoHandlers), Utils.GetLayerName(sourceKey, layerKey, true));
  }

  /** Mounting a layer on a registry holding one empty unmanaged source. */
  lemma MountOnSingleSource(sourceKey: string, layerKey: string, layerOptions: Object<JsValue>, beneath: Option<string>)
    requires sourceKey != "" && layerKey != ""
    ensures MountLayerAsWritten([Prop(sourceKey, Source(sourceKey, false, []))], sourceKey, layerKey, layerOptions, beneath, true).next
         == [Prop(sourceKey, Source(sourceKey, false, [Prop(layerKey, Layer(layerKey, NoHandlers))]))]
  {
    var source := Source(sourceKey, false, []);
    var sources := [Prop(sourceKey, source)];
    var entry := Layer(layerKey, NoHandlers);
    assert GetSource(sources, sourceKey) == Some(source);
    assert Get(source.layers, layerKey) == None;
    assert Put(source.layers, layerKey, entry) == [Prop(layerKey, entry)];
    assert SetSource(sources, source.(layers := [Prop(layerKey, entry)]))
        == [Prop(sourceKey, source.(layers := [Prop(layerKey, entry)]))];
  }

  /** In a registry of one source with one layer, exactly the layer's native
      id resolves. */
  lemma SingleLayerResolves(sourceKey: string, layerKey: string, managed: bool, entry: Layer, id: string)
    ensures var sources := [Prop(sourceKey, Source(sourceKey, managed, [Prop(layerKey, entry)]))];
      ResolveLayer(sources, id).Some? <==> id == Utils.GetLayerName(sourceKey, layerKey, managed)
  {
    var source := Source(sourceKey, managed, [Prop(layerKey, entry)]);
    var sources := [Prop(sourceKey, source)];
    var e := ExtendedLayer(entry, sourceKey, Utils.GetLayerName(sourceKey, layerKey, managed));
    assert ExtendLayers(Prop(sourceKey, source)) == [e];
    assert sources[1..] == [];
    assert GetLayersForSources(sources) == [e];
  }

  /** The layer mount as evidently intended: the source adds its native source
      itself, so its layers are managed, added under the qualified id and
      registered. */
  function MountLayer(
    sources: Sources, sourceKey: string, layerKey: string,
    layerOptions: Object<JsValue>, beneath: Option<string>, hasMap: bool): (r: Step<Sources>)
    ensures hasMap && sourceKey != "" && layerKey != "" ==>
      && |r.trace| == 1 && r.trace[0].AddLayer? && r.trace[0].beneath == beneath
      && (UniqueKeys(layerOptions) ==>
            Get(r.trace[0].options, "id") == Some(Str(Utils.GetLayerName(sourceKey, layerKey, true))))
    ensures !hasMap || sourceKey == "" || layerKey == "" ==> r == Step(sources, [])
    ensures r.next == MountLayerAsWritten(sources, sourceKey, layerKey, layerOptions, beneath, hasMap).next
  {
    LayerBinder.MountLayer(sources, sourceKey, layerKey, true, layerOptions, beneath, hasMap)
  }

  /** `removeLayer(layerKey)` as written: it asks `getLayerName` for the native
      id without passing `managed`, so the bare key is removed whatever the
      source's flag; the registry change is the maplibre one. */
  function RemoveLayerAsWritten(sources: Sources, sourceKey: string, layerKey: string, hasMap: bool): (r: Step<Sources>)
    ensures SourceBinder.GetLayer(sources, sourceKey, layerKey).None? ==> r == Step(sources, [])
    ensures SourceBinder.GetLayer(sources, sourceKey, layerKey).Some? ==>
      && r.next == SourceBinder.RemoveLayer(sources, sourceKey, layerKey, hasMap).next
      && r.trace == (if hasMap then [Engine.RemoveLayer(layerKey)] else [])
  {
    if SourceBinder.GetLayer(sources, sourceKey, layerKey).None? then Step(sources, [])
    else
      var removed := SourceBinder.RemoveLayer(sources, sourceKey, layerKey, hasMap);
      Step(removed.next, if hasMap then [Engine.RemoveLayer(Utils.GetLayerName(sourceKey, layerKey, false))] else [])
  }

  /** The discrepancy: once layers are managed, the layer added under the
      qualified id is not the one removed. */
  lemma RemovesAnotherNativeLayer(sources: Sources, sourceKey: string, layerKey: string,
                                  layerOptions: Object<JsValue>, beneath: Option<string>)
    requires WellFormed(sources) && GetSource(sources, sourceKey).Some?
    requires sourceKey != "" && layerKey != "" && UniqueKeys(layerOptions)
    ensures var m := MountLayer(sources, sourceKey, layerKey, layerOptions, beneath, true);
      var d := RemoveLayerAsWritten(m.next, sourceKey, layerKey, true);
      && Get(m.trace[0].options, "id") == Some(Str(Utils.GetLayerName(sourceKey, layerKey, true)))
      && d.trace == [Engine.RemoveLayer(layerKey)]
      && layerKey != Utils.GetLayerName(sourceKey, layerKey, true)
  {
    var m := MountLayer(sources, sourceKey, layerKey, layerOptions, beneath, true);
    assert SourceBinder.GetLayer(m.next, sourceKey, layerKey).Some?;
    Utils.ManagedNameIsNotTheKey(sourceKey, layerKey);
  }

  /** `removeLayer(layerKey)` as evidently intended: the native id is computed
      with the source's own flag, so a managed layer is removed under the
      qualified id it was added under. */
  function RemoveLayer(sources: Sources, sourceKey: string, layerKey: string, hasMap: bool): (r: Step<Sources>)
    ensures SourceBinder.GetLayer(sources, sourceKey, layerKey).None? ==> r == Step(sources, [])
    ensures SourceBinder.GetLayer(sources, sourceKey, layerKey).Some? && GetSource(sources, sourceKey).value.managed ==>
      && r.next == RemoveLayerAsWritten(sources, sourceKey, layerKey, hasMap).next
      && r.trace == (if hasMap then [Engine.RemoveLayer(Utils.GetLayerName(sourceKey, layerKey, true))] else [])
  {
    SourceBinder.RemoveLayer(sources, sourceKey, layerKey, hasMap)
  }

  /** The GeoJSON effect as written: it skips the initial data, and otherwise
      reads `type` off the engine's source without checking that there is
      one, which throws when the engine holds no source under the key. */
  function UpdateGeoJsonAsWritten(
    sourceKey: string, geoJson: JsValue, initialGeoJson: JsValue, engineSource: Option<EngineSource>,
    hasMap: bool, hasStyle: bool): (r: Result<seq<Effect>>)
    ensures r.Err? <==> hasMap && sourceKey != "" && Truthy(geoJson) && hasStyle && geoJson != initialGeoJson
                        && engineSource.None?
    ensures r.Ok? && r.value != [] <==> hasMap && sourceKey != "" && Truthy(geoJson) && hasStyle
                                        && geoJson != initialGeoJson && Utils.IsGeoJSONSource(engineSource)
    ensures r.Ok? && r.value != [] ==> r.value == [SetData(sourceKey, geoJson)]
  {
    if !hasMap || sourceKey == "" || !Truthy(geoJson) || !hasStyle || geoJson == initialGeoJson then Ok([])
    else if engineSource.None? then Err("TypeError: cannot read properties of undefined (reading 'type')")
    else if engineSource.value.kind == "geojson" then Ok([SetData(sourceKey, geoJson)])
    else Ok([])
  }

  /** The discrepancy: new data arriving while the engine holds no source
      under the key (as between a style swap and the source's re-registration)
      makes the effect throw. */
  lemma GeoJsonUpdateCanThrow()
    ensures UpdateGeoJsonAsWritten("regions", Ref(2), Ref(1), None, true, true).Err?
  {
  }

  /** The GeoJSON effect as evidently intended: the engine's source is checked
      for presence before its type, so the effect never throws and otherwise
      agrees with the code as written. */
  function UpdateGeoJson(
    sourceKey: string, geoJson: JsValue, initialGeoJson: JsValue, engineSource: Option<EngineSource>,
    hasMap: bool, hasStyle: bool): (r: seq<Effect>)
    ensures r != [] <==> hasMap && sourceKey != "" && Truthy(geoJson) && hasStyle
                         && geoJson != initialGeoJson && Utils.IsGeoJSONSource(engineSource)
    ensures r != [] ==> r == [SetData(sourceKey, geoJson)]
    ensures UpdateGeoJsonAsWritten(sourceKey, geoJson, initialGeoJson, engineSource, hasMap, hasStyle).Ok? ==>
      r == UpdateGeoJsonAsWritten(sourceKey, geoJson, initialGeoJson, engineSource, hasMap, hasStyle).value
  {
    if !hasMap || sourceKey == "" || !Truthy(geoJson) || !hasStyle || geoJson == initialGeoJson then []
    else if Utils.IsGeoJSONSource(engineSource) then [SetData(sourceKey, geoJson)]
    else []
  }

  /** A registered engine listener: an event and a callback, the callback
      identified by a token (a `useCallback` result changes identity when
      its dependencies change). */
  datatype Listener = Listener(event: string, callback: nat)

  /** The engine's listeners. `on` keeps a callback once per event. */
  type Listeners = set<Listener>

  /** `map.on(event, callback)`: registering a registered callback again
      changes nothing. */
  function On(ls: Listeners, event: string, callback: nat): (r: Listeners)
    ensures Listener(event, callback) in r
    ensures forall l :: l in r <==> l in ls || l == Listener(event, callback)
  {
    ls + {Listener(event, callback)}
  }

  /** `map.off(event, callback)`. */
  function Off(ls: Listeners, event: string, callback: nat): (r: Listeners)
    ensures Listener(event, callback) !in r
    ensures forall l :: l in r <==> l in ls && l != Listener(event, callback)
  {
    ls - {Listener(event, callback)}
  }

  /** Whether the marker subscription effect runs: it needs an engine, a
      source key, a style, data and a marker factory. */
  predicate MarkersEnabled(hasMap: bool, sourceKey: string, hasStyle: bool, geoJson: JsValue, hasFactory: bool) {
    hasMap && sourceKey != "" && hasStyle && Truthy(geoJson) && hasFactory
  }

  /** Whether a listener is `updateMarkers` on `move` or `moveend`. */
  predicate IsMarkerListener(l: Listener, callback: nat) {
    (l.event == "move" || l.event == "moveend") && l.callback == callback
  }

  /** The marker subscription effect: `updateMarkers` listens to `move` and `moveend`. */
  function SubscribeMarkers(ls: Listeners, enabled: bool, callback: nat): (r: Listeners)
    ensures enabled ==> forall l :: l in r <==> l in ls || IsMarkerListener(l, callback)
    ensures !enabled ==> r == ls
  {
    if enabled then On(On(ls, "move", callback), "moveend", callback) else ls
  }

  /** The subscription's cleanup as written: it subscribes again (`map.on`)
      where it means to unsubscribe, so after a subscription it changes
      nothing and `updateMarkers` stays registered. */
  function UnsubscribeMarkersAsWritten(ls: Listeners, enabled: bool, callback: nat): (r: Listeners)
    ensures enabled ==> Listener("move", callback) in r && Listener("moveend", callback) in r
    ensures enabled && Listener("move", callback) in ls && Listener("moveend", callback) in ls ==> r == ls
    ensures !enabled ==> r == ls
  {
    if enabled then On(On(ls, "move", callback), "moveend", callback) else ls
  }

  /** The subscription's cleanup as evidently intended (`map.off`). */
  function UnsubscribeMarkers(ls: Listeners, enabled: bool, callback: nat): (r: Listeners)
    ensures enabled ==> forall l :: l in r <==> l in ls && !IsMarkerListener(l, callback)
    ensures !enabled ==> r == ls
  {
    if enabled then Off(Off(ls, "move", callback), "moveend", callback) else ls
  }

  /** One run of the subscription effect per callback (each but the first
      preceded by the previous run's cleanup, as when a dependency changed),
      then the final cleanup (unmount). `fixed` picks the intended cleanup
      over the written one. */
  function SubscriptionLifetime(ls: Listeners, callbacks: seq<nat>, fixed: bool): Listeners
    decreases |callbacks|
  {
    if |callbacks| == 0 then ls
    else
      var subscribed := SubscribeMarkers(ls, true, callbacks[0]);
      var cleaned := if fixed then UnsubscribeMarkers(subscribed, true, callbacks[0])
                     else UnsubscribeMarkersAsWritten(subscribed, true, callbacks[0]);
      SubscriptionLifetime(cleaned, callbacks[1..], fixed)
  }

  /** The discrepancy: after the unmount, every `updateMarkers` the effect
      ever subscribed is still registered on `move` and `moveend`, and
      nothing else was added. */
  lemma {:induction false} ListenersLeak(ls: Listeners, callbacks: seq<nat>)
    ensures var r := SubscriptionLifetime(ls, callbacks, false);
      && (forall i :: 0 <= i < |callbacks| ==>
            Listener("move", callbacks[i]) in r && Listener("moveend", callbacks[i]) in r)
      && (forall l :: l in r <==> l in ls || exists i :: 0 <= i < |callbacks| && IsMarkerListener(l, callbacks[i]))
    decreases |callbacks|
  {
    if |callbacks| > 0 {
      var cb := callbacks[0];
      var subscribed := SubscribeMarkers(ls, true, cb);
      var cleaned := UnsubscribeMarkersAsWritten(subscribed, true, cb);
      assert cleaned == subscribed;
      ListenersLeak(cleaned, callbacks[1..]);
      var r := SubscriptionLifetime(ls, callbacks, false);
      assert r == SubscriptionLifetime(cleaned, callbacks[1..], false);
      forall i | 0 <= i < |callbacks|
        ensures Listener("move", callbacks[i]) in r && Listener("moveend", callbacks[i]) in r
      {
        if i > 0 {
          assert callbacks[i] == callbacks[1..][i - 1];
        }
      }
      forall l
        ensures l in r <==> l in ls || exists i :: 0 <= i < |callbacks| && IsMarkerListener(l, callbacks[i])
      {
        if exists i :: 0 <= i < |callbacks| && IsMarkerListener(l, callbacks[i]) {
          var i :| 0 <= i < |callbacks| && IsMarkerListener(l, callbacks[i]);
          if i > 0 {
            assert callbacks[i] == callbacks[1..][i - 1];
          }
        }
        if exists i :: 0 <= i < |callbacks[1..]| && IsMarkerListener(l, callbacks[1..][i]) {
          var i :| 0 <= i < |callbacks[1..]| && IsMarkerListener(l, callbacks[1..][i]);
          assert callbacks[1..][i] == callbacks[i + 1];
        }
      }
    }
  }

  /** With the intended cleanup, any number of runs leaves the listeners as
      they were before the first, provided the engine held no marker
      listener of those callbacks to begin with. */
  lemma {:induction false} ListenersBalanced(ls: Listeners, callbacks: seq<nat>)
    requires forall l, i :: l in ls && 0 <= i < |callbacks| ==> !IsMarkerListener(l, callbacks[i])
    ensures SubscriptionLifetime(ls, callbacks, true) == ls
    decreases |callbacks|
  {
    if |callbacks| > 0 {
      var cb := callbacks[0];
      var cleaned := UnsubscribeMarkers(SubscribeMarkers(ls, true, cb), true, cb);
      assert cleaned == ls;
      forall l, i | l in ls && 0 <= i < |callbacks[1..]|
        ensures !IsMarkerListener(l, callbacks[1..][i])
      {
        assert callbacks[1..][i] == callbacks[i + 1];
      }
      ListenersBalanced(ls, callbacks[1..]);
    }
  }
}
