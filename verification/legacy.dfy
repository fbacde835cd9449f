/** The oldest snapshot of the library (index.tsx, MapSource/index.tsx,
    MapSource/MapLayer.tsx, MapSource/MapState.tsx, utils.tsx). Its registry
    operations are those of `Registry`; every source it registers is added
    to the engine, so its entries are modelled as managed sources. Each of
    its binders is compared here with its counterpart in the newest
    snapshot. */
module Legacy {
  import opened Wrappers
  import opened JsObject
  import opened Engine
  import opened Registry
  import Utils
  import SourceBinder
  import LayerBinder
  import Cascade
  import FeatureState

  /** `getLayerName`, and the id the layer binder builds inline: always the
      source key, the separator and the layer key. */
  function GetLayerName(sourceKey: string, layerKey: string): (name: string)
    ensures name == Utils.GetLayerName(sourceKey, layerKey, true)
    ensures name != layerKey
  {
    Utils.ManagedNameIsNotTheKey(sourceKey, layerKey);
    sourceKey + "›" + layerKey
  }

  /** The source registration effect. Without an engine, a source key or a
      style it does nothing; otherwise the source is added to the engine (a
      GeoJSON source with the current data) and registered with an empty
      layer map. It is the managed registration of the newest snapshot. */
  function RegisterSource(
    sources: Sources, sourceKey: string, sourceOptions: Object<JsValue>, geoJson: JsValue,
    hasMap: bool, hasStyle: bool): (r: Step<Sources>)
    ensures r == SourceBinder.RegisterSource(sources, sourceKey, true, Some(sourceOptions), geoJson, hasMap, hasStyle)
    ensures hasMap && sourceKey != "" && hasStyle ==>
      && |r.trace| == 1 && r.trace[0].AddSource? && r.trace[0].sourceKey == sourceKey
      && GetSource(r.next, sourceKey) == Some(Source(sourceKey, true, []))
  {
    if !hasMap || sourceKey == "" || !hasStyle then Step(sources, [])
    else
      var options := if Utils.IsGeoJSONSourceSpecification(Some(sourceOptions))
        then Put(sourceOptions, "data", geoJson) else sourceOptions;
      Step(SetSource(sources, Source(sourceKey, true, [])), [AddSource(sourceKey, options)])
  }

  /** The layer map writer: the entry is stored under its own name; without a
      registered source nothing changes. */
  function SetLayer(sources: Sources, sourceKey: string, layer: Layer): (r: Sources)
    ensures !IsSourceDefined(sources, sourceKey) ==> r == sources
    ensures WellFormed(sources) && IsSourceDefined(sources, sourceKey) ==>
      && WellFormed(r)
      && SourceBinder.GetLayer(r, sourceKey, layer.name) == Some(layer)
      && (forall k :: k != layer.name ==> SourceBinder.GetLayer(r, sourceKey, k) == SourceBinder.GetLayer(sources, sourceKey, k))
      && (forall k :: k != sourceKey ==> GetSource(r, k) == GetSource(sources, k))
  {
    SourceBinder.SetLayer(sources, sourceKey, layer.name, (_: Option<Layer>) => Some(layer))
  }

  /** `removeLayer(key)` as written: with the source registered, the slot
      named `key` is deleted (if there is one) and, with an engine, the native
      layer `key` is removed whether or not the slot existed. */
  function RemoveLayer(sources: Sources, sourceKey: string, key: string, hasMap: bool): (r: Step<Sources>)
    ensures !IsSourceDefined(sources, sourceKey) ==> r == Step(sources, [])
    ensures IsSourceDefined(sources, sourceKey) ==> r.trace == (if hasMap then [Engine.RemoveLayer(key)] else [])
    ensures WellFormed(sources) ==>
      && WellFormed(r.next)
      && (IsSourceDefined(sources, sourceKey) ==> IsSourceDefined(r.next, sourceKey))
      && (forall k :: k != sourceKey ==> GetSource(r.next, k) == GetSource(sources, k))
      && SourceBinder.GetLayer(r.next, sourceKey, key).None?
      && (forall k :: k != key ==> SourceBinder.GetLayer(r.next, sourceKey, k) == SourceBinder.GetLayer(sources, sourceKey, k))
  {
    match GetSource(sources, sourceKey)
    case None => Step(sources, [])
    case Some(source) =>
      var layers := Delete(source.layers, key);
      assert WellFormed(sources) ==>
        && WellFormed(SetSource(sources, source.(layers := layers)))
        && GetSource(SetSource(sources, source.(layers := layers)), sourceKey) == Some(source.(layers := layers))
      by {
        if WellFormed(sources) {
          EntryWellFormed(sources, sourceKey);
          DeleteKeepsUnique(source.layers, key);
          SourceBinder.ReplaceLayers(sources, sourceKey, layers);
        }
      }
      Step(SetSource(sources, source.(layers := layers)), if hasMap then [Engine.RemoveLayer(key)] else [])
  }

  /** The layer mount effect. Without an engine, a source key or a layer key
      it does nothing; otherwise the native layer is added under the
      qualified id with the source key as its source (the caller's options
      spread as they are, with nothing to insert beneath), and the entry is
      stored under the layer key, as the managed mount of the newest
      snapshot stores it. */
  function MountLayer(sources: Sources, sourceKey: string, layerKey: string,
                      layerOptions: Object<JsValue>, hasMap: bool): (r: Step<Sources>)
    ensures !hasMap || sourceKey == "" || layerKey == "" ==> r == Step(sources, [])
    ensures hasMap && sourceKey != "" && layerKey != "" ==>
      && |r.trace| == 1 && r.trace[0].AddLayer? && r.trace[0].beneath.None?
      && Get(r.trace[0].options, "id") == Some(Str(GetLayerName(sourceKey, layerKey)))
      && Get(r.trace[0].options, "source") == Some(Str(sourceKey))
      && (forall k :: k != "id" && k != "source" ==> Get(r.trace[0].options, k) == Get(layerOptions, k))
    ensures r.next == LayerBinder.MountLayer(sources, sourceKey, layerKey, true, layerOptions, None, hasMap).next
  {
    if !hasMap || sourceKey == "" || layerKey == "" then Step(sources, [])
    else
      var id := GetLayerName(sourceKey, layerKey);
      var options := Put(Put(layerOptions, "id", Str(id)), "source", Str(sourceKey));
      Step(SetLayer(sources, sourceKey, Layer(layerKey, NoHandlers)), [AddLayer(options, None)])
  }

  /** The layer's `destroy` as written: when its entry is still registered it
      calls `removeLayer` with the qualified id, although the entry is stored
      under the bare layer key. */
  function DestroyLayerAsWritten(sources: Sources, sourceKey: string, layerKey: string, hasMap: bool): (r: Step<Sources>)
    ensures SourceBinder.GetLayer(sources, sourceKey, layerKey).None? ==> r == Step(sources, [])
    ensures SourceBinder.GetLayer(sources, sourceKey, layerKey).Some? ==>
      r == RemoveLayer(sources, sourceKey, GetLayerName(sourceKey, layerKey), hasMap)
  {
    if SourceBinder.GetLayer(sources, sourceKey, layerKey).None? then Step(sources, [])
    else RemoveLayer(sources, sourceKey, GetLayerName(sourceKey, layerKey), hasMap)
  }

  /** The discrepancy: a layer mounted on a registered source and destroyed
      leaves its entry behind, so a second `destroy` (the one its source's
      teardown issues) removes the same native layer again. */
  lemma DestroyLeavesEntry(sources: Sources, sourceKey: string, layerKey: string, layerOptions: Object<JsValue>)
    requires WellFormed(sources) && IsSourceDefined(sources, sourceKey)
    requires sourceKey != "" && layerKey != ""
    ensures var m := MountLayer(sources, sourceKey, layerKey, layerOptions, true);
      var first := DestroyLayerAsWritten(m.next, sourceKey, layerKey, true);
      var second := DestroyLayerAsWritten(first.next, sourceKey, layerKey, true);
      && SourceBinder.GetLayer(first.next, sourceKey, layerKey) == Some(Layer(layerKey, NoHandlers))
      && first.trace == [Engine.RemoveLayer(GetLayerName(sourceKey, layerKey))]
      && second.trace == first.trace
  {
    var m := MountLayer(sources, sourceKey, layerKey, layerOptions, true);
    assert SourceBinder.GetLayer(m.next, sourceKey, layerKey) == Some(Layer(layerKey, NoHandlers));
    var first := DestroyLayerAsWritten(m.next, sourceKey, layerKey, true);
    assert IsSourceDefined(first.next, sourceKey);
  }

  /** The layer's `destroy` as evidently intended: the entry under the layer
      key is deleted and the native layer under the qualified id is removed.
      For a managed source it is the layer `destroy` of the newest snapshot. */
  function DestroyLayer(sources: Sources, sourceKey: string, layerKey: string, hasMap: bool): (r: Step<Sources>)
    ensures SourceBinder.GetLayer(sources, sourceKey, layerKey).None? ==> r == Step(sources, [])
    ensures SourceBinder.GetLayer(sources, sourceKey, layerKey).Some? ==>
      r.trace == (if hasMap then [Engine.RemoveLayer(GetLayerName(sourceKey, layerKey))] else [])
    ensures WellFormed(sources) ==> WellFormed(r.next) && SourceBinder.GetLayer(r.next, sourceKey, layerKey).None?
    ensures IsSourceDefined(sources, sourceKey) && GetSource(sources, sourceKey).value.managed ==>
      r == LayerBinder.DestroyLayer(sources, sourceKey, layerKey, hasMap)
  {
    if SourceBinder.GetLayer(sources, sourceKey, layerKey).None? then Step(sources, [])
    else
      var removed := RemoveLayer(sources, sourceKey, layerKey, hasMap);
      Step(removed.next, if hasMap then [Engine.RemoveLayer(GetLayerName(sourceKey, layerKey))] else [])
  }

  /** With the corrected `destroy`, mounting a fresh layer and destroying it
      restores the registry exactly and removes the native layer the mount
      added. */
  lemma MountThenDestroy(sources: Sources, sourceKey: string, layerKey: string, layerOptions: Object<JsValue>)
    requires WellFormed(sources) && IsSourceDefined(sources, sourceKey) && GetSource(sources, sourceKey).value.managed
    requires sourceKey != "" && layerKey != ""
    requires SourceBinder.GetLayer(sources, sourceKey, layerKey).None?
    ensures var m := MountLayer(sources, sourceKey, layerKey, layerOptions, true);
      var d := DestroyLayer(m.next, sourceKey, layerKey, true);
      && d.next == sources
      && d.trace == [Engine.RemoveLayer(GetLayerName(sourceKey, layerKey))]
      && Get(m.trace[0].options, "id") == Some(Str(GetLayerName(sourceKey, layerKey)))
  {
    var m := MountLayer(sources, sourceKey, layerKey, layerOptions, true);
    assert IsSourceDefined(m.next, sourceKey) && GetSource(m.next, sourceKey).value.managed;
    LayerBinder.MountThenDestroy(sources, sourceKey, layerKey, layerOptions, None);
  }

  /** Each listed layer's `destroy` as written, one after the other. */
  function DestroyLayersAsWritten(sources: Sources, sourceKey: string, layerKeys: seq<string>, hasMap: bool): (r: Step<Sources>)
    ensures WellFormed(sources) ==>
      && WellFormed(r.next)
      && (IsSourceDefined(sources, sourceKey) ==> IsSourceDefined(r.next, sourceKey))
      && (forall k :: k != sourceKey ==> GetSource(r.next, k) == GetSource(sources, k))
    decreases |layerKeys|
  {
    if |layerKeys| == 0 then Step(sources, [])
    else
      var first := DestroyLayerAsWritten(sources, sourceKey, layerKeys[0], hasMap);
      var rest := DestroyLayersAsWritten(first.next, sourceKey, layerKeys[1..], hasMap);
      Step(rest.next, first.trace + rest.trace)
  }

  /** The source's `destroy`: nothing for an unregistered source; otherwise
      the `destroy` of every entry of its layer map, then `removeSource`. */
  function DestroySource(sources: Sources, sourceKey: string, hasMap: bool): (r: Step<Sources>)
    ensures !IsSourceDefined(sources, sourceKey) ==> r == Step(sources, [])
    ensures !IsSourceDefined(r.next, sourceKey)
    ensures WellFormed(sources) ==>
      && WellFormed(r.next)
      && (forall k :: k != sourceKey ==> GetSource(r.next, k) == GetSource(sources, k))
      && (IsSourceDefined(sources, sourceKey) && hasMap ==>
            |r.trace| > 0 && r.trace[|r.trace| - 1] == Engine.RemoveSource(sourceKey))
  {
    match GetSource(sources, sourceKey)
    case None => Step(sources, [])
    case Some(source) =>
      var layers := DestroyLayersAsWritten(sources, sourceKey, Keys(source.layers), hasMap);
      var removed := Registry.RemoveSource(layers.next, sourceKey, hasMap);
      Step(removed.next, layers.trace + removed.trace)
  }

  /** The sources' `destroy` callbacks, in the order of `sourceKeys`, each
      seeing the registry the previous one left behind. */
  function DestroyAll(sources: Sources, sourceKeys: seq<string>, hasMap: bool): (r: Step<Sources>)
    ensures WellFormed(sources) ==>
      && WellFormed(r.next)
      && (forall k :: k in sourceKeys ==> !IsSourceDefined(r.next, k))
      && (forall k :: k !in sourceKeys ==> GetSource(r.next, k) == GetSource(sources, k))
    decreases |sourceKeys|
  {
    if |sourceKeys| == 0 then Step(sources, [])
    else
      var first := DestroySource(sources, sourceKeys[0], hasMap);
      var rest := DestroyAll(first.next, sourceKeys[1..], hasMap);
      assert forall k :: k in sourceKeys <==> k == sourceKeys[0] || k in sourceKeys[1..];
      Step(rest.next, first.trace + rest.trace)
  }

  /** A registry in which no key is registered is empty. */
  lemma NothingDefinedIsEmpty(sources: Sources)
    requires forall k :: !IsSourceDefined(sources, k)
    ensures sources == Empty
  {
    if |sources| > 0 {
      assert Keys(sources)[0] == sources[0].key;
      assert IsSourceDefined(sources, sources[0].key);
    }
  }

  /** Every teardown over all registered keys leaves the registry empty: the
      style switch and the unmount start over from nothing. */
  lemma DestroyAllClears(sources: Sources, hasMap: bool)
    requires WellFormed(sources)
    ensures DestroyAll(sources, Keys(sources), hasMap).next == Empty
  {
    var r := DestroyAll(sources, Keys(sources), hasMap);
    forall k ensures !IsSourceDefined(r.next, k) {
      assert IsSourceDefined(sources, k) <==> k in Keys(sources);
    }
    NothingDefinedIsEmpty(r.next);
  }

  /** The style switch: with an engine and a truthy style (neither missing
      nor empty), every registered source is destroyed (cascading to its
      layers) before the new style is set; a well-formed registry ends up
      empty. Otherwise nothing happens. */
  function StyleChange(sources: Sources, hasMap: bool, style: Option<string>): (r: Step<Sources>)
    ensures !hasMap || style.None? || style.value == "" ==> r == Step(sources, [])
    ensures hasMap && style.Some? && style.value != "" ==> |r.trace| > 0 && r.trace[|r.trace| - 1] == SetStyle(style.value)
    ensures hasMap && style.Some? && style.value != "" && WellFormed(sources) ==> r.next == Empty
  {
    if !hasMap || style.None? || style.value == "" then Step(sources, [])
    else
      var destroyed := DestroyAll(sources, Keys(sources), true);
      assert WellFormed(sources) ==> destroyed.next == Empty by {
        if WellFormed(sources) {
          DestroyAllClears(sources, true);
        }
      }
      Step(destroyed.next, destroyed.trace + [SetStyle(style.value)])
  }

  /** The engine's teardown: every registered source is destroyed, then the
      engine itself is removed; a well-formed registry ends up empty. */
  function Unmount(sources: Sources): (r: Step<Sources>)
    ensures |r.trace| > 0 && r.trace[|r.trace| - 1] == RemoveMap
    ensures WellFormed(sources) ==> r.next == Empty
  {
    var destroyed := DestroyAll(sources, Keys(sources), true);
    assert WellFormed(sources) ==> destroyed.next == Empty by {
      if WellFormed(sources) {
        DestroyAllClears(sources, true);
      }
    }
    Step(destroyed.next, destroyed.trace + [RemoveMap])
  }

  /** The GeoJSON effect as written: it reads `type` from the engine's
      source, which throws when the engine holds none under the key. */
  function UpdateGeoJsonAsWritten(sourceKey: string, geoJson: JsValue, engineSource: Option<EngineSource>,
                                  hasMap: bool, hasStyle: bool): (r: Result<seq<Effect>>)
    ensures r.Err? <==> hasMap && sourceKey != "" && Truthy(geoJson) && hasStyle && engineSource.None?
    ensures r.Ok? && r.value != [] <==> hasMap && sourceKey != "" && Truthy(geoJson) && hasStyle
                                        && Utils.IsGeoJSONSource(engineSource)
    ensures r.Ok? && r.value != [] ==> r.value == [SetData(sourceKey, geoJson)]
  {
    if !hasMap || sourceKey == "" || !Truthy(geoJson) || !hasStyle then Ok([])
    else if engineSource.None? then Err("TypeError: cannot read properties of undefined (reading 'type')")
    else if engineSource.value.kind == "geojson" then Ok([SetData(sourceKey, geoJson)])
    else Ok([])
  }

  /** The discrepancy: data arriving while the engine holds no source under
      the key (after a style switch, before the source is re-added) throws. */
  lemma GeoJsonUpdateCanThrow()
    ensures UpdateGeoJsonAsWritten("regions", Ref(1), None, true, true).Err?
  {
  }

  /** The GeoJSON effect as evidently intended: the engine's source is checked
      for presence before its type. It agrees with the code as written
      wherever that does not throw, and with the managed update of the newest
      snapshot everywhere. */
  function UpdateGeoJson(sourceKey: string, geoJson: JsValue, engineSource: Option<EngineSource>,
                         hasMap: bool, hasStyle: bool): (r: seq<Effect>)
    ensures UpdateGeoJsonAsWritten(sourceKey, geoJson, engineSource, hasMap, hasStyle).Ok? ==>
      r == UpdateGeoJsonAsWritten(sourceKey, geoJson, engineSource, hasMap, hasStyle).value
    ensures r == SourceBinder.UpdateGeoJson(sourceKey, geoJson, true, engineSource, hasMap, hasStyle)
  {
    if !hasMap || sourceKey == "" || !Truthy(geoJson) || !hasStyle then []
    else if Utils.IsGeoJSONSource(engineSource) then [SetData(sourceKey, geoJson)]
    else []
  }

  /** The feature-state effect's cleanup: unless the source was unregistered
      meanwhile, every attribute is unflagged again. Unlike the newest
      snapshot it does not ask whether the engine was destroyed. */
  function CleanupState(hasMap: bool, sourceKey: string, sourceLayer: Option<string>, key: string,
                        attributes: seq<FeatureState.Attribute>, sourceDefined: bool): (r: seq<Effect>)
    ensures r == FeatureState.CleanupState(hasMap, sourceKey, sourceLayer, key, attributes, false, sourceDefined)
  {
    if !hasMap || sourceKey == "" || !sourceDefined then []
    else FeatureState.Removes(sourceKey, sourceLayer, key, attributes)
  }

  /** The feature-state effect has no diffing: any change of its
      dependencies runs the cleanup the previous render captured (its source
      layer, attribute key and attributes) and the mount for the current
      ones. The engine and the source key come from the source binder and
      are the same on both sides. */
  function ChangeState(hasMap: bool, sourceKey: string, prevSourceLayer: Option<string>, sourceLayer: Option<string>,
                       prevKey: string, key: string, prev: seq<FeatureState.Attribute>, curr: seq<FeatureState.Attribute>,
                       sourceDefined: bool): (r: seq<Effect>)
    ensures !hasMap || sourceKey == "" ==> r == []
    ensures hasMap && sourceKey != "" ==>
      |r| == (if sourceDefined then |prev| else 0) + |curr|
  {
    CleanupState(hasMap, sourceKey, prevSourceLayer, prevKey, prev, sourceDefined)
      + FeatureState.MountState(hasMap, sourceKey, sourceLayer, key, curr)
  }

  /** After a change, every current attribute's entry holds its value, the
      previous attributes' entries (under the previous key) that no current
      one re-addresses are gone, and every other entry is as it was: with an
      unchanged key, the same state the newest snapshot's diffing update
      reaches. */
  lemma ChangeReachesCurrent(st: FeatureStates, sourceKey: string, prevSourceLayer: Option<string>, sourceLayer: Option<string>,
                             prevKey: string, key: string, prev: seq<FeatureState.Attribute>, curr: seq<FeatureState.Attribute>)
    requires sourceKey != "" && FeatureState.DistinctIds(curr)
    ensures var after := Apply(st, ChangeState(true, sourceKey, prevSourceLayer, sourceLayer, prevKey, key, prev, curr, true));
      && after == (st - FeatureState.SlotsOf(sourceKey, prevSourceLayer, prevKey, prev))
                  + FeatureState.Assigned(sourceKey, sourceLayer, key, curr)
      && (forall a :: a in curr ==>
            FeatureState.SlotFor(sourceKey, sourceLayer, key, a) in after
            && after[FeatureState.SlotFor(sourceKey, sourceLayer, key, a)] == a.value)
  {
    var cleanup := CleanupState(true, sourceKey, prevSourceLayer, prevKey, prev, true);
    var mount := FeatureState.MountState(true, sourceKey, sourceLayer, key, curr);
    ApplyAppend(st, cleanup, mount);
    FeatureState.ApplyRemoves(st, sourceKey, prevSourceLayer, prevKey, prev);
    FeatureState.ApplySets(st - FeatureState.SlotsOf(sourceKey, prevSourceLayer, prevKey, prev), sourceKey, sourceLayer, key, curr);
    FeatureState.AssignedValues(sourceKey, sourceLayer, key, curr);
  }

  /** `usePrevious`: during each render the ref still holds the value of the
      render before, or the initial value during the first. */
  function UsePrevious<T>(initial: T, values: seq<T>): (r: seq<T>)
    ensures r == FeatureState.PreviousValues(initial, values)
  {
    if |values| == 0 then [] else [initial] + values[..|values| - 1]
  }
}
