/** The source binder (`MapSource` in lib/src/MapSource/index.tsx): it
    registers a source with the coordinator and offers its layer binders the
    layer accessors `getLayer`, `setLayer` and `removeLayer`, all of which
    read and write the coordinator's registry. */
module SourceBinder {
  import opened Wrappers
  import opened JsObject
  import opened Engine
  import opened Registry
  import Utils

  /** `getLayer(layerKey)`: the entry under `layerKey` in this source's layer
      map; absent when the source itself is not registered. */
  function GetLayer(sources: Sources, sourceKey: string, layerKey: string): (r: Option<Layer>)
    ensures r.Some? ==> IsSourceDefined(sources, sourceKey)
    ensures IsSourceDefined(sources, sourceKey) ==>
      (r.Some? <==> Has(GetSource(sources, sourceKey).value.layers, layerKey))
  {
    match GetSource(sources, sourceKey)
    case None => None
    case Some(source) => Get(source.layers, layerKey)
  }

  /** Writing a new layer map into a registered entry of a well-formed
      registry touches only that entry and keeps the registry well formed. */
  lemma ReplaceLayers(sources: Sources, sourceKey: string, layers: Object<Layer>)
    requires WellFormed(sources) && IsSourceDefined(sources, sourceKey) && UniqueKeys(layers)
    ensures var source := GetSource(sources, sourceKey).value;
      var r := SetSource(sources, source.(layers := layers));
      && WellFormed(r)
      && GetSource(r, sourceKey) == Some(source.(layers := layers))
      && forall k :: k != sourceKey ==> GetSource(r, k) == GetSource(sources, k)
  {
    EntryWellFormed(sources, sourceKey);
  }

  /** `setLayer(name, f)`: nothing happens when the source is not registered;
      otherwise `f` receives the current entry under `name`, a defined answer
      is stored there and an undefined one deletes the slot. */
  function SetLayer(sources: Sources, sourceKey: string, name: string, f: Option<Layer> -> Option<Layer>): (r: Sources)
    ensures !IsSourceDefined(sources, sourceKey) ==> r == sources
    ensures WellFormed(sources) && IsSourceDefined(sources, sourceKey) ==>
      && WellFormed(r)
      && GetLayer(r, sourceKey, name) == f(GetLayer(sources, sourceKey, name))
      && (forall k :: k != name ==> GetLayer(r, sourceKey, k) == GetLayer(sources, sourceKey, k))
      && GetSource(r, sourceKey).Some?
      && GetSource(r, sourceKey).value.managed == GetSource(sources, sourceKey).value.managed
      && (forall k :: k != sourceKey ==> GetSource(r, k) == GetSource(sources, k))
  {
    match GetSource(sources, sourceKey)
    case None => sources
    case Some(source) =>
      var value := f(Get(source.layers, name));
      var layers := if value.Some? then Put(source.layers, name, value.value) else Delete(source.layers, name);
      PutKeepsUnique(source.layers, name, value.GetOr(Layer(name, NoHandlers)));
      DeleteKeepsUnique(source.layers, name);
      assert WellFormed(sources) ==> UniqueKeys(layers) by {
        if WellFormed(sources) {
          EntryWellFormed(sources, sourceKey);
        }
      }
      assert WellFormed(sources) ==>
        && WellFormed(SetSource(sources, source.(layers := layers)))
        && GetSource(SetSource(sources, source.(layers := layers)), sourceKey) == Some(source.(layers := layers))
      by {
        if WellFormed(sources) {
          ReplaceLayers(sources, sourceKey, layers);
        }
      }
      SetSource(sources, source.(layers := layers))
  }

  /** `removeLayer(layerKey)`: nothing happens when the source or the layer is
      not registered; otherwise the native layer is removed (only when the
      engine exists and the source is managed, the engine holding no layer of
      an unmanaged source under this binder's name) and the slot is deleted. */
  function RemoveLayer(sources: Sources, sourceKey: string, layerKey: string, hasMap: bool): (r: Step<Sources>)
    ensures GetLayer(sources, sourceKey, layerKey).None? ==> r == Step(sources, [])
    ensures GetLayer(sources, sourceKey, layerKey).Some? ==>
      r.trace == if hasMap && GetSource(sources, sourceKey).value.managed
        then [Engine.RemoveLayer(Utils.GetLayerName(sourceKey, layerKey, true))]
        else []
    ensures WellFormed(sources) && GetLayer(sources, sourceKey, layerKey).Some? ==>
      && WellFormed(r.next)
      && GetSource(r.next, sourceKey) == Some(GetSource(sources, sourceKey).value.(
           layers := Delete(GetSource(sources, sourceKey).value.layers, layerKey)))
      && GetLayer(r.next, sourceKey, layerKey).None?
      && (forall k :: k != layerKey ==> GetLayer(r.next, sourceKey, k) == GetLayer(sources, sourceKey, k))
      && (forall k :: k != sourceKey ==> GetSource(r.next, k) == GetSource(sources, k))
  {
    match GetSource(sources, sourceKey)
    case None => Step(sources, [])
    case Some(source) =>
      if !Has(source.layers, layerKey) then Step(sources, [])
      else
        var trace := if hasMap && source.managed
          then [Engine.RemoveLayer(Utils.GetLayerName(sourceKey, layerKey, source.managed))]
          else [];
        var layers := Delete(source.layers, layerKey);
        assert WellFormed(sources) ==>
          && WellFormed(SetSource(sources, source.(layers := layers)))
          && GetSource(SetSource(sources, source.(layers := layers)), sourceKey) == Some(source.(layers := layers))
        by {
          if WellFormed(sources) {
            EntryWellFormed(sources, sourceKey);
            DeleteKeepsUnique(source.layers, layerKey);
            ReplaceLayers(sources, sourceKey, layers);
          }
        }
        Step(SetSource(sources, source.(layers := layers)), trace)
  }

  /** On a registered layer, `removeLayer` leaves the registry exactly as
      `setLayer` with a callback answering `undefined` does. */
  lemma RemoveLayerIsSetLayerUndefined(sources: Sources, sourceKey: string, layerKey: string, hasMap: bool)
    requires GetLayer(sources, sourceKey, layerKey).Some?
    ensures RemoveLayer(sources, sourceKey, layerKey, hasMap).next
         == SetLayer(sources, sourceKey, layerKey, (_: Option<Layer>) => None)
  {
  }

  /** The options handed to `addSource`: a GeoJSON specification gets the
      initial data merged in under `data`, any other passes unchanged. */
  function SourceOptions(options: Object<JsValue>, initialGeoJson: JsValue): (r: Object<JsValue>)
    ensures Utils.IsGeoJSONSourceSpecification(Some(options)) ==>
      && Get(r, "data") == Some(initialGeoJson)
      && forall k :: k != "data" ==> Get(r, k) == Get(options, k)
    ensures !Utils.IsGeoJSONSourceSpecification(Some(options)) ==> r == options
    ensures Utils.IsGeoJSONSourceSpecification(Some(r)) == Utils.IsGeoJSONSourceSpecification(Some(options))
  {
    if Utils.IsGeoJSONSourceSpecification(Some(options)) then Put(options, "data", initialGeoJson) else options
  }

  /** The registration effect. It does nothing without an engine, a source
      key or a style. A managed source with options is added to the engine
      (a throwing `addSource` is caught and logged, so registration goes on
      either way); the source is then registered with an empty layer map. */
  function RegisterSource(
    sources: Sources, sourceKey: string, managed: bool, sourceOptions: Option<Object<JsValue>>,
    initialGeoJson: JsValue, hasMap: bool, hasStyle: bool): (r: Step<Sources>)
    ensures !hasMap || sourceKey == "" || !hasStyle ==> r == Step(sources, [])
    ensures hasMap && sourceKey != "" && hasStyle ==>
      && GetSource(r.next, sourceKey) == Some(Source(sourceKey, managed, []))
      && (forall k :: k != sourceKey ==> GetSource(r.next, k) == GetSource(sources, k))
      && (WellFormed(sources) ==> WellFormed(r.next))
      && r.trace == if managed && sourceOptions.Some?
           then [AddSource(sourceKey, SourceOptions(sourceOptions.value, initialGeoJson))]
           else []
  {
    if !hasMap || sourceKey == "" || !hasStyle then Step(sources, [])
    else
      var trace := if managed && sourceOptions.Some?
        then [AddSource(sourceKey, SourceOptions(sourceOptions.value, initialGeoJson))]
        else [];
      Step(SetSource(sources, Source(sourceKey, managed, [])), trace)
  }

  /** The GeoJSON update effect: `setData` is called only for a managed
      source with a style and truthy data whose engine source exists and is a
      GeoJSON source. */
  function UpdateGeoJson(
    sourceKey: string, geoJson: JsValue, managed: bool, engineSource: Option<EngineSource>,
    hasMap: bool, hasStyle: bool): (r: seq<Effect>)
    ensures r != [] ==> r == [SetData(sourceKey, geoJson)]
    ensures r != [] <==> hasMap && sourceKey != "" && Truthy(geoJson) && hasStyle && managed
                         && Utils.IsGeoJSONSource(engineSource)
  {
    if !hasMap || sourceKey == "" || !Truthy(geoJson) || !hasStyle || !managed then []
    else if engineSource.Some? && Utils.IsGeoJSONSource(engineSource) then [SetData(sourceKey, geoJson)]
    else []
  }

  /** Children are rendered only while the source is registered. */
  predicate RendersChildren(sources: Sources, sourceKey: string) {
    IsSourceDefined(sources, sourceKey)
  }

  /** Once registered, a source renders its children, and its layer map
      starts empty. */
  lemma RegisteredSourceRendersChildren(
    sources: Sources, sourceKey: string, managed: bool, sourceOptions: Option<Object<JsValue>>,
    initialGeoJson: JsValue, layerKey: string)
    requires sourceKey != ""
    ensures var r := RegisterSource(sources, sourceKey, managed, sourceOptions, initialGeoJson, true, true);
      RendersChildren(r.next, sourceKey) && GetLayer(r.next, sourceKey, layerKey).None?
  {
  }
}
