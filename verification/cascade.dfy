/** A source binder's `destroy` capability (lib/src/MapSource/index.tsx):
    every layer registered under the source is destroyed, in the layer map's
    order, before the source itself is removed. */
module Cascade {
  import opened Wrappers
  import opened JsObject
  import opened Engine
  import opened Registry
  import SourceBinder
  import LayerBinder
  import Utils

  /** Each layer's `destroy`, one after the other, each seeing the registry
      the previous one left behind. */
  function DestroyLayers(sources: Sources, sourceKey: string, layerKeys: seq<string>, hasMap: bool): (r: Step<Sources>)
    ensures WellFormed(sources) ==>
      && WellFormed(r.next)
      && forall k :: k != sourceKey ==> GetSource(r.next, k) == GetSource(sources, k)
    decreases |layerKeys|
  {
    if |layerKeys| == 0 then Step(sources, [])
    else
      var first := LayerBinder.DestroyLayer(sources, sourceKey, layerKeys[0], hasMap);
      LayerBinder.DestroyLayerIsRemoveLayer(sources, sourceKey, layerKeys[0], hasMap);
      var rest := DestroyLayers(first.next, sourceKey, layerKeys[1..], hasMap);
      Step(rest.next, first.trace + rest.trace)
  }

  /** The native layer removals a cascade over `layerKeys` issues: one per
      key, in order, when `enabled` (an engine and a managed source). */
  function NativeLayerRemovals(sourceKey: string, layerKeys: seq<string>, enabled: bool): (r: seq<Effect>)
    ensures enabled ==> |r| == |layerKeys|
    ensures !enabled ==> r == []
  {
    if !enabled then []
    else
      seq(|layerKeys|, i requires 0 <= i < |layerKeys| =>
        Engine.RemoveLayer(Utils.GetLayerName(sourceKey, layerKeys[i], true)))
  }

  /** Destroying the first layer of a registered source drops exactly that
      layer from its map. */
  lemma DestroyFirstLayer(sources: Sources, sourceKey: string, hasMap: bool)
    requires WellFormed(sources) && GetSource(sources, sourceKey).Some?
    requires |GetSource(sources, sourceKey).value.layers| > 0
    ensures var source := GetSource(sources, sourceKey).value;
      var k := source.layers[0].key;
      var first := LayerBinder.DestroyLayer(sources, sourceKey, k, hasMap);
      && WellFormed(first.next)
      && GetSource(first.next, sourceKey) == Some(source.(layers := source.layers[1..]))
      && first.trace == NativeLayerRemovals(sourceKey, [k], hasMap && source.managed)
  {
    var source := GetSource(sources, sourceKey).value;
    EntryWellFormed(sources, sourceKey);
    var k := source.layers[0].key;
    assert Keys(source.layers)[0] == k;
    LayerBinder.DestroyLayerIsRemoveLayer(sources, sourceKey, k, hasMap);
    DeleteFirstOfUnique(source.layers);
  }

  /** The removals for a list of keys are those for its head, then its tail. */
  lemma NativeLayerRemovalsCons(sourceKey: string, layerKeys: seq<string>, enabled: bool)
    requires |layerKeys| > 0
    ensures NativeLayerRemovals(sourceKey, layerKeys, enabled)
         == NativeLayerRemovals(sourceKey, [layerKeys[0]], enabled) + NativeLayerRemovals(sourceKey, layerKeys[1..], enabled)
  {
  }

  /** Destroying the layers of a registered source, in the order of its layer
      map, empties that map and removes each native layer once, in order. */
  lemma {:induction false} DestroyLayersEmptiesSource(sources: Sources, sourceKey: string, layerKeys: seq<string>, hasMap: bool)
    requires WellFormed(sources) && GetSource(sources, sourceKey).Some?
    requires Keys(GetSource(sources, sourceKey).value.layers) == layerKeys
    ensures var source := GetSource(sources, sourceKey).value;
      var r := DestroyLayers(sources, sourceKey, layerKeys, hasMap);
      && GetSource(r.next, sourceKey) == Some(source.(layers := []))
      && r.trace == NativeLayerRemovals(sourceKey, layerKeys, hasMap && source.managed)
    decreases |layerKeys|
  {
    var source := GetSource(sources, sourceKey).value;
    if |layerKeys| == 0 {
      assert |source.layers| == 0;
      assert source.(layers := []) == source;
    } else {
      assert source.layers[0].key == layerKeys[0];
      DestroyFirstLayer(sources, sourceKey, hasMap);
      var first := LayerBinder.DestroyLayer(sources, sourceKey, layerKeys[0], hasMap);
      assert Keys(source.layers[1..]) == layerKeys[1..];
      DestroyLayersEmptiesSource(first.next, sourceKey, layerKeys[1..], hasMap);
      NativeLayerRemovalsCons(sourceKey, layerKeys, hasMap && source.managed);
    }
  }

  /** `destroy()` of a source binder: nothing for an unregistered source;
      otherwise every registered layer is destroyed and then the source is
      removed. */
  function DestroySource(sources: Sources, sourceKey: string, hasMap: bool): (r: Step<Sources>)
    ensures !IsSourceDefined(sources, sourceKey) ==> r == Step(sources, [])
    ensures !IsSourceDefined(r.next, sourceKey)
    ensures WellFormed(sources) ==>
      && WellFormed(r.next)
      && forall k :: k != sourceKey ==> GetSource(r.next, k) == GetSource(sources, k)
  {
    match GetSource(sources, sourceKey)
    case None => Step(sources, [])
    case Some(source) =>
      var layers := DestroyLayers(sources, sourceKey, Keys(source.layers), hasMap);
      var removed := Registry.RemoveSource(layers.next, sourceKey, hasMap);
      Step(removed.next, layers.trace + removed.trace)
  }

  /** In a well-formed registry, destroying a source removes each of its
      native layers (for a managed source, with an engine) strictly before
      the native source, and nothing else. */
  lemma DestroySourceCascades(sources: Sources, sourceKey: string, hasMap: bool)
    requires WellFormed(sources) && GetSource(sources, sourceKey).Some?
    ensures var source := GetSource(sources, sourceKey).value;
      DestroySource(sources, sourceKey, hasMap).trace
        == NativeLayerRemovals(sourceKey, Keys(source.layers), hasMap && source.managed)
           + (if hasMap then [Engine.RemoveSource(sourceKey)] else [])
  {
    var source := GetSource(sources, sourceKey).value;
    DestroyLayersEmptiesSource(sources, sourceKey, Keys(source.layers), hasMap);
  }
}
