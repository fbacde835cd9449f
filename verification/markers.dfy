/** Cluster markers of a source binder (`updateMarkers` in
    lib/src/MapSource/index.tsx): a DOM marker is kept for every cluster
    point the engine currently renders from the source. Markers are
    represented by their cluster ids. */
module Markers {
  import opened JsObject
  import opened Engine

  /** A feature returned by `querySourceFeatures`, reduced to what the diff
      reads: whether it is a point, whether it has properties, its `cluster`
      property and the property key its `cluster_id` converts to. */
  datatype SourceFeature = SourceFeature(isPoint: bool, hasProperties: bool, cluster: JsValue, clusterId: string)

  /** A point feature with a truthy `cluster` property. */
  predicate IsCluster(f: SourceFeature) {
    f.isPoint && f.hasProperties && Truthy(f.cluster)
  }

  /** The cluster ids among `features`. */
  function ClusterIds(features: seq<SourceFeature>): set<string>
    decreases |features|
  {
    if |features| == 0 then {}
    else
      var last := features[|features| - 1];
      ClusterIds(features[..|features| - 1]) + (if IsCluster(last) then {last.clusterId} else {})
  }

  predicate NoDuplicates(ids: seq<string>) {
    forall i, j :: 0 <= i < j < |ids| ==> ids[i] != ids[j]
  }

  /** The marker refs: the ids a marker was ever created for (the cache) and
      the ids on screen, in insertion order. */
  datatype MarkerState = MarkerState(created: set<string>, onScreen: seq<string>)

  /** `updateMarkers`. Without an engine, a marker factory or a source key it
      does nothing. Otherwise the on-screen markers become exactly the
      rendered cluster ids: a marker is created the first time its id is
      seen, added when its id was not on screen, and every id that was on
      screen but is no longer rendered is removed. */
  method UpdateMarkers(m: MarkerState, sourceKey: string, features: seq<SourceFeature>, hasMap: bool, hasFactory: bool)
    returns (next: MarkerState, trace: seq<Effect>)
    ensures !hasMap || !hasFactory || sourceKey == "" ==> next == m && trace == []
    ensures hasMap && hasFactory && sourceKey != "" ==>
      && (forall id :: id in next.onScreen <==> id in ClusterIds(features))
      && NoDuplicates(next.onScreen)
      && next.created == m.created + ClusterIds(features)
      && (forall id :: CreateMarker(id) in trace <==> id in ClusterIds(features) && id !in m.created)
      && (forall id :: AddMarker(id) in trace <==> id in ClusterIds(features) && id !in m.onScreen)
      && (forall id :: RemoveMarker(id) in trace <==> id in m.onScreen && id !in ClusterIds(features))
      && (forall e :: e in trace ==> e.CreateMarker? || e.AddMarker? || e.RemoveMarker?)
  {
    if !hasMap || !hasFactory || sourceKey == "" {
      return m, [];
    }
    var rendered: seq<string> := [];
    var created := m.created;
    trace := [];
    var i := 0;
    while i < |features|
      invariant 0 <= i <= |features|
      invariant forall id :: id in rendered <==> id in ClusterIds(features[..i])
      invariant NoDuplicates(rendered)
      invariant created == m.created + ClusterIds(features[..i])
      invariant forall id :: CreateMarker(id) in trace <==> id in ClusterIds(features[..i]) && id !in m.created
      invariant forall id :: AddMarker(id) in trace <==> id in ClusterIds(features[..i]) && id !in m.onScreen
      invariant forall e :: e in trace ==> e.CreateMarker? || e.AddMarker?
    {
      var f := features[i];
      if IsCluster(f) {
        if f.clusterId !in created {
          trace := trace + [CreateMarker(f.clusterId)];
          created := created + {f.clusterId};
        }
        if f.clusterId !in rendered {
          rendered := rendered + [f.clusterId];
        }
        if f.clusterId !in m.onScreen {
          trace := trace + [AddMarker(f.clusterId)];
        }
      }
      assert features[..i + 1][..i] == features[..i];
      i := i + 1;
    }
    assert features[..i] == features;
    var j := 0;
    while j < |m.onScreen|
      invariant 0 <= j <= |m.onScreen|
      invariant forall id :: CreateMarker(id) in trace <==> id in ClusterIds(features) && id !in m.created
      invariant forall id :: AddMarker(id) in trace <==> id in ClusterIds(features) && id !in m.onScreen
      invariant forall id :: RemoveMarker(id) in trace <==> id in m.onScreen[..j] && id !in ClusterIds(features)
      invariant forall e :: e in trace ==> e.CreateMarker? || e.AddMarker? || e.RemoveMarker?
    {
      if m.onScreen[j] !in rendered {
        trace := trace + [RemoveMarker(m.onScreen[j])];
      }
      assert m.onScreen[..j + 1] == m.onScreen[..j] + [m.onScreen[j]];
      j := j + 1;
    }
    assert m.onScreen[..j] == m.onScreen;
    next := MarkerState(created, rendered);
  }
}
