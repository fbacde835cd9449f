/** The coordinator's registry of declared sources and their layers
    (`sourcesRef` in lib/src/Map.tsx), its copy-on-write accessors, and the
    flattening the pointer-event handlers walk to resolve a hit feature's
    native layer id back to its registry entry. */
module Registry {
  import opened Wrappers
  import opened JsObject
  import opened Engine
  import Utils

  /** The behaviour a layer binder pushes into its registry entry. */
  datatype Handlers = Handlers(
    hoverable: bool,
    onClick: Option<Handler>,
    onDoubleClick: Option<Handler>,
    onMouseEnter: Option<Handler>,
    onMouseLeave: Option<Handler>,
    onDrag: Option<Handler>,
    onDragEnd: Option<Handler>)

  /** A freshly registered layer carries no handlers and is not hoverable. */
  const NoHandlers: Handlers := Handlers(false, None, None, None, None, None, None)

  /** A layer registry entry. Its `destroy` capability is modelled by
      `LayerBinder.DestroyLayer`, keyed by the entry's source and name. */
  datatype Layer = Layer(name: string, handlers: Handlers)

  /** A source registry entry. Its `destroy` capability is modelled by
      `SourceBinder.DestroySource`. */
  datatype Source = Source(name: string, managed: bool, layers: Object<Layer>)

  /** The registry: source key to source entry, in registration order. */
  type Sources = Object<Source>

  /** An entry is stored under its own name (the key `setSource` writes) and
      its layer map is a genuine object. */
  predicate SourceWellFormed(p: Prop<Source>) {
    p.value.name == p.key && UniqueKeys(p.value.layers)
  }

  /** The shape every registry operation keeps. */
  predicate WellFormed(sources: Sources) {
    && UniqueKeys(sources)
    && forall i :: 0 <= i < |sources| ==> SourceWellFormed(sources[i])
  }

  /** The empty registry, as after a style change or a teardown. */
  const Empty: Sources := []

  lemma EmptyWellFormed()
    ensures WellFormed(Empty)
  {
  }

  /** `getSource(sourceKey)` */
  function GetSource(sources: Sources, sourceKey: string): Option<Source> {
    Get(sources, sourceKey)
  }

  /** `isSourceDefined(sourceKey)`: a membership test, which agrees with `getSource`. */
  function IsSourceDefined(sources: Sources, sourceKey: string): (defined: bool)
    ensures defined <==> GetSource(sources, sourceKey).Some?
  {
    Has(sources, sourceKey)
  }

  /** `setSource(source)`: upsert by the entry's own name. */
  function SetSource(sources: Sources, source: Source): (r: Sources)
    ensures GetSource(r, source.name) == Some(source)
    ensures forall k :: k != source.name ==> GetSource(r, k) == GetSource(sources, k)
    ensures WellFormed(sources) && SourceWellFormed(Prop(source.name, source)) ==> WellFormed(r)
  {
    var r := Put(sources, source.name, source);
    PutKeepsUnique(sources, source.name, source);
    assert forall p :: p in r ==> p in sources || p == Prop(source.name, source);
    assert forall i :: 0 <= i < |r| ==> r[i] in r;
    r
  }

  /** `removeSource(sourceKey)`: a no-op for an unknown key; otherwise the key
      is dropped and, when the engine exists, its native source removed. */
  function RemoveSource(sources: Sources, sourceKey: string, hasMap: bool): (r: Step<Sources>)
    ensures !IsSourceDefined(sources, sourceKey) ==> r == Step(sources, [])
    ensures IsSourceDefined(sources, sourceKey) ==>
      && !IsSourceDefined(r.next, sourceKey)
      && r.trace == (if hasMap then [Engine.RemoveSource(sourceKey)] else [])
    ensures forall k :: k != sourceKey ==> GetSource(r.next, k) == GetSource(sources, k)
    ensures WellFormed(sources) ==> WellFormed(r.next)
  {
    if !IsSourceDefined(sources, sourceKey) then Step(sources, [])
    else
      var next := Delete(sources, sourceKey);
      DeleteKeepsUnique(sources, sourceKey);
      assert forall i :: 0 <= i < |next| ==> next[i] in next;
      Step(next, if hasMap then [Engine.RemoveSource(sourceKey)] else [])
  }

  /** In a well-formed registry an entry found under a key carries that key
      as its name and has a genuine layer map. */
  lemma EntryWellFormed(sources: Sources, sourceKey: string)
    requires WellFormed(sources) && IsSourceDefined(sources, sourceKey)
    ensures GetSource(sources, sourceKey).value.name == sourceKey
    ensures UniqueKeys(GetSource(sources, sourceKey).value.layers)
  {
    var i :| 0 <= i < |sources| && sources[i].key == sourceKey
      && sources[i].value == GetSource(sources, sourceKey).value;
    assert SourceWellFormed(sources[i]);
  }

  /** A registry entry flattened for hit-testing: the layer entry, the key of
      its source and its native id (which the engine reports on features). */
  datatype ExtendedLayer = ExtendedLayer(layer: Layer, sourceKey: string, layerKey: string)

  /** Flattening of one (source, layer) pair. */
  function Extend(source: Prop<Source>, layer: Prop<Layer>): ExtendedLayer {
    ExtendedLayer(layer.value, source.key, Utils.GetLayerName(source.key, layer.key, source.value.managed))
  }

  /** Flattening of one source's layers, in their order. */
  function ExtendLayers(source: Prop<Source>): seq<ExtendedLayer> {
    seq(|source.value.layers|, j requires 0 <= j < |source.value.layers| => Extend(source, source.value.layers[j]))
  }

  /** The number of (source, layer) pairs in the registry. */
  function LayerCount(sources: Sources): nat {
    if |sources| == 0 then 0 else |sources[0].value.layers| + LayerCount(sources[1..])
  }

  /** `e` is the flattening of some (source, layer) pair of the registry. */
  ghost predicate IsRegistered(sources: Sources, e: ExtendedLayer) {
    exists i, j :: 0 <= i < |sources| && 0 <= j < |sources[i].value.layers|
      && e == Extend(sources[i], sources[i].value.layers[j])
  }

  /** `getLayersForSources`: one entry per (source, layer) pair, each carrying
      its source key, the layer's native id and the layer's handlers. */
  function GetLayersForSources(sources: Sources): (r: seq<ExtendedLayer>)
    ensures |r| == LayerCount(sources)
    ensures forall e :: e in r <==> IsRegistered(sources, e)
  {
    if |sources| == 0 then []
    else
      var head := ExtendLayers(sources[0]);
      var tail := GetLayersForSources(sources[1..]);
      var r := head + tail;
      forall e
        ensures e in r <==> IsRegistered(sources, e)
      {
        if e in head {
          var j :| 0 <= j < |head| && head[j] == e;
          assert e == Extend(sources[0], sources[0].value.layers[j]);
        }
        if e in tail {
          var i, j :| 0 <= i < |sources[1..]| && 0 <= j < |sources[1..][i].value.layers|
            && e == Extend(sources[1..][i], sources[1..][i].value.layers[j]);
          assert sources[1..][i] == sources[i + 1];
        }
        if IsRegistered(sources, e) {
          var i, j :| 0 <= i < |sources| && 0 <= j < |sources[i].value.layers|
            && e == Extend(sources[i], sources[i].value.layers[j]);
          if i == 0 {
            assert head[j] == e;
          } else {
            assert sources[1..][i - 1] == sources[i];
            assert IsRegistered(sources[1..], e);
          }
        }
      }
      r
  }

  /** `findLayerFromLayers`: the first flattened entry with the given native id. */
  function FindLayerFromLayers(layers: seq<ExtendedLayer>, layerKey: string): (r: Option<ExtendedLayer>)
    ensures r.None? <==> forall e :: e in layers ==> e.layerKey != layerKey
    ensures r.Some? ==> r.value.layerKey == layerKey
    ensures r.Some? ==> (exists i :: 0 <= i < |layers| && layers[i] == r.value
                          && forall j :: 0 <= j < i ==> layers[j].layerKey != layerKey)
  {
    if |layers| == 0 then None
    else if layers[0].layerKey == layerKey then Some(layers[0])
    else
      var r := FindLayerFromLayers(layers[1..], layerKey);
      assert forall e :: e in layers ==> e == layers[0] || e in layers[1..];
      assert r.Some? ==> (exists i :: 0 <= i < |layers| && layers[i] == r.value
                           && forall j :: 0 <= j < i ==> layers[j].layerKey != layerKey)
      by {
        if r.Some? {
          var i :| 0 <= i < |layers[1..]| && layers[1..][i] == r.value
            && forall j :: 0 <= j < i ==> layers[1..][j].layerKey != layerKey;
          assert layers[i + 1] == r.value;
        }
      }
      r
  }

  /** The registry entry the handlers resolve a native layer id to. */
  function ResolveLayer(sources: Sources, layerKey: string): Option<ExtendedLayer> {
    FindLayerFromLayers(GetLayersForSources(sources), layerKey)
  }

  /** A native id resolves exactly when some registered pair qualifies to it,
      and it resolves to such a pair. */
  lemma ResolveLayerFindsRegistered(sources: Sources, layerKey: string)
    ensures ResolveLayer(sources, layerKey).Some? ==>
      IsRegistered(sources, ResolveLayer(sources, layerKey).value)
      && ResolveLayer(sources, layerKey).value.layerKey == layerKey
    ensures (exists e :: IsRegistered(sources, e) && e.layerKey == layerKey) ==>
      ResolveLayer(sources, layerKey).Some?
  {
    var flat := GetLayersForSources(sources);
    var r := ResolveLayer(sources, layerKey);
    if r.Some? {
      var i :| 0 <= i < |flat| && flat[i] == r.value && r.value.layerKey == layerKey;
      assert r.value in flat;
    }
    if e :| IsRegistered(sources, e) && e.layerKey == layerKey {
      assert e in flat;
    }
  }

  /** `(i, j)` names the `j`-th layer of the `i`-th source. */
  predicate IsPair(sources: Sources, i: int, j: int) {
    0 <= i < |sources| && 0 <= j < |sources[i].value.layers|
  }

  /** The flattening of the pair `(i, j)`. */
  function Pair(sources: Sources, i: int, j: int): ExtendedLayer
    requires IsPair(sources, i, j)
  {
    Extend(sources[i], sources[i].value.layers[j])
  }

  /** `(i', j')` comes before `(i, j)`: an earlier source, or an earlier layer
      of the same source. */
  predicate PairBefore(i': int, j': int, i: int, j: int) {
    i' < i || (i' == i && j' < j)
  }

  /** Where the `i`-th source's layers start in the flattening. */
  function Offset(sources: Sources, i: int): nat
    requires 0 <= i <= |sources|
  {
    LayerCount(sources[..i])
  }

  lemma {:induction false} LayerCountAppend(a: Sources, b: Sources)
    ensures LayerCount(a + b) == LayerCount(a) + LayerCount(b)
    decreases |a|
  {
    if |a| > 0 {
      assert (a + b)[1..] == a[1..] + b;
      LayerCountAppend(a[1..], b);
    } else {
      assert a + b == b;
    }
  }

  lemma OffsetStep(sources: Sources, i: int)
    requires 0 <= i < |sources|
    ensures Offset(sources, i + 1) == Offset(sources, i) + |sources[i].value.layers|
  {
    assert sources[..i + 1] == sources[..i] + [sources[i]];
    LayerCountAppend(sources[..i], [sources[i]]);
    assert [sources[i]][1..] == [];
  }

  lemma {:induction false} OffsetMonotone(sources: Sources, a: int, b: int)
    requires 0 <= a <= b <= |sources|
    ensures Offset(sources, a) <= Offset(sources, b)
    decreases b - a
  {
    if a < b {
      OffsetStep(sources, a);
      OffsetMonotone(sources, a + 1, b);
    }
  }

  /** Dropping the first source shifts every later offset by its layer count. */
  lemma OffsetShift(sources: Sources, i: int)
    requires 0 < i <= |sources|
    ensures Offset(sources, i) == |sources[0].value.layers| + Offset(sources[1..], i - 1)
  {
    assert sources[..i] == [sources[0]] + sources[1..][..i - 1];
    LayerCountAppend([sources[0]], sources[1..][..i - 1]);
    assert [sources[0]][1..] == [];
  }

  /** The pair `(i, j)` sits at position `Offset(i) + j` of the flattening. */
  lemma {:induction false} FlatAt(sources: Sources, i: int, j: int)
    requires IsPair(sources, i, j)
    ensures Offset(sources, i) + j < |GetLayersForSources(sources)|
    ensures GetLayersForSources(sources)[Offset(sources, i) + j] == Pair(sources, i, j)
    decreases |sources|
  {
    var head := ExtendLayers(sources[0]);
    var flat := GetLayersForSources(sources);
    assert flat == head + GetLayersForSources(sources[1..]);
    if i == 0 {
      assert sources[..0] == [];
      assert flat[j] == head[j];
    } else {
      assert sources[1..][i - 1] == sources[i];
      FlatAt(sources[1..], i - 1, j);
      OffsetShift(sources, i);
    }
  }

  /** Every position of the flattening is some pair's. */
  lemma {:induction false} FlatPosition(sources: Sources, k: int)
    requires 0 <= k < |GetLayersForSources(sources)|
    ensures exists i, j :: IsPair(sources, i, j) && Offset(sources, i) + j == k
    decreases |sources|
  {
    var head := ExtendLayers(sources[0]);
    assert GetLayersForSources(sources) == head + GetLayersForSources(sources[1..]);
    if k < |head| {
      assert sources[..0] == [];
      assert IsPair(sources, 0, k) && Offset(sources, 0) + k == k;
    } else {
      FlatPosition(sources[1..], k - |head|);
      var i, j :| IsPair(sources[1..], i, j) && Offset(sources[1..], i) + j == k - |head|;
      assert sources[1..][i] == sources[i + 1];
      OffsetShift(sources, i + 1);
      assert IsPair(sources, i + 1, j) && Offset(sources, i + 1) + j == k;
    }
  }

  /** An earlier pair sits at an earlier position of the flattening. */
  lemma OffsetsFollowPairs(sources: Sources, i': int, j': int, i: int, j: int)
    requires IsPair(sources, i', j') && IsPair(sources, i, j) && PairBefore(i', j', i, j)
    ensures Offset(sources, i') + j' < Offset(sources, i) + j
  {
    if i' < i {
      OffsetStep(sources, i');
      OffsetMonotone(sources, i' + 1, i);
    }
  }

  /** Position `k` of the flattening holds the pair that belongs there. */
  ghost predicate HoldsPairAt(sources: Sources, k: int)
    requires 0 <= k < |GetLayersForSources(sources)|
  {
    exists i, j :: IsPair(sources, i, j) && Offset(sources, i) + j == k
      && GetLayersForSources(sources)[k] == Pair(sources, i, j)
  }

  /** The flattening lists the sources in registry order and, within each
      source, its layers in layer-map order: pair `(i, j)` is at position
      `Offset(i) + j`, and every position holds exactly that pair. */
  lemma GetLayersForSourcesInOrder(sources: Sources)
    ensures forall i, j :: IsPair(sources, i, j) ==>
      && Offset(sources, i) + j < |GetLayersForSources(sources)|
      && GetLayersForSources(sources)[Offset(sources, i) + j] == Pair(sources, i, j)
    ensures forall k :: 0 <= k < |GetLayersForSources(sources)| ==> HoldsPairAt(sources, k)
    ensures forall i', j', i, j ::
      IsPair(sources, i', j') && IsPair(sources, i, j) && PairBefore(i', j', i, j) ==>
        Offset(sources, i') + j' < Offset(sources, i) + j
  {
    forall i, j | IsPair(sources, i, j)
      ensures Offset(sources, i) + j < |GetLayersForSources(sources)|
      ensures GetLayersForSources(sources)[Offset(sources, i) + j] == Pair(sources, i, j)
    {
      FlatAt(sources, i, j);
    }
    forall k | 0 <= k < |GetLayersForSources(sources)|
      ensures HoldsPairAt(sources, k)
    {
      FlatPosition(sources, k);
      var i, j :| IsPair(sources, i, j) && Offset(sources, i) + j == k;
      FlatAt(sources, i, j);
      assert GetLayersForSources(sources)[k] == Pair(sources, i, j);
    }
    forall i', j', i, j | IsPair(sources, i', j') && IsPair(sources, i, j) && PairBefore(i', j', i, j)
      ensures Offset(sources, i') + j' < Offset(sources, i) + j
    {
      OffsetsFollowPairs(sources, i', j', i, j);
    }
  }

  /** The pair at a first-match position of the flattening, and no earlier
      pair shares its native id. */
  lemma FirstMatchPair(sources: Sources, layerKey: string, k: int) returns (i: int, j: int)
    requires 0 <= k < |GetLayersForSources(sources)|
    requires forall m :: 0 <= m < k ==> GetLayersForSources(sources)[m].layerKey != layerKey
    ensures IsPair(sources, i, j) && GetLayersForSources(sources)[k] == Pair(sources, i, j)
    ensures forall i', j' :: IsPair(sources, i', j') && PairBefore(i', j', i, j) ==>
      Pair(sources, i', j').layerKey != layerKey
  {
    FlatPosition(sources, k);
    i, j :| IsPair(sources, i, j) && Offset(sources, i) + j == k;
    FlatAt(sources, i, j);
    forall i', j' | IsPair(sources, i', j') && PairBefore(i', j', i, j)
      ensures Pair(sources, i', j').layerKey != layerKey
    {
      FlatAt(sources, i', j');
      OffsetsFollowPairs(sources, i', j', i, j);
    }
  }

  /** Resolution is first-match in registry order: a native id resolves to the
      registered pair with the least (source index, layer index) among those
      qualifying to it. Native ids can collide, so which pair wins matters. */
  lemma ResolveLayerIsFirstPair(sources: Sources, layerKey: string)
    ensures ResolveLayer(sources, layerKey).Some? ==>
      exists i, j :: IsPair(sources, i, j)
        && ResolveLayer(sources, layerKey).value == Pair(sources, i, j)
        && Pair(sources, i, j).layerKey == layerKey
        && forall i', j' :: IsPair(sources, i', j') && PairBefore(i', j', i, j) ==>
             Pair(sources, i', j').layerKey != layerKey
  {
    var flat := GetLayersForSources(sources);
    var r := ResolveLayer(sources, layerKey);
    if r.Some? {
      var k :| 0 <= k < |flat| && flat[k] == r.value
        && forall m :: 0 <= m < k ==> flat[m].layerKey != layerKey;
      var i, j := FirstMatchPair(sources, layerKey, k);
      assert Pair(sources, i, j) == r.value;
    }
  }

  /** A native id resolves to nothing exactly when no registered pair
      qualifies to it. */
  lemma ResolveLayerNoneIffNoPair(sources: Sources, layerKey: string)
    ensures ResolveLayer(sources, layerKey).None? <==>
      forall i, j :: IsPair(sources, i, j) ==> Pair(sources, i, j).layerKey != layerKey
  {
    var flat := GetLayersForSources(sources);
    if ResolveLayer(sources, layerKey).None? {
      forall i, j | IsPair(sources, i, j)
        ensures Pair(sources, i, j).layerKey != layerKey
      {
        FlatAt(sources, i, j);
        assert Pair(sources, i, j) in flat;
      }
    } else {
      ResolveLayerIsFirstPair(sources, layerKey);
    }
  }
}
