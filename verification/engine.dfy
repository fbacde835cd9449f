/** The GL map engine as the binding library sees it. The engine's answers
    (rendered features under the pointer, the native source behind a key,
    whether a layer id is mounted) are inputs of the model; every call the
    library makes into the engine, into the DOM canvas or into a user handler
    is recorded, in order, as an `Effect`. */
module Engine {
  import opened Wrappers
  import opened JsObject

  /** A feature id as the engine reports it: a number, a string or absent. */
  datatype FeatureId = NoId | NumId(n: int) | StrId(s: string)

  /** One rendered feature returned by `queryRenderedFeatures`: its id, the
      native id of the layer that drew it, its source and source layer. */
  datatype Feature = Feature(id: FeatureId, layer: string, source: string, sourceLayer: Option<string>)

  /** The feature addressed by `setFeatureState` / `removeFeatureState`. */
  datatype Target = Target(id: FeatureId, source: string, sourceLayer: Option<string>)

  /** An opaque user callback registered on a layer. */
  datatype Handler = Handler(token: nat)

  /** The feature under an open drag session, as passed to `onDrag` / `onDragEnd`. */
  datatype Dragging = Dragging(id: FeatureId, layerName: string, sourceName: string)

  /** An opaque `LngLatBoundsLike` value. */
  datatype Bounds = Bounds(token: nat)

  /** A `fitBounds` padding: one number, or one per side. A per-side padding
      is an object, compared by identity as a dependency: `id` tells two
      objects apart even when their sides agree. */
  datatype Padding =
    | PaddingPx(px: real)
    | PaddingSides(id: nat, top: real, bottom: real, left: real, right: real)

  /** The native source registered under a key, as returned by `map.getSource`. */
  datatype EngineSource = EngineSource(kind: string)

  datatype ClickKind = SingleClick | DoubleClick

  /** One observable call, in the order the library makes them. */
  datatype Effect =
      // native sources and layers
    | AddSource(sourceKey: string, options: Object<JsValue>)
    | RemoveSource(sourceKey: string)
    | SetData(sourceKey: string, data: JsValue)
    | AddLayer(options: Object<JsValue>, beneath: Option<string>)
    | RemoveLayer(layerId: string)
    | MoveLayer(layerId: string, beforeId: string)
    | SetPaintProperty(layerId: string, name: string, value: JsValue)
    | SetLayoutProperty(layerId: string, name: string, value: JsValue)
    | SetFilter(layerId: string, filter: JsValue)
      // feature state
    | SetFeatureState(target: Target, key: string, value: JsValue)
    | RemoveFeatureState(target: Target, key: string)
      // camera, style and lifetime
    | FitBounds(bounds: Bounds, padding: Option<Padding>, duration: Option<real>)
    | SetStyle(style: string)
    | RemoveMap
      // canvas and pointer event
    | SetCursor(cursor: string)
    | PreventDefault
      // cluster markers
    | CreateMarker(clusterId: string)
    | AddMarker(clusterId: string)
    | RemoveMarker(clusterId: string)
      // user handlers
    | Clicked(kind: ClickKind, handler: Handler, feature: Feature)
    | MouseEntered(handler: Handler, feature: Feature)
    | MouseLeft(handler: Handler)
    | Dragged(handler: Handler, dragging: Dragging)
    | DragEnded(handler: Handler, dragging: Dragging)

  /** A transition's new state together with the effects it issued. */
  datatype Step<S> = Step(next: S, trace: seq<Effect>)

  /** One feature-state entry: the value stored under `key` for `target`. */
  datatype Slot = Slot(target: Target, key: string)

  /** The engine's feature state. A style swap discards it, and removing a
      source discards that source's part. */
  type FeatureStates = map<Slot, JsValue>

  /** What one effect does to the engine's feature state. */
  function ApplyEffect(st: FeatureStates, e: Effect): FeatureStates {
    match e
    case SetFeatureState(t, k, v) => st[Slot(t, k) := v]
    case RemoveFeatureState(t, k) => st - {Slot(t, k)}
    case SetStyle(_) => map[]
    case RemoveMap => map[]
    case RemoveSource(k) => map s | s in st && s.target.source != k :: st[s]
    case _ => st
  }

  /** The engine's feature state after a whole trace. */
  function Apply(st: FeatureStates, trace: seq<Effect>): FeatureStates
    decreases |trace|
  {
    if |trace| == 0 then st else Apply(ApplyEffect(st, trace[0]), trace[1..])
  }

  /** Running two traces one after the other is running their concatenation. */
  lemma {:induction false} ApplyAppend(st: FeatureStates, a: seq<Effect>, b: seq<Effect>)
    ensures Apply(st, a + b) == Apply(Apply(st, a), b)
    decreases |a|
  {
    if |a| > 0 {
      assert (a + b)[1..] == a[1..] + b;
      ApplyAppend(ApplyEffect(st, a[0]), a[1..], b);
    } else {
      assert a + b == b;
    }
  }

  /** Effects that never touch feature state. */
  predicate StatelessEffect(e: Effect) {
    !e.SetFeatureState? && !e.RemoveFeatureState? && !e.SetStyle? && !e.RemoveMap? && !e.RemoveSource?
  }

  /** A trace without feature-state calls leaves feature state alone. */
  lemma {:induction false} ApplyStateless(st: FeatureStates, trace: seq<Effect>)
    requires forall i :: 0 <= i < |trace| ==> StatelessEffect(trace[i])
    ensures Apply(st, trace) == st
    decreases |trace|
  {
    if |trace| > 0 {
      ApplyStateless(st, trace[1..]);
    }
  }

  /** The targets currently flagged with the "hovered" feature state. */
  function HoveredTargets(st: FeatureStates): set<Target> {
    set s | s in st && s.key == HoveredKey :: s.target
  }

  /** The feature-state key the coordinator uses for hover. */
  const HoveredKey: string := "hovered"

  /** Clearing a target's "hovered" entry un-flags exactly that target. */
  lemma HoveredAfterRemove(st: FeatureStates, t: Target)
    ensures HoveredTargets(ApplyEffect(st, RemoveFeatureState(t, HoveredKey))) == HoveredTargets(st) - {t}
  {
    var after := ApplyEffect(st, RemoveFeatureState(t, HoveredKey));
    forall u ensures u in HoveredTargets(after) <==> u in HoveredTargets(st) - {t} {
      if u in HoveredTargets(st) - {t} {
        assert Slot(u, HoveredKey) in after;
      }
    }
  }

  /** Removing a source un-flags exactly that source's features. */
  lemma HoveredAfterRemoveSource(st: FeatureStates, sourceKey: string)
    ensures forall u :: u in HoveredTargets(ApplyEffect(st, RemoveSource(sourceKey))) <==>
      u in HoveredTargets(st) && u.source != sourceKey
  {
    var after := ApplyEffect(st, RemoveSource(sourceKey));
    forall u ensures u in HoveredTargets(after) <==> u in HoveredTargets(st) && u.source != sourceKey {
      if u in HoveredTargets(st) && u.source != sourceKey {
        assert Slot(u, HoveredKey) in after;
      }
    }
  }

  /** Setting a target's "hovered" entry flags exactly that target in addition. */
  lemma HoveredAfterSet(st: FeatureStates, t: Target, v: JsValue)
    ensures HoveredTargets(ApplyEffect(st, SetFeatureState(t, HoveredKey, v))) == HoveredTargets(st) + {t}
  {
    var after := ApplyEffect(st, SetFeatureState(t, HoveredKey, v));
    forall u ensures u in HoveredTargets(after) <==> u in HoveredTargets(st) + {t} {
      if u in HoveredTargets(st) + {t} {
        assert Slot(u, HoveredKey) in after;
      }
    }
  }
}
