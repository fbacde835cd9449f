/** The map coordinator's pointer interaction (`Map` in lib/src/Map.tsx): the
    drag session, the hovered feature, the retained bounds request and the
    registry, and the handlers that move them. Each handler is a transition
    from the coordinator state and the engine's answers (the rendered
    features under the pointer, topmost first; the return values of click
    handlers) to a new state and the trace of calls it makes. */
module Interaction {
  import opened Wrappers
  import opened JsObject
  import opened Engine
  import opened Registry

  /** The feature the pointer was last over (`lastIn`). */
  datatype LastIn = LastIn(id: FeatureId, layerName: string, sourceName: string, sourceLayer: Option<string>)

  /** The last `setBounds` triple, re-applied on resize. */
  datatype BoundsRequest = BoundsRequest(bounds: Option<Bounds>, padding: Option<Padding>, duration: Option<real>)

  /** The coordinator's refs. */
  datatype Coordinator = Coordinator(
    sources: Sources,
    dragging: Option<Dragging>,
    lastIn: Option<LastIn>,
    request: BoundsRequest,
    destroyed: bool)

  /** The refs of a freshly created coordinator. */
  const Initial: Coordinator := Coordinator([], None, None, BoundsRequest(None, None, None), false)

  /** The feature-state address of the hovered feature. */
  function TargetOf(l: LastIn): Target {
    Target(l.id, l.sourceName, l.sourceLayer)
  }

  /** The `lastIn` record of a hit feature. */
  function LastInOf(f: Feature): LastIn {
    LastIn(f.id, f.layer, f.source, f.sourceLayer)
  }

  /** What a hit-test asks layers for. */
  datatype Capability = Draggable | Clickable(kind: ClickKind) | Interactive | Hoverable

  /** Whether a layer's handlers make it take part in a hit-test. */
  predicate Offers(h: Handlers, cap: Capability) {
    match cap
    case Draggable => h.onDrag.Some?
    case Clickable(SingleClick) => h.onClick.Some?
    case Clickable(DoubleClick) => h.onDoubleClick.Some?
    case Interactive => h.onClick.Some? || h.onDoubleClick.Some? || h.onDrag.Some?
    case Hoverable => h.onMouseEnter.Some? || h.onMouseLeave.Some? || h.hoverable
  }

  /** The native ids of the flattened layers offering `cap`, in order. */
  function LayerKeysOffering(flat: seq<ExtendedLayer>, cap: Capability): (r: seq<string>)
    ensures forall k :: k in r <==> exists e :: e in flat && Offers(e.layer.handlers, cap) && e.layerKey == k
  {
    if |flat| == 0 then []
    else
      var rest := LayerKeysOffering(flat[1..], cap);
      assert forall e :: e in flat <==> e == flat[0] || e in flat[1..];
      if Offers(flat[0].layer.handlers, cap) then [flat[0].layerKey] + rest else rest
  }

  /** `queryRenderedFeatures(point, {layers})`: the features under the
      pointer drawn by one of `layerKeys`, keeping the engine's topmost-first
      order. */
  function QueryRendered(hits: seq<Feature>, layerKeys: seq<string>): (r: seq<Feature>)
    ensures forall f :: f in r <==> f in hits && f.layer in layerKeys
    ensures |r| <= |hits|
    ensures |r| > 0 ==> (exists i :: 0 <= i < |hits| && hits[i] == r[0]
                           && forall j :: 0 <= j < i ==> hits[j].layer !in layerKeys)
  {
    if |hits| == 0 then []
    else
      var rest := QueryRendered(hits[1..], layerKeys);
      assert forall f :: f in hits <==> f == hits[0] || f in hits[1..];
      if hits[0].layer in layerKeys then [hits[0]] + rest
      else
        assert |rest| > 0 ==> (exists i :: 0 <= i < |hits| && hits[i] == rest[0]
                                 && forall j :: 0 <= j < i ==> hits[j].layer !in layerKeys)
        by {
          if |rest| > 0 {
            var i :| 0 <= i < |hits[1..]| && hits[1..][i] == rest[0]
              && forall j :: 0 <= j < i ==> hits[1..][j].layer !in layerKeys;
            assert hits[i + 1] == rest[0];
          }
        }
        rest
  }

  /** A single hit is kept exactly when its layer is listed. */
  lemma QueryRenderedOne(f: Feature, layerKeys: seq<string>)
    ensures QueryRendered([f], layerKeys) == (if f.layer in layerKeys then [f] else [])
  {
    assert [f][1..] == [];
  }

  /** The query keeps the engine's order: the hits of two consecutive runs
      are those of the first run followed by those of the second. With
      `QueryRenderedOne`, this makes the result the order-keeping
      subsequence of the listed layers' hits. */
  lemma {:induction false} QueryRenderedSplits(a: seq<Feature>, b: seq<Feature>, layerKeys: seq<string>)
    ensures QueryRendered(a + b, layerKeys) == QueryRendered(a, layerKeys) + QueryRendered(b, layerKeys)
    decreases |a|
  {
    if |a| == 0 {
      assert a + b == b;
    } else {
      assert (a + b)[1..] == a[1..] + b;
      QueryRenderedSplits(a[1..], b, layerKeys);
    }
  }

  /** The hit-test of a handler: the features under the pointer drawn by a
      registered layer offering `cap`. */
  function HitTest(sources: Sources, hits: seq<Feature>, cap: Capability): seq<Feature> {
    QueryRendered(hits, LayerKeysOffering(GetLayersForSources(sources), cap))
  }

  /** The drag session opened on a hit feature. */
  function DraggingOf(f: Feature): Dragging {
    Dragging(f.id, f.layer, f.source)
  }

  /** Mouse-down: any open drag is dropped (cursor reset, no drag-end); then
      the topmost draggable hit, if any, opens a new drag, shows the
      `grabbing` cursor and keeps the map from panning. */
  function MouseDown(c: Coordinator, hits: seq<Feature>): (r: Step<Coordinator>)
    ensures var draggable := HitTest(c.sources, hits, Draggable);
      && r.next == c.(dragging := if |draggable| == 0 then None else Some(DraggingOf(draggable[0])))
      && r.trace == (if c.dragging.Some? then [SetCursor("")] else [])
                    + (if |draggable| == 0 then [] else [SetCursor("grabbing"), PreventDefault])
  {
    var dropped := if c.dragging.Some? then Step(c.(dragging := None), [SetCursor("")]) else Step(c, []);
    var draggable := HitTest(dropped.next.sources, hits, Draggable);
    if |draggable| == 0 then dropped
    else
      var first := draggable[0];
      Step(dropped.next.(dragging := Some(DraggingOf(first))), dropped.trace + [SetCursor("grabbing"), PreventDefault])
  }

  /** A new drag is opened exactly on a feature of a registered draggable
      layer, namely the topmost such hit. */
  lemma MouseDownOpensOnTopmostDraggable(c: Coordinator, hits: seq<Feature>)
    ensures MouseDown(c, hits).next.dragging.Some? <==>
      exists f :: f in hits && (exists e :: e in GetLayersForSources(c.sources)
                                  && e.layer.handlers.onDrag.Some? && e.layerKey == f.layer)
    ensures MouseDown(c, hits).next.dragging.Some? ==>
      exists i :: 0 <= i < |hits| && MouseDown(c, hits).next.dragging == Some(DraggingOf(hits[i]))
        && hits[i].layer in LayerKeysOffering(GetLayersForSources(c.sources), Draggable)
        && forall j :: 0 <= j < i ==> hits[j].layer !in LayerKeysOffering(GetLayersForSources(c.sources), Draggable)
  {
    var keys := LayerKeysOffering(GetLayersForSources(c.sources), Draggable);
    var draggable := HitTest(c.sources, hits, Draggable);
    if |draggable| > 0 {
      assert draggable[0] in draggable;
    }
  }

  /** The handlers of the registry entry a native layer id resolves to. */
  function ResolveHandlers(sources: Sources, layerId: string): Option<Handlers> {
    match ResolveLayer(sources, layerId)
    case None => None
    case Some(e) => Some(e.layer.handlers)
  }

  /** Mouse-up: without a drag nothing happens; otherwise the dragged layer's
      `onDragEnd` (if it still resolves and has one) fires once with the
      session, and the drag is closed and the cursor reset. */
  function MouseUp(c: Coordinator): (r: Step<Coordinator>)
    ensures c.dragging.None? ==> r == Step(c, [])
    ensures c.dragging.Some? ==>
      && r.next == c.(dragging := None)
      && 1 <= |r.trace| <= 2
      && r.trace[|r.trace| - 1] == SetCursor("")
      && (|r.trace| == 2 <==> DragEndHandler(c).Some?)
      && (|r.trace| == 2 ==> r.trace[0] == DragEnded(DragEndHandler(c).value, c.dragging.value))
  {
    match c.dragging
    case None => Step(c, [])
    case Some(d) =>
      var ended := match DragEndHandler(c) case Some(h) => [DragEnded(h, d)] case None => [];
      Step(c.(dragging := None), ended + [SetCursor("")])
  }

  /** The `onDragEnd` of the layer the open drag resolves to. */
  function DragEndHandler(c: Coordinator): Option<Handler>
    requires c.dragging.Some?
  {
    match ResolveHandlers(c.sources, c.dragging.value.layerName)
    case None => None
    case Some(h) => h.onDragEnd
  }

  /** The click handler of the given kind of the layer a native id resolves to. */
  function ClickHandler(kind: ClickKind, sources: Sources, layerId: string): Option<Handler> {
    match ResolveHandlers(sources, layerId)
    case None => None
    case Some(h) => if kind == SingleClick then h.onClick else h.onDoubleClick
  }

  /** `features.every(...)`: each hit's handler (`handlerOf` its layer id)
      runs in turn, topmost first; iteration stops after a handler answers
      truthy, or at a hit whose layer has no handler of this kind. */
  function Dispatch(kind: ClickKind, handlerOf: string -> Option<Handler>, features: seq<Feature>, respond: (Handler, Feature) -> bool): (r: seq<Effect>)
    ensures |r| <= |features|
    ensures forall i :: 0 <= i < |r| ==>
      && handlerOf(features[i].layer).Some?
      && r[i] == Clicked(kind, handlerOf(features[i].layer).value, features[i])
    ensures forall i :: 0 <= i < |r| - 1 ==> !respond(handlerOf(features[i].layer).value, features[i])
    ensures |r| < |features| ==>
      || handlerOf(features[|r|].layer).None?
      || (|r| > 0 && respond(handlerOf(features[|r| - 1].layer).value, features[|r| - 1]))
    decreases |features|
  {
    if |features| == 0 then []
    else
      match handlerOf(features[0].layer)
      case None => []
      case Some(h) =>
        if respond(h, features[0]) then [Clicked(kind, h, features[0])]
        else
          var rest := Dispatch(kind, handlerOf, features[1..], respond);
          assert forall i :: 0 < i < |rest| + 1 ==> features[1..][i - 1] == features[i];
          [Clicked(kind, h, features[0])] + rest
  }

  /** The click handlers of the registry, by native layer id. */
  function ClickHandlers(kind: ClickKind, sources: Sources): string -> Option<Handler> {
    (layerId: string) => ClickHandler(kind, sources, layerId)
  }

  /** Click and double-click: while dragging, the event only closes the drag
      (cursor reset, no handler); otherwise the hit layers offering a handler
      of this kind are dispatched to, topmost first. */
  function Click(c: Coordinator, kind: ClickKind, hits: seq<Feature>, respond: (Handler, Feature) -> bool): (r: Step<Coordinator>)
    ensures c.dragging.Some? ==> r == Step(c.(dragging := None), [SetCursor("")])
    ensures c.dragging.None? ==> r.next == c
    ensures c.dragging.None? ==>
      r.trace == Dispatch(kind, ClickHandlers(kind, c.sources), HitTest(c.sources, hits, Clickable(kind)), respond)
  {
    if c.dragging.Some? then Step(c.(dragging := None), [SetCursor("")])
    else
      var clickable := HitTest(c.sources, hits, Clickable(kind));
      if |clickable| == 0 then Step(c, [])
      else Step(c, Dispatch(kind, ClickHandlers(kind, c.sources), clickable, respond))
  }

  /** The `onMouseLeave` of the layer a native id resolves to. */
  function LeaveHandler(sources: Sources, layerId: string): Option<Handler> {
    match ResolveHandlers(sources, layerId)
    case None => None
    case Some(h) => h.onMouseLeave
  }

  /** The `onMouseEnter` of the layer a native id resolves to. */
  function EnterHandler(sources: Sources, layerId: string): Option<Handler> {
    match ResolveHandlers(sources, layerId)
    case None => None
    case Some(h) => h.onMouseEnter
  }

  /** The `onDrag` of the layer a native id resolves to. */
  function DragHandler(sources: Sources, layerId: string): Option<Handler> {
    match ResolveHandlers(sources, layerId)
    case None => None
    case Some(h) => h.onDrag
  }

  /** The `onMouseLeave` call for the previous hover: one call exactly when
      its layer still resolves and declares the handler. */
  function Leave(sources: Sources, l: LastIn): (r: seq<Effect>)
    ensures forall h :: MouseLeft(h) in r <==> LeaveHandler(sources, l.layerName) == Some(h)
    ensures |r| <= 1 && forall e :: e in r ==> e.MouseLeft?
  {
    match ResolveHandlers(sources, l.layerName)
    case Some(Handlers(_, _, _, _, Some(h), _, _)) => [MouseLeft(h)]
    case _ => []
  }

  /** The `onMouseEnter` call for the new hover: one call, with the feature,
      exactly when its layer resolves and declares the handler. */
  function Enter(sources: Sources, f: Feature): (r: seq<Effect>)
    ensures forall h, g :: MouseEntered(h, g) in r <==> EnterHandler(sources, f.layer) == Some(h) && g == f
    ensures |r| <= 1 && forall e :: e in r ==> e.MouseEntered?
  {
    match ResolveHandlers(sources, f.layer)
    case Some(Handlers(_, _, _, Some(h), _, _, _)) => [MouseEntered(h, f)]
    case _ => []
  }

  /** Whether the top hoverable hit is another feature than `l`. */
  predicate IsOtherFeature(f: Feature, l: LastIn) {
    f.source != l.sourceName || f.sourceLayer != l.sourceLayer || f.layer != l.layerName || f.id != l.id
  }

  /** Whether it is drawn by another layer (or comes from elsewhere). */
  predicate IsOtherLayer(f: Feature, l: LastIn) {
    f.source != l.sourceName || f.sourceLayer != l.sourceLayer || f.layer != l.layerName
  }

  /** The hover part of mouse-move, over the hoverable hits. */
  function Hover(sources: Sources, lastIn: Option<LastIn>, hoverable: seq<Feature>): (r: Step<Option<LastIn>>)
    ensures |hoverable| == 0 ==> r.next.None?
    ensures |hoverable| > 0 ==> r.next == Some(LastInOf(hoverable[0]))
    ensures |hoverable| > 0 && lastIn.Some? && !IsOtherFeature(hoverable[0], lastIn.value) ==> r.trace == []
  {
    if |hoverable| == 0 then
      match lastIn
      case None => Step(None, [])
      case Some(l) => Step(None, [RemoveFeatureState(TargetOf(l), HoveredKey)] + Leave(sources, l))
    else
      var f := hoverable[0];
      if lastIn.Some? && !IsOtherFeature(f, lastIn.value) then Step(lastIn, [])
      else
        var cleared := if lastIn.Some? then [RemoveFeatureState(TargetOf(lastIn.value), HoveredKey)] else [];
        var left := if lastIn.Some? && IsOtherLayer(f, lastIn.value) then Leave(sources, lastIn.value) else [];
        Step(Some(LastInOf(f)),
          cleared + left + [SetFeatureState(Target(f.id, f.source, f.sourceLayer), HoveredKey, Bool(true))] + Enter(sources, f))
  }

  /** Whether a hover move changes anything: the topmost hoverable hit is
      missing or another feature than the previous hover. */
  predicate HoverChanges(lastIn: Option<LastIn>, hoverable: seq<Feature>) {
    lastIn.Some? ==> |hoverable| == 0 || IsOtherFeature(hoverable[0], lastIn.value)
  }

  /** `onMouseLeave` fires exactly when there was a hover and the pointer
      left its layer (no hoverable hit, or one drawn by another layer), and
      then only the previous layer's own handler. */
  lemma HoverLeaveFires(sources: Sources, lastIn: Option<LastIn>, hoverable: seq<Feature>)
    ensures forall h :: MouseLeft(h) in Hover(sources, lastIn, hoverable).trace <==>
      && lastIn.Some?
      && (|hoverable| == 0 || IsOtherLayer(hoverable[0], lastIn.value))
      && LeaveHandler(sources, lastIn.value.layerName) == Some(h)
  {
    var r := Hover(sources, lastIn, hoverable);
    if |hoverable| > 0 && HoverChanges(lastIn, hoverable) {
      var f := hoverable[0];
      var cleared := if lastIn.Some? then [RemoveFeatureState(TargetOf(lastIn.value), HoveredKey)] else [];
      var left := if lastIn.Some? && IsOtherLayer(f, lastIn.value) then Leave(sources, lastIn.value) else [];
      var flag := [SetFeatureState(Target(f.id, f.source, f.sourceLayer), HoveredKey, Bool(true))];
      assert r.trace == cleared + left + flag + Enter(sources, f);
      assert forall h :: MouseLeft(h) in r.trace <==> MouseLeft(h) in left;
    }
  }

  /** `onMouseEnter` fires exactly when the topmost hoverable hit is a new
      feature (even one of the same layer), with that feature. */
  lemma HoverEnterFires(sources: Sources, lastIn: Option<LastIn>, hoverable: seq<Feature>)
    ensures forall h, g :: MouseEntered(h, g) in Hover(sources, lastIn, hoverable).trace <==>
      && |hoverable| > 0
      && HoverChanges(lastIn, hoverable)
      && EnterHandler(sources, hoverable[0].layer) == Some(h)
      && g == hoverable[0]
  {
    var r := Hover(sources, lastIn, hoverable);
    if |hoverable| == 0 {
      assert forall e :: e in r.trace ==> e.RemoveFeatureState? || e.MouseLeft?;
    } else if HoverChanges(lastIn, hoverable) {
      var f := hoverable[0];
      var cleared := if lastIn.Some? then [RemoveFeatureState(TargetOf(lastIn.value), HoveredKey)] else [];
      var left := if lastIn.Some? && IsOtherLayer(f, lastIn.value) then Leave(sources, lastIn.value) else [];
      var flag := [SetFeatureState(Target(f.id, f.source, f.sourceLayer), HoveredKey, Bool(true))];
      assert r.trace == (cleared + left + flag) + Enter(sources, f);
      assert forall e :: e in cleared + left + flag ==> !e.MouseEntered?;
    }
  }

  /** The hover flag is removed from exactly the previous hover, whenever
      the hover changes. */
  lemma HoverFlagRemoved(sources: Sources, lastIn: Option<LastIn>, hoverable: seq<Feature>, t: Target, k: string)
    ensures RemoveFeatureState(t, k) in Hover(sources, lastIn, hoverable).trace <==>
      lastIn.Some? && HoverChanges(lastIn, hoverable) && t == TargetOf(lastIn.value) && k == HoveredKey
  {
    if |hoverable| == 0 {
      if lastIn.Some? {
        var r := Hover(sources, lastIn, hoverable);
        assert r.trace == [RemoveFeatureState(TargetOf(lastIn.value), HoveredKey)] + Leave(sources, lastIn.value);
      }
    } else if HoverChanges(lastIn, hoverable) {
      HoverChangeRemovals(sources, lastIn, hoverable, t, k);
    }
  }

  /** When the hover moves onto another feature, the only removal is the
      previous hover's flag. */
  lemma HoverChangeRemovals(sources: Sources, lastIn: Option<LastIn>, hoverable: seq<Feature>, t: Target, k: string)
    requires |hoverable| > 0 && HoverChanges(lastIn, hoverable)
    ensures RemoveFeatureState(t, k) in Hover(sources, lastIn, hoverable).trace <==>
      lastIn.Some? && t == TargetOf(lastIn.value) && k == HoveredKey
  {
    var r := Hover(sources, lastIn, hoverable);
    var f := hoverable[0];
    var cleared := if lastIn.Some? then [RemoveFeatureState(TargetOf(lastIn.value), HoveredKey)] else [];
    var left := if lastIn.Some? && IsOtherLayer(f, lastIn.value) then Leave(sources, lastIn.value) else [];
    var flag := SetFeatureState(Target(f.id, f.source, f.sourceLayer), HoveredKey, Bool(true));
    var rest := left + [flag] + Enter(sources, f);
    assert forall e: Effect :: e in rest ==> !e.RemoveFeatureState?;
    assert r.trace == cleared + rest;
  }

  /** The hover flag is set, to `true`, on exactly the new hover, whenever
      the hover changes to a feature. */
  lemma HoverFlagSet(sources: Sources, lastIn: Option<LastIn>, hoverable: seq<Feature>)
    ensures forall t, k, v :: SetFeatureState(t, k, v) in Hover(sources, lastIn, hoverable).trace <==>
      && |hoverable| > 0 && HoverChanges(lastIn, hoverable)
      && t == Target(hoverable[0].id, hoverable[0].source, hoverable[0].sourceLayer)
      && k == HoveredKey && v == Bool(true)
  {
    var r := Hover(sources, lastIn, hoverable);
    if |hoverable| == 0 {
      assert forall e :: e in r.trace ==> e.RemoveFeatureState? || e.MouseLeft?;
    } else if HoverChanges(lastIn, hoverable) {
      var f := hoverable[0];
      var cleared := if lastIn.Some? then [RemoveFeatureState(TargetOf(lastIn.value), HoveredKey)] else [];
      var left := if lastIn.Some? && IsOtherLayer(f, lastIn.value) then Leave(sources, lastIn.value) else [];
      var flag := SetFeatureState(Target(f.id, f.source, f.sourceLayer), HoveredKey, Bool(true));
      var entered := Enter(sources, f);
      assert r.trace == (cleared + left) + [flag] + entered;
      assert forall e: Effect :: e in cleared + left ==> !e.SetFeatureState?;
    }
  }

  /** The position of each kind of hover effect in a trace. */
  function HoverRank(e: Effect): nat {
    match e
    case RemoveFeatureState(_, _) => 0
    case MouseLeft(_) => 1
    case SetFeatureState(_, _, _) => 2
    case _ => 3
  }

  /** Whether the effects of a trace have strictly increasing hover ranks. */
  predicate RanksIncrease(tr: seq<Effect>) {
    forall i, j :: 0 <= i < j < |tr| ==> HoverRank(tr[i]) < HoverRank(tr[j])
  }

  /** Two rank-increasing traces, the first wholly below the second, make a
      rank-increasing trace. */
  lemma RanksIncreaseConcat(a: seq<Effect>, b: seq<Effect>, bound: nat)
    requires RanksIncrease(a) && RanksIncrease(b)
    requires forall x :: x in a ==> HoverRank(x) < bound
    requires forall y :: y in b ==> bound <= HoverRank(y)
    ensures RanksIncrease(a + b)
  {
    forall i, j | 0 <= i < j < |a + b|
      ensures HoverRank((a + b)[i]) < HoverRank((a + b)[j])
    {
      if j < |a| {
      } else if i >= |a| {
        assert (a + b)[i] == b[i - |a|] && (a + b)[j] == b[j - |a|];
      } else {
        assert (a + b)[i] in a && (a + b)[j] in b;
      }
    }
  }

  /** Four traces of at most one effect each, of the four hover kinds in
      turn, make a rank-increasing trace. */
  lemma HoverSegmentsInOrder(cleared: seq<Effect>, left: seq<Effect>, flag: seq<Effect>, entered: seq<Effect>)
    requires |cleared| <= 1 && forall e :: e in cleared ==> e.RemoveFeatureState?
    requires |left| <= 1 && forall e :: e in left ==> e.MouseLeft?
    requires |flag| <= 1 && forall e :: e in flag ==> e.SetFeatureState?
    requires |entered| <= 1 && forall e :: e in entered ==> e.MouseEntered?
    ensures RanksIncrease(cleared + left + flag + entered)
  {
    RanksIncreaseConcat(cleared, left, 1);
    RanksIncreaseConcat(cleared + left, flag, 2);
    RanksIncreaseConcat(cleared + left + flag, entered, 3);
  }

  /** A hover trace issues each kind of effect at most once, in the order
      remove-flag, `onMouseLeave`, set-flag, `onMouseEnter`. */
  lemma HoverEffectsInOrder(sources: Sources, lastIn: Option<LastIn>, hoverable: seq<Feature>)
    ensures RanksIncrease(Hover(sources, lastIn, hoverable).trace)
    ensures forall e :: e in Hover(sources, lastIn, hoverable).trace ==>
      e.RemoveFeatureState? || e.MouseLeft? || e.SetFeatureState? || e.MouseEntered?
  {
    var r := Hover(sources, lastIn, hoverable);
    if |hoverable| == 0 {
      if lastIn.Some? {
        var cleared := [RemoveFeatureState(TargetOf(lastIn.value), HoveredKey)];
        var left := Leave(sources, lastIn.value);
        assert r.trace == cleared + left + [] + [];
        HoverSegmentsInOrder(cleared, left, [], []);
      }
    } else if HoverChanges(lastIn, hoverable) {
      var f := hoverable[0];
      var cleared := if lastIn.Some? then [RemoveFeatureState(TargetOf(lastIn.value), HoveredKey)] else [];
      var left := if lastIn.Some? && IsOtherLayer(f, lastIn.value) then Leave(sources, lastIn.value) else [];
      var flag := [SetFeatureState(Target(f.id, f.source, f.sourceLayer), HoveredKey, Bool(true))];
      var entered := Enter(sources, f);
      assert r.trace == cleared + left + flag + entered;
      HoverSegmentsInOrder(cleared, left, flag, entered);
    }
  }

  /** The `onDrag` call of a mouse-move during a drag: one call, with the
      session, exactly when the dragged layer resolves and declares it. */
  function DragMove(sources: Sources, d: Dragging): (r: seq<Effect>)
    ensures forall h, g :: Dragged(h, g) in r <==> DragHandler(sources, d.layerName) == Some(h) && g == d
    ensures |r| <= 1 && forall e :: e in r ==> e.Dragged? && e.dragging == d
  {
    match ResolveHandlers(sources, d.layerName)
    case Some(Handlers(_, _, _, _, _, Some(h), _)) => [Dragged(h, d)]
    case _ => []
  }

  /** The cursor a mouse-move outside a drag shows. */
  function Cursor(sources: Sources, hits: seq<Feature>): string {
    if |HitTest(sources, hits, Interactive)| == 0 then "" else "pointer"
  }

  /** Mouse-move: during a drag only the dragged layer's `onDrag` fires;
      otherwise the cursor shows whether an interactive layer is under the
      pointer, and the hover moves to the topmost hoverable hit. */
  function MouseMove(c: Coordinator, hits: seq<Feature>): (r: Step<Coordinator>)
    ensures c.dragging.Some? ==> r.next == c
    ensures c.dragging.Some? ==> |r.trace| <= 1 && forall e :: e in r.trace ==> e.Dragged? && e.dragging == c.dragging.value
    ensures c.dragging.Some? ==> forall h ::
      Dragged(h, c.dragging.value) in r.trace <==> DragHandler(c.sources, c.dragging.value.layerName) == Some(h)
    ensures c.dragging.None? ==>
      var hover := Hover(c.sources, c.lastIn, HitTest(c.sources, hits, Hoverable));
      && r.next == c.(lastIn := hover.next)
      && r.trace == [SetCursor(Cursor(c.sources, hits))] + hover.trace
  {
    match c.dragging
    case Some(d) => Step(c, DragMove(c.sources, d))
    case None =>
      var hover := Hover(c.sources, c.lastIn, HitTest(c.sources, hits, Hoverable));
      Step(c.(lastIn := hover.next), [SetCursor(Cursor(c.sources, hits))] + hover.trace)
  }

  /** The cursor is `pointer` exactly when a registered click, double-click
      or drag layer is under the pointer. */
  lemma CursorShowsInteractive(c: Coordinator, hits: seq<Feature>)
    requires c.dragging.None?
    ensures Cursor(c.sources, hits) == "pointer" <==>
      exists f :: f in hits && (exists e :: e in GetLayersForSources(c.sources)
                                  && Offers(e.layer.handlers, Interactive) && e.layerKey == f.layer)
  {
    var interactive := HitTest(c.sources, hits, Interactive);
    if |interactive| > 0 {
      assert interactive[0] in interactive;
    }
  }

  /** `setBounds`: the triple is stored as given. */
  function SetBounds(c: Coordinator, bounds: Option<Bounds>, padding: Option<Padding>, duration: Option<real>): (r: Coordinator)
    ensures r.request == BoundsRequest(bounds, padding, duration)
    ensures r.(request := c.request) == c
  {
    c.(request := BoundsRequest(bounds, padding, duration))
  }

  /** Resize: with no stored bounds nothing happens; otherwise the stored
      triple is fitted again. */
  function Resize(c: Coordinator): (r: seq<Effect>)
    ensures c.request.bounds.None? ==> r == []
    ensures c.request.bounds.Some? ==> r == [FitBounds(c.request.bounds.value, c.request.padding, c.request.duration)]
  {
    match c.request.bounds
    case None => []
    case Some(b) => [FitBounds(b, c.request.padding, c.request.duration)]
  }

  /** Resize fits exactly the triple of the last `setBounds`, whatever
      happened in between that did not set bounds again. */
  lemma ResizeRefitsLastRequest(c: Coordinator, b: Bounds, padding: Option<Padding>, duration: Option<real>)
    ensures Resize(SetBounds(c, Some(b), padding, duration)) == [FitBounds(b, padding, duration)]
  {
  }

  /** A style change (with an engine and a truthy style): the registry and
      the hover are dropped and the new style is set. An open drag survives. */
  function StyleChange(c: Coordinator, style: string): (r: Step<Coordinator>)
    ensures style == "" ==> r == Step(c, [])
    ensures style != "" ==> r.next.sources == Empty && r.next.lastIn.None? && r.trace == [SetStyle(style)]
    ensures r.next.dragging == c.dragging && r.next.request == c.request && r.next.destroyed == c.destroyed
  {
    if style == "" then Step(c, [])
    else Step(c.(sources := Empty, lastIn := None), [SetStyle(style)])
  }

  /** Teardown: the registry and hover are dropped, the coordinator is marked
      destroyed and the engine removed. */
  function Destroy(c: Coordinator): (r: Step<Coordinator>)
    ensures r.next.sources == Empty && r.next.lastIn.None? && r.next.destroyed
    ensures r.next.dragging == c.dragging && r.next.request == c.request
    ensures r.trace == [RemoveMap]
  {
    Step(c.(sources := Empty, lastIn := None, destroyed := true), [RemoveMap])
  }

  /** `isMapDestroyed()` */
  predicate IsMapDestroyed(c: Coordinator) {
    c.destroyed
  }

  /** Everything that reaches the coordinator. A source binder's teardown
      calls `removeSource`, which is `SourceRemoval`; the binders' other
      registry writes are folded into `RegistryChange`. */
  datatype Event =
    | MouseDownEvent(hits: seq<Feature>)
    | MouseUpEvent
    | ClickEvent(kind: ClickKind, hits: seq<Feature>, respond: (Handler, Feature) -> bool)
    | MouseMoveEvent(hits: seq<Feature>)
    | ResizeEvent
    | SetBoundsCall(bounds: Option<Bounds>, padding: Option<Padding>, duration: Option<real>)
    | StyleChangeEvent(style: string)
    | DestroyEvent
    | SourceRemoval(sourceKey: string)
    | RegistryChange(sources: Sources)

  /** One event. Teardown unsubscribes the click, double-click, mouse-move
      and resize listeners but not the mouse-down and mouse-up ones. */
  function Handle(c: Coordinator, ev: Event): (r: Step<Coordinator>)
    ensures c.destroyed ==> r.next.destroyed
  {
    match ev
    case MouseDownEvent(hits) => MouseDown(c, hits)
    case MouseUpEvent => MouseUp(c)
    case ClickEvent(kind, hits, respond) => if c.destroyed then Step(c, []) else Click(c, kind, hits, respond)
    case MouseMoveEvent(hits) => if c.destroyed then Step(c, []) else MouseMove(c, hits)
    case ResizeEvent => Step(c, if c.destroyed then [] else Resize(c))
    case SetBoundsCall(b, p, d) => Step(SetBounds(c, b, p, d), [])
    case StyleChangeEvent(style) => StyleChange(c, style)
    case DestroyEvent => Destroy(c)
    case SourceRemoval(sourceKey) =>
      // `mapRef` is set once the engine exists and never cleared.
      var removed := Registry.RemoveSource(c.sources, sourceKey, true);
      Step(c.(sources := removed.next), removed.trace)
    case RegistryChange(sources) => Step(c.(sources := sources), [])
  }

  /** The engine's "hovered" flags agree with `lastIn`: no feature but its
      own is flagged, and none when there is none. Its own flag may be gone:
      removing its source discards the flag but not `lastIn`. */
  predicate HoverConsistent(st: FeatureStates, lastIn: Option<LastIn>) {
    HoveredTargets(st) <= if lastIn.Some? then {TargetOf(lastIn.value)} else {}
  }

  /** The flags are exactly `lastIn`'s feature, or none when there is none. */
  predicate HoverExact(st: FeatureStates, lastIn: Option<LastIn>) {
    HoveredTargets(st) == if lastIn.Some? then {TargetOf(lastIn.value)} else {}
  }

  /** A consistent hover leaves at most one feature flagged. */
  lemma HoverConsistentAtMostOne(st: FeatureStates, lastIn: Option<LastIn>)
    requires HoverConsistent(st, lastIn)
    ensures |HoveredTargets(st)| <= 1
  {
    if lastIn.Some? && TargetOf(lastIn.value) in HoveredTargets(st) {
      assert HoveredTargets(st) == {TargetOf(lastIn.value)};
    } else {
      assert HoveredTargets(st) == {};
    }
  }

  /** Every effect of a trace leaves feature state alone. */
  predicate Stateless(trace: seq<Effect>) {
    forall i :: 0 <= i < |trace| ==> StatelessEffect(trace[i])
  }

  /** The hover transition keeps the flags consistent: the old feature is
      cleared before the new one is set. Whenever the hover changes, the
      flags are afterwards exactly the new hover. */
  lemma {:induction false} HoverKeepsConsistent(st: FeatureStates, sources: Sources, lastIn: Option<LastIn>, hoverable: seq<Feature>)
    requires HoverConsistent(st, lastIn)
    ensures var r := Hover(sources, lastIn, hoverable);
      HoverConsistent(Apply(st, r.trace), r.next)
    ensures var r := Hover(sources, lastIn, hoverable);
      HoverChanges(lastIn, hoverable) ==> HoverExact(Apply(st, r.trace), r.next)
  {
    if |hoverable| == 0 {
      if lastIn.Some? {
        var l := lastIn.value;
        var removal := RemoveFeatureState(TargetOf(l), HoveredKey);
        ApplyAppend(st, [removal], Leave(sources, l));
        ApplyStateless(ApplyEffect(st, removal), Leave(sources, l));
        HoveredAfterRemove(st, TargetOf(l));
      }
    } else if HoverChanges(lastIn, hoverable) {
      HoverToFeatureExact(st, sources, lastIn, hoverable);
    }
  }

  /** A hover that moves onto another feature clears every old flag and
      flags exactly the new feature. */
  lemma HoverToFeatureExact(st: FeatureStates, sources: Sources, lastIn: Option<LastIn>, hoverable: seq<Feature>)
    requires HoverConsistent(st, lastIn)
    requires |hoverable| > 0 && HoverChanges(lastIn, hoverable)
    ensures var r := Hover(sources, lastIn, hoverable);
      HoverExact(Apply(st, r.trace), r.next)
  {
    var r := Hover(sources, lastIn, hoverable);
    var f := hoverable[0];
    var cleared := if lastIn.Some? then [RemoveFeatureState(TargetOf(lastIn.value), HoveredKey)] else [];
    var left := if lastIn.Some? && IsOtherLayer(f, lastIn.value) then Leave(sources, lastIn.value) else [];
    var t := Target(f.id, f.source, f.sourceLayer);
    var setting := SetFeatureState(t, HoveredKey, Bool(true));
    var entered := Enter(sources, f);
    assert r.trace == cleared + left + [setting] + entered;
    ApplyAppend(st, cleared + left + [setting], entered);
    ApplyAppend(st, cleared + left, [setting]);
    ApplyAppend(st, cleared, left);
    var st1 := Apply(st, cleared);
    assert HoveredTargets(st1) == {} by {
      if lastIn.Some? {
        HoveredAfterRemove(st, TargetOf(lastIn.value));
      }
    }
    ApplyStateless(st1, left);
    HoveredAfterSet(st1, t, Bool(true));
    ApplyStateless(Apply(st1, [setting]), entered);
    assert TargetOf(LastInOf(f)) == t;
  }

  /** Mouse-move keeps the flags consistent; outside a drag, a move that
      changes the hover leaves exactly the new hover flagged. */
  lemma MouseMoveKeepsHoverConsistent(c: Coordinator, st: FeatureStates, hits: seq<Feature>)
    requires HoverConsistent(st, c.lastIn)
    ensures var r := MouseMove(c, hits);
      HoverConsistent(Apply(st, r.trace), r.next.lastIn)
    ensures var r := MouseMove(c, hits);
      c.dragging.None? && HoverChanges(c.lastIn, HitTest(c.sources, hits, Hoverable)) ==>
        HoverExact(Apply(st, r.trace), r.next.lastIn)
  {
    var r := MouseMove(c, hits);
    if c.dragging.Some? {
      ApplyStateless(st, r.trace);
    } else {
      var hover := Hover(c.sources, c.lastIn, HitTest(c.sources, hits, Hoverable));
      var cursor := [SetCursor(Cursor(c.sources, hits))];
      HoverKeepsConsistent(st, c.sources, c.lastIn, HitTest(c.sources, hits, Hoverable));
      assert r.trace == cursor + hover.trace;
      ApplyAppend(st, cursor, hover.trace);
      ApplyStateless(st, cursor);
    }
  }

  /** Mouse-down never touches feature state. */
  lemma MouseDownStateless(c: Coordinator, hits: seq<Feature>)
    ensures Stateless(MouseDown(c, hits).trace)
  {
  }

  /** Mouse-up never touches feature state. */
  lemma MouseUpStateless(c: Coordinator)
    ensures Stateless(MouseUp(c).trace)
  {
  }

  /** Click dispatch never touches feature state. */
  lemma ClickStateless(c: Coordinator, kind: ClickKind, hits: seq<Feature>, respond: (Handler, Feature) -> bool)
    ensures Stateless(Click(c, kind, hits, respond).trace)
  {
    if c.dragging.None? {
      var d := Dispatch(kind, ClickHandlers(kind, c.sources), HitTest(c.sources, hits, Clickable(kind)), respond);
      assert forall i :: 0 <= i < |d| ==> d[i].Clicked?;
    }
  }

  /** Every coordinator event keeps the "hovered" flags consistent with
      `lastIn`. */
  lemma HandleKeepsHoverConsistent(c: Coordinator, st: FeatureStates, ev: Event)
    requires HoverConsistent(st, c.lastIn)
    ensures var r := Handle(c, ev);
      HoverConsistent(Apply(st, r.trace), r.next.lastIn)
  {
    match ev
    case MouseMoveEvent(hits) =>
      if !c.destroyed {
        MouseMoveKeepsHoverConsistent(c, st, hits);
      }
    case MouseDownEvent(hits) =>
      MouseDownStateless(c, hits);
      ApplyStateless(st, MouseDown(c, hits).trace);
    case MouseUpEvent =>
      MouseUpStateless(c);
      ApplyStateless(st, MouseUp(c).trace);
    case ClickEvent(kind, hits, respond) =>
      if !c.destroyed {
        ClickStateless(c, kind, hits, respond);
        ApplyStateless(st, Click(c, kind, hits, respond).trace);
      }
    case ResizeEvent =>
      ApplyStateless(st, Resize(c));
    case SourceRemoval(sourceKey) =>
      SourceRemovalKeepsHoverConsistent(c, st, sourceKey);
    case _ =>
  }

  /** A source's teardown keeps the flags consistent: the engine discards
      its flags and the hover stays. */
  lemma SourceRemovalKeepsHoverConsistent(c: Coordinator, st: FeatureStates, sourceKey: string)
    requires HoverConsistent(st, c.lastIn)
    ensures var r := Handle(c, SourceRemoval(sourceKey));
      r.next.lastIn == c.lastIn && HoverConsistent(Apply(st, r.trace), r.next.lastIn)
  {
    var removed := Registry.RemoveSource(c.sources, sourceKey, true);
    if removed.trace != [] {
      assert Apply(st, removed.trace) == ApplyEffect(st, Engine.RemoveSource(sourceKey));
      HoveredAfterRemoveSource(st, sourceKey);
    }
  }

  /** Removing the hovered feature's source discards its flag while `lastIn`
      still names it: from then on no feature is flagged, and the exact
      agreement of flags and hover is lost until the hover next changes. */
  lemma SourceRemovalClearsHoverFlag(c: Coordinator, st: FeatureStates)
    requires c.lastIn.Some? && IsSourceDefined(c.sources, c.lastIn.value.sourceName)
    requires HoverExact(st, c.lastIn)
    ensures var r := Handle(c, SourceRemoval(c.lastIn.value.sourceName));
      && r.next.lastIn == c.lastIn
      && HoveredTargets(Apply(st, r.trace)) == {}
      && !HoverExact(Apply(st, r.trace), r.next.lastIn)
  {
    var k := c.lastIn.value.sourceName;
    var r := Handle(c, SourceRemoval(k));
    assert Apply(st, r.trace) == ApplyEffect(st, Engine.RemoveSource(k));
    HoveredAfterRemoveSource(st, k);
    assert TargetOf(c.lastIn.value) !in HoveredTargets(Apply(st, r.trace));
  }

  /** The state and engine feature state after a sequence of events. */
  function Run(c: Coordinator, st: FeatureStates, events: seq<Event>): (FeatureStates, Coordinator)
    decreases |events|
  {
    if |events| == 0 then (st, c)
    else
      var r := Handle(c, events[0]);
      Run(r.next, Apply(st, r.trace), events[1..])
  }

  /** From a fresh coordinator on an engine with no feature state, at most
      one feature is ever flagged hovered, whatever events arrive. */
  lemma {:induction false} AtMostOneHovered(c: Coordinator, st: FeatureStates, events: seq<Event>)
    requires HoverConsistent(st, c.lastIn)
    ensures HoverConsistent(Run(c, st, events).0, Run(c, st, events).1.lastIn)
    ensures |HoveredTargets(Run(c, st, events).0)| <= 1
    decreases |events|
  {
    if |events| > 0 {
      var r := Handle(c, events[0]);
      HandleKeepsHoverConsistent(c, st, events[0]);
      AtMostOneHovered(r.next, Apply(st, r.trace), events[1..]);
    } else {
      HoverConsistentAtMostOne(st, c.lastIn);
    }
  }

  /** The initial coordinator on a fresh engine is hover-consistent. */
  lemma InitialHoverConsistent()
    ensures HoverConsistent(map[], Initial.lastIn)
  {
    assert HoveredTargets(map[]) == {};
  }

  /** An open drag never survives a mouse-up, a click or a double-click, and
      a mouse-down replaces it by the drag it opens (or none). Only mouse-up
      fires `onDragEnd`. */
  lemma DragSessionsClose(c: Coordinator, kind: ClickKind, hits: seq<Feature>, respond: (Handler, Feature) -> bool)
    requires c.dragging.Some?
    ensures MouseUp(c).next.dragging.None?
    ensures Click(c, kind, hits, respond).next.dragging.None?
    ensures forall e :: e in Click(c, kind, hits, respond).trace ==> e == SetCursor("")
    ensures MouseDown(c, hits).next.dragging.Some? ==>
      MouseDown(c, hits).next.dragging.value.layerName in LayerKeysOffering(GetLayersForSources(c.sources), Draggable)
    ensures MouseDown(c, hits).trace[0] == SetCursor("")
  {
    var draggable := HitTest(c.sources, hits, Draggable);
    if |draggable| > 0 {
      assert draggable[0] in draggable;
    }
  }

  /** Mouse-move during a drag neither changes the hover nor touches feature
      state. */
  lemma DragMoveLeavesHoverAlone(c: Coordinator, hits: seq<Feature>, st: FeatureStates)
    requires c.dragging.Some?
    ensures MouseMove(c, hits).next.lastIn == c.lastIn
    ensures Apply(st, MouseMove(c, hits).trace) == st
  {
    ApplyStateless(st, MouseMove(c, hits).trace);
  }
}
