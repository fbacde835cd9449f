/** Concrete runs of the model: the worked examples a user of the library
    relies on, each checked against the transitions. */
module Scenarios {
  import opened Wrappers
  import opened JsObject
  import opened Engine
  import opened Registry
  import opened Interaction
  import SourceBinder
  import LayerBinder
  import Utils

  function WithClick(token: nat): Handlers {
    NoHandlers.(onClick := Some(Handler(token)))
  }

  /** The registry of the stacked-layers example: one unmanaged source with
      layers a, b and c, whose click handlers are 1, 2 and 3. */
  function Stacked(): Sources {
    [Prop("s", Source("s", false, [
      Prop("a", Layer("a", WithClick(1))),
      Prop("b", Layer("b", WithClick(2))),
      Prop("c", Layer("c", WithClick(3)))]))]
  }

  /** The flattened entries of that registry, in order. */
  lemma StackedFlat()
    ensures GetLayersForSources(Stacked()) == [
      ExtendedLayer(Layer("a", WithClick(1)), "s", "a"),
      ExtendedLayer(Layer("b", WithClick(2)), "s", "b"),
      ExtendedLayer(Layer("c", WithClick(3)), "s", "c")]
  {
    assert Stacked()[1..] == [];
  }

  /** In that registry each native id resolves to its own click handler. */
  lemma StackedHandlers()
    ensures ClickHandler(SingleClick, Stacked(), "a") == Some(Handler(1))
    ensures ClickHandler(SingleClick, Stacked(), "b") == Some(Handler(2))
    ensures LayerKeysOffering(GetLayersForSources(Stacked()), Clickable(SingleClick)) == ["a", "b", "c"]
  {
    var flat := GetLayersForSources(Stacked());
    StackedFlat();
    assert LayerKeysOffering(flat[3..], Clickable(SingleClick)) == [];
    assert LayerKeysOffering(flat[2..], Clickable(SingleClick)) == ["c"];
    assert LayerKeysOffering(flat[1..], Clickable(SingleClick)) == ["b", "c"];
    assert FindLayerFromLayers(flat, "a") == Some(flat[0]);
    assert FindLayerFromLayers(flat[1..], "b") == Some(flat[1]);
  }

  /** Dispatch over three hits whose first handler answers falsy and whose
      second answers truthy runs exactly those two handlers. */
  lemma DispatchStopsAtSecond(
    kind: ClickKind, handlerOf: string -> Option<Handler>, f1: Feature, f2: Feature, f3: Feature,
    respond: (Handler, Feature) -> bool, h1: Handler, h2: Handler)
    requires handlerOf(f1.layer) == Some(h1) && handlerOf(f2.layer) == Some(h2)
    requires !respond(h1, f1) && respond(h2, f2)
    ensures Dispatch(kind, handlerOf, [f1, f2, f3], respond) == [Clicked(kind, h1, f1), Clicked(kind, h2, f2)]
  {
    assert [f1, f2, f3][1..] == [f2, f3];
  }

  /** Hits on layers a, b and c of the stacked registry all pass the click
      hit-test, in the engine's order. */
  lemma StackedHits(fa: Feature, fb: Feature, fc: Feature)
    requires fa.layer == "a" && fb.layer == "b" && fc.layer == "c"
    ensures HitTest(Stacked(), [fa, fb, fc], Clickable(SingleClick)) == [fa, fb, fc]
  {
    var keys := ["a", "b", "c"];
    assert keys[0] == fa.layer && keys[1] == fb.layer && keys[2] == fc.layer;
    QueryRenderedKeepsListed([fa, fb, fc], keys);
    StackedHandlers();
  }

  /** When every hit is drawn by a listed layer, the query keeps them all. */
  lemma {:induction false} QueryRenderedKeepsListed(hits: seq<Feature>, layerKeys: seq<string>)
    requires forall i :: 0 <= i < |hits| ==> hits[i].layer in layerKeys
    ensures QueryRendered(hits, layerKeys) == hits
  {
    if |hits| > 0 {
      QueryRenderedKeepsListed(hits[1..], layerKeys);
      assert [hits[0]] + hits[1..] == hits;
    }
  }

  /** A click handler answering truthy only when it is handler 2. */
  predicate SecondAnswers(h: Handler, f: Feature) {
    h == Handler(2)
  }

  /** Three stacked clickable layers: the topmost handler answers falsy, the
      second truthy; the third never fires. */
  lemma StackedClickStopsEarly(fa: Feature, fb: Feature, fc: Feature)
    requires fa.layer == "a" && fb.layer == "b" && fc.layer == "c"
    ensures Click(Initial.(sources := Stacked()), SingleClick, [fa, fb, fc], SecondAnswers).trace
         == [Clicked(SingleClick, Handler(1), fa), Clicked(SingleClick, Handler(2), fb)]
  {
    StackedHandlers();
    StackedHits(fa, fb, fc);
    var handlerOf := ClickHandlers(SingleClick, Stacked());
    assert handlerOf(fa.layer) == Some(Handler(1)) && handlerOf(fb.layer) == Some(Handler(2));
    DispatchStopsAtSecond(SingleClick, handlerOf, fa, fb, fc, SecondAnswers, Handler(1), Handler(2));
  }

  /** Layer A: hoverable, with a leave handler. */
  function LayerA(): Layer {
    Layer("A", NoHandlers.(hoverable := true, onMouseLeave := Some(Handler(11))))
  }

  /** Layer B: hoverable, with an enter handler. */
  function LayerB(): Layer {
    Layer("B", NoHandlers.(hoverable := true, onMouseEnter := Some(Handler(22))))
  }

  /** One unmanaged source drawing layers A and B. */
  function TwoHoverable(): Sources {
    [Prop("s", Source("s", false, [Prop("A", LayerA()), Prop("B", LayerB())]))]
  }

  /** In that registry both layers are hoverable, neither is interactive, and
      each native id resolves to its own handlers. */
  lemma TwoHoverableLayers()
    ensures LayerKeysOffering(GetLayersForSources(TwoHoverable()), Interactive) == []
    ensures LayerKeysOffering(GetLayersForSources(TwoHoverable()), Hoverable) == ["A", "B"]
    ensures ResolveHandlers(TwoHoverable(), "A") == Some(LayerA().handlers)
    ensures ResolveHandlers(TwoHoverable(), "B") == Some(LayerB().handlers)
  {
    var flat := GetLayersForSources(TwoHoverable());
    assert flat == [ExtendedLayer(LayerA(), "s", "A"), ExtendedLayer(LayerB(), "s", "B")];
    assert LayerKeysOffering(flat[2..], Interactive) == [];
    assert LayerKeysOffering(flat[1..], Interactive) == [];
    assert LayerKeysOffering(flat[2..], Hoverable) == [];
    assert LayerKeysOffering(flat[1..], Hoverable) == ["B"];
  }

  /** Moving from feature 5 of hoverable layer A to feature 5 of hoverable
      layer B: A's flag is cleared, A's leave fires once, then B's feature is
      flagged and B's enter fires once. */
  lemma HoverMovesBetweenLayers()
    ensures
      var c := Initial.(sources := TwoHoverable(), lastIn := Some(LastIn(NumId(5), "A", "s", None)));
      var fb := Feature(NumId(5), "B", "s", None);
      var t := Target(NumId(5), "s", None);
      MouseMove(c, [fb]) == Step(c.(lastIn := Some(LastIn(NumId(5), "B", "s", None))), [
        SetCursor(""),
        RemoveFeatureState(t, HoveredKey),
        MouseLeft(Handler(11)),
        SetFeatureState(t, HoveredKey, Bool(true)),
        MouseEntered(Handler(22), fb)])
  {
    var fb := Feature(NumId(5), "B", "s", None);
    var t := Target(NumId(5), "s", None);
    var c := Initial.(sources := TwoHoverable(), lastIn := Some(LastIn(NumId(5), "A", "s", None)));
    HoverFromAToB();
    var hover := Hover(TwoHoverable(), c.lastIn, HitTest(TwoHoverable(), [fb], Hoverable));
    assert MouseMove(c, [fb]).trace == [SetCursor("")] + hover.trace;
    FiveInOrder(SetCursor(""), RemoveFeatureState(t, HoveredKey), MouseLeft(Handler(11)),
      SetFeatureState(t, HoveredKey, Bool(true)), MouseEntered(Handler(22), fb));
  }

  /** The hover part of that move, and the cursor it shows. */
  lemma HoverFromAToB()
    ensures
      var l := LastIn(NumId(5), "A", "s", None);
      var fb := Feature(NumId(5), "B", "s", None);
      var t := Target(NumId(5), "s", None);
      && Cursor(TwoHoverable(), [fb]) == ""
      && Hover(TwoHoverable(), Some(l), HitTest(TwoHoverable(), [fb], Hoverable)) == Step(Some(LastIn(NumId(5), "B", "s", None)),
           [RemoveFeatureState(t, HoveredKey)] + [MouseLeft(Handler(11))]
           + [SetFeatureState(t, HoveredKey, Bool(true))] + [MouseEntered(Handler(22), fb)])
  {
    var fb := Feature(NumId(5), "B", "s", None);
    var l := LastIn(NumId(5), "A", "s", None);
    var keys := ["A", "B"];
    assert keys[1] == fb.layer;
    QueryRenderedKeepsListed([fb], keys);
    TwoHoverableLayers();
    assert HitTest(TwoHoverable(), [fb], Hoverable) == [fb];
    assert Leave(TwoHoverable(), l) == [MouseLeft(Handler(11))];
    assert Enter(TwoHoverable(), fb) == [MouseEntered(Handler(22), fb)];
    assert "B"[0] != "A"[0];
    assert IsOtherFeature(fb, l) && IsOtherLayer(fb, l);
  }

  /** Five effects issued one after another form a five-effect trace. */
  lemma FiveInOrder(a: Effect, b: Effect, c: Effect, d: Effect, e: Effect)
    ensures [a] + ([b] + [c] + [d] + [e]) == [a, b, c, d, e]
  {
  }

  /** A bounds request with padding 10 and duration 0 is re-fitted as is on
      a later resize. */
  lemma ResizeKeepsRequestedPadding(b: Bounds)
    ensures Resize(SetBounds(Initial, Some(b), Some(PaddingPx(10.0)), Some(0.0)))
         == [FitBounds(b, Some(PaddingPx(10.0)), Some(0.0))]
  {
  }

  /** The layer map of "regions" once "fill" and then "line" are mounted. */
  function FillAndLine(): Object<Layer> {
    [Prop("fill", Layer("fill", NoHandlers)), Prop("line", Layer("line", NoHandlers))]
  }

  /** The registry right after "regions" registers. */
  lemma RegisterRegions()
    ensures var registered := SourceBinder.RegisterSource(Empty, "regions", true,
        Some([Prop("type", Str("geojson"))]), Null, true, true);
      && WellFormed(registered.next)
      && GetSource(registered.next, "regions") == Some(Source("regions", true, []))
      && registered.trace == [AddSource("regions", [Prop("type", Str("geojson")), Prop("data", Null)])]
  {
    EmptyWellFormed();
    RegionsOptions();
  }

  /** The GeoJSON options of "regions" get the initial data appended. */
  lemma RegionsOptions()
    ensures SourceBinder.SourceOptions([Prop("type", Str("geojson"))], Null)
         == [Prop("type", Str("geojson")), Prop("data", Null)]
  {
    assert "data"[0] != "type"[0];
    assert Keys([Prop("type", Str("geojson"))]) == ["type"];
  }

  /** Mounting a new layer of "regions" appends it to the layer map. */
  lemma MountOne(sources: Sources, layers: Object<Layer>, layerKey: string)
    requires WellFormed(sources) && layerKey != ""
    requires GetSource(sources, "regions") == Some(Source("regions", true, layers))
    requires !Has(layers, layerKey)
    ensures var m := LayerBinder.MountLayer(sources, "regions", layerKey, true, [], None, true);
      && WellFormed(m.next)
      && GetSource(m.next, "regions") == Some(Source("regions", true, layers + [Prop(layerKey, Layer(layerKey, NoHandlers))]))
  {
    LayerBinder.MountAppends(sources, "regions", layerKey, true, [], None);
  }

  /** The native id of "fill" under the managed "regions". */
  lemma FillId()
    ensures Utils.GetLayerName("regions", "fill", true) == "regions›fill"
  {
  }

  /** Mounting "fill" adds one native layer with just its id and source. */
  lemma FillTrace(sources: Sources)
    ensures LayerBinder.MountLayer(sources, "regions", "fill", true, [], None, true).trace
         == [AddLayer([Prop("id", Str("regions›fill")), Prop("source", Str("regions"))], None)]
  {
    FillId();
    LayerBinder.BareLayerOptions("regions›fill", "regions");
  }

  /** Mounting "fill" on a registry where "regions" has no layers. */
  lemma MountFill(sources: Sources)
    requires WellFormed(sources)
    requires GetSource(sources, "regions") == Some(Source("regions", true, []))
    ensures var fill := LayerBinder.MountLayer(sources, "regions", "fill", true, [], None, true);
      && WellFormed(fill.next)
      && GetSource(fill.next, "regions") == Some(Source("regions", true, [Prop("fill", Layer("fill", NoHandlers))]))
      && fill.trace == [AddLayer([Prop("id", Str("regions›fill")), Prop("source", Str("regions"))], None)]
  {
    FillTrace(sources);
    MountOne(sources, [], "fill");
    assert [] + [Prop("fill", Layer("fill", NoHandlers))] == [Prop("fill", Layer("fill", NoHandlers))];
  }

  /** The layer map holding only "fill" has no "line". */
  lemma OnlyFill()
    ensures !Has([Prop("fill", Layer("fill", NoHandlers))], "line")
  {
    assert "line"[0] != "fill"[0];
    assert Keys([Prop("fill", Layer("fill", NoHandlers))]) == ["fill"];
  }

  /** Mounting "line" next to "fill". */
  lemma MountLine(sources: Sources)
    requires WellFormed(sources)
    requires GetSource(sources, "regions") == Some(Source("regions", true, [Prop("fill", Layer("fill", NoHandlers))]))
    ensures var line := LayerBinder.MountLayer(sources, "regions", "line", true, [], None, true);
      && WellFormed(line.next)
      && GetSource(line.next, "regions") == Some(Source("regions", true, FillAndLine()))
  {
    OnlyFill();
    MountOne(sources, [Prop("fill", Layer("fill", NoHandlers))], "line");
    FillThenLine();
  }

  /** Appending "line" to the map holding "fill" gives both, in order. */
  lemma FillThenLine()
    ensures [Prop("fill", Layer("fill", NoHandlers))] + [Prop("line", Layer("line", NoHandlers))] == FillAndLine()
  {
  }

  /** Destroying "fill" in any well-formed registry holding that map leaves
      exactly "line" and removes the native "regions›fill" layer once. */
  lemma DestroyFill(sources: Sources)
    requires WellFormed(sources)
    requires GetSource(sources, "regions") == Some(Source("regions", true, FillAndLine()))
    ensures var unmounted := LayerBinder.DestroyLayer(sources, "regions", "fill", true);
      && GetSource(unmounted.next, "regions") == Some(Source("regions", true, [Prop("line", Layer("line", NoHandlers))]))
      && unmounted.trace == [Engine.RemoveLayer("regions›fill")]
  {
    assert Keys(FillAndLine())[0] == "fill";
    LayerBinder.DestroyLayerIsRemoveLayer(sources, "regions", "fill", true);
    EntryWellFormed(sources, "regions");
    DeleteFirstOfUnique(FillAndLine());
    assert FillAndLine()[1..] == [Prop("line", Layer("line", NoHandlers))];
    assert Utils.GetLayerName("regions", "fill", true) == "regions›fill";
  }

  /** Source "regions" with layers "fill" and "line": unmounting the "fill"
      binder leaves exactly "line" registered and removes the native
      "regions›fill" layer once. */
  lemma UnmountOneLayer()
    ensures
      var registered := SourceBinder.RegisterSource(Empty, "regions", true,
        Some([Prop("type", Str("geojson"))]), Null, true, true);
      var fill := LayerBinder.MountLayer(registered.next, "regions", "fill", true, [], None, true);
      var line := LayerBinder.MountLayer(fill.next, "regions", "line", true, [], None, true);
      var unmounted := LayerBinder.DestroyLayer(line.next, "regions", "fill", true);
      && GetSource(unmounted.next, "regions") == Some(Source("regions", true, [Prop("line", Layer("line", NoHandlers))]))
      && unmounted.trace == [Engine.RemoveLayer("regions›fill")]
      && ResolveLayer(unmounted.next, "regions›line").Some?
  {
    RegisterRegions();
    var registered := SourceBinder.RegisterSource(Empty, "regions", true,
      Some([Prop("type", Str("geojson"))]), Null, true, true);
    var fill := LayerBinder.MountLayer(registered.next, "regions", "fill", true, [], None, true);
    MountFill(registered.next);
    MountLine(fill.next);
    var line := LayerBinder.MountLayer(fill.next, "regions", "line", true, [], None, true);
    DestroyFill(line.next);
    LineResolves(LayerBinder.DestroyLayer(line.next, "regions", "fill", true).next);
  }

  /** With only "line" left under "regions", its native id resolves. */
  lemma LineResolves(sources: Sources)
    requires GetSource(sources, "regions") == Some(Source("regions", true, [Prop("line", Layer("line", NoHandlers))]))
    ensures ResolveLayer(sources, "regions›line").Some?
  {
    assert Utils.GetLayerName("regions", "line", true) == "regions›line";
    RegisteredLayerResolves(sources, "regions", Source("regions", true, [Prop("line", Layer("line", NoHandlers))]), 0);
  }

  /** A layer stored under a registered source resolves under its native id. */
  lemma RegisteredLayerResolves(sources: Sources, sourceKey: string, source: Source, j: nat)
    requires GetSource(sources, sourceKey) == Some(source) && j < |source.layers|
    ensures var id := Utils.GetLayerName(sourceKey, source.layers[j].key, source.managed);
      ResolveLayer(sources, id).Some? && ResolveLayer(sources, id).value.layerKey == id
  {
    var i :| 0 <= i < |sources| && sources[i].key == sourceKey && sources[i].value == source;
    var e := Extend(sources[i], source.layers[j]);
    assert IsRegistered(sources, e);
    ResolveLayerFindsRegistered(sources, e.layerKey);
  }
}
