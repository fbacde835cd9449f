/** The bounds binder (`MapBounds` in lib/src/MapBounds.tsx and
    src/MapBounds.tsx): on every change of the engine, the bounds or the
    padding it records the request with the coordinator and fits the camera
    to it; the animation duration is read through a ref, so a change of the
    duration alone fits nothing. */
module MapBounds {
  import opened Wrappers
  import opened Engine
  import Interaction

  /** The binder's props; an absent padding or duration takes its default. */
  datatype Props = Props(bounds: Option<Bounds>, padding: Option<Padding>, duration: Option<real>)

  const DefaultPadding: Padding := PaddingPx(0.0)
  const DefaultDuration: real := 200.0

  function PaddingOf(p: Props): Padding {
    p.padding.GetOr(DefaultPadding)
  }

  function DurationOf(p: Props): real {
    p.duration.GetOr(DefaultDuration)
  }

  /** What the bounds effect depends on: whether the engine exists, the
      bounds and the padding (`setBounds` is a stable callback). */
  datatype Deps = Deps(hasMap: bool, bounds: Option<Bounds>, padding: Padding)

  /** The binder's refs: the duration ref and the dependencies the bounds
      effect last ran with (none before the first commit). */
  datatype Binder = Binder(durationRef: real, lastDeps: Option<Deps>)

  /** The binder right after its first render: the ref holds the initial duration. */
  function Mounted(p: Props): Binder {
    Binder(DurationOf(p), None)
  }

  /** The commit of one render: the new coordinator refs, binder refs and effects. */
  datatype Commit = Commit(coordinator: Interaction.Coordinator, binder: Binder, trace: seq<Effect>)

  /** One commit. The duration effect runs first and stores the current
      duration; the bounds effect then runs only when its dependencies
      changed and, with an engine and bounds, records and fits the request
      with the duration held by the ref. */
  function Render(c: Interaction.Coordinator, b: Binder, hasMap: bool, p: Props): (r: Commit)
    ensures r.binder.durationRef == DurationOf(p)
    ensures r.binder.lastDeps == Some(Deps(hasMap, p.bounds, PaddingOf(p)))
    ensures r.trace == [] ==> r.coordinator == c
    ensures r.trace != [] <==> b.lastDeps != Some(Deps(hasMap, p.bounds, PaddingOf(p))) && hasMap && p.bounds.Some?
    ensures r.trace != [] ==>
      && r.trace == [FitBounds(p.bounds.value, Some(PaddingOf(p)), Some(DurationOf(p)))]
      && r.coordinator == Interaction.SetBounds(c, p.bounds, Some(PaddingOf(p)), Some(DurationOf(p)))
  {
    var durationRef := DurationOf(p);
    var deps := Deps(hasMap, p.bounds, PaddingOf(p));
    var binder := Binder(durationRef, Some(deps));
    if b.lastDeps == Some(deps) then Commit(c, binder, [])
    else if !hasMap || p.bounds.None? then Commit(c, binder, [])
    else
      var bounds := p.bounds.value;
      Commit(Interaction.SetBounds(c, p.bounds, Some(PaddingOf(p)), Some(durationRef)),
             binder,
             [FitBounds(bounds, Some(PaddingOf(p)), Some(durationRef))])
  }

  /** The request recorded with the coordinator is the one fitted, so a later
      resize of the container fits the camera to exactly the same triple. */
  lemma RecordedRequestIsFitted(c: Interaction.Coordinator, b: Binder, hasMap: bool, p: Props)
    ensures var r := Render(c, b, hasMap, p);
      r.trace != [] ==> Interaction.Resize(r.coordinator) == r.trace
  {
  }

  /** Without padding or duration props, the first fit uses padding 0 and a
      200 ms animation. */
  lemma DefaultsApply(c: Interaction.Coordinator, bounds: Bounds)
    ensures Render(c, Mounted(Props(Some(bounds), None, None)), true, Props(Some(bounds), None, None)).trace
         == [FitBounds(bounds, Some(PaddingPx(0.0)), Some(200.0))]
  {
  }

  /** Changing only the duration fits nothing, but the next fit (here, after
      a change of bounds) uses the new duration. */
  lemma DurationOnlyChangeDoesNotRefit(c: Interaction.Coordinator, b: Binder, hasMap: bool, p: Props, d: real, bounds2: Bounds)
    requires p.bounds != Some(bounds2)
    ensures var first := Render(c, b, hasMap, p);
      var second := Render(first.coordinator, first.binder, hasMap, p.(duration := Some(d)));
      && second.trace == []
      && second.coordinator == first.coordinator
      && (hasMap ==>
          Render(second.coordinator, second.binder, hasMap, p.(duration := Some(d), bounds := Some(bounds2))).trace
          == [FitBounds(bounds2, Some(PaddingOf(p)), Some(d))])
  {
  }

  /** Rendering the same props again fits nothing: the dependencies are
      those the bounds effect last ran with. */
  lemma SamePropsDoNotRefit(c: Interaction.Coordinator, b: Binder, hasMap: bool, p: Props)
    ensures var first := Render(c, b, hasMap, p);
      Render(first.coordinator, first.binder, hasMap, p).trace == []
  {
  }

  /** A new per-side padding object refits the camera even when its sides
      equal the previous one's, as happens with an inline object literal. */
  lemma FreshPaddingObjectRefits(c: Interaction.Coordinator, b: Binder, p: Props, q: Padding, id: nat)
    requires p.bounds.Some? && q.PaddingSides? && p.padding == Some(q) && id != q.id
    ensures var first := Render(c, b, true, p);
      var other := q.(id := id);
      Render(first.coordinator, first.binder, true, p.(padding := Some(other))).trace
        == [FitBounds(p.bounds.value, Some(other), Some(DurationOf(p)))]
  {
  }

  /** Without an engine or without bounds nothing is recorded or fitted,
      whatever was rendered before. */
  lemma NoMapOrNoBoundsIsNoop(c: Interaction.Coordinator, b: Binder, hasMap: bool, p: Props)
    requires !hasMap || p.bounds.None?
    ensures Render(c, b, hasMap, p).trace == []
    ensures Render(c, b, hasMap, p).coordinator == c
  {
  }
}
