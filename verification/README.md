# re-map: a Dafny model of the registry and interaction protocol

re-map is a set of React bindings for a GL map engine (maplibre-gl in the
newest snapshot, mapbox-gl in the older ones). A `Map` component owns the
engine and a **registry** of declared sources and their layers. `MapSource`
and `MapLayer` children register themselves in it through a copy-on-write
protocol: `setSource`, `getSource`, `removeSource`, `setLayer`, `getLayer`
and `removeLayer`. The coordinator's pointer handlers walk the registry to
resolve a rendered feature's native layer id back to the handlers its layer
declared.

The model covers three snapshots of that core:

- the newest one (`lib/src`, maplibre);
- the mapbox one (`src`);
- the oldest one (root-level files).

## Reading the model

- **JavaScript objects** (the registry, a source's layer map, option
  objects) are insertion-ordered association lists (`JsObject`):
  - assignment or spread replaces a property in place or appends it;
  - `delete` filters it out;
  - a read finds the first match.

  `Object.entries` order therefore matters exactly where it does in the
  code: the first match of `findLayerFromLayers`, and the order of the
  destroy cascade.
- **The engine** (`Engine`) is reduced to what the library observes:
  - The engine's answers are inputs: the rendered features under the
    pointer (topmost first), the native source behind a key, whether a
    layer id is mounted, and the truthiness of a click handler's return
    value.
  - Every call the library makes is an `Effect`, recorded in order. This
    covers calls into the engine, the canvas cursor and user handlers.
  - `Engine.Apply` gives the effects' meaning for feature state.
    `setStyle` and `remove` discard all feature state, and `removeSource`
    discards the feature state of that source's features.
- **Every binder effect** is a function from the registry and the binder's
  inputs to a `Step` (the next registry and the trace). Handlers and
  `destroy` closures are not stored: a layer's `destroy` is the function
  `LayerBinder.DestroyLayer`, keyed by the entry's source and name.
- **Well-formedness.** Every registry operation keeps the registry
  `WellFormed`: every entry is stored under its own name, and keys are
  unique. Frame conditions are stated for well-formed registries.

What is shared between snapshots:

- The mapbox snapshot's coordinator (`src/Map.tsx`) handles every
  pointer, resize, bounds, style and teardown event exactly as the newest
  one does, so `Interaction` models both. The two files differ elsewhere:
  in types, in the engine import, in the control-option defaults, and in
  the reset of the destroyed flag on engine creation (both under
  "Left out").
- The mapbox snapshot's feature-state and bounds binders are those of
  `FeatureState` and `MapBounds`.
- The oldest snapshot's registry accessors (`index.tsx:150-174`) and
  `getLayer` (`MapSource/index.tsx:107-113`) are `Registry.GetSource`,
  `Registry.IsSourceDefined`, `Registry.SetSource`,
  `Registry.RemoveSource` and `SourceBinder.GetLayer`.
- Every source of the oldest snapshot is added to the engine, so its
  entries are modelled as managed sources. Module `Legacy` proves its
  binders equal to, or different from, the newest snapshot's managed
  binders.

Two library calls are modelled on assumptions about code outside the
repository:

- `difference(new Set(a), new Set(b))` from `@togglecorp/fujs` keeps the
  members of `a` that are not in `b`, in `a`'s order. Attributes are
  compared by object identity, modelled as the `ref` field of
  `FeatureState.Attribute`.
- The engine's `setStyle` clears all feature state. The engine may instead
  diff the new style against the old and keep sources, and with them their
  feature state; the hover lemmas that cross a style change rely on the
  clearing (see "Left out").

Where the code departs from its own comments, the model follows the code:

- Mouse-down drops an open drag and then still hit-tests for a new one.
- Click, double-click and mouse-down close a drag without calling
  `onDragEnd`.
- A style change drops the registry and the hover, but not an open drag.
- The ordering comment says the layer with index j is moved before the
  layer with index i. The code moves `v[i]` before `v[j]`.

## Model

| member | source | states |
|---|---|---|
| Utils.GetLayerName | lib/src/utils.ts:8-13 | an unmanaged name is the bare key; a managed one is the source key, the separator and the layer key, read back position by position |
| Utils.LayerNameInjective | lib/src/utils.ts:8-13 | within one source, distinct layer keys get distinct native names |
| Utils.ManagedNameIsNotTheKey | lib/src/utils.ts:12 | a qualified name never equals its bare layer key |
| Utils.QualifiedNamesCanCollide | lib/src/utils.ts:12 | across sources, qualification is not injective: ("a", "b›c") and ("a›b", "c") collide |
| Registry.IsSourceDefined | lib/src/Map.tsx:591-596 | membership holds exactly when `getSource` finds an entry |
| Registry.SetSource | lib/src/Map.tsx:605-614 | the entry is readable under its own name, every other key reads as before, and well-formedness is kept |
| Registry.RemoveSource | lib/src/Map.tsx:616-638 | an unknown key is a no-op; otherwise the key is undefined afterwards, the native source is removed iff an engine exists, and other keys are untouched |
| Registry.EntryWellFormed | lib/src/Map.tsx:605-614 | in a well-formed registry, an entry found under a key carries that key as its name |
| Registry.GetLayersForSources | lib/src/Map.tsx:70-82 | one flattened entry per (source, layer) pair, each carrying its source key and native id; nothing else |
| Registry.FindLayerFromLayers | lib/src/Map.tsx:65-68 | the first flattened entry with the given native id, or none exactly when no entry has it |
| Registry.ResolveLayerFindsRegistered | lib/src/Map.tsx:65-82 | a native id resolves iff some registered pair qualifies to it, and then to such a pair |
| Registry.GetLayersForSourcesInOrder | lib/src/Map.tsx:70-82 | the flattening lists the sources in registry order and each source's layers in layer-map order: pair (i, j) is at position `Offset(i) + j`, every position holds exactly that pair, and an earlier pair sits earlier |
| Registry.FirstMatchPair | lib/src/Map.tsx:65-82 | the first flattened entry with a native id is a registered pair, and no pair before it shares that id |
| Registry.ResolveLayerIsFirstPair | lib/src/Map.tsx:65-82 | a native id resolves to the qualifying pair with the least (source index, layer index); colliding ids resolve to the earliest pair |
| Registry.ResolveLayerNoneIffNoPair | lib/src/Map.tsx:65-82 | a native id resolves to nothing iff no registered pair qualifies to it |
| SourceBinder.GetLayer | lib/src/MapSource/index.tsx:245-254 | absent for an unregistered source; otherwise present iff the layer map has the key |
| SourceBinder.SetLayer | lib/src/MapSource/index.tsx:256-288 | no-op without the source; otherwise the slot becomes the callback's answer on the old slot (deleted on `undefined`), every other slot and source is unchanged, and the managed flag is kept |
| SourceBinder.RemoveLayer | lib/src/MapSource/index.tsx:290-327 | no-op for an unknown source or layer; otherwise the slot is deleted, the qualified native layer is removed iff there is an engine and the source is managed, and nothing else changes |
| SourceBinder.RemoveLayerIsSetLayerUndefined | lib/src/MapSource/index.tsx:268-324 | on a registered layer, `removeLayer` leaves the registry exactly as `setLayer` answering `undefined` does |
| SourceBinder.SourceOptions | lib/src/MapSource/index.tsx:91-93 | a GeoJSON specification gets the initial data under `data` and keeps every other property; any other options pass unchanged |
| SourceBinder.RegisterSource | lib/src/MapSource/index.tsx:79-137 | without engine, key or style nothing happens; otherwise the source is registered with an empty layer map and its flag, other sources are untouched, and `addSource` is issued iff the source is managed and has options |
| SourceBinder.UpdateGeoJson | lib/src/MapSource/index.tsx:141-157 | `setData` with the new data is issued iff engine, key, truthy data, style and managed flag are present and the engine's source exists and is GeoJSON |
| SourceBinder.RegisteredSourceRendersChildren | lib/src/MapSource/index.tsx:356-358 | after registration the source renders its children and its layer map is empty |
| LayerBinder.RemoveUndefined | lib/src/MapSource/MapLayer.tsx:23-34 | the cleaned object holds exactly the properties with a non-empty name and a truthy value |
| LayerBinder.RemoveUndefinedGet | lib/src/MapSource/MapLayer.tsx:23-34 | read back by name, a cleaned object answers the original value iff it was truthy under a non-empty name |
| LayerBinder.AddLayerOptions | lib/src/MapSource/MapLayer.tsx:125-129 | the native layer's options carry the native id and the source key, every other option iff it is truthy under a non-empty name, and only truthy values |
| LayerBinder.CleanedSpreadPassesThrough | lib/src/MapSource/MapLayer.tsx:23-34 | after spreading and cleaning, every option other than `id` and `source` reads back iff it was truthy under a non-empty name |
| LayerBinder.BareLayerOptions | lib/src/MapSource/MapLayer.tsx:125-129 | a layer without options of its own gets exactly its id and source |
| LayerBinder.MountLayer | lib/src/MapSource/MapLayer.tsx:112-161 | no-op without engine or keys; otherwise the entry is stored bare under the layer key, and one `addLayer` is issued iff the source is managed: beneath the given layer, under the qualified id, on the source key, with the caller's truthy options |
| LayerBinder.MountAppends | lib/src/MapSource/MapLayer.tsx:145-151 | mounting a fresh layer appends its entry to its source's layer map and changes no other source |
| LayerBinder.DestroyLayer | lib/src/MapSource/MapLayer.tsx:136-143 | no-op when the entry is gone; afterwards the entry is always gone |
| LayerBinder.DestroyLayerIsRemoveLayer | lib/src/MapSource/MapLayer.tsx:136-143 | the guard in `destroy` is redundant: it behaves exactly as `removeLayer` |
| LayerBinder.MountThenDestroy | lib/src/MapSource/MapLayer.tsx:112-161 | mounting a fresh layer and destroying it restores the registry exactly; a managed source's native layer is removed under the id it was added under |
| LayerBinder.PatchHandlers | lib/src/MapSource/MapLayer.tsx:164-190 | an existing entry gets the current handlers, an absent one stays absent, and every other entry is untouched |
| LayerBinder.PushProperties | lib/src/MapSource/MapLayer.tsx:200-226 | one paint or layout write per entry, in entry order, on the layer's native id; nothing without an engine, keys or values |
| LayerBinder.PushFilter | lib/src/MapSource/MapLayer.tsx:230-239 | one `setFilter` on the native id iff engine and both keys are present |
| Cascade.DestroyLayers | lib/src/MapSource/index.tsx:114-116 | the layer destroys in turn keep the registry well formed and touch no other source |
| Cascade.NativeLayerRemovals | lib/src/MapSource/index.tsx:114-116 | one native removal per key when enabled, none otherwise |
| Cascade.DestroyFirstLayer | lib/src/MapSource/index.tsx:114-116 | destroying the first layer drops exactly that layer from its map |
| Cascade.DestroyLayersEmptiesSource | lib/src/MapSource/index.tsx:114-116 | destroying the layers in layer-map order empties the map and removes each native layer once, in order |
| Cascade.DestroySource | lib/src/MapSource/index.tsx:107-118 | no-op for an unregistered source; afterwards the source is never defined, and other sources are untouched |
| Cascade.DestroySourceCascades | lib/src/MapSource/index.tsx:107-118 | the trace is each native layer's removal (managed source with an engine) strictly before the native source's, and nothing else |
| Markers.UpdateMarkers | lib/src/MapSource/index.tsx:162-210 | the on-screen markers become exactly the rendered cluster ids, without duplicates; a marker is created iff its id is new to the cache, added iff it was not on screen, and removed iff it was on screen and is no longer rendered |
| Interaction.LayerKeysOffering | lib/src/Map.tsx:217-219 | exactly the native ids of the registered layers offering the capability |
| Interaction.QueryRendered | lib/src/Map.tsx:220-223 | exactly the hits drawn by a listed layer, and the first is the topmost such hit |
| Interaction.QueryRenderedOne | lib/src/Map.tsx:220-223 | a single hit is kept iff its layer is listed |
| Interaction.QueryRenderedSplits | lib/src/Map.tsx:220-223 | the query keeps the engine's order: the result on two consecutive runs of hits is the first run's result followed by the second's, so with the single-hit case it is the order-keeping subsequence |
| Interaction.MouseDown | lib/src/Map.tsx:203-241 | an open drag is dropped with a cursor reset; then the topmost draggable hit, if any, opens the drag with the `grabbing` cursor and prevents panning |
| Interaction.MouseDownOpensOnTopmostDraggable | lib/src/Map.tsx:216-238 | a drag opens iff some hit is drawn by a registered draggable layer, and then on the topmost such hit |
| Interaction.MouseUp | lib/src/Map.tsx:243-266 | without a drag nothing happens; otherwise `onDragEnd` fires once iff the dragged layer still resolves and has one, then the drag closes and the cursor resets |
| Interaction.Dispatch | lib/src/Map.tsx:303-311 | handlers fire topmost first; iteration stops after the first truthy answer or at a hit whose layer has no handler of this kind |
| Interaction.Click | lib/src/Map.tsx:268-358 | while dragging, only the drag closes; otherwise the hits of layers with a handler of this kind are dispatched to, and the state is unchanged |
| Interaction.Leave | lib/src/Map.tsx:420-423 | `onMouseLeave` fires once, and only it, exactly when the previous layer still resolves and declares it |
| Interaction.Enter | lib/src/Map.tsx:474-478 | `onMouseEnter` fires once, with the feature, exactly when the feature's layer resolves and declares it |
| Interaction.Hover | lib/src/Map.tsx:399-479 | the hover becomes the topmost hoverable hit, or none; staying on the same feature issues nothing |
| Interaction.HoverLeaveFires | lib/src/Map.tsx:410-456 | `onMouseLeave` fires iff there was a hover and the pointer left its layer (no hoverable hit, or one of another layer, source or source layer), and only the previous layer's handler |
| Interaction.HoverEnterFires | lib/src/Map.tsx:429-478 | `onMouseEnter` fires iff the topmost hoverable hit is a new feature (even of the same layer), with that feature, and only its layer's handler |
| Interaction.HoverFlagRemoved | lib/src/Map.tsx:410-446 | the "hovered" flag is removed iff the hover changes, and only from the previous hover |
| Interaction.HoverChangeRemovals | lib/src/Map.tsx:429-446 | when the hover moves onto another feature, the only removal is the previous hover's flag |
| Interaction.HoverFlagSet | lib/src/Map.tsx:429-472 | the "hovered" flag is set to true iff the hover changes to a feature, and only on that feature |
| Interaction.HoverEffectsInOrder | lib/src/Map.tsx:410-479 | each kind of hover effect occurs at most once, in the order: remove flag, `onMouseLeave`, set flag, `onMouseEnter` |
| Interaction.DragMove | lib/src/Map.tsx:371-381 | `onDrag` fires once, with the session, exactly when the dragged layer resolves and declares it; nothing else is issued |
| Interaction.MouseMove | lib/src/Map.tsx:360-480 | during a drag the state is unchanged and the dragged layer's `onDrag` fires iff it resolves and declares one, and nothing else does; otherwise the cursor is set, then the hover moves |
| Interaction.CursorShowsInteractive | lib/src/Map.tsx:383-397 | the cursor is `pointer` iff a registered click, double-click or drag layer is under the pointer |
| Interaction.SetBounds | lib/src/Map.tsx:148-159 | the triple is stored as given and nothing else changes |
| Interaction.Resize | lib/src/Map.tsx:482-498 | nothing without stored bounds; otherwise exactly the stored triple is fitted |
| Interaction.ResizeRefitsLastRequest | lib/src/Map.tsx:148-159 | a resize fits exactly the last `setBounds` triple |
| Interaction.StyleChange | lib/src/Map.tsx:544-584 | with a style, the registry and hover are dropped and the style is set; the drag, the request and the destroyed flag survive |
| Interaction.Destroy | lib/src/Map.tsx:507-526 | the registry and hover are dropped, the coordinator is marked destroyed, and the engine is removed |
| Interaction.Handle | lib/src/Map.tsx:500-526 | once destroyed, the coordinator stays destroyed whatever event arrives |
| Interaction.HoverConsistentAtMostOne | lib/src/Map.tsx:410-472 | when no feature but the recorded hover is flagged, at most one feature is flagged |
| Interaction.HoverKeepsConsistent | lib/src/Map.tsx:410-472 | the old feature is cleared before the new one is flagged, so no feature but the recorded hover stays flagged; whenever the hover changes, the flags are exactly the new hover |
| Interaction.HoverToFeatureExact | lib/src/Map.tsx:429-472 | a hover moving onto another feature clears every old flag and flags exactly the new feature |
| Interaction.MouseMoveKeepsHoverConsistent | lib/src/Map.tsx:360-480 | mouse-move keeps every flag but the hover's cleared; outside a drag, a move that changes the hover leaves exactly the new hover flagged |
| Interaction.MouseDownStateless | lib/src/Map.tsx:203-241 | mouse-down never touches feature state |
| Interaction.MouseUpStateless | lib/src/Map.tsx:243-266 | mouse-up never touches feature state |
| Interaction.ClickStateless | lib/src/Map.tsx:268-358 | click dispatch never touches feature state |
| Interaction.HandleKeepsHoverConsistent | lib/src/Map.tsx:500-584 | every coordinator event, a source's teardown included, keeps every flag but the recorded hover's cleared |
| Interaction.SourceRemovalKeepsHoverConsistent | lib/src/Map.tsx:616-638 | a source's teardown keeps the hover, and the engine's discarding of that source's flags keeps every flag but the hover's cleared |
| Interaction.SourceRemovalClearsHoverFlag | lib/src/Map.tsx:616-638 | removing the hovered feature's source discards its flag while `lastIn` still names it, so flags and hover no longer agree exactly |
| Interaction.AtMostOneHovered | lib/src/Map.tsx:360-638 | from a consistent start, after any sequence of events (source teardowns included) no feature but the recorded hover is flagged, so at most one is |
| Interaction.InitialHoverConsistent | lib/src/Map.tsx:141-146 | a fresh coordinator on a fresh engine is hover-consistent |
| Interaction.DragSessionsClose | lib/src/Map.tsx:203-358 | an open drag never survives mouse-up, click or double-click; only mouse-up can fire `onDragEnd`; a mouse-down resets the cursor first and opens only on a draggable layer |
| Interaction.DragMoveLeavesHoverAlone | lib/src/Map.tsx:371-381 | a drag move changes neither the hover nor feature state |
| Engine.ApplyAppend | lib/src/MapSource/MapState.tsx:133-152 | running two traces in turn is running their concatenation |
| Engine.ApplyStateless | lib/src/Map.tsx:203-358 | a trace without feature-state, style, source-removal or teardown calls leaves feature state alone |
| Engine.HoveredAfterRemoveSource | lib/src/Map.tsx:616-638 | removing a source unflags exactly that source's features |
| Engine.HoveredAfterRemove | lib/src/Map.tsx:412-419 | clearing a target's "hovered" entry unflags exactly that target |
| Engine.HoveredAfterSet | lib/src/Map.tsx:465-472 | setting a target's "hovered" entry flags exactly that target in addition |
| FeatureState.Sets | lib/src/MapSource/MapState.tsx:143-152 | one `setFeatureState` per attribute, in order, on its id and value |
| FeatureState.Removes | lib/src/MapSource/MapState.tsx:133-142 | one `removeFeatureState` per attribute, in order, on its id |
| FeatureState.ApplyRemoves | lib/src/MapSource/MapState.tsx:133-142 | the removals delete exactly the attributes' entries |
| FeatureState.ApplySets | lib/src/MapSource/MapState.tsx:143-152 | the writes overlay exactly the attributes' assignments |
| FeatureState.AssignedValues | lib/src/MapSource/MapState.tsx:61-70 | with distinct ids, the writes cover exactly the attributes' entries, each with its value |
| FeatureState.AssignedWithin | lib/src/MapSource/MapState.tsx:61-70 | whatever the ids, only the attributes' entries are written |
| FeatureState.MountState | lib/src/MapSource/MapState.tsx:50-70 | without an engine or key nothing; otherwise each initial attribute is flagged under the current source layer, in order |
| FeatureState.CleanupState | lib/src/MapSource/MapState.tsx:72-89 | nothing once the engine is destroyed or the source unregistered; otherwise each initial attribute is unflagged |
| FeatureState.MountThenCleanup | lib/src/MapSource/MapState.tsx:50-89 | mount then cleanup removes exactly the attributes' entries and leaves every other entry; a skipped cleanup leaves the mount's flags |
| FeatureState.Difference | lib/src/MapSource/MapState.tsx:130-131 | an element is kept iff it is in the first collection and not the second, without duplicates |
| FeatureState.DiffShape | lib/src/MapSource/MapState.tsx:130-131 | the deleted and the added-or-modified sets are disjoint; deleted means previous but not current; added means current |
| FeatureState.UpdateState | lib/src/MapSource/MapState.tsx:100-155 | on a source-layer switch, every previous attribute is cleared under the previous layer and then every current one is set; otherwise the dropped attributes are cleared before the current ones are set |
| FeatureState.UpdateReachesCurrent | lib/src/MapSource/MapState.tsx:100-155 | afterwards, every current attribute's entry holds its value, previous entries not re-addressed are gone, and every other entry is unchanged |
| FeatureState.SameSlots | lib/src/MapSource/MapState.tsx:130-131 | collections with the same members address the same entries |
| FeatureState.AssignedAgree | lib/src/MapSource/MapState.tsx:130-131 | writing a set-difference view of the current attributes assigns what writing them in order does |
| FeatureState.PreviousValues | lib/src/MapSource/MapState.tsx:8-14 | during each render the ref holds the previous render's value, or the initial value at first |
| MapBounds.Render | lib/src/MapBounds.tsx:17-51 | the ref takes the current duration; a fit (and the recorded request) happens iff the engine, bounds or padding changed and an engine and bounds exist, with the defaults applied |
| MapBounds.RecordedRequestIsFitted | lib/src/Map.tsx:482-498 | the request recorded with the coordinator is the one fitted, so a resize fits the same triple again |
| MapBounds.DefaultsApply | lib/src/MapBounds.tsx:17-21 | without props, the fit uses padding 0 and 200 ms |
| MapBounds.DurationOnlyChangeDoesNotRefit | lib/src/MapBounds.tsx:23-51 | a duration-only change fits nothing, but the next fit uses the new duration |
| MapBounds.NoMapOrNoBoundsIsNoop | lib/src/MapBounds.tsx:34-36 | without an engine or bounds, nothing is recorded or fitted |
| MapBounds.SamePropsDoNotRefit | lib/src/MapBounds.tsx:31-51 | rendering the same props again fits nothing |
| MapBounds.FreshPaddingObjectRefits | lib/src/MapBounds.tsx:50 | a new per-side padding object refits even when its sides are unchanged, because dependencies compare objects by identity |
| MapOrder.ValidIdentifiers | MapOrder.tsx:30-32 | exactly the listed ids the engine has mounted |
| MapOrder.ValidIdentifiersKeepOrder | MapOrder.tsx:30-32 | the kept ids keep their relative order |
| MapOrder.Row | MapOrder.tsx:35-38 | one move per later id |
| MapOrder.RowStartMonotone | MapOrder.tsx:34-39 | later rounds start later in the trace |
| MapOrder.PairIndexLexicographic | MapOrder.tsx:34-39 | moves come in lexicographic order of their index pairs |
| MapOrder.RowStartClosedForm | MapOrder.tsx:34-39 | round i starts at i(2n-i-1)/2 |
| MapOrder.RoundsLength | MapOrder.tsx:34-39 | the first i rounds hold as many moves as round i's start |
| MapOrder.PairAt | MapOrder.tsx:34-39 | the move of pair (a, b) sits at its lexicographic place and moves `v[a]` before `v[b]` |
| MapOrder.MoveRound | MapOrder.tsx:35-38 | the inner loop issues exactly round i |
| MapOrder.Order | MapOrder.tsx:20-42 | no-op without an engine or ordering; otherwise exactly one `v[a]`-before-`v[b]` move per pair a < b of the mounted ids, in lexicographic order, n(n-1)/2 in all |
| MapOrder.AllRounds | MapOrder.tsx:34-39 | the complete rounds hold every pair's move at its place, and only moves among the kept ids |
| MapOrder.RoundsCount | MapOrder.tsx:34-39 | the complete rounds hold n(n-1)/2 moves |
| MapOrder.RoundsMoves | MapOrder.tsx:34-39 | every move is between two kept ids |
| Mapbox.RegisterSource | src/MapSource/index.tsx:58-101 | the native source is always added; the entry is registered without a managed flag, which reads as unmanaged |
| Mapbox.MountLayerAsWritten | src/MapSource/MapLayer.tsx:103-152 | with the flag the context never provides, no native layer is added, though the entry is registered as a managed mount would register it |
| Mapbox.SourceAddedButLayerNever | src/MapSource/MapLayer.tsx:115-125 | after registering a source and mounting a layer, the native source exists but no native layer was added, and the registry resolves the bare key, not the qualified one |
| Mapbox.SingleLayerResolves | lib/src/Map.tsx:65-82 | in a one-source one-layer registry, exactly the layer's native id resolves |
| Mapbox.MountLayer | src/MapSource/MapLayer.tsx:103-152 | the intended mount adds one native layer under the qualified id and registers the same entry |
| Mapbox.RemoveLayerAsWritten | src/MapSource/index.tsx:250-282 | the registry change is the newest snapshot's, but the bare layer key is removed from the engine |
| Mapbox.RemovesAnotherNativeLayer | src/MapSource/index.tsx:265-271 | with the corrected mount, a layer added under the qualified id is removed under the bare key, which differs |
| Mapbox.RemoveLayer | src/MapSource/index.tsx:250-282 | the intended removal deletes the same slot and removes the native layer under the qualified id |
| Mapbox.UpdateGeoJsonAsWritten | src/MapSource/index.tsx:104-118 | it throws iff the guards pass and the engine holds no source; otherwise `setData` is issued iff the data changed and the source is GeoJSON |
| Mapbox.GeoJsonUpdateCanThrow | src/MapSource/index.tsx:109-110 | new data with no engine source throws |
| Mapbox.UpdateGeoJson | src/MapSource/index.tsx:104-118 | the intended effect never throws and agrees with the written one wherever that one does not throw |
| Mapbox.On | src/MapSource/index.tsx:188-189 | the callback is registered for the event afterwards, and nothing else changes; registering it again changes nothing |
| Mapbox.Off | src/MapSource/index.tsx:191-195 | the callback is unregistered for the event afterwards, and nothing else changes |
| Mapbox.SubscribeMarkers | src/MapSource/index.tsx:188-189 | `updateMarkers` is registered on `move` and on `moveend`, in addition to what was there |
| Mapbox.UnsubscribeMarkersAsWritten | src/MapSource/index.tsx:191-195 | the written cleanup leaves `updateMarkers` registered on both events; after the subscription it changes nothing |
| Mapbox.UnsubscribeMarkers | src/MapSource/index.tsx:191-195 | the intended cleanup takes `updateMarkers` off both events and leaves every other listener |
| Mapbox.ListenersLeak | src/MapSource/index.tsx:123-198 | after any runs and the unmount, every `updateMarkers` ever subscribed is still registered on `move` and `moveend`, and nothing else was added |
| Mapbox.ListenersBalanced | src/MapSource/index.tsx:123-198 | with the intended cleanup, the listeners end as they began |
| Legacy.GetLayerName | utils.tsx:4-6 | always the qualified name of the newest snapshot's managed case, never the bare key |
| Legacy.RegisterSource | MapSource/index.tsx:48-80 | exactly the newest snapshot's managed registration with options: one `addSource` and an empty managed entry |
| Legacy.SetLayer | MapSource/index.tsx:114-127 | no-op without the source; otherwise the entry is stored under its own name, and every other slot and source is unchanged |
| Legacy.RemoveLayer | MapSource/index.tsx:128-146 | no-op without the source; otherwise the slot (if any) is deleted and, with an engine, that key is removed from the engine whether or not the slot existed |
| Legacy.MountLayer | MapSource/MapLayer.tsx:32-59 | no-op without engine or keys; otherwise one `addLayer` carrying the qualified id, the source key and the caller's other options; the entry is stored as the newest snapshot's managed mount stores it |
| Legacy.DestroyLayerAsWritten | MapSource/MapLayer.tsx:45-52 | with the entry present, it removes the qualified id, which is not the key the entry is stored under |
| Legacy.DestroyLeavesEntry | MapSource/MapLayer.tsx:45-54 | after mount and destroy the entry is still registered, and a second destroy removes the same native layer again |
| Legacy.DestroyLayer | MapSource/MapLayer.tsx:45-52 | the intended destroy deletes the entry and removes the qualified native layer; on a managed source it is the newest snapshot's destroy |
| Legacy.MountThenDestroy | MapSource/MapLayer.tsx:32-59 | with the intended destroy, mount then destroy restores the registry and removes the native layer the mount added |
| Legacy.DestroyLayersAsWritten | MapSource/index.tsx:68-70 | the layer destroys keep the registry well formed, keep the source registered and touch no other source |
| Legacy.DestroySource | MapSource/index.tsx:61-72 | no-op for an unregistered source; afterwards the source is undefined, other sources are untouched, and with an engine the native source is removed last |
| Legacy.DestroyAll | index.tsx:97-99 | every listed source is undefined afterwards, and unlisted ones are untouched |
| Legacy.NothingDefinedIsEmpty | index.tsx:150-151 | a registry with no defined key is empty |
| Legacy.DestroyAllClears | index.tsx:115-119 | destroying every registered source empties a well-formed registry |
| Legacy.StyleChange | index.tsx:110-139 | without an engine or with a missing or empty style nothing happens; otherwise every source is destroyed (emptying the registry) before the style is set |
| Legacy.Unmount | index.tsx:94-103 | every source is destroyed (emptying the registry), then the engine is removed |
| Legacy.UpdateGeoJsonAsWritten | MapSource/index.tsx:83-96 | it throws iff the guards pass and the engine holds no source; otherwise `setData` is issued iff the source is GeoJSON |
| Legacy.GeoJsonUpdateCanThrow | MapSource/index.tsx:88-90 | data with no engine source throws |
| Legacy.UpdateGeoJson | MapSource/index.tsx:83-96 | the intended effect agrees with the written one wherever that one does not throw, and with the newest snapshot's managed update everywhere |
| Legacy.CleanupState | MapSource/MapState.tsx:49-62 | the cleanup is the newest snapshot's with the engine never counted as destroyed |
| Legacy.ChangeState | MapSource/MapState.tsx:29-65 | without diffing, a change issues the previous render's removals (its attributes under its key, if the source is defined) and then all current writes |
| Legacy.ChangeReachesCurrent | MapSource/MapState.tsx:29-65 | the change removes the previous render's entries (under its key) and then writes the current ones, so every current attribute holds its value and nothing else changes, as the newest snapshot's diffing update also ensures |
| Legacy.UsePrevious | utils.tsx:8-14 | the same previous-value sequence as the newest snapshot's hook |
| Scenarios.StackedHandlers | lib/src/Map.tsx:65-82 | three stacked unmanaged layers each resolve to their own click handler, all three clickable in order |
| Scenarios.DispatchStopsAtSecond | lib/src/Map.tsx:303-311 | a falsy then a truthy answer stops the dispatch before the third hit |
| Scenarios.StackedClickStopsEarly | lib/src/Map.tsx:268-312 | clicking three stacked layers calls the top two handlers only |
| Scenarios.HoverMovesBetweenLayers | lib/src/Map.tsx:429-479 | moving between two layers' features with the same id clears, leaves, flags and enters, in that order |
| Scenarios.ResizeKeepsRequestedPadding | lib/src/Map.tsx:482-498 | a request with padding 10 and duration 0 is fitted again as is |
| Scenarios.RegisterRegions | lib/src/MapSource/index.tsx:79-137 | registering "regions" issues one `addSource` with the GeoJSON options and the initial data, and registers an empty managed entry |
| Scenarios.RegionsOptions | lib/src/MapSource/index.tsx:91-93 | the GeoJSON options of "regions" get the initial data appended |
| Scenarios.MountOne | lib/src/MapSource/MapLayer.tsx:112-161 | mounting a new layer of "regions" appends it to the layer map |
| Scenarios.MountFill | lib/src/MapSource/MapLayer.tsx:112-161 | mounting "fill" registers it and issues one `addLayer` with id "regions›fill" and source "regions" |
| Scenarios.FillTrace | lib/src/MapSource/MapLayer.tsx:125-133 | mounting "fill" adds one native layer with just its id and source |
| Scenarios.MountLine | lib/src/MapSource/MapLayer.tsx:112-161 | mounting "line" after "fill" keeps both, in order |
| Scenarios.DestroyFill | lib/src/MapSource/MapLayer.tsx:136-143 | destroying "fill" leaves "line" and removes "regions›fill" |
| Scenarios.UnmountOneLayer | lib/src/MapSource/index.tsx:290-327 | registering, mounting two layers and destroying one leaves the other registered and resolvable under "regions›line", and removes "regions›fill" once |
| Scenarios.RegisteredLayerResolves | lib/src/Map.tsx:65-82 | a layer stored under a registered source resolves under its native id |
| Scenarios.LineResolves | lib/src/Map.tsx:65-82 | with only "line" left under "regions", "regions›line" resolves |

## Left out

- Rendering and scheduling: React's render and commit order, dependency
  arrays and `forceUpdate`. An effect is a function of its current inputs.
  The one exception is `MapBounds`, where the dependency comparison is the
  property being modelled.
- Timers:
  - the `MapOrder` timeout (the ordering callback is modelled as if it
    has fired);
  - the resize timer of the oldest snapshot;
  - the marker polling interval.
- The animation-frame loop of `MapLayer` (`onAnimationFrame`). It repeats
  the paint push that `LayerBinder.PushProperties` models.
- Logging, the `debug` flag, the unsupported-browser branch, and the
  controls (scale, navigation).
- Coordinates, points and `lngLat`. They are opaque to the library, so
  handler calls record only the handler and the feature or session.
- The engine's internals:
  - rendering and hit-testing, which are inputs;
  - an engine that throws from `addSource` or `removeLayer`.
- Listener bookkeeping of the coordinator. Teardown unsubscribes click,
  double-click, mouse-move and resize, but not mouse-down or mouse-up. The
  model records this in `Interaction.Handle`'s documentation only. The
  marker listeners of the mapbox snapshot are modelled, because there the
  bookkeeping is wrong.
- `src/utils.ts` has no `usePrevious`, although `src/MapSource/MapState.tsx`
  imports one. The mapbox feature-state binder is modelled with the newest
  snapshot's hook.
- Integer-like property names, which JavaScript enumerates before other
  names. All keys are treated as ordinary strings.
- JsObject.Get, Registry.GetSource, Registry.IsSourceDefined: names a
  plain object inherits from its prototype (`constructor`, `toString` and
  the like) read as present and truthy in JavaScript, but are absent in
  the model. A source or layer key of that name is outside the model.
- Interaction.AtMostOneHovered, Interaction.HandleKeepsHoverConsistent:
  across a style change they rely on `setStyle` clearing all feature
  state. An engine that diffs the new style and keeps a source would keep
  its "hovered" flag while the hover is dropped; the model does not
  promise consistency then. Across a source's teardown they promise only
  that no feature but the recorded hover is flagged, not that the hover's
  own flag is still set: the engine discards it with the source
  (`Interaction.SourceRemovalClearsHoverFlag`).
- Engine creation: the newest snapshot resets the destroyed flag when it
  creates the engine (`lib/src/Map.tsx:184`); the mapbox snapshot does
  not. The model starts from a fresh coordinator and does not re-create
  the engine, so the two agree on every modelled run.
- The control options default to `{}` in the newest snapshot
  (`lib/src/Map.tsx:113`, `:116`) and to `undefined` in the mapbox one;
  the controls are left out.
- Scenarios.UnmountOneLayer: concrete, over one registry only.
- Interaction.Handle: states only that teardown is permanent. Each event's
  own behaviour is stated by the handler it calls. The binders' registry
  writes other than source removal reach it as `RegistryChange`, with no
  trace of their own; their engine calls are stated by the binders'
  modules.
- JsObject.Truthy: numbers are reals, so NaN, which is falsy in
  JavaScript, cannot be represented; only 0 is a falsy number.

## Findings

| source | as written | input that shows it | evidently intended | confidence | as-written member | corrected member |
|---|---|---|---|---|---|---|
| src/MapSource/MapLayer.tsx:115-125 | the layer binder reads `managed` from its source's context, which the mapbox source binder never provides (src/MapSource/index.tsx:288-298), so it is falsy | register source "s" with an engine and a style, then mount layer "l" | the source adds its native source itself, so its layers are managed: one `addLayer` under "s›l" | high (not executed) | Mapbox.MountLayerAsWritten, Mapbox.SourceAddedButLayerNever | Mapbox.MountLayer |
| src/MapSource/index.tsx:265-271 | `removeLayer` calls `getLayerName(sourceKey, layerKey)` without the flag, so the bare key is removed. The bug is latent: it shows once the first finding is corrected and layers are added under qualified ids | with the corrected mount, a layer "l" of source "s", added as "s›l", then destroyed: "l" is removed instead | remove the native layer under the id it was added under | high (not executed) | Mapbox.RemoveLayerAsWritten, Mapbox.RemovesAnotherNativeLayer | Mapbox.RemoveLayer |
| src/MapSource/index.tsx:109-110 | `source.type` is read from `map.getSource(sourceKey)` without a presence check | new data for "regions" while the engine holds no source "regions" | test presence first, as the newest snapshot does | medium (not executed) | Mapbox.UpdateGeoJsonAsWritten, Mapbox.GeoJsonUpdateCanThrow | Mapbox.UpdateGeoJson |
| src/MapSource/index.tsx:191-195 | the cleanup calls `map.on` instead of `map.off`; the engine ignores a repeated registration, so `updateMarkers` stays registered | one run of the marker effect, then unmount: `updateMarkers` still listens to `move` and `moveend` | unsubscribe both listeners | high (not executed) | Mapbox.UnsubscribeMarkersAsWritten, Mapbox.ListenersLeak | Mapbox.UnsubscribeMarkers, Mapbox.ListenersBalanced |
| MapSource/MapLayer.tsx:45-52 | `destroy` calls `removeLayer(id)` with the qualified id, but the entry is stored under the layer key, so the entry survives | mount layer "l" on a registered source, destroy it, destroy it again | delete the entry under the layer key and remove the native layer under the qualified id | high (not executed) | Legacy.DestroyLayerAsWritten, Legacy.DestroyLeavesEntry | Legacy.DestroyLayer, Legacy.MountThenDestroy |
| MapSource/index.tsx:88-90 | `source.type` is read from `map.getSource(sourceKey)` without a presence check | data for "regions" while the engine holds no source "regions" | test presence first | medium (not executed) | Legacy.UpdateGeoJsonAsWritten, Legacy.GeoJsonUpdateCanThrow | Legacy.UpdateGeoJson |
