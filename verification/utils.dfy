/** Naming and type tests shared by the coordinator and the binders. */
module Utils {
  import opened Wrappers
  import opened JsObject
  import opened Engine

  /** The character joining a source key and a layer key (U+203A). */
  const Separator: char := '›'

  /** The native id of a layer: `sourceKey›layerKey` when the library manages
      the source, the caller's own `layerKey` when the source belongs to
      someone else (a drawing tool, say). */
  function GetLayerName(sourceKey: string, layerKey: string, managed: bool): (name: string)
    ensures !managed ==> name == layerKey
    ensures managed ==> |name| == |sourceKey| + 1 + |layerKey|
    ensures managed ==> name[..|sourceKey|] == sourceKey && name[|sourceKey|] == Separator
    ensures managed ==> name[|sourceKey| + 1..] == layerKey
  {
    if !managed then layerKey else sourceKey + [Separator] + layerKey
  }

  /** For one source, distinct layer keys never share a native id. */
  lemma LayerNameInjective(sourceKey: string, a: string, b: string, managed: bool)
    requires GetLayerName(sourceKey, a, managed) == GetLayerName(sourceKey, b, managed)
    ensures a == b
  {
    if managed {
      var n := GetLayerName(sourceKey, a, managed);
      assert a == n[|sourceKey| + 1..] == b;
    }
  }

  /** A managed layer's native id is strictly longer than its key, so it never
      coincides with an unqualified id. */
  lemma ManagedNameIsNotTheKey(sourceKey: string, layerKey: string)
    ensures GetLayerName(sourceKey, layerKey, true) != layerKey
  {
    assert |GetLayerName(sourceKey, layerKey, true)| > |layerKey|;
  }

  /** Qualification is not injective across sources: a key containing the
      separator can collide with another source's qualified key. */
  lemma QualifiedNamesCanCollide()
    ensures GetLayerName("a", "b›c", true) == GetLayerName("a›b", "c", true)
  {
  }

  /** `isGeoJSONSourceSpecification`: options are present and declare `type: 'geojson'`. */
  predicate IsGeoJSONSourceSpecification(s: Option<Object<JsValue>>) {
    s.Some? && Get(s.value, "type") == Some(Str("geojson"))
  }

  /** `isGeoJSONSource`: the engine has a source and it is a GeoJSON source. */
  predicate IsGeoJSONSource(s: Option<EngineSource>) {
    s.Some? && s.value.kind == "geojson"
  }
}
