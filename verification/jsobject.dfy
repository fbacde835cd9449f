/** JavaScript values and plain objects, as far as the binding library relies
    on them: truthiness tests (`!!x`, `x && …`) and string-keyed objects whose
    properties keep their insertion order (object spread, `obj[k] = v`,
    `delete obj[k]`, `Object.entries`). */
module JsObject {
  import opened Wrappers

  /** A JavaScript value. Objects, arrays and functions are opaque references. */
  datatype JsValue =
    | Undefined
    | Null
    | Bool(b: bool)
    | Num(x: real)
    | Str(s: string)
    | Ref(id: nat)

  /** JavaScript truthiness: `undefined`, `null`, `false`, `0` and `""` are falsy. */
  predicate Truthy(v: JsValue) {
    match v
    case Undefined => false
    case Null => false
    case Bool(b) => b
    case Num(x) => x != 0.0
    case Str(s) => s != ""
    case Ref(_) => true
  }

  /** One own enumerable property. */
  datatype Prop<V> = Prop(key: string, value: V)

  /** A plain object: its properties in insertion order. */
  type Object<V> = seq<Prop<V>>

  /** The property names of `o`, in enumeration order (`Object.keys`). */
  function Keys<V>(o: Object<V>): seq<string> {
    seq(|o|, i requires 0 <= i < |o| => o[i].key)
  }

  /** `k in o` */
  predicate Has<V>(o: Object<V>, k: string) {
    k in Keys(o)
  }

  /** A JavaScript object never holds two properties with the same name. */
  predicate UniqueKeys<V>(o: Object<V>) {
    forall i, j :: 0 <= i < j < |o| ==> o[i].key != o[j].key
  }

  /** Position of the property named `k`, or -1 when `o` has none. */
  function IndexOf<V>(o: Object<V>, k: string): (i: int)
    ensures -1 <= i < |o|
    ensures 0 <= i ==> o[i].key == k && forall j :: 0 <= j < i ==> o[j].key != k
    ensures i == -1 ==> forall j :: 0 <= j < |o| ==> o[j].key != k
  {
    if |o| == 0 then -1
    else if o[0].key == k then 0
    else
      var t := IndexOf(o[1..], k);
      if t == -1 then -1 else t + 1
  }

  /** `o[k]`, with `None` for a missing property. */
  function Get<V>(o: Object<V>, k: string): (r: Option<V>)
    ensures r.Some? <==> Has(o, k)
    ensures r.Some? ==> exists i :: 0 <= i < |o| && o[i].key == k && o[i].value == r.value
  {
    var i := IndexOf(o, k);
    if i < 0 then None
    else
      assert Keys(o)[i] == k;
      Some(o[i].value)
  }

  /** Two objects with the same property names find every name at the same place. */
  lemma IndexOfByKeys<V>(o: Object<V>, p: Object<V>, k: string)
    requires Keys(o) == Keys(p)
    ensures IndexOf(o, k) == IndexOf(p, k)
  {
    assert |o| == |Keys(o)| == |Keys(p)| == |p|;
    assert forall j :: 0 <= j < |o| ==> o[j].key == Keys(o)[j] == Keys(p)[j] == p[j].key;
  }

  /** `{...o, [k]: v}`: an existing property keeps its place, a new one goes last. */
  function Put<V>(o: Object<V>, k: string, v: V): (r: Object<V>)
    ensures Get(r, k) == Some(v)
    ensures forall k' :: k' != k ==> Get(r, k') == Get(o, k')
    ensures Keys(r) == if Has(o, k) then Keys(o) else Keys(o) + [k]
    ensures forall p :: p in r ==> p in o || p == Prop(k, v)
  {
    var i := IndexOf(o, k);
    if i < 0 then
      var r := o + [Prop(k, v)];
      assert Keys(r) == Keys(o) + [k];
      assert r[|o|].key == k;
      forall k' | k' != k
        ensures Get(r, k') == Get(o, k')
      {
        assert forall j :: 0 <= j < |o| ==> r[j] == o[j];
      }
      r
    else
      var r := o[i := Prop(k, v)];
      assert Keys(r) == Keys(o);
      IndexOfByKeys(r, o, k);
      forall k' ensures Get(r, k') == Get(o, k') || k' == k {
        IndexOfByKeys(r, o, k');
      }
      r
  }

  /** `delete o[k]`: removes the property named `k`, if any. */
  function Delete<V>(o: Object<V>, k: string): (r: Object<V>)
    ensures !Has(r, k)
    ensures forall k' :: k' != k ==> Get(r, k') == Get(o, k')
    ensures !Has(o, k) ==> r == o
    ensures forall p :: p in r ==> p in o
  {
    if |o| == 0 then []
    else if o[0].key == k then
      var r := Delete(o[1..], k);
      assert Keys(o)[0] == k;
      forall k' | k' != k
        ensures Get(r, k') == Get(o, k')
      {
        DropFirst(o, k');
      }
      r
    else
      var t := Delete(o[1..], k);
      var r := [o[0]] + t;
      assert r[1..] == t;
      forall k' | k' != k
        ensures Get(r, k') == Get(o, k')
      {
        if o[0].key != k' {
          DropFirst(o, k');
          DropFirst(r, k');
        }
      }
      KeysCons(r);
      KeysCons(o);
      r
  }

  /** The names of a non-empty object: the first name, then the rest's. */
  lemma KeysCons<V>(o: Object<V>)
    requires |o| > 0
    ensures Keys(o) == [o[0].key] + Keys(o[1..])
  {
  }

  /** Looking a name up past a first property of another name. */
  lemma DropFirst<V>(o: Object<V>, k: string)
    requires |o| > 0 && o[0].key != k
    ensures Get(o, k) == Get(o[1..], k)
  {
  }

  /** Deleting from an object keeps its property names distinct. */
  lemma {:induction false} DeleteKeepsUnique<V>(o: Object<V>, k: string)
    ensures UniqueKeys(o) ==> UniqueKeys(Delete(o, k))
  {
    if |o| > 0 && UniqueKeys(o) {
      var t := Delete(o[1..], k);
      DeleteKeepsUnique(o[1..], k);
      if o[0].key != k {
        assert Delete(o, k) == [o[0]] + t;
        forall q | q in t
          ensures q.key != o[0].key
        {
          var b :| 0 <= b < |o[1..]| && o[1..][b] == q;
          assert o[b + 1] == q;
        }
        ConsKeepsUnique(o[0], t);
      }
    }
  }

  /** A property whose name the rest lacks, put before it, keeps names distinct. */
  lemma ConsKeepsUnique<V>(p: Prop<V>, t: Object<V>)
    requires UniqueKeys(t) && forall q :: q in t ==> q.key != p.key
    ensures UniqueKeys([p] + t)
  {
    var r := [p] + t;
    forall i, j | 0 <= i < j < |r|
      ensures r[i].key != r[j].key
    {
      assert r[j] == t[j - 1];
      if i > 0 {
        assert r[i] == t[i - 1];
      }
    }
  }

  /** Assigning a name the object lacks appends the property. */
  lemma PutFreshAppends<V>(o: Object<V>, k: string, v: V)
    requires !Has(o, k)
    ensures Put(o, k, v) == o + [Prop(k, v)]
  {
  }

  /** Assigning to an object keeps its property names distinct. */
  lemma PutKeepsUnique<V>(o: Object<V>, k: string, v: V)
    ensures UniqueKeys(o) ==> UniqueKeys(Put(o, k, v))
  {
    var r := Put(o, k, v);
    assert forall j :: 0 <= j < |r| ==> r[j].key == Keys(r)[j];
    assert forall j :: 0 <= j < |o| ==> o[j].key == Keys(o)[j];
  }

  /** Storing the value a property already holds leaves the object as it was. */
  lemma PutSameValue<V>(o: Object<V>, k: string, v: V)
    requires Get(o, k) == Some(v)
    ensures Put(o, k, v) == o
  {
    var i := IndexOf(o, k);
    assert o[i] == Prop(k, v);
  }

  /** In an object with distinct names, removing the first property's name drops exactly it. */
  lemma DeleteFirstOfUnique<V>(o: Object<V>)
    requires |o| > 0 && UniqueKeys(o)
    ensures Delete(o, o[0].key) == o[1..]
  {
    var t := o[1..];
    assert !Has(t, o[0].key) by {
      assert forall j :: 0 <= j < |t| ==> Keys(t)[j] == t[j].key == o[j + 1].key;
    }
    assert Delete(o, o[0].key) == Delete(t, o[0].key);
  }

  /** Adding a fresh property and deleting it again gives back the object. */
  lemma {:induction false} DeletePutFresh<V>(o: Object<V>, k: string, v: V)
    requires !Has(o, k)
    ensures Delete(Put(o, k, v), k) == o
  {
    assert Put(o, k, v) == o + [Prop(k, v)];
    DeleteAppended(o, Prop(k, v));
  }

  /** Deleting the name of a last property the rest of the object lacks. */
  lemma {:induction false} DeleteAppended<V>(o: Object<V>, p: Prop<V>)
    requires !Has(o, p.key)
    ensures Delete(o + [p], p.key) == o
    decreases |o|
  {
    if |o| == 0 {
      assert [p][1..] == [];
    } else {
      assert Keys(o)[0] == o[0].key;
      assert (o + [p])[1..] == o[1..] + [p];
      assert !Has(o[1..], p.key) by {
        assert forall j :: 0 <= j < |o[1..]| ==> Keys(o[1..])[j] == Keys(o)[j + 1];
      }
      DeleteAppended(o[1..], p);
      assert [o[0]] + o[1..] == o;
    }
  }

  /** A second assignment to a name overrides the first. */
  lemma PutPut<V>(o: Object<V>, k: string, v1: V, v2: V)
    requires Has(o, k)
    ensures Put(Put(o, k, v1), k, v2) == Put(o, k, v2)
  {
    var i := IndexOf(o, k);
    assert Keys(o)[i] == k;
    var p := Put(o, k, v1);
    IndexOfByKeys(p, o, k);
  }
}
