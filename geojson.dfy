/**
 * The values the building-metrics pipeline works on: JavaScript numbers and
 * scalar property values, insertion-ordered property bags, GeoJSON geometries,
 * features and top-level documents.
 */
module GeoJson {
  import opened Wrappers
  import Sequences

  /** A JavaScript number: a finite value, modelled as a real, or one of IEEE's non-finite values. */
  datatype Number = Finite(r: real) | NaN | PosInf | NegInf

  /** A scalar property value as `JSON.parse` produces it. */
  datatype Value = Null | Num(n: Number) | Str(s: string) | Bool(b: bool)

  /** A property bag: the keys of a JavaScript object in insertion order, each with its value. */
  type Props = seq<(string, Value)>

  datatype Position = Position(lon: real, lat: real)

  type Ring = seq<Position>

  /** The `type` of a geometry other than the two polygon types (a Point, a LineString, ...). */
  type OtherGeometryKind = k: string | k != "Polygon" && k != "MultiPolygon" witness "Point"

  /** The `type` of a top-level object that is neither a collection, a feature nor a polygon geometry. */
  type OtherDocumentKind = k: string
    | k != "FeatureCollection" && k != "Feature" && k != "Polygon" && k != "MultiPolygon"
    witness "Topology"

  /** The geometry of a feature, by its `type` member; only the two polygon types carry coordinates here. */
  datatype Geometry =
    | Polygon(rings: seq<Ring>)
    | MultiPolygon(polygons: seq<seq<Ring>>)
    | OtherGeometry(kind: OtherGeometryKind)

  /** A geometry that can stand as a whole document: only the two polygon types are read that way. */
  type PolygonalGeometry = g: Geometry | !g.OtherGeometry? witness Polygon([])

  /**
   * A GeoJSON feature. `id == Null` stands for a null or absent id,
   * `properties == None` for null or absent properties, `geometry == None`
   * for a null or absent geometry.
   */
  datatype Feature = Feature(id: Value, properties: Option<Props>, geometry: Option<Geometry>)

  /**
   * A parsed top-level document. A `FeatureCollection`'s `features` array may
   * hold nulls (`None` entries); a bare `Polygon` or `MultiPolygon` is a
   * `GeometryDoc`; `OtherDoc` is an object with any other `type` (a bare Point
   * among them), `NotAnObject` a JSON value that is not an object at all.
   */
  datatype Document =
    | FeatureCollectionDoc(features: seq<Option<Feature>>)
    | FeatureDoc(feature: Feature)
    | GeometryDoc(geometry: PolygonalGeometry)
    | OtherDoc(kind: OtherDocumentKind)
    | NotAnObject

  function Keys(p: Props): seq<string> {
    seq(|p|, i requires 0 <= i < |p| => p[i].0)
  }

  lemma KeysCons(x: (string, Value), p: Props)
    ensures Keys([x] + p) == [x.0] + Keys(p)
  {
  }

  /** The properties a feature is read with: `feature.properties || {}`. */
  function PropsOf(f: Feature): Props {
    f.properties.GetOr([])
  }

  predicate Distinct(s: seq<string>) {
    forall i, j :: 0 <= i < j < |s| ==> s[i] != s[j]
  }

  /** `obj[k]`: the value under key `k`, `None` where JavaScript gives `undefined`. */
  function Lookup(p: Props, k: string): (r: Option<Value>)
    ensures r.None? <==> k !in Keys(p)
    ensures r.Some? ==> (k, r.value) in p
  {
    if p == [] then None
    else
      assert Keys(p) == [p[0].0] + Keys(p[1..]);
      if p[0].0 == k then Some(p[0].1) else Lookup(p[1..], k)
  }

  /**
   * `obj[k] = v` on a JavaScript object: a key already present keeps its
   * position and takes the new value, a new key is added last.
   */
  function Assign(p: Props, k: string, v: Value): (r: Props)
    ensures Keys(r) == if k in Keys(p) then Keys(p) else Keys(p) + [k]
  {
    if p == [] then [(k, v)]
    else
      Sequences.SplitFirst(p);
      KeysCons(p[0], p[1..]);
      if p[0].0 == k then
        KeysCons((k, v), p[1..]);
        [(k, v)] + p[1..]
      else
        var rest := Assign(p[1..], k, v);
        KeysCons(p[0], rest);
        [p[0]] + rest
  }

  lemma LookupCons(x: (string, Value), p: Props)
    ensures forall k :: Lookup([x] + p, k) == if x.0 == k then Some(x.1) else Lookup(p, k)
  {
    Sequences.TailOfCons(x, p);
  }

  /** After `obj[k] = v`, `obj[k]` is `v` and every other key reads as before. */
  lemma {:induction false} AssignLookup(p: Props, k: string, v: Value)
    ensures Lookup(Assign(p, k, v), k) == Some(v)
    ensures forall k' :: k' != k ==> Lookup(Assign(p, k, v), k') == Lookup(p, k')
  {
    if p != [] {
      Sequences.SplitFirst(p);
      LookupCons(p[0], p[1..]);
      if p[0].0 == k {
        LookupCons((k, v), p[1..]);
      } else {
        AssignLookup(p[1..], k, v);
        LookupCons(p[0], Assign(p[1..], k, v));
      }
    }
  }

  /**
   * Assigning the pairs of `pairs` one after another onto `base`, as an object
   * literal `{ ...base, k1: v1, k2: v2, ... }` does.
   */
  function AssignAll(base: Props, pairs: Props): Props
    decreases |pairs|
  {
    if pairs == [] then base
    else Assign(AssignAll(base, pairs[..|pairs| - 1]), pairs[|pairs| - 1].0, pairs[|pairs| - 1].1)
  }

  lemma KeysSnoc(init: Props, last: (string, Value))
    ensures Keys(init + [last]) == Keys(init) + [last.0]
  {
  }

  /** Keys the literal does not list keep the value they had in `base`. */
  lemma {:induction false} AssignAllOutside(base: Props, pairs: Props, k: string)
    requires k !in Keys(pairs)
    ensures Lookup(AssignAll(base, pairs), k) == Lookup(base, k)
    decreases |pairs|
  {
    if pairs != [] {
      var init := pairs[..|pairs| - 1];
      Sequences.SplitLast(pairs);
      KeysSnoc(init, pairs[|pairs| - 1]);
      AssignAllOutside(base, init, k);
      AssignLookup(AssignAll(base, init), pairs[|pairs| - 1].0, pairs[|pairs| - 1].1);
    }
  }

  /** With distinct keys in the literal, each listed key ends up with the literal's value. */
  lemma {:induction false} AssignAllInside(base: Props, pairs: Props, k: string)
    requires Distinct(Keys(pairs)) && k in Keys(pairs)
    ensures Lookup(AssignAll(base, pairs), k) == Lookup(pairs, k)
    decreases |pairs|
  {
    var init, last := pairs[..|pairs| - 1], pairs[|pairs| - 1];
    Sequences.SplitLast(pairs);
    KeysSnoc(init, last);
    DistinctSnoc(init, last);
    LookupLast(init, last);
    AssignLookup(AssignAll(base, init), last.0, last.1);
    if k != last.0 {
      AssignAllInside(base, init, k);
    }
  }

  lemma DistinctSnoc(init: Props, last: (string, Value))
    requires Distinct(Keys(init + [last]))
    ensures Distinct(Keys(init)) && last.0 !in Keys(init)
  {
    KeysSnoc(init, last);
    var ks := Keys(init + [last]);
    assert forall i :: 0 <= i < |init| ==> Keys(init)[i] == ks[i];
    assert ks[|init|] == last.0;
  }

  /** The base keys come first, in their order; the literal's new keys follow; no key is duplicated. */
  lemma {:induction false} AssignAllKeys(base: Props, pairs: Props)
    ensures Keys(base) <= Keys(AssignAll(base, pairs))
    ensures forall k :: k in Keys(AssignAll(base, pairs)) <==> k in Keys(base) || k in Keys(pairs)
    ensures Distinct(Keys(base)) ==> Distinct(Keys(AssignAll(base, pairs)))
    decreases |pairs|
  {
    if pairs != [] {
      var init, last := pairs[..|pairs| - 1], pairs[|pairs| - 1];
      Sequences.SplitLast(pairs);
      KeysSnoc(init, last);
      AssignAllKeys(base, init);
    }
  }

  /** With distinct keys, the i-th key looks up the i-th value. */
  lemma {:induction false} LookupAt(p: Props, i: nat)
    requires Distinct(Keys(p)) && i < |p|
    ensures Lookup(p, p[i].0) == Some(p[i].1)
  {
    if i > 0 {
      assert Keys(p)[0] != Keys(p)[i];
      assert Distinct(Keys(p[1..])) by {
        assert forall j :: 0 <= j < |p| - 1 ==> Keys(p[1..])[j] == Keys(p)[j + 1];
      }
      LookupAt(p[1..], i - 1);
    }
  }

  /** Looking up in `init + [last]`: the last pair answers for its own key only when `init` lacks it. */
  lemma {:induction false} LookupLast(init: Props, last: (string, Value))
    ensures forall k :: k != last.0 ==> Lookup(init + [last], k) == Lookup(init, k)
    ensures last.0 !in Keys(init) ==> Lookup(init + [last], last.0) == Some(last.1)
  {
    if init != [] {
      Sequences.TailOfSnoc(init, last);
      Sequences.SplitFirst(init);
      KeysCons(init[0], init[1..]);
      LookupLast(init[1..], last);
    }
  }
}
