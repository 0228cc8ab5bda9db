/**
 * Per-feature enrichment (docs/script.js:182-220) and the load pipeline that
 * applies it to every extracted feature (docs/script.js:100-115).
 *
 * The geodesic measurements (turf's area, length, centroid) and the
 * principal-axis orientation are computed by code outside this model; they
 * enter as a `Measurements` value. `Math.sqrt` enters as a parameter.
 */
module Enrich {
  import opened Wrappers
  import opened GeoJson
  import opened Normalize
  import opened Arith

  /** `Math.PI`: the shortest decimal that reads back as that double, taken as an exact real. */
  const Pi: real := 3.141592653589793

  /** The keys enrichment sets on top of a feature's own properties, in the order it sets them. */
  const MetricKeys: seq<string> :=
    ["feature_id", "area_sqm", "perimeter_m", "roundness", "centroid_lat", "centroid_lon",
     "orientation_deg", "extrude_height"]

  /** What the geometry library and the orientation estimator report for one feature. */
  datatype Measurements = Measurements(
    area: Number, perimeter: Number, centroidLon: Number, centroidLat: Number, orientation: Number)

  type Positive = x: real | x > 0.0 witness 1.0

  /** The product of two positive reals, which is positive. */
  function Mul(a: Positive, b: Positive): Positive {
    a * b
  }

  /** IEEE division of a (possibly non-finite) numerator by a positive finite denominator. */
  function DivPositive(x: Number, d: Positive): (q: Number)
    ensures q.Finite? <==> x.Finite?
  {
    match x
    case Finite(a) => Finite(a / d)
    case NaN => NaN
    case PosInf => PosInf
    case NegInf => NegInf
  }

  function FourPiTimes(x: Number): (y: Number)
    ensures y.Finite? <==> x.Finite?
  {
    if x.Finite? then Finite(4.0 * Pi * x.r) else x
  }

  /**
   * `perimeter > 0 ? (4 * Math.PI * area) / (perimeter * perimeter) : 0`, with
   * JavaScript's comparison and arithmetic on non-finite operands.
   */
  function Roundness(area: Number, perimeter: Number): (r: Number)
    ensures (perimeter.Finite? && perimeter.r <= 0.0) || perimeter.NaN? || perimeter.NegInf? ==>
              r == Finite(0.0)
    ensures perimeter.Finite? && perimeter.r > 0.0 && area.Finite? ==>
              r == Finite(4.0 * Pi * area.r / Mul(perimeter.r, perimeter.r))
    ensures perimeter.PosInf? && area.Finite? ==> r == Finite(0.0)
    ensures perimeter.PosInf? && !area.Finite? ==> r == NaN
    ensures r.Finite? <==> area.Finite? || !(perimeter.PosInf? || (perimeter.Finite? && perimeter.r > 0.0))
  {
    match perimeter
    case Finite(p) =>
      if p > 0.0 then DivPositive(FourPiTimes(area), Mul(p, p)) else Finite(0.0)
    // A finite quantity over an infinite perimeter is 0; Infinity/Infinity and NaN give NaN.
    case PosInf => if area.Finite? then Finite(0.0) else NaN
    case NaN => Finite(0.0)
    case NegInf => Finite(0.0)
  }

  /** Roundness of a non-negative area is finite and non-negative. */
  lemma RoundnessNonNegative(area: real, perimeter: Number)
    ensures Roundness(Finite(area), perimeter).Finite?
    ensures area >= 0.0 ==> Roundness(Finite(area), perimeter).r >= 0.0
  {
    if area >= 0.0 && perimeter.Finite? && perimeter.r > 0.0 {
      QuotientNonNegative(4.0 * Pi * area, Mul(perimeter.r, perimeter.r));
    }
  }

  /** Roundness is a dimensionless ratio: scaling lengths by c (areas by c²) leaves it unchanged. */
  lemma RoundnessScaleInvariant(area: real, perimeter: Positive, c: Positive)
    ensures Roundness(Finite(Mul(c, c) * area), Finite(Mul(c, perimeter)))
         == Roundness(Finite(area), Finite(perimeter))
  {
    var cp := Mul(c, perimeter);
    assert Mul(cp, cp) == Mul(c, c) * Mul(perimeter, perimeter);
    assert 4.0 * Pi * (Mul(c, c) * area) == Mul(c, c) * (4.0 * Pi * area);
    QuotientCancel(4.0 * Pi * area, Mul(perimeter, perimeter), Mul(c, c));
  }

  /** A circle of radius r (area pi r², perimeter 2 pi r) has roundness exactly 1. */
  lemma RoundnessOfCircle(radius: Positive)
    ensures Roundness(Finite(Pi * Mul(radius, radius)), Finite(Mul(2.0 * Pi, radius))) == Finite(1.0)
  {
    var tp := Mul(2.0 * Pi, radius);
    assert Mul(tp, tp) == 4.0 * Pi * (Pi * Mul(radius, radius));
    QuotientSelf(Mul(tp, tp));
  }

  /** `computeExtrudeHeight`: 5 for an unusable area, otherwise `sqrt(area)` clamped into [8, 120]. */
  function ExtrudeHeight(area: Number, sqrt: real -> real): (h: real)
    ensures !area.Finite? || area.r <= 0.0 ==> h == 5.0
    ensures area.Finite? && area.r > 0.0 ==> 8.0 <= h <= 120.0
    ensures area.Finite? && area.r > 0.0 && 8.0 <= sqrt(area.r) <= 120.0 ==> h == sqrt(area.r)
    ensures area.Finite? && area.r > 0.0 && sqrt(area.r) < 8.0 ==> h == 8.0
    ensures area.Finite? && area.r > 0.0 && sqrt(area.r) > 120.0 ==> h == 120.0
  {
    if !area.Finite? || area.r <= 0.0 then 5.0
    else
      var scaled := sqrt(area.r);
      var capped := if scaled < 120.0 then scaled else 120.0;
      if capped > 8.0 then capped else 8.0
  }

  /** `feature.id ?? index + 1`. */
  function FeatureId(f: Feature, index: nat): (v: Value)
    ensures v != Null
    ensures f.id != Null ==> v == f.id
    ensures f.id == Null ==> v == Num(Finite((index + 1) as real))
  {
    if f.id.Null? then Num(Finite((index + 1) as real)) else f.id
  }

  /** The eight metric entries, in the order the object literal lists them. */
  function MetricPairs(featureId: Value, m: Measurements, sqrt: real -> real): Props {
    [("feature_id", featureId),
     ("area_sqm", Num(m.area)),
     ("perimeter_m", Num(m.perimeter)),
     ("roundness", Num(Roundness(m.area, m.perimeter))),
     ("centroid_lat", Num(m.centroidLat)),
     ("centroid_lon", Num(m.centroidLon)),
     ("orientation_deg", Num(m.orientation)),
     ("extrude_height", Num(Finite(ExtrudeHeight(m.area, sqrt))))]
  }

  lemma MetricPairsKeys(featureId: Value, m: Measurements, sqrt: real -> real)
    ensures Keys(MetricPairs(featureId, m, sqrt)) == MetricKeys
    ensures Distinct(MetricKeys)
  {
  }

  lemma MetricPairsLookup(featureId: Value, m: Measurements, sqrt: real -> real)
    ensures var pairs := MetricPairs(featureId, m, sqrt);
            && Lookup(pairs, "feature_id") == Some(featureId)
            && Lookup(pairs, "area_sqm") == Some(Num(m.area))
            && Lookup(pairs, "perimeter_m") == Some(Num(m.perimeter))
            && Lookup(pairs, "roundness") == Some(Num(Roundness(m.area, m.perimeter)))
            && Lookup(pairs, "centroid_lat") == Some(Num(m.centroidLat))
            && Lookup(pairs, "centroid_lon") == Some(Num(m.centroidLon))
            && Lookup(pairs, "orientation_deg") == Some(Num(m.orientation))
            && Lookup(pairs, "extrude_height") == Some(Num(Finite(ExtrudeHeight(m.area, sqrt))))
  {
    var pairs := MetricPairs(featureId, m, sqrt);
    MetricPairsKeys(featureId, m, sqrt);
    LookupAt(pairs, 0);
    LookupAt(pairs, 1);
    LookupAt(pairs, 2);
    LookupAt(pairs, 3);
    LookupAt(pairs, 4);
    LookupAt(pairs, 5);
    LookupAt(pairs, 6);
    LookupAt(pairs, 7);
  }

  /**
   * The object literal `{ ...base, feature_id, area_sqm, ... }`: the base
   * properties first, then the eight metric keys assigned in order.
   */
  function MergeProperties(base: Props, featureId: Value, m: Measurements, sqrt: real -> real): (p: Props)
    ensures forall k :: k !in MetricKeys ==> Lookup(p, k) == Lookup(base, k)
    ensures Lookup(p, "feature_id") == Some(featureId)
    ensures Lookup(p, "area_sqm") == Some(Num(m.area))
    ensures Lookup(p, "perimeter_m") == Some(Num(m.perimeter))
    ensures Lookup(p, "roundness") == Some(Num(Roundness(m.area, m.perimeter)))
    ensures Lookup(p, "centroid_lat") == Some(Num(m.centroidLat))
    ensures Lookup(p, "centroid_lon") == Some(Num(m.centroidLon))
    ensures Lookup(p, "orientation_deg") == Some(Num(m.orientation))
    ensures Lookup(p, "extrude_height") == Some(Num(Finite(ExtrudeHeight(m.area, sqrt))))
    ensures Keys(base) <= Keys(p)
    ensures forall k :: k in Keys(p) <==> k in Keys(base) || k in MetricKeys
    ensures Distinct(Keys(base)) ==> Distinct(Keys(p))
  {
    var pairs := MetricPairs(featureId, m, sqrt);
    var p := AssignAll(base, pairs);
    MetricPairsKeys(featureId, m, sqrt);
    AssignAllKeys(base, pairs);
    forall k | k !in MetricKeys
      ensures Lookup(p, k) == Lookup(base, k)
    {
      AssignAllOutside(base, pairs, k);
    }
    MetricPairsLookup(featureId, m, sqrt);
    forall k | k in MetricKeys
      ensures Lookup(p, k) == Lookup(pairs, k)
    {
      AssignAllInside(base, pairs, k);
    }
    p
  }

  /**
   * `enrichFeatureWithMetrics`: a new feature with the same geometry, no id,
   * and the merged properties; null or absent properties are read as `{}`.
   */
  function EnrichFeatureWithMetrics(f: Feature, index: nat, m: Measurements, sqrt: real -> real): (r: Feature)
    ensures r.geometry == f.geometry && r.id == Null && r.properties.Some?
    ensures forall k :: k !in MetricKeys ==> Lookup(PropsOf(r), k) == Lookup(PropsOf(f), k)
    ensures Lookup(PropsOf(r), "feature_id") == Some(FeatureId(f, index))
    ensures Lookup(PropsOf(r), "area_sqm") == Some(Num(m.area))
    ensures Lookup(PropsOf(r), "perimeter_m") == Some(Num(m.perimeter))
    ensures Lookup(PropsOf(r), "roundness") == Some(Num(Roundness(m.area, m.perimeter)))
    ensures Lookup(PropsOf(r), "centroid_lat") == Some(Num(m.centroidLat))
    ensures Lookup(PropsOf(r), "centroid_lon") == Some(Num(m.centroidLon))
    ensures Lookup(PropsOf(r), "orientation_deg") == Some(Num(m.orientation))
    ensures Lookup(PropsOf(r), "extrude_height") == Some(Num(Finite(ExtrudeHeight(m.area, sqrt))))
    ensures Keys(PropsOf(f)) <= Keys(PropsOf(r))
    ensures forall k :: k in Keys(PropsOf(r)) <==> k in Keys(PropsOf(f)) || k in MetricKeys
    ensures Distinct(Keys(PropsOf(f))) ==> Distinct(Keys(PropsOf(r)))
  {
    Feature(Null, Some(MergeProperties(PropsOf(f), FeatureId(f, index), m, sqrt)), f.geometry)
  }

  /** Null and absent properties enrich exactly like an empty object. */
  lemma EnrichNullPropertiesAsEmpty(id: Value, g: Option<Geometry>, index: nat, m: Measurements, sqrt: real -> real)
    ensures EnrichFeatureWithMetrics(Feature(id, None, g), index, m, sqrt)
         == EnrichFeatureWithMetrics(Feature(id, Some([]), g), index, m, sqrt)
  {
  }

  datatype LoadError =
    | InvalidGeoJson     // "The selected file does not contain valid GeoJSON data."
    | NoPolygonFeatures  // "No polygon features were found in the GeoJSON file."

  /**
   * The data part of `handleGeoJson`: reject a non-object, extract the Polygon
   * features, reject an empty extraction, enrich each feature with its 0-based
   * index. `measure` stands for the geometry library's calls on the feature.
   */
  function HandleGeoJson(doc: Document, measure: Feature -> Measurements, sqrt: real -> real)
    : (r: Result<seq<Feature>, LoadError>)
    ensures r == Err(InvalidGeoJson) <==> doc.NotAnObject?
    ensures r == Err(NoPolygonFeatures) <==> !doc.NotAnObject? && Extracted(doc) == []
    ensures r.Ok? ==>
              var fs := Extracted(doc);
              && |r.value| == |fs|
              && forall i :: 0 <= i < |fs| ==> r.value[i] == EnrichFeatureWithMetrics(fs[i], i, measure(fs[i]), sqrt)
  {
    if doc.NotAnObject? then Err(InvalidGeoJson)
    else
      var features := Extracted(doc);
      if |features| == 0 then Err(NoPolygonFeatures)
      else Ok(seq(|features|, i requires 0 <= i < |features| =>
                    EnrichFeatureWithMetrics(features[i], i, measure(features[i]), sqrt)))
  }

  /**
   * A successful load yields Polygon features only, each carrying all eight metric
   * keys, with `feature_id` its own id or else its 1-based position.
   */
  lemma {:induction false} LoadedFeatures(doc: Document, measure: Feature -> Measurements, sqrt: real -> real)
    requires HandleGeoJson(doc, measure, sqrt).Ok?
    ensures var loaded := HandleGeoJson(doc, measure, sqrt).value;
            var fs := Extracted(doc);
            && |loaded| > 0
            && forall i :: 0 <= i < |loaded| ==>
                 && IsPolygonFeature(loaded[i])
                 && (forall k :: k in MetricKeys ==> k in Keys(PropsOf(loaded[i])))
                 && Lookup(PropsOf(loaded[i]), "feature_id")
                    == Some(if fs[i].id == Null then Num(Finite((i + 1) as real)) else fs[i].id)
  {
    var loaded := HandleGeoJson(doc, measure, sqrt).value;
    var fs := Extracted(doc);
    var entries := NormalizeToFeatureCollection(doc);
    if entries.Some? {
      ExtractedArePolygons(entries.value);
    }
    forall i | 0 <= i < |loaded|
      ensures IsPolygonFeature(loaded[i])
    {
      assert fs[i] in fs;
    }
  }

  /** A bare Point is not rejected as invalid, but yields no polygon features. */
  lemma PointDocumentHasNoPolygons(measure: Feature -> Measurements, sqrt: real -> real)
    ensures HandleGeoJson(OtherDoc("Point"), measure, sqrt) == Err(NoPolygonFeatures)
  {
    ExtractedByDocumentType(OtherDoc("Point"));
  }
}
