/**
 * Turning an uploaded GeoJSON document into the flat, ordered list of Polygon
 * features the metrics are computed on (docs/script.js:136-180).
 */
module Normalize {
  import opened Wrappers
  import opened GeoJson
  import Sequences

  predicate IsPolygonFeature(f: Feature) {
    f.geometry.Some? && f.geometry.value.Polygon?
  }

  /**
   * The features array of the collection the document stands for, or `None`
   * (the source's `null`) for any other top-level type.
   */
  function NormalizeToFeatureCollection(doc: Document): (r: Option<seq<Option<Feature>>>)
    ensures r.None? <==> doc.OtherDoc? || doc.NotAnObject?
    ensures doc.FeatureCollectionDoc? ==> r == Some(doc.features)
    ensures doc.FeatureDoc? ==> r == Some([Some(doc.feature)])
    ensures doc.GeometryDoc? ==> r == Some([Some(Feature(Null, Some([]), Some(doc.geometry)))])
  {
    match doc
    case FeatureCollectionDoc(features) => Some(features)
    case FeatureDoc(feature) => Some([Some(feature)])
    case GeometryDoc(g) => Some([Some(Feature(Null, Some([]), Some(g)))])
    case OtherDoc(_) => None
    case NotAnObject => None
  }

  /** The feature pushed for one part of a MultiPolygon: no id, a shallow copy of the properties. */
  function PartFeature(f: Feature, part: seq<Ring>): Feature {
    Feature(Null, Some(f.properties.GetOr([])), Some(Polygon(part)))
  }

  function SplitMultiPolygon(f: Feature, parts: seq<seq<Ring>>): seq<Feature> {
    seq(|parts|, i requires 0 <= i < |parts| => PartFeature(f, parts[i]))
  }

  /** The Polygon features one entry of the collection contributes. */
  function Contribution(entry: Option<Feature>): seq<Feature> {
    match entry
    case None => []
    case Some(f) =>
      match f.geometry
      case None => []
      case Some(Polygon(_)) => [f]
      case Some(MultiPolygon(parts)) => SplitMultiPolygon(f, parts)
      case Some(OtherGeometry(_)) => []
  }

  /** The concatenation of `f(x)` over the elements `x` of `s`, in order. */
  function FlatMap<T, U>(s: seq<T>, f: T -> seq<U>): seq<U> {
    if s == [] then [] else FlatMap(s[..|s| - 1], f) + f(s[|s| - 1])
  }

  /** The Polygon features of a collection's entries, in order. */
  function PolygonFeatures(entries: seq<Option<Feature>>): seq<Feature> {
    FlatMap(entries, Contribution)
  }

  /** What `extractPolygonFeatures` returns for a document. */
  function Extracted(doc: Document): seq<Feature> {
    match NormalizeToFeatureCollection(doc)
    case None => []
    case Some(entries) => PolygonFeatures(entries)
  }

  /**
   * The `forEach` callback of `extractPolygonFeatures`: skip a null entry or
   * one without geometry, push a Polygon feature, push one feature per part
   * of a MultiPolygon.
   */
  method PushEntry(polygonFeatures: seq<Feature>, entry: Option<Feature>) returns (pushed: seq<Feature>)
    ensures pushed == polygonFeatures + Contribution(entry)
  {
    pushed := polygonFeatures;
    if entry.None? || entry.value.geometry.None? {
      return;
    }
    var feature := entry.value;
    match feature.geometry.value
    case Polygon(_) =>
      pushed := pushed + [feature];
    case MultiPolygon(parts) =>
      var j := 0;
      while j < |parts|
        invariant 0 <= j <= |parts|
        invariant pushed == polygonFeatures + SplitMultiPolygon(feature, parts[..j])
      {
        assert SplitMultiPolygon(feature, parts[..j + 1])
            == SplitMultiPolygon(feature, parts[..j]) + [PartFeature(feature, parts[j])];
        pushed := pushed + [PartFeature(feature, parts[j])];
        j := j + 1;
      }
      assert parts[..j] == parts;
    case OtherGeometry(_) =>
  }

  /** `extractPolygonFeatures`: normalise, then run the callback on every entry in order. */
  method ExtractPolygonFeatures(doc: Document) returns (polygonFeatures: seq<Feature>)
    ensures polygonFeatures == Extracted(doc)
  {
    var collection := NormalizeToFeatureCollection(doc);
    if collection.None? {
      return [];
    }
    var entries := collection.value;
    polygonFeatures := [];
    var i := 0;
    while i < |entries|
      invariant 0 <= i <= |entries|
      invariant polygonFeatures == PolygonFeatures(entries[..i])
    {
      polygonFeatures := PushEntry(polygonFeatures, entries[i]);
      Sequences.PrefixSnoc(entries, i);
      FlatMapSnoc(entries[..i], entries[i], Contribution);
      i := i + 1;
    }
    Sequences.FullPrefix(entries);
  }

  // Independent counts of what extraction should produce.

  function PolygonCount(entries: seq<Option<Feature>>): nat {
    if entries == [] then 0
    else (if entries[0].Some? && IsPolygonFeature(entries[0].value) then 1 else 0) + PolygonCount(entries[1..])
  }

  function PartCount(entries: seq<Option<Feature>>): nat {
    if entries == [] then 0
    else
      (match entries[0]
       case Some(Feature(_, _, Some(MultiPolygon(parts)))) => |parts|
       case _ => 0)
      + PartCount(entries[1..])
  }

  lemma FlatMapSingle<T, U>(x: T, f: T -> seq<U>)
    ensures FlatMap([x], f) == f(x)
  {
    assert [x][..0] == [];
  }

  lemma FlatMapSnoc<T, U>(s: seq<T>, x: T, f: T -> seq<U>)
    ensures FlatMap(s + [x], f) == FlatMap(s, f) + f(x)
  {
    assert (s + [x])[..|s|] == s;
  }

  /** A flat map distributes over concatenation: elements are processed in order and independently. */
  lemma {:induction false} FlatMapAppend<T, U>(a: seq<T>, b: seq<T>, f: T -> seq<U>)
    ensures FlatMap(a + b, f) == FlatMap(a, f) + FlatMap(b, f)
    decreases |b|
  {
    if b == [] {
      Sequences.AppendEmpty(a);
    } else {
      var b', last := b[..|b| - 1], b[|b| - 1];
      Sequences.SplitLast(b);
      Sequences.AppendSnoc(a, b', last);
      FlatMapSnoc(a + b', last, f);
      FlatMapSnoc(b', last, f);
      FlatMapAppend(a, b', f);
    }
  }

  /** The output is made of what the elements before `k` give, what element `k` gives, and what those after give. */
  lemma FlatMapAt<T, U>(s: seq<T>, k: nat, f: T -> seq<U>)
    requires k < |s|
    ensures FlatMap(s, f) == FlatMap(s[..k], f) + f(s[k]) + FlatMap(s[k + 1..], f)
  {
    var before, x, after := s[..k], s[k], s[k + 1..];
    var rest := [x] + after;
    calc {
      FlatMap(s, f);
      { Sequences.SplitAt(s, k); }
      FlatMap(before + rest, f);
      { FlatMapAppend(before, rest, f); }
      FlatMap(before, f) + FlatMap(rest, f);
      { FlatMapAppend([x], after, f); FlatMapSingle(x, f); }
      FlatMap(before, f) + (f(x) + FlatMap(after, f));
      FlatMap(before, f) + f(x) + FlatMap(after, f);
    }
  }

  lemma ContributionLength(e: Option<Feature>)
    ensures |Contribution(e)| == PolygonCount([e]) + PartCount([e])
  {
    assert [e][1..] == [];
  }

  /** Total output length = number of Polygon features + sum of the MultiPolygon part counts. */
  lemma {:induction false} ExtractedLength(entries: seq<Option<Feature>>)
    ensures |PolygonFeatures(entries)| == PolygonCount(entries) + PartCount(entries)
  {
    if entries != [] {
      var e, rest := entries[0], entries[1..];
      calc {
        |PolygonFeatures(entries)|;
        { FlatMapAt(entries, 0, Contribution); assert entries[..0] == []; }
        |Contribution(e) + PolygonFeatures(rest)|;
        { ContributionLength(e); ExtractedLength(rest); }
        PolygonCount([e]) + PartCount([e]) + PolygonCount(rest) + PartCount(rest);
        { assert [e][1..] == []; }
        PolygonCount(entries) + PartCount(entries);
      }
    }
  }

  /** Every extracted feature has Polygon geometry. */
  lemma {:induction false} ExtractedArePolygons(entries: seq<Option<Feature>>)
    ensures forall f :: f in PolygonFeatures(entries) ==> IsPolygonFeature(f)
  {
    if entries != [] {
      ExtractedArePolygons(entries[..|entries| - 1]);
    }
  }

  /** A Polygon feature at position `k` appears unchanged, right after what the entries before it gave. */
  lemma {:induction false} ExtractedPolygonEntry(entries: seq<Option<Feature>>, k: nat)
    requires k < |entries| && entries[k].Some? && IsPolygonFeature(entries[k].value)
    ensures var start := |PolygonFeatures(entries[..k])|;
            start < |PolygonFeatures(entries)| && PolygonFeatures(entries)[start] == entries[k].value
  {
    FlatMapAt(entries, k, Contribution);
  }

  /**
   * A MultiPolygon feature at position `k` with N parts gives N consecutive
   * features: the i-th has the i-th part as its coordinates, no id, and a copy
   * of the source's properties.
   */
  lemma {:induction false} ExtractedMultiPolygonEntry(entries: seq<Option<Feature>>, k: nat)
    requires k < |entries| && entries[k].Some?
    requires entries[k].value.geometry.Some? && entries[k].value.geometry.value.MultiPolygon?
    ensures var f := entries[k].value;
            var parts := f.geometry.value.polygons;
            var start := |PolygonFeatures(entries[..k])|;
            var out := PolygonFeatures(entries);
            && start + |parts| <= |out|
            && forall i :: 0 <= i < |parts| ==>
                 out[start + i] == Feature(Null, Some(PropsOf(f)), Some(Polygon(parts[i])))
  {
    var f := entries[k].value;
    var parts := f.geometry.value.polygons;
    var split := SplitMultiPolygon(f, parts);
    var out := PolygonFeatures(entries);
    var pb, pa := PolygonFeatures(entries[..k]), PolygonFeatures(entries[k + 1..]);
    assert out == pb + split + pa by {
      assert Contribution(entries[k]) == split;
      FlatMapAt(entries, k, Contribution);
    }
    forall i | 0 <= i < |parts|
      ensures out[|pb| + i] == Feature(Null, Some(PropsOf(f)), Some(Polygon(parts[i])))
    {
      assert (pb + split + pa)[|pb| + i] == split[i];
    }
  }

  /** An entry that is null, has no geometry or has another geometry type contributes nothing. */
  lemma {:induction false} ExtractedDroppedEntry(entries: seq<Option<Feature>>, k: nat)
    requires k < |entries|
    requires entries[k].None? || entries[k].value.geometry.None? || entries[k].value.geometry.value.OtherGeometry?
    ensures PolygonFeatures(entries) == PolygonFeatures(entries[..k]) + PolygonFeatures(entries[k + 1..])
  {
    var e := entries[k];
    var c := Contribution(e);
    if e.Some? && e.value.geometry.Some? {
      assert e.value.geometry.value.OtherGeometry?;
    }
    assert c == [];
    var pb, pa := PolygonFeatures(entries[..k]), PolygonFeatures(entries[k + 1..]);
    FlatMapAt(entries, k, Contribution);
    assert pb + c + pa == pb + pa;
  }

  /** When every entry is a Polygon feature, extraction returns exactly those features, in order. */
  lemma {:induction false} ExtractedPolygonsUnchanged(entries: seq<Option<Feature>>)
    requires forall i :: 0 <= i < |entries| ==> entries[i].Some? && IsPolygonFeature(entries[i].value)
    ensures PolygonFeatures(entries) == seq(|entries|, i requires 0 <= i < |entries| => entries[i].value)
  {
    if entries != [] {
      ExtractedPolygonsUnchanged(entries[..|entries| - 1]);
    }
  }

  /** Normalisation followed by extraction, by top-level type. */
  lemma ExtractedByDocumentType(doc: Document)
    ensures doc.FeatureCollectionDoc? ==> Extracted(doc) == PolygonFeatures(doc.features)
    ensures doc.FeatureDoc? ==> Extracted(doc) == Contribution(Some(doc.feature))
    ensures doc.GeometryDoc? && doc.geometry.Polygon? ==>
              Extracted(doc) == [Feature(Null, Some([]), Some(doc.geometry))]
    ensures doc.GeometryDoc? && doc.geometry.MultiPolygon? ==>
              && |Extracted(doc)| == |doc.geometry.polygons|
              && forall i :: 0 <= i < |doc.geometry.polygons| ==>
                   Extracted(doc)[i] == Feature(Null, Some([]), Some(Polygon(doc.geometry.polygons[i])))
    ensures doc.OtherDoc? || doc.NotAnObject? ==> Extracted(doc) == []
  {
    var single := NormalizeToFeatureCollection(doc);
    if single.Some? && !doc.FeatureCollectionDoc? {
      FlatMapSingle(single.value[0], Contribution);
    }
  }
}
