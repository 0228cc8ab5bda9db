/**
 * A reference reader for the CSV the export writes, following section 2 of
 * RFC 4180 (quoted fields, doubled quotes), with "\n" as the only line break.
 * It is the partner of the writer in module Csv: what the writer produces
 * reads back as the header keys and, per feature, the text of each property.
 */
module CsvReader {
  import opened Wrappers
  import opened GeoJson
  import opened Csv
  import Normalize
  import Enrich
  import Sequences

  /** The text after a field: nothing, or a field or line separator. */
  predicate AtFieldEnd(t: string) {
    t == [] || t[0] == ',' || t[0] == '\n'
  }

  /** An unquoted field: everything up to the next comma or line break. Returns the field and the rest. */
  function ReadUnquoted(s: string): (r: (string, string))
    ensures r.0 + r.1 == s
    ensures AtFieldEnd(r.1)
  {
    if AtFieldEnd(s) then ("", s)
    else
      var (field, rest) := ReadUnquoted(s[1..]);
      assert [s[0]] + (field + rest) == s;
      ([s[0]] + field, rest)
  }

  /**
   * The body of a quoted field, after its opening quote: `""` stands for one
   * quote and a lone `"` closes the field. `None` when the closing quote is missing.
   */
  function ReadQuoted(s: string): (r: Option<(string, string)>)
    ensures r.Some? ==> |r.value.1| < |s|
  {
    if s == [] then None
    else if s[0] == '"' then
      if |s| >= 2 && s[1] == '"' then
        match ReadQuoted(s[2..])
        case None => None
        case Some((field, rest)) => Some(("\"" + field, rest))
      else Some(("", s[1..]))
    else
      match ReadQuoted(s[1..])
      case None => None
      case Some((field, rest)) => Some(([s[0]] + field, rest))
  }

  function ReadField(s: string): (r: Option<(string, string)>)
    ensures r.Some? ==> |r.value.1| <= |s|
  {
    if s != [] && s[0] == '"' then ReadQuoted(s[1..]) else Some(ReadUnquoted(s))
  }

  /**
   * One record: fields separated by commas and ended by a line break or by
   * the end of the text. Returns the fields and, after a line break, the
   * rest of the text. `None` for a malformed field or text after a closing quote.
   */
  function ReadRecord(s: string): (r: Option<(seq<string>, Option<string>)>)
    ensures r.Some? ==> |r.value.0| > 0
    ensures r.Some? && r.value.1.Some? ==> |r.value.1.value| < |s|
    decreases |s|
  {
    match ReadField(s)
    case None => None
    case Some((field, after)) =>
      if after == [] then Some(([field], None))
      else if after[0] == ',' then
        match ReadRecord(after[1..])
        case None => None
        case Some((more, rest)) => Some(([field] + more, rest))
      else if after[0] == '\n' then Some(([field], Some(after[1..])))
      else None
  }

  /** All records of a text, one per line. */
  function ReadRecords(s: string): (r: Option<seq<seq<string>>>)
    ensures r.Some? ==> |r.value| > 0
    decreases |s|
  {
    match ReadRecord(s)
    case None => None
    case Some((fields, None)) => Some([fields])
    case Some((fields, Some(rest))) =>
      match ReadRecords(rest)
      case None => None
      case Some(more) => Some([fields] + more)
  }

  function EscapeAll(texts: seq<string>): seq<string> {
    seq(|texts|, i requires 0 <= i < |texts| => EscapeText(texts[i]))
  }

  /** The line the writer produces for a record of texts. */
  function WriteRecord(texts: seq<string>): string {
    Join(EscapeAll(texts), ',')
  }

  /** One written line per record. */
  function WrittenLines(records: seq<seq<string>>): seq<string> {
    seq(|records|, i requires 0 <= i < |records| => WriteRecord(records[i]))
  }

  function WriteRecords(records: seq<seq<string>>): string {
    Join(WrittenLines(records), '\n')
  }

  lemma {:induction false} ReadUnquotedPlain(s: string, t: string)
    requires ',' !in s && '\n' !in s && AtFieldEnd(t)
    ensures ReadUnquoted(s + t) == (s, t)
  {
    if s != [] {
      assert s[0] in s;
      Sequences.TailOfAppend(s, t);
      assert ',' !in s[1..] && '\n' !in s[1..] by {
        forall c | c in s[1..] ensures c in s { }
      }
      ReadUnquotedPlain(s[1..], t);
      Sequences.SplitFirst(s);
    } else {
      assert s + t == t;
    }
  }

  lemma {:induction false} ReadQuotedDoubled(s: string, t: string)
    requires t == [] || t[0] != '"'
    ensures ReadQuoted(DoubleQuotes(s) + "\"" + t) == Some((s, t))
  {
    var input := DoubleQuotes(s) + "\"" + t;
    if s == [] {
      assert input == "\"" + t;
      Sequences.TailOfCons('"', t);
    } else {
      var head := if s[0] == '"' then "\"\"" else [s[0]];
      var rest := DoubleQuotes(s[1..]) + "\"" + t;
      assert DoubleQuotes(s) == head + DoubleQuotes(s[1..]);
      Sequences.Assoc(head, DoubleQuotes(s[1..]), "\"");
      Sequences.Assoc(head, DoubleQuotes(s[1..]) + "\"", t);
      assert input == head + rest;
      Sequences.DropPrefix(head, rest);
      ReadQuotedDoubled(s[1..], t);
      Sequences.SplitFirst(s);
    }
  }

  /** A quoted cell reads back as the value it quotes, and the reader stops right after it. */
  lemma ReadFieldEscaped(s: string, t: string)
    requires AtFieldEnd(t)
    ensures ReadField(EscapeText(s) + t) == Some((s, t))
  {
    if NeedsQuoting(s) {
      var rest := DoubleQuotes(s) + "\"" + t;
      Sequences.Assoc("\"", DoubleQuotes(s), "\"");
      Sequences.Assoc("\"", DoubleQuotes(s) + "\"", t);
      assert EscapeText(s) + t == "\"" + rest;
      Sequences.TailOfCons('"', rest);
      ReadQuotedDoubled(s, t);
    } else {
      ReadUnquotedPlain(s, t);
      if s != [] {
        assert s[0] != '"' by { assert s[0] in s; }
      }
    }
  }

  lemma EscapeAllTail(texts: seq<string>)
    requires |texts| > 0
    ensures EscapeAll(texts)[1..] == EscapeAll(texts[1..])
  {
  }

  /** A written record reads back as its texts; the reader stops at the line break after it. */
  lemma {:induction false} ReadWrittenRecord(texts: seq<string>, t: string)
    requires |texts| > 0 && (t == [] || t[0] == '\n')
    ensures ReadRecord(WriteRecord(texts) + t) == Some((texts, if t == [] then None else Some(t[1..])))
    decreases |texts|
  {
    var cells := EscapeAll(texts);
    if |texts| == 1 {
      assert WriteRecord(texts) == EscapeText(texts[0]);
      ReadFieldEscaped(texts[0], t);
      assert [texts[0]] == texts;
    } else {
      var tail := texts[1..];
      EscapeAllTail(texts);
      JoinCons(cells, ',');
      var rest := WriteRecord(tail) + t;
      Sequences.Assoc(EscapeText(texts[0]), "," + WriteRecord(tail), t);
      Sequences.Assoc(",", WriteRecord(tail), t);
      ReadFieldEscaped(texts[0], "," + rest);
      Sequences.TailOfCons(',', rest);
      ReadWrittenRecord(tail, t);
      Sequences.SplitFirst(texts);
    }
  }

  lemma WrittenLinesTail(records: seq<seq<string>>)
    requires |records| > 0
    ensures WrittenLines(records)[1..] == WrittenLines(records[1..])
  {
  }

  /** Written records read back as themselves: the reader is a left inverse of the writer. */
  lemma {:induction false} ReadWrittenRecords(records: seq<seq<string>>)
    requires |records| > 0
    requires forall i :: 0 <= i < |records| ==> |records[i]| > 0
    ensures ReadRecords(WriteRecords(records)) == Some(records)
    decreases |records|
  {
    var lines := WrittenLines(records);
    if |records| == 1 {
      Sequences.AppendEmpty(WriteRecord(records[0]));
      ReadWrittenRecord(records[0], "");
      assert [records[0]] == records;
    } else {
      var tail := records[1..];
      WrittenLinesTail(records);
      JoinCons(lines, '\n');
      var rest := WriteRecords(tail);
      ReadWrittenRecord(records[0], "\n" + rest);
      Sequences.TailOfCons('\n', rest);
      ReadWrittenRecords(tail);
      Sequences.SplitFirst(records);
    }
  }

  /** The text of each cell of a feature's row, before quoting. */
  function FieldTexts(headers: seq<string>, f: Feature, showNumber: real -> string): seq<string> {
    seq(|headers|, i requires 0 <= i < |headers| => FieldText(Lookup(PropsOf(f), headers[i]), showNumber))
  }

  lemma RowIsWrittenRecord(headers: seq<string>, f: Feature, showNumber: real -> string)
    ensures Row(headers, f, showNumber) == WriteRecord(FieldTexts(headers, f, showNumber))
  {
    assert RowCells(headers, f, showNumber) == EscapeAll(FieldTexts(headers, f, showNumber));
  }

  /** A header line of keys that need no quoting is the written record of those keys. */
  lemma PlainHeaderIsWrittenRecord(headers: seq<string>)
    requires forall k :: k in headers ==> !NeedsQuoting(k)
    ensures Join(headers, ',') == WriteRecord(headers)
  {
    forall i | 0 <= i < |headers| ensures EscapeText(headers[i]) == headers[i] {
      assert headers[i] in headers;
    }
    assert EscapeAll(headers) == headers;
  }

  /** What the export should read back as: the header keys, then the field texts of each feature. */
  function ExportRecords(features: seq<Feature>, showNumber: real -> string): (records: seq<seq<string>>)
    ensures |records| == 1 + |features|
  {
    var headers := Headers(features);
    [headers] + seq(|features|, i requires 0 <= i < |features| => FieldTexts(headers, features[i], showNumber))
  }

  lemma CsvLineIsWrittenRecord(features: seq<Feature>, showNumber: real -> string, i: nat)
    requires forall k :: k in Headers(features) ==> !NeedsQuoting(k)
    requires i <= |features|
    ensures CsvLines(features, showNumber)[i] == WriteRecord(ExportRecords(features, showNumber)[i])
  {
    var headers := Headers(features);
    if i == 0 {
      PlainHeaderIsWrittenRecord(headers);
    } else {
      RowIsWrittenRecord(headers, features[i - 1], showNumber);
    }
  }

  lemma CsvLinesAreWrittenRecords(features: seq<Feature>, showNumber: real -> string)
    requires forall k :: k in Headers(features) ==> !NeedsQuoting(k)
    ensures CsvLines(features, showNumber) == WrittenLines(ExportRecords(features, showNumber))
  {
    var records := ExportRecords(features, showNumber);
    var lines := CsvLines(features, showNumber);
    forall i | 0 <= i < |records|
      ensures lines[i] == WriteRecord(records[i])
    {
      CsvLineIsWrittenRecord(features, showNumber, i);
    }
  }

  /**
   * Whatever the header keys, each data row of the export reads back as one
   * field per header column, holding the text of that property.
   */
  lemma ExportRowReadsBack(features: seq<Feature>, showNumber: real -> string, i: nat)
    requires i < |features|
    ensures var headers := Headers(features);
            var fields := FieldTexts(headers, features[i], showNumber);
            && |fields| == |headers|
            && ReadRecord(CsvLines(features, showNumber)[i + 1]) == Some((fields, None))
  {
    var headers := Headers(features);
    var fields := FieldTexts(headers, features[i], showNumber);
    HeaderEndsWithComputedKeys(features);
    RowIsWrittenRecord(headers, features[i], showNumber);
    Sequences.AppendEmpty(WriteRecord(fields));
    ReadWrittenRecord(fields, "");
  }

  /**
   * When no header key needs quoting, the exported text reads back as the
   * header keys followed, per feature, by one field per header holding the
   * text of that property (empty where the feature lacks it).
   */
  lemma ExportReadsBack(features: seq<Feature>, showNumber: real -> string)
    requires forall k :: k in Headers(features) ==> !NeedsQuoting(k)
    ensures ReadRecords(Join(CsvLines(features, showNumber), '\n')) == Some(ExportRecords(features, showNumber))
  {
    var records := ExportRecords(features, showNumber);
    CsvLinesAreWrittenRecords(features, showNumber);
    forall i | 0 <= i < |records|
      ensures |records[i]| > 0
    {
      assert |records[i]| == |Headers(features)|;
    }
    ReadWrittenRecords(records);
  }

  /** The fields under the seven computed columns at the end of a header. */
  lemma ComputedFields(headers: seq<string>, g: Feature, showNumber: real -> string)
    requires |headers| >= |ComputedKeys| && headers[|headers| - |ComputedKeys|..] == ComputedKeys
    ensures FieldTexts(headers, g, showNumber)[|headers| - |ComputedKeys|..]
         == seq(|ComputedKeys|, k requires 0 <= k < |ComputedKeys| => FieldText(Lookup(PropsOf(g), ComputedKeys[k]), showNumber))
  {
    var n := |headers| - |ComputedKeys|;
    forall k | 0 <= k < |ComputedKeys| ensures headers[n + k] == ComputedKeys[k] {
      assert headers[n..][k] == headers[n + k];
    }
  }

  /** The values of the seven computed metrics, in column order. */
  function MetricValues(m: Enrich.Measurements, sqrt: real -> real): (vs: seq<Value>)
    ensures |vs| == |ComputedKeys|
  {
    [ Num(m.area), Num(m.perimeter), Num(Enrich.Roundness(m.area, m.perimeter)),
      Num(m.centroidLat), Num(m.centroidLon), Num(m.orientation),
      Num(Finite(Enrich.ExtrudeHeight(m.area, sqrt))) ]
  }

  function MetricTexts(m: Enrich.Measurements, sqrt: real -> real, showNumber: real -> string): seq<string> {
    var vs := MetricValues(m, sqrt);
    seq(|vs|, k requires 0 <= k < |vs| => ValueText(vs[k], showNumber))
  }

  /** Properties that hold the metric values under the computed keys. */
  predicate HoldsMetrics(p: Props, m: Enrich.Measurements, sqrt: real -> real) {
    forall k :: 0 <= k < |ComputedKeys| ==> Lookup(p, ComputedKeys[k]) == Some(MetricValues(m, sqrt)[k])
  }

  lemma EnrichedHoldsMetricValue(f: Feature, index: nat, m: Enrich.Measurements, sqrt: real -> real, k: nat)
    requires k < |ComputedKeys|
    ensures Lookup(PropsOf(Enrich.EnrichFeatureWithMetrics(f, index, m, sqrt)), ComputedKeys[k]) == Some(MetricValues(m, sqrt)[k])
  {
    var vs := MetricValues(m, sqrt);
    if k == 0 { assert ComputedKeys[k] == "area_sqm" && vs[k] == Num(m.area); }
    else if k == 1 { assert ComputedKeys[k] == "perimeter_m" && vs[k] == Num(m.perimeter); }
    else if k == 2 { assert ComputedKeys[k] == "roundness" && vs[k] == Num(Enrich.Roundness(m.area, m.perimeter)); }
    else if k == 3 { assert ComputedKeys[k] == "centroid_lat" && vs[k] == Num(m.centroidLat); }
    else if k == 4 { assert ComputedKeys[k] == "centroid_lon" && vs[k] == Num(m.centroidLon); }
    else if k == 5 { assert ComputedKeys[k] == "orientation_deg" && vs[k] == Num(m.orientation); }
    else { assert ComputedKeys[k] == "extrude_height" && vs[k] == Num(Finite(Enrich.ExtrudeHeight(m.area, sqrt))); }
  }

  /** An enriched feature holds its metric values under the computed keys. */
  lemma EnrichedHoldsMetrics(f: Feature, index: nat, m: Enrich.Measurements, sqrt: real -> real)
    ensures HoldsMetrics(PropsOf(Enrich.EnrichFeatureWithMetrics(f, index, m, sqrt)), m, sqrt)
  {
    forall k | 0 <= k < |ComputedKeys|
      ensures Lookup(PropsOf(Enrich.EnrichFeatureWithMetrics(f, index, m, sqrt)), ComputedKeys[k]) == Some(MetricValues(m, sqrt)[k])
    {
      EnrichedHoldsMetricValue(f, index, m, sqrt, k);
    }
  }

  /**
   * For a feature holding the metric values, the fields under the seven
   * computed columns are the texts of its metrics, in header order.
   */
  lemma RowMetrics(headers: seq<string>, g: Feature, m: Enrich.Measurements,
                   sqrt: real -> real, showNumber: real -> string)
    requires |headers| >= |ComputedKeys| && headers[|headers| - |ComputedKeys|..] == ComputedKeys
    requires HoldsMetrics(PropsOf(g), m, sqrt)
    ensures FieldTexts(headers, g, showNumber)[|headers| - |ComputedKeys|..] == MetricTexts(m, sqrt, showNumber)
  {
    ComputedFields(headers, g, showNumber);
  }

  /** The export of a successful load gives `feature_id` its own column before the computed ones. */
  lemma LoadedExportHasFeatureIdColumn(doc: Document, measure: Feature -> Enrich.Measurements, sqrt: real -> real)
    requires Enrich.HandleGeoJson(doc, measure, sqrt).Ok?
    ensures var headers := Headers(Enrich.HandleGeoJson(doc, measure, sqrt).value);
            "feature_id" in headers[..|headers| - |ComputedKeys|]
  {
    var loaded := Enrich.HandleGeoJson(doc, measure, sqrt).value;
    Enrich.LoadedFeatures(doc, measure, sqrt);
    assert "feature_id" in Enrich.MetricKeys;
    assert "feature_id" in Keys(PropsOf(loaded[0]));
    FeatureIdIsOriginal();
    OriginalKeyInHeader(loaded, 0, "feature_id");
  }

  /** Each feature of a successful load holds the metric values measured on its source feature. */
  lemma LoadedHoldMetrics(doc: Document, measure: Feature -> Enrich.Measurements, sqrt: real -> real)
    requires Enrich.HandleGeoJson(doc, measure, sqrt).Ok?
    ensures var loaded := Enrich.HandleGeoJson(doc, measure, sqrt).value;
            var fs := Normalize.Extracted(doc);
            && |loaded| == |fs|
            && forall i :: 0 <= i < |loaded| ==> HoldsMetrics(PropsOf(loaded[i]), measure(fs[i]), sqrt)
  {
    var fs := Normalize.Extracted(doc);
    forall i | 0 <= i < |fs|
      ensures HoldsMetrics(PropsOf(Enrich.EnrichFeatureWithMetrics(fs[i], i, measure(fs[i]), sqrt)), measure(fs[i]), sqrt)
    {
      EnrichedHoldsMetrics(fs[i], i, measure(fs[i]), sqrt);
    }
  }

  /** Rows of features that hold their metric values end with the metric texts. */
  lemma RowsEndWithMetrics(features: seq<Feature>, ms: seq<Enrich.Measurements>, sqrt: real -> real, showNumber: real -> string)
    requires |ms| == |features|
    requires forall i :: 0 <= i < |features| ==> HoldsMetrics(PropsOf(features[i]), ms[i], sqrt)
    ensures var headers := Headers(features);
            && |headers| >= |ComputedKeys|
            && forall i :: 0 <= i < |features| ==>
                 FieldTexts(headers, features[i], showNumber)[|headers| - |ComputedKeys|..] == MetricTexts(ms[i], sqrt, showNumber)
  {
    var headers := Headers(features);
    HeaderEndsWithComputedKeys(features);
    forall i | 0 <= i < |features|
      ensures FieldTexts(headers, features[i], showNumber)[|headers| - |ComputedKeys|..] == MetricTexts(ms[i], sqrt, showNumber)
    {
      RowMetrics(headers, features[i], ms[i], sqrt, showNumber);
    }
  }

  /** Every row of the export of a successful load ends with its feature's metric texts. */
  lemma LoadedExportRowsEndWithMetrics(doc: Document, measure: Feature -> Enrich.Measurements,
                                       sqrt: real -> real, showNumber: real -> string)
    requires Enrich.HandleGeoJson(doc, measure, sqrt).Ok?
    ensures var loaded := Enrich.HandleGeoJson(doc, measure, sqrt).value;
            var fs := Normalize.Extracted(doc);
            var headers := Headers(loaded);
            && |headers| >= |ComputedKeys|
            && forall i :: 0 <= i < |loaded| ==>
                 FieldTexts(headers, loaded[i], showNumber)[|headers| - |ComputedKeys|..]
                   == MetricTexts(measure(fs[i]), sqrt, showNumber)
  {
    var loaded := Enrich.HandleGeoJson(doc, measure, sqrt).value;
    var fs := Normalize.Extracted(doc);
    LoadedHoldMetrics(doc, measure, sqrt);
    var ms := seq(|fs|, i requires 0 <= i < |fs| => measure(fs[i]));
    RowsEndWithMetrics(loaded, ms, sqrt, showNumber);
  }

  /**
   * The header line is written without quoting: a property key holding a
   * comma reads back as two header fields.
   */
  lemma HeaderKeyWithCommaSplits()
    ensures ReadRecord(Join(["a,b", "c"], ',')) == Some((["a", "b", "c"], None))
  {
    var texts := ["a", "b", "c"];
    assert EscapeAll(texts) == texts;
    assert Join(["a,b", "c"], ',') == WriteRecord(texts) + "";
    ReadWrittenRecord(texts, "");
  }
}
