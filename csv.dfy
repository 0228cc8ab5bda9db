/**
 * The text of the CSV export (docs/script.js:421-461, 463 and 474-483): the
 * header of first-seen original keys followed by the seven computed keys, one
 * row per feature, values quoted as section 2 of RFC 4180 describes, lines
 * joined by "\n".
 */
module Csv {
  import opened Wrappers
  import opened GeoJson
  import Sequences

  /** The computed columns, in their fixed order at the end of the header. */
  const ComputedKeys: seq<string> :=
    ["area_sqm", "perimeter_m", "roundness", "centroid_lat", "centroid_lon", "orientation_deg", "extrude_height"]

  predicate IsReservedKey(k: string) {
    |k| >= 2 && k[..2] == "__"
  }

  /** A key that gets its own column before the computed ones. */
  predicate IsOriginalKey(k: string) {
    !IsReservedKey(k) && k !in ComputedKeys
  }

  /** Every property key of every feature, feature by feature, in `Object.keys` order. */
  function KeyStream(features: seq<Feature>): seq<string> {
    if features == [] then []
    else KeyStream(features[..|features| - 1]) + Keys(PropsOf(features[|features| - 1]))
  }

  /** What a JavaScript `Set` holds after adding the original keys of `ks` in order. */
  function FirstSeen(ks: seq<string>): seq<string> {
    if ks == [] then []
    else
      var seen, k := FirstSeen(ks[..|ks| - 1]), ks[|ks| - 1];
      if IsOriginalKey(k) && k !in seen then seen + [k] else seen
  }

  lemma KeyStreamStep(features: seq<Feature>, i: nat)
    requires i < |features|
    ensures KeyStream(features[..i + 1]) == KeyStream(features[..i]) + Keys(PropsOf(features[i]))
  {
    assert features[..i + 1][..i] == features[..i];
  }

  lemma FirstSeenSnoc(ks: seq<string>, k: string)
    ensures FirstSeen(ks + [k]) == if IsOriginalKey(k) && k !in FirstSeen(ks) then FirstSeen(ks) + [k] else FirstSeen(ks)
  {
    assert (ks + [k])[..|ks|] == ks;
  }

  /** The `originalKeys` set of `downloadCsv`, filled by nested loops over features and their keys. */
  method OriginalKeys(features: seq<Feature>) returns (originalKeys: seq<string>)
    ensures originalKeys == FirstSeen(KeyStream(features))
  {
    originalKeys := [];
    var i := 0;
    while i < |features|
      invariant 0 <= i <= |features|
      invariant originalKeys == FirstSeen(KeyStream(features[..i]))
    {
      var keys := Keys(PropsOf(features[i]));
      ghost var before := KeyStream(features[..i]);
      Sequences.AppendEmpty(before);
      var j := 0;
      while j < |keys|
        invariant 0 <= j <= |keys|
        invariant originalKeys == FirstSeen(before + keys[..j])
      {
        var key := keys[j];
        Sequences.PrefixSnoc(keys, j);
        Sequences.AppendSnoc(before, keys[..j], key);
        FirstSeenSnoc(before + keys[..j], key);
        if !IsReservedKey(key) && key !in ComputedKeys {
          // Set.add: a key already present stays where it is.
          if key !in originalKeys {
            originalKeys := originalKeys + [key];
          }
        }
        j := j + 1;
      }
      Sequences.FullPrefix(keys);
      KeyStreamStep(features, i);
      i := i + 1;
    }
    Sequences.FullPrefix(features);
  }

  /** `[...originalKeys, ...computedKeys]`. */
  function Headers(features: seq<Feature>): seq<string> {
    FirstSeen(KeyStream(features)) + ComputedKeys
  }

  /** The position of the first occurrence of `k`. */
  function FirstIndex(ks: seq<string>, k: string): (i: nat)
    requires k in ks
    ensures i < |ks| && ks[i] == k && k !in ks[..i]
  {
    if ks[0] == k then 0 else 1 + FirstIndex(ks[1..], k)
  }

  lemma {:induction false} FirstIndexAppend(a: seq<string>, b: seq<string>, k: string)
    requires k in a + b
    ensures k in a ==> FirstIndex(a + b, k) == FirstIndex(a, k)
    ensures k !in a ==> FirstIndex(a + b, k) == |a| + FirstIndex(b, k)
  {
    var i := FirstIndex(a + b, k);
    if k in a {
      var j := FirstIndex(a, k);
      assert (a + b)[..j] == a[..j];
      assert (a + b)[j] == k;
    } else {
      var j := FirstIndex(b, k);
      assert (a + b)[|a| + j] == k;
      assert (a + b)[..|a| + j] == a + b[..j];
    }
  }

  /** The header's original columns are exactly the original keys that occur somewhere. */
  lemma {:induction false} FirstSeenMembers(ks: seq<string>)
    ensures forall k :: k in FirstSeen(ks) <==> k in ks && IsOriginalKey(k)
  {
    if ks != [] {
      var init := ks[..|ks| - 1];
      Sequences.SplitLast(ks);
      FirstSeenMembers(init);
    }
  }

  /** No key gets two columns. */
  lemma {:induction false} FirstSeenDistinct(ks: seq<string>)
    ensures Distinct(FirstSeen(ks))
  {
    if ks != [] {
      FirstSeenDistinct(ks[..|ks| - 1]);
    }
  }

  /** Every key of `r` occurs in `ks`, and `r` lists them in the order of their first occurrence. */
  predicate InFirstSeenOrder(ks: seq<string>, r: seq<string>) {
    forall i, j :: 0 <= i < j < |r| ==> r[i] in ks && r[j] in ks && FirstIndex(ks, r[i]) < FirstIndex(ks, r[j])
  }

  /** Columns come in the order their keys were first seen. */
  lemma {:induction false} FirstSeenOrder(ks: seq<string>)
    ensures InFirstSeenOrder(ks, FirstSeen(ks))
  {
    if ks != [] {
      var init, last := ks[..|ks| - 1], ks[|ks| - 1];
      Sequences.SplitLast(ks);
      var seen := FirstSeen(init);
      FirstSeenOrder(init);
      FirstSeenMembers(init);
      forall x | x in seen
        ensures x in ks && FirstIndex(ks, x) == FirstIndex(init, x)
      {
        FirstIndexAppend(init, [last], x);
      }
      var r := FirstSeen(ks);
      if IsOriginalKey(last) && last !in seen {
        assert last !in init;
        FirstIndexAppend(init, [last], last);
        assert r == seen + [last];
      } else {
        assert r == seen;
      }
      forall i, j | 0 <= i < j < |r|
        ensures r[i] in ks && r[j] in ks && FirstIndex(ks, r[i]) < FirstIndex(ks, r[j])
      {
        assert r[i] == seen[i] && seen[i] in seen;
        if j < |seen| {
          assert r[j] == seen[j] && seen[j] in seen;
        } else {
          assert FirstIndex(init, seen[i]) < |init|;
        }
      }
    }
  }

  /**
   * The header: distinct keys; the original columns hold no reserved and no
   * computed key; the last seven are the computed keys in their fixed order.
   */
  lemma HeaderLayout(features: seq<Feature>)
    ensures var h := Headers(features);
            var n := |h| - |ComputedKeys|;
            && Distinct(h)
            && n >= 0
            && h[n..] == ComputedKeys
            && forall i :: 0 <= i < n ==> !IsReservedKey(h[i]) && h[i] !in ComputedKeys
  {
    var ks := KeyStream(features);
    var seen := FirstSeen(ks);
    FirstSeenDistinct(ks);
    FirstSeenMembers(ks);
    var h := Headers(features);
    forall i | 0 <= i < |seen|
      ensures IsOriginalKey(seen[i])
    {
      assert seen[i] in seen;
    }
    assert Distinct(ComputedKeys);
    forall i, j | 0 <= i < j < |h|
      ensures h[i] != h[j]
    {
      if j >= |seen| && i < |seen| {
        assert h[j] in ComputedKeys;
        assert IsOriginalKey(h[i]);
      }
    }
  }

  /** The header ends with the seven computed keys. */
  lemma HeaderEndsWithComputedKeys(features: seq<Feature>)
    ensures |Headers(features)| >= |ComputedKeys|
    ensures Headers(features)[|Headers(features)| - |ComputedKeys|..] == ComputedKeys
  {
    Sequences.DropPrefix(FirstSeen(KeyStream(features)), ComputedKeys);
  }

  /** `feature_id` is an original key: it gets a column before the computed ones. */
  lemma FeatureIdIsOriginal()
    ensures IsOriginalKey("feature_id")
  {
    assert "feature_id"[..2] == "fe";
    assert forall i :: 0 <= i < |ComputedKeys| ==> ComputedKeys[i][0] != 'f';
  }

  lemma {:induction false} KeyStreamContains(features: seq<Feature>, i: nat, k: string)
    requires i < |features| && k in Keys(PropsOf(features[i]))
    ensures k in KeyStream(features)
  {
    var init := features[..|features| - 1];
    if i < |features| - 1 {
      assert features[i] == init[i];
      KeyStreamContains(init, i, k);
    }
  }

  /** A key that is original and present on some feature gets a column before the computed ones. */
  lemma OriginalKeyInHeader(features: seq<Feature>, i: nat, k: string)
    requires i < |features| && k in Keys(PropsOf(features[i])) && IsOriginalKey(k)
    ensures k in Headers(features)[..|Headers(features)| - |ComputedKeys|]
  {
    KeyStreamContains(features, i, k);
    FirstSeenMembers(KeyStream(features));
    assert Headers(features)[..|Headers(features)| - |ComputedKeys|] == FirstSeen(KeyStream(features));
  }

  /** `String(value)` for the scalar values a property can hold; finite numbers go through `showNumber`. */
  function ValueText(v: Value, showNumber: real -> string): (text: string)
    ensures v.Str? ==> text == v.s
    ensures v.Num? && v.n.Finite? ==> text == showNumber(v.n.r)
    ensures !v.Str? && !(v.Num? && v.n.Finite?) ==> text != "" && !NeedsQuoting(text)
  {
    match v
    case Null => "null"
    case Str(s) => s
    case Bool(b) => if b then "true" else "false"
    case Num(Finite(r)) => showNumber(r)
    case Num(NaN) => "NaN"
    case Num(PosInf) => "Infinity"
    case Num(NegInf) => "-Infinity"
  }

  /** The text a property lookup contributes to a cell before quoting: nothing for null or undefined. */
  function FieldText(v: Option<Value>, showNumber: real -> string): string {
    if v.None? || v.value.Null? then "" else ValueText(v.value, showNumber)
  }

  predicate NeedsQuoting(s: string) {
    ',' in s || '"' in s || '\n' in s
  }

  /** `s.replace(/"/g, '""')`. */
  function DoubleQuotes(s: string): string {
    if s == [] then ""
    else (if s[0] == '"' then "\"\"" else [s[0]]) + DoubleQuotes(s[1..])
  }

  /** The string part of `escapeCsvValue`: quote a value holding a comma, a quote or a line feed. */
  function EscapeText(s: string): string {
    if NeedsQuoting(s) then "\"" + DoubleQuotes(s) + "\"" else s
  }

  /** `escapeCsvValue`. */
  function EscapeCsvValue(v: Option<Value>, showNumber: real -> string): (cell: string)
    ensures cell == EscapeText(FieldText(v, showNumber))
    ensures v.None? || v.value.Null? ==> cell == ""
  {
    if v.None? || v.value.Null? then "" else EscapeText(ValueText(v.value, showNumber))
  }

  /** Booleans and non-finite numbers export as JavaScript's words for them, unquoted; null as an empty cell. */
  lemma ScalarCells(showNumber: real -> string)
    ensures EscapeCsvValue(Some(Bool(true)), showNumber) == "true"
    ensures EscapeCsvValue(Some(Bool(false)), showNumber) == "false"
    ensures EscapeCsvValue(Some(Num(NaN)), showNumber) == "NaN"
    ensures EscapeCsvValue(Some(Num(PosInf)), showNumber) == "Infinity"
    ensures EscapeCsvValue(Some(Num(NegInf)), showNumber) == "-Infinity"
    ensures EscapeCsvValue(Some(Null), showNumber) == ""
    ensures EscapeCsvValue(None, showNumber) == ""
  {
  }

  /** `parts.join(sep)`. */
  function Join(parts: seq<string>, sep: char): string {
    if |parts| == 0 then ""
    else if |parts| == 1 then parts[0]
    else parts[0] + [sep] + Join(parts[1..], sep)
  }

  lemma JoinCons(parts: seq<string>, sep: char)
    requires |parts| >= 2
    ensures Join(parts, sep) == parts[0] + ([sep] + Join(parts[1..], sep))
  {
    Sequences.Assoc(parts[0], [sep], Join(parts[1..], sep));
  }

  /** The cells of a feature's row, one per header key. */
  function RowCells(headers: seq<string>, f: Feature, showNumber: real -> string): seq<string> {
    seq(|headers|, i requires 0 <= i < |headers| => EscapeCsvValue(Lookup(PropsOf(f), headers[i]), showNumber))
  }

  /** `headers.map((key) => escapeCsvValue(props[key])).join(",")`. */
  function Row(headers: seq<string>, f: Feature, showNumber: real -> string): (line: string)
    ensures |headers| == 0 ==> line == ""
    ensures |headers| == 1 ==> line == EscapeCsvValue(Lookup(PropsOf(f), headers[0]), showNumber)
  {
    Join(RowCells(headers, f, showNumber), ',')
  }

  /** A row is the first column's cell, a comma, then the row over the remaining columns. */
  lemma RowCons(headers: seq<string>, f: Feature, showNumber: real -> string)
    requires |headers| >= 2
    ensures Row(headers, f, showNumber)
         == EscapeCsvValue(Lookup(PropsOf(f), headers[0]), showNumber) + "," + Row(headers[1..], f, showNumber)
  {
    assert RowCells(headers, f, showNumber)[1..] == RowCells(headers[1..], f, showNumber);
  }

  /** The lines of the export: the unquoted header line, then one row per feature. */
  function CsvLines(features: seq<Feature>, showNumber: real -> string): seq<string> {
    var headers := Headers(features);
    [Join(headers, ',')] + seq(|features|, i requires 0 <= i < |features| => Row(headers, features[i], showNumber))
  }

  /** The string-building part of `downloadCsv`: header, then a row pushed per feature, joined by "\n". */
  method DownloadCsvText(features: seq<Feature>, showNumber: real -> string) returns (csv: string)
    ensures csv == Join(CsvLines(features, showNumber), '\n')
    ensures |CsvLines(features, showNumber)| == 1 + |features|
  {
    var originalKeys := OriginalKeys(features);
    var headers := originalKeys + ComputedKeys;
    ghost var lines := CsvLines(features, showNumber);
    var csvRows := [Join(headers, ',')];
    var i := 0;
    while i < |features|
      invariant 0 <= i <= |features|
      invariant csvRows == lines[..i + 1]
    {
      var row := Row(headers, features[i], showNumber);
      assert lines[i + 1] == row;
      Sequences.PrefixSnoc(lines, i + 1);
      csvRows := csvRows + [row];
      i := i + 1;
    }
    Sequences.FullPrefix(lines);
    csv := Join(csvRows, '\n');
  }

  /** Removing the outer quotes of a quoted cell and halving its doubled quotes. */
  function Unescape(cell: string): string {
    if |cell| >= 2 && cell[0] == '"' && cell[|cell| - 1] == '"' then HalveQuotes(cell[1..|cell| - 1]) else cell
  }

  function HalveQuotes(s: string): string {
    if s == [] then ""
    else if |s| >= 2 && s[0] == '"' && s[1] == '"' then "\"" + HalveQuotes(s[2..])
    else [s[0]] + HalveQuotes(s[1..])
  }

  lemma {:induction false} HalveDoubled(s: string)
    ensures HalveQuotes(DoubleQuotes(s)) == s
  {
    if s != [] {
      HalveDoubled(s[1..]);
      if s[0] == '"' {
        assert DoubleQuotes(s) == "\"\"" + DoubleQuotes(s[1..]);
        assert (DoubleQuotes(s))[2..] == DoubleQuotes(s[1..]);
      } else {
        assert DoubleQuotes(s) == [s[0]] + DoubleQuotes(s[1..]);
        assert (DoubleQuotes(s))[1..] == DoubleQuotes(s[1..]);
      }
    }
  }

  /**
   * Quoting is undone by un-quoting; a value that needs no quotes is left as
   * it is, and one that does is wrapped in quotes.
   */
  lemma UnescapeEscape(s: string)
    ensures Unescape(EscapeText(s)) == s
    ensures !NeedsQuoting(s) ==> EscapeText(s) == s
    ensures NeedsQuoting(s) ==> |EscapeText(s)| >= 2 && EscapeText(s)[0] == '"' && EscapeText(s)[|EscapeText(s)| - 1] == '"'
  {
    if NeedsQuoting(s) {
      var e := EscapeText(s);
      assert e[1..|e| - 1] == DoubleQuotes(s);
      HalveDoubled(s);
    } else if |s| >= 2 {
      assert s[0] != '"' by { assert s[0] in s; }
    }
  }
}
