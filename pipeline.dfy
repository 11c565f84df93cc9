/** The two programs end to end, up to the map: the text is normalised, both patterns are searched,
    the circle rows lose their duplicate columns, the polygon rows keep two, and every row is
    decoded in order. The web app stops with "No events found" when nothing matched; the
    command-line tool decodes whatever it found. */
module Pipeline {
  import opened Text
  import opened Results
  import opened Coordinates
  import opened Radius
  import opened Normalize
  import opened Grammar
  import opened Scanner
  import opened Rows
  import opened Records

  /** What both programs hand to the map: `circle_list` and `polygon_list`. */
  datatype Geometry = Geometry(circles: seq<CircleRecord>, polygons: seq<PolygonRecord>)

  /** What one run of the web app's loop body ends in. */
  datatype AppOutcome =
    | Idle                    // the text area is empty, so the loop body does not run
    | NoEventsFound           // neither pattern matched
    | Crashed(error: Error)   // a row raised while being decoded
    | Mapped(geometry: Geometry)

  /** `DataFrame.apply(f, axis=1)`: `f` on every row in order; the first exception propagates. */
  function ApplyRows<R>(f: Row -> Result<R>, rows: seq<Row>): (r: Result<seq<R>>)
    ensures r.Ok? ==> |r.value| == |rows|
    decreases |rows|
  {
    if rows == [] then Ok([])
    else
      var x :- f(rows[0]);
      var xs :- ApplyRows(f, rows[1..]);
      Ok([x] + xs)
  }

  /** Applying succeeds exactly when every row does, and then keeps the rows' order; otherwise it
      raises the exception of the first row that fails. */
  lemma {:induction false} ApplyRowsInOrder<R>(f: Row -> Result<R>, rows: seq<Row>)
    ensures var r := ApplyRows(f, rows);
      (r.Ok? <==> forall i :: 0 <= i < |rows| ==> f(rows[i]).Ok?) &&
      (r.Ok? ==> |r.value| == |rows| && forall i :: 0 <= i < |rows| ==> f(rows[i]) == Ok(r.value[i])) &&
      (r.Err? ==> exists i :: 0 <= i < |rows| && f(rows[i]) == Err(r.error) && forall j :: 0 <= j < i ==> f(rows[j]).Ok?)
    decreases |rows|
  {
    if rows != [] {
      var rest := rows[1..];
      ApplyRowsInOrder(f, rest);
      assert forall i :: 1 <= i < |rows| ==> rows[i] == rest[i - 1];
      var r := ApplyRows(f, rows);
      if r.Err? && f(rows[0]).Ok? {
        var i :| 0 <= i < |rest| && f(rest[i]) == Err(r.error) && forall j :: 0 <= j < i ==> f(rest[j]).Ok?;
        assert f(rows[i + 1]) == Err(r.error);
        assert forall j :: 1 <= j < i + 1 ==> f(rows[j]).Ok? by {
          forall j | 1 <= j < i + 1 ensures f(rows[j]).Ok? { assert rows[j] == rest[j - 1]; }
        }
      }
    }
  }

  /** The circle rows of a normalised text: one per circle match, duplicate columns dropped. */
  function CircleRows(data: string): (rows: seq<Row>)
    ensures |rows| == |Matches(CircleDialect, data)|
  {
    var ms := Matches(CircleDialect, data);
    seq(|ms|, i requires 0 <= i < |ms| => CircleRow(ms[i].prefix, ms[i].shape.circle))
  }

  /** The polygon rows of a normalised text: one per polygon match, its first two columns. */
  function PolygonRows(data: string): (rows: seq<Row>)
    ensures |rows| == |Matches(PolygonDialect, data)|
  {
    var ms := Matches(PolygonDialect, data);
    seq(|ms|, i requires 0 <= i < |ms| => PolygonRow(ms[i].prefix, ms[i].shape.corners))
  }

  /** Decoding both lists, circles first as both programs do. */
  function Decode(data: string): (r: Result<Geometry>)
    ensures r.Ok? ==> |r.value.circles| == |Matches(CircleDialect, data)|
    ensures r.Ok? ==> |r.value.polygons| == |Matches(PolygonDialect, data)|
  {
    var circles :- ApplyRows(ProcessCircle, CircleRows(data));
    var polygons :- ApplyRows(PolygonSpec, PolygonRows(data));
    Ok(Geometry(circles, polygons))
  }

  /** The web app's loop body on the pasted text, up to the map. */
  function AppRun(raw: string): (r: AppOutcome)
    ensures r == Idle <==> |raw| == 0
    ensures r.Mapped? ==> |r.geometry.circles| + |r.geometry.polygons| > 0
  {
    if |raw| == 0 then Idle
    else
      var data := AppNormalize(raw);
      if |Matches(CircleDialect, data)| + |Matches(PolygonDialect, data)| == 0 then NoEventsFound
      else
        match Decode(data)
        case Ok(g) => Mapped(g)
        case Err(e) => Crashed(e)
  }

  /** The command-line tool on the text read from standard input, up to the map. It checks neither
      search for emptiness: a frame made from no matches has no columns, so without a circle the
      drop of column 6 raises `IndexError`, and without a polygon the frame `apply` returns has no
      columns to name "Event name" and "Locations". */
  function CliRun(raw: string): (r: Result<Geometry>)
    ensures r.Ok? ==> r.value.circles != [] && r.value.polygons != []
  {
    var data := CliNormalize(raw);
    if Matches(CircleDialect, data) == [] then Err(IndexError)
    else
      var g :- Decode(data);
      if g.polygons == [] then Err(LengthMismatch(0, 2)) else Ok(g)
  }

  /** A match of the circle pattern that decodes. */
  predicate CircleMatchDecodable(m: Match) {
    m.shape.Circle? && CircleDecodable(m.shape.circle)
  }

  predicate CircleMatchDecodesTo(m: Match, rec: CircleRecord) {
    m.shape.Circle? && CircleDecodesTo(m.prefix, m.shape.circle, rec)
  }

  /** A match of the polygon pattern that decodes. */
  predicate PolygonMatchDecodable(m: Match) {
    m.shape.Polygon? && PolygonDecodable(m.shape.corners)
  }

  predicate PolygonMatchDecodesTo(m: Match, rec: PolygonRecord) {
    m.shape.Polygon? && PolygonDecodesTo(m.prefix, m.shape.corners, rec)
  }

  /** The circle list is decoded exactly when every circle match is decodable; it then holds one
      record per match, in the order of the text. */
  lemma CirclesDecode(data: string)
    ensures var ms, r := Matches(CircleDialect, data), ApplyRows(ProcessCircle, CircleRows(data));
      (r.Ok? <==> forall i :: 0 <= i < |ms| ==> CircleMatchDecodable(ms[i])) &&
      (r.Ok? ==> |r.value| == |ms| && forall i :: 0 <= i < |ms| ==> CircleMatchDecodesTo(ms[i], r.value[i]))
  {
    var ms, rows := Matches(CircleDialect, data), CircleRows(data);
    ApplyRowsInOrder(ProcessCircle, rows);
    forall i | 0 <= i < |ms| ensures
      var p := ProcessCircle(rows[i]);
      (p.Ok? <==> CircleMatchDecodable(ms[i])) && (p.Ok? ==> CircleMatchDecodesTo(ms[i], p.value))
    {
      CircleDecodes(ms[i].prefix, ms[i].shape.circle);
    }
  }

  /** The polygon list is decoded exactly when every polygon match is decodable; it then holds one
      record per match, in the order of the text. */
  lemma PolygonsDecode(data: string)
    ensures var ms, r := Matches(PolygonDialect, data), ApplyRows(PolygonSpec, PolygonRows(data));
      (r.Ok? <==> forall i :: 0 <= i < |ms| ==> PolygonMatchDecodable(ms[i])) &&
      (r.Ok? ==> |r.value| == |ms| && forall i :: 0 <= i < |ms| ==> PolygonMatchDecodesTo(ms[i], r.value[i]))
  {
    var ms, rows := Matches(PolygonDialect, data), PolygonRows(data);
    ApplyRowsInOrder(PolygonSpec, rows);
    forall i | 0 <= i < |ms| ensures
      var p := PolygonSpec(rows[i]);
      (p.Ok? <==> PolygonMatchDecodable(ms[i])) && (p.Ok? ==> PolygonMatchDecodesTo(ms[i], p.value))
    {
      PolygonDecodes(ms[i].prefix, ms[i].shape.corners);
    }
  }

  /** Decoding succeeds exactly when every match of either kind is decodable, and then yields
      every match's decoding, circles and polygons each in text order. */
  lemma DecodeAll(data: string)
    ensures var cs, ps, r := Matches(CircleDialect, data), Matches(PolygonDialect, data), Decode(data);
      (r.Ok? <==>
        (forall i :: 0 <= i < |cs| ==> CircleMatchDecodable(cs[i])) && (forall i :: 0 <= i < |ps| ==> PolygonMatchDecodable(ps[i]))) &&
      (r.Ok? ==> |r.value.circles| == |cs| && |r.value.polygons| == |ps|) &&
      (r.Ok? ==> forall i :: 0 <= i < |cs| ==> CircleMatchDecodesTo(cs[i], r.value.circles[i])) &&
      (r.Ok? ==> forall i :: 0 <= i < |ps| ==> PolygonMatchDecodesTo(ps[i], r.value.polygons[i]))
  {
    CirclesDecode(data);
    PolygonsDecode(data);
  }

  /** Only `float()` can fail on what the patterns matched: every exception decoding raises is a
      `ValueError`. */
  lemma DecodeFailsWithValueError(data: string)
    ensures Decode(data).Err? ==> Decode(data).error.ValueError?
  {
    var cs, ps := Matches(CircleDialect, data), Matches(PolygonDialect, data);
    var crows, prows := CircleRows(data), PolygonRows(data);
    ApplyRowsInOrder(ProcessCircle, crows);
    ApplyRowsInOrder(PolygonSpec, prows);
    forall i | 0 <= i < |cs| ensures ProcessCircle(crows[i]).Err? ==> ProcessCircle(crows[i]).error.ValueError? {
      CircleDecodes(cs[i].prefix, cs[i].shape.circle);
    }
    forall i | 0 <= i < |ps| ensures PolygonSpec(prows[i]).Err? ==> PolygonSpec(prows[i]).error.ValueError? {
      PolygonFailsWithValueError(ps[i].prefix, ps[i].shape.corners);
    }
  }

  /** The app catches nothing, and the only exception it can end in is a `ValueError` from
      `float()`: the polygon loop never runs out of tokens and every cell it reads is there. */
  lemma AppCrashesWithValueError(raw: string)
    ensures AppRun(raw).Crashed? ==> AppRun(raw).error.ValueError?
  {
    DecodeFailsWithValueError(AppNormalize(raw));
  }

  /** The exceptions the command-line tool can end in: `IndexError` without a circle, the length
      mismatch without a polygon, and otherwise a `ValueError` from `float()`. */
  lemma CliFailures(raw: string)
    ensures var r := CliRun(raw);
      r.Err? ==> r.error == IndexError || r.error == LengthMismatch(0, 2) || r.error.ValueError?
  {
    DecodeFailsWithValueError(CliNormalize(raw));
  }

  /** The app reports "No events found" exactly when the text is not empty and no position of
      the normalised text starts a match of either pattern. */
  lemma AppNoEvents(raw: string)
    ensures var data := AppNormalize(raw);
      AppRun(raw) == NoEventsFound <==>
        |raw| > 0
        && (forall q: nat :: q <= |data| ==> MatchAt(CircleDialect, ShapeParser(CircleDialect), data, q).None?)
        && (forall q: nat :: q <= |data| ==> MatchAt(PolygonDialect, ShapeParser(PolygonDialect), data, q).None?)
  {
    var data := AppNormalize(raw);
    NoEventsWhenNothingMatched(raw);
    NoMatches(CircleDialect, data);
    NoMatches(PolygonDialect, data);
  }

  /** The app reports "No events found" exactly when the text is not empty and both searches
      come back empty. */
  lemma NoEventsWhenNothingMatched(raw: string)
    ensures var data := AppNormalize(raw);
      AppRun(raw) == NoEventsFound <==>
        |raw| > 0 && Matches(CircleDialect, data) == [] && Matches(PolygonDialect, data) == []
  {
  }

  /** A text in which " E)" never occurs yields "No events found". */
  lemma AppNoMarker(raw: string)
    requires |raw| > 0
    requires var data := AppNormalize(raw);
      forall q, e :: 0 <= q <= e <= |data| && e - q == |Marker| ==> data[q..e] != Marker
    ensures AppRun(raw) == NoEventsFound
  {
    NoMarkerNoMatches(CircleDialect, AppNormalize(raw));
    NoMarkerNoMatches(PolygonDialect, AppNormalize(raw));
  }

  /** The app maps a text exactly when something matched and every match is decodable; the map
      then shows every match, in text order. */
  lemma AppMaps(raw: string)
    ensures var data := AppNormalize(raw);
      var cs, ps := Matches(CircleDialect, data), Matches(PolygonDialect, data);
      (AppRun(raw).Mapped? <==>
        |raw| > 0 && |cs| + |ps| > 0
        && (forall i :: 0 <= i < |cs| ==> CircleMatchDecodable(cs[i]))
        && (forall i :: 0 <= i < |ps| ==> PolygonMatchDecodable(ps[i]))) &&
      (AppRun(raw).Mapped? ==> AppRun(raw).geometry == Decode(data).value)
  {
    if |raw| > 0 {
      DecodeAll(AppNormalize(raw));
    }
  }

  /** The command-line tool decodes a text exactly when it has matches of both patterns and every
      match is decodable. Without a circle it raises `IndexError` before decoding anything; with
      circles that all decode and no polygon it fails naming the empty polygon frame's columns. */
  lemma CliDecodes(raw: string)
    ensures var data := CliNormalize(raw);
      var cs, ps := Matches(CircleDialect, data), Matches(PolygonDialect, data);
      (CliRun(raw).Ok? <==>
        |cs| > 0 && |ps| > 0
        && (forall i :: 0 <= i < |cs| ==> CircleMatchDecodable(cs[i]))
        && (forall i :: 0 <= i < |ps| ==> PolygonMatchDecodable(ps[i]))) &&
      (cs == [] ==> CliRun(raw) == Err(IndexError)) &&
      (|cs| > 0 && ps == [] && (forall i :: 0 <= i < |cs| ==> CircleMatchDecodable(cs[i])) ==>
        CliRun(raw) == Err(LengthMismatch(0, 2))) &&
      (CliRun(raw).Ok? ==> CliRun(raw).value == Decode(data).value)
  {
    DecodeAll(CliNormalize(raw));
  }

  /** On text already on one line the two programs agree once both patterns have matched:
      wherever the app draws a map, the command-line tool decodes the same geometry, and wherever
      the app crashes the tool raises the same exception. Without a circle the tool raises
      `IndexError` whatever the app does, even where the app maps polygons. */
  lemma OneLineAgreement(raw: string)
    requires '\n' !in raw
    ensures var data := AppNormalize(raw);
      Matches(CircleDialect, data) != [] && Matches(PolygonDialect, data) != [] ==>
        (AppRun(raw).Mapped? ==> CliRun(raw) == Ok(AppRun(raw).geometry)) &&
        (AppRun(raw).Crashed? ==> CliRun(raw) == Err(AppRun(raw).error))
    ensures Matches(CircleDialect, AppNormalize(raw)) == [] ==> CliRun(raw) == Err(IndexError)
  {
    NormalizersAgreeOnOneLine(raw);
    DecodeAll(AppNormalize(raw));
  }
}
