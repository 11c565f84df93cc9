/** What `process_circles` and `process_polygons` make of one row: the event name, the decoded
    coordinates, the radius in metres or the list of vertices. Every `float()`, every `row[k]` and
    every `coords_list[i + 1]` is a point where the source can raise; each is modelled as an `Err`
    carrying the exception, in the order the source evaluates them. */
module Records {
  import opened Text
  import opened Results
  import opened Decimal
  import opened Coordinates
  import opened Radius
  import opened Grammar
  import opened Rows
  import opened Pairing

  /** "E)" starts at position `j` of `s`. */
  predicate CloseAt(s: string, j: int) {
    0 <= j && j + 2 <= |s| && s[j] == 'E' && s[j + 1] == ')'
  }

  /** Where the lazy `(.*?)E\)` tried at the start of `s` ends its `(.*?)`: the first "E)" that
      no line break precedes, since `.` does not match '\n'. */
  function FirstClose(s: string): (j: Option<nat>)
    ensures j.Some? ==> CloseAt(s, j.value) && '\n' !in s[..j.value]
    ensures j.Some? ==> forall i :: 0 <= i < j.value ==> !CloseAt(s, i)
    ensures j.None? && '\n' !in s ==> forall i :: !CloseAt(s, i)
  {
    if |s| < 2 then None
    else if s[0] == 'E' && s[1] == ')' then Some(0)
    else if s[0] == '\n' then None
    else
      match FirstClose(s[1..])
      case None =>
        assert forall i :: 1 <= i && CloseAt(s, i) ==> CloseAt(s[1..], i - 1);
        None
      case Some(j) =>
        assert s[..j + 1] == [s[0]] + s[1..][..j];
        assert forall i :: 1 <= i < j + 1 && CloseAt(s, i) ==> CloseAt(s[1..], i - 1);
        Some(j + 1)
  }

  /** `re.sub("(.*?)E\)", "", s)`: scanning left to right, each shortest run ending in "E)" is
      deleted; where no such run starts, one character is kept and the scan moves on. */
  function StripMarkers(s: string): (r: string)
    ensures |r| <= |s|
    decreases |s|
  {
    match FirstClose(s)
    case Some(j) => StripMarkers(s[j + 2..])
    case None => if s == [] then [] else [s[0]] + StripMarkers(s[1..])
  }

  /** A text without "E)" is left as it is. */
  lemma {:induction false} StripNothing(s: string)
    requires forall i :: !CloseAt(s, i)
    ensures StripMarkers(s) == s
    decreases |s|
  {
    if s != [] {
      assert forall i :: CloseAt(s[1..], i) ==> CloseAt(s, i + 1);
      StripNothing(s[1..]);
      assert s == [s[0]] + s[1..];
    }
  }

  /** On one line, stripping keeps exactly what follows the last "E)": the result is a suffix of
      `s` holding no "E)", and what was cut off, when anything was, ends with "E)". */
  lemma {:induction false} StripKeepsTail(s: string)
    requires '\n' !in s
    ensures var r := StripMarkers(s);
      |r| <= |s| && r == s[|s| - |r|..] && (forall i :: !CloseAt(r, i)) &&
      (|r| < |s| ==> CloseAt(s, |s| - |r| - 2))
    decreases |s|
  {
    var f := FirstClose(s);
    if f.Some? {
      var j := f.value;
      var t := s[j + 2..];
      assert '\n' !in t by {
        forall i | 0 <= i < |t| ensures t[i] != '\n' { assert t[i] == s[j + 2 + i]; }
      }
      StripKeepsTail(t);
      assert StripMarkers(s) == StripMarkers(t);
      SuffixAfterClose(s, j, StripMarkers(t));
    } else {
      StripNothing(s);
    }
  }

  /** A suffix of what follows an "E)" at `j` is a suffix of the whole text, and what precedes it
      still ends with "E)". */
  lemma SuffixAfterClose(s: string, j: nat, r: string)
    requires CloseAt(s, j)
    requires var t := s[j + 2..];
      |r| <= |t| && r == t[|t| - |r|..] && (|r| < |t| ==> CloseAt(t, |t| - |r| - 2))
    ensures |r| <= |s| && r == s[|s| - |r|..] && (|r| < |s| ==> CloseAt(s, |s| - |r| - 2))
  {
    var t := s[j + 2..];
    var m, k := |t| - |r|, |s| - |r|;
    assert k == j + 2 + m;
    assert t[m..] == s[k..] by {
      forall i | 0 <= i < |r| ensures t[m..][i] == s[k..][i] {
        assert t[m + i] == s[j + 2 + m + i];
      }
    }
    if m > 0 {
      assert t[m - 2] == s[k - 2] && t[m - 1] == s[k - 1];
    }
  }

  /** On one line, the first "E)" is where the lazy group ends. */
  lemma FirstCloseIs(s: string, j: nat)
    requires '\n' !in s && CloseAt(s, j)
    requires forall i :: 0 <= i < j ==> !CloseAt(s, i)
    ensures FirstClose(s) == Some(j)
  {
  }

  /** Everything up to the item marker is removed: " LDS E) TEXT" keeps " TEXT". */
  lemma StripExample()
    ensures StripMarkers(" LDS E) TEXT") == " TEXT"
  {
    var s := " LDS E) TEXT";
    FirstCloseIs(s, 5);
    var t := s[7..];
    assert t == " TEXT";
    forall i | 0 <= i < |t| ensures !CloseAt(t, i) {
      assert i == 0 || i == 1 || i == 2 || i == 3 || i == 4;
    }
    StripNothing(t);
  }

  /** One row of `circle_list`: "Event name", "Latitude", "Longitude", "Radius (m)". */
  datatype CircleRecord = CircleRecord(name: string, latitude: real, longitude: real, radius: real)

  /** `process_circles`, with each read and each conversion in source order. */
  function ProcessCircle(row: Row): (r: Result<CircleRecord>)
    ensures r.Ok? ==> r.value.latitude >= 0.0 && r.value.longitude >= 0.0 && r.value.radius >= 0.0
  {
    var latTok :- Get(row, 5);
    var lat :- Latitude(latTok);
    var lonTok :- Get(row, 9);
    var lon :- Longitude(lonTok);
    var unit :- Get(row, 3);
    var radius :- Get(row, 2);
    var rad :- CircleRadius(radius, unit);
    var prefix :- Get(row, 0);
    Ok(CircleRecord(StripMarkers(prefix) + Join(" ", Texts(PySlice(row, 1, |row|))), lat, lon, rad))
  }

  /** The label `" ".join(circle[1:])` gives a circle: its fields as the pattern captured them, one
      space apart, so a space falls before each hemisphere letter and the group "N " or "S " is
      followed by two: "AREA CIRCLE WITH RADIUS 5 NM CENTERED ON 401200 N  0734500 W". */
  function CircleLabel(c: CircleShape): string {
    CirclePhrase + " " + c.radius + " " + c.unit + " " + CentrePhrase + " "
      + c.centre.lat + " " + [c.centre.latHemisphere] + "  " + c.centre.lon + " " + [c.centre.lonHemisphere]
  }

  /** The fields after the prefix, joined, are the circle's label. */
  lemma {:induction false} CircleNameOf(prefix: string, c: CircleShape)
    ensures var row := CircleRow(prefix, c);
      Join(" ", Texts(PySlice(row, 1, |row|))) == CircleLabel(c)
  {
    CircleRowLayout(prefix, c);
    var v := c.centre;
    var row := CircleRow(prefix, c);
    var ts := Texts(PySlice(row, 1, |row|));
    assert PySlice(row, 1, |row|) == row[1..];
    assert ts == [CirclePhrase, c.radius, c.unit, CentrePhrase, v.lat, [v.latHemisphere] + " ", v.lon, [v.lonHemisphere]];
    JoinEight(ts);
    var head := CirclePhrase + " " + c.radius + " " + c.unit + " " + CentrePhrase + " " + v.lat + " ";
    assert head + ([v.latHemisphere] + " ") == head + [v.latHemisphere] + " ";
  }

  /** `" ".join` of eight texts, written out. */
  lemma JoinEight(ts: seq<string>)
    requires |ts| == 8
    ensures Join(" ", ts) == ts[0] + " " + ts[1] + " " + ts[2] + " " + ts[3] + " " + ts[4] + " " + ts[5] + " " + ts[6] + " " + ts[7]
  {
    assert ts[..1] == [ts[0]];
    JoinSnoc(" ", ts[..1], ts[1]);
    assert ts[..1] + [ts[1]] == ts[..2];
    JoinSnoc(" ", ts[..2], ts[2]);
    assert ts[..2] + [ts[2]] == ts[..3];
    JoinSnoc(" ", ts[..3], ts[3]);
    assert ts[..3] + [ts[3]] == ts[..4];
    JoinSnoc(" ", ts[..4], ts[4]);
    assert ts[..4] + [ts[4]] == ts[..5];
    JoinSnoc(" ", ts[..5], ts[5]);
    assert ts[..5] + [ts[5]] == ts[..6];
    JoinSnoc(" ", ts[..6], ts[6]);
    assert ts[..6] + [ts[6]] == ts[..7];
    JoinSnoc(" ", ts[..7], ts[7]);
    assert ts[..7] + [ts[7]] == ts;
  }

  /** A circle is decodable when its seconds slices are non-empty and its radius has a digit. */
  predicate CircleDecodable(c: CircleShape) {
    |c.centre.lat| >= 5 && |c.centre.lon| >= 6 && HasDigit(c.radius)
  }

  /** What a circle decodes to, stated by its captures: the fixed-width coordinates, the radius
      in metres and the stripped prefix followed by the circle's label. */
  predicate CircleDecodesTo(prefix: string, c: CircleShape, rec: CircleRecord) {
    Latitude(c.centre.lat) == Ok(rec.latitude) && Longitude(c.centre.lon) == Ok(rec.longitude)
    && CircleRadius(c.radius, c.unit) == Ok(rec.radius) && rec.name == StripMarkers(prefix) + CircleLabel(c)
  }

  /** A circle the pattern matched decodes exactly when it is decodable, and then to what its
      captures say; otherwise `float()` raises on the empty seconds slice or on the radius. */
  lemma {:induction false} CircleDecodes(prefix: string, c: CircleShape)
    requires WellFormedCircle(c)
    ensures var r := ProcessCircle(CircleRow(prefix, c));
      (r.Ok? <==> CircleDecodable(c)) &&
      (r.Ok? ==> CircleDecodesTo(prefix, c, r.value)) &&
      (r.Err? ==> r.error == (if |c.centre.lat| >= 5 && |c.centre.lon| >= 6 then ValueError(c.radius) else ValueError("")))
  {
    CircleCells(prefix, c);
    CircleNameOf(prefix, c);
    LatitudeDecodes(c.centre.lat);
    LongitudeDecodes(c.centre.lon);
    RadiusDecodes(c.radius, c.unit);
  }

  /** The cells `process_circles` reads from a circle row hold the captures they are meant to. */
  lemma CircleCells(prefix: string, c: CircleShape)
    ensures var row := CircleRow(prefix, c);
      Get(row, 5) == Ok(c.centre.lat) && Get(row, 9) == Ok(c.centre.lon) &&
      Get(row, 3) == Ok(c.unit) && Get(row, 2) == Ok(c.radius) && Get(row, 0) == Ok(prefix)
  {
    CircleRowLayout(prefix, c);
    var v := c.centre;
    LabelledCells([Cell(0, prefix), Cell(1, CirclePhrase), Cell(2, c.radius), Cell(3, c.unit), Cell(4, CentrePhrase),
         Cell(5, v.lat), Cell(8, [v.latHemisphere] + " "), Cell(9, v.lon), Cell(12, [v.lonHemisphere])]);
  }

  /** Reading labels 0, 2, 3, 5 and 9 of a row after the drop. */
  lemma LabelledCells(row: Row)
    requires |row| == 9 && row[0].column == 0 && row[1].column == 1 && row[2].column == 2 && row[3].column == 3
    requires row[4].column == 4 && row[5].column == 5 && row[6].column == 8 && row[7].column == 9
    ensures Get(row, 5) == Ok(row[5].text) && Get(row, 9) == Ok(row[7].text)
    ensures Get(row, 3) == Ok(row[3].text) && Get(row, 2) == Ok(row[2].text) && Get(row, 0) == Ok(row[0].text)
  {
    GetAt(row, 5, 5);
    GetAt(row, 7, 9);
    GetAt(row, 3, 3);
    GetAt(row, 2, 2);
  }

  /** One row of `polygon_list`: "Event name" and "Locations", each location `[lat, longi]`. */
  datatype PolygonRecord = PolygonRecord(name: string, vertices: seq<(real, real)>)

  /** The coordinate tokens of a boundary text: what follows the 30-character phrase, split. */
  function BoundaryTokens(boundary: string): seq<string> {
    Words(PySlice(boundary, |BoundaryPhrase|, |boundary|))
  }

  /** `process_polygons` as a function of the row: one vertex for every two coordinate tokens. */
  function PolygonSpec(row: Row): (r: Result<PolygonRecord>)
    ensures r.Ok? ==> Get(row, 1).Ok? && |r.value.vertices| == |BoundaryTokens(Get(row, 1).value)| / 2
  {
    var boundary :- Get(row, 1);
    var vertices :- Pairs(PolygonLatitude, PolygonLongitude, BoundaryTokens(boundary));
    var prefix :- Get(row, 0);
    Ok(PolygonRecord(StripMarkers(prefix) + boundary, vertices))
  }

  /** `process_polygons`: the boundary, its tokens paired up by the loop, then the name. */
  method ProcessPolygon(row: Row) returns (r: Result<PolygonRecord>)
    ensures r == PolygonSpec(row)
  {
    var boundary := Get(row, 1);
    if boundary.Err? {
      return Err(boundary.error);
    }
    var pairs := PairUp(PolygonLatitude, PolygonLongitude, BoundaryTokens(boundary.value));
    if pairs.Err? {
      return Err(pairs.error);
    }
    var prefix := Get(row, 0);
    if prefix.Err? {
      return Err(prefix.error);
    }
    r := Ok(PolygonRecord(StripMarkers(prefix.value) + boundary.value, pairs.value));
  }

  /** The tokens a run of corners splits into: each corner gives its latitude with N or S still
      attached, then its longitude with W or E. */
  function CornerTokens(vs: seq<Position>): (ts: seq<string>)
    ensures |ts| == 2 * |vs|
  {
    if vs == [] then [] else [LatToken(vs[0]), LonToken(vs[0])] + CornerTokens(vs[1..])
  }

  function LatToken(v: Position): string { v.lat + [v.latHemisphere] }
  function LonToken(v: Position): string { v.lon + [v.lonHemisphere] }

  /** A latitude or longitude with its letter is one word. */
  lemma Word(num: string, letter: char)
    requires AllNumeralChars(num) && !IsSpace(letter)
    ensures num + [letter] != [] && NoSpace(num + [letter])
  {
    var w := num + [letter];
    forall i | 0 <= i < |w| ensures !IsSpace(w[i]) {
      if i < |num| {
        assert IsNumeralChar(num[i]);
      }
    }
  }

  /** Splitting the text after the phrase gives back the corner tokens. */
  lemma {:induction false} CornersSplit(vs: seq<Position>)
    requires forall i :: 0 <= i < |vs| ==> WellFormedPosition(vs[i])
    ensures Words(CornersThen(vs, "")) == CornerTokens(vs)
    ensures vs != [] ==> CornersThen(vs, "")[0] == ' '
    decreases |vs|
  {
    if vs != [] {
      var tail := vs[1..];
      assert forall i :: 0 <= i < |tail| ==> tail[i] == vs[i + 1];
      CornersSplit(tail);
      CornerSplits(vs[0], CornersThen(tail, ""));
    }
  }

  /** One corner in front of a space-led remainder splits into its two tokens, then the words
      of the remainder. */
  lemma CornerSplits(v: Position, rest: string)
    requires WellFormedPosition(v)
    requires rest == [] || rest[0] == ' '
    ensures Words(CornerThen(v, rest)) == [LatToken(v), LonToken(v)] + Words(rest)
    ensures CornerThen(v, rest)[0] == ' '
  {
    var w1, w2 := LatToken(v), LonToken(v);
    Word(v.lat, v.latHemisphere);
    Word(v.lon, v.lonHemisphere);
    WordsCons(w2, rest);
    var t := " " + w2 + rest;
    assert t[0] == ' ';
    WordsCons(w1, t);
    CornerWords(v, rest);
  }

  /** A corner's text regrouped as two space-led words. */
  lemma CornerWords(v: Position, rest: string)
    ensures CornerThen(v, rest) == " " + LatToken(v) + (" " + LonToken(v) + rest)
  {
  }

  /** The text `boundary[30:]` of a polygon match splits into its corner tokens. */
  lemma {:induction false} BoundarySplits(vs: seq<Position>)
    requires forall i :: 0 <= i < |vs| ==> WellFormedPosition(vs[i])
    ensures BoundaryTokens(ShapeText(Polygon(vs))) == CornerTokens(vs)
  {
    var t := ShapeText(Polygon(vs));
    assert t == BoundaryPhrase + CornersThen(vs, "");
    assert PySlice(t, |BoundaryPhrase|, |t|) == CornersThen(vs, "");
    CornersSplit(vs);
  }

  /** A polygon corner decodes exactly when its latitude has five characters and its longitude
      six, and then to the fixed-width values of its two numerals. */
  lemma CornerDecodes(v: Position)
    requires WellFormedPosition(v)
    ensures var r := Vertex(PolygonLatitude, PolygonLongitude, LatToken(v), LonToken(v));
      (r.Ok? <==> |v.lat| >= 5 && |v.lon| >= 6) &&
      (r.Ok? ==> Latitude(v.lat) == Ok(r.value.0) && Longitude(v.lon) == Ok(r.value.1))
  {
    PolygonLatitudeDecodes(v.lat, v.latHemisphere);
    PolygonLongitudeDecodes(v.lon, v.lonHemisphere);
    if |v.lat| >= 5 && |v.lon| >= 6 {
      PolygonLatitudeDropsLetter(v.lat, v.latHemisphere);
      PolygonLongitudeDropsLetter(v.lon, v.lonHemisphere);
    }
  }

  /** Vertex k of a run of corners is read from corner k's two tokens. */
  lemma {:induction false} CornerVertex(lat: Decoder, lon: Decoder, vs: seq<Position>, k: nat)
    requires k < |vs|
    ensures VertexAt(lat, lon, CornerTokens(vs), k) == Vertex(lat, lon, LatToken(vs[k]), LonToken(vs[k]))
    decreases k
  {
    if k > 0 {
      CornerVertex(lat, lon, vs[1..], k - 1);
      var ts, ts1 := CornerTokens(vs), CornerTokens(vs[1..]);
      assert ts[2 * k] == ts1[2 * (k - 1)] && ts[2 * k + 1] == ts1[2 * (k - 1) + 1];
    }
  }

  /** The corner tokens pair up into one vertex per corner, in order. */
  lemma {:induction false} CornersPair(lat: Decoder, lon: Decoder, vs: seq<Position>)
    ensures var r := Pairs(lat, lon, CornerTokens(vs));
      (r.Ok? <==> forall i :: 0 <= i < |vs| ==> Vertex(lat, lon, LatToken(vs[i]), LonToken(vs[i])).Ok?) &&
      (r.Ok? ==> |r.value| == |vs| && forall i :: 0 <= i < |vs| ==> Vertex(lat, lon, LatToken(vs[i]), LonToken(vs[i])) == Ok(r.value[i]))
  {
    var ts := CornerTokens(vs);
    PairsSucceed(lat, lon, ts);
    forall k: nat | k < |vs| ensures VertexAt(lat, lon, ts, k) == Vertex(lat, lon, LatToken(vs[k]), LonToken(vs[k])) {
      CornerVertex(lat, lon, vs, k);
    }
    if Pairs(lat, lon, ts).Ok? {
      PairsInOrder(lat, lon, ts);
    }
  }

  /** A polygon is decodable when every corner's seconds slices are non-empty. */
  predicate PolygonDecodable(vs: seq<Position>) {
    forall i :: 0 <= i < |vs| ==> |vs[i].lat| >= 5 && |vs[i].lon| >= 6
  }

  /** What a polygon decodes to, stated by its captures: one vertex per corner, in text order,
      each the fixed-width decoding of that corner, named by the stripped prefix followed by the
      whole boundary text. */
  predicate PolygonDecodesTo(prefix: string, vs: seq<Position>, rec: PolygonRecord) {
    |rec.vertices| == |vs|
    && (forall i :: 0 <= i < |vs| ==>
         Latitude(vs[i].lat) == Ok(rec.vertices[i].0) && Longitude(vs[i].lon) == Ok(rec.vertices[i].1))
    && rec.name == StripMarkers(prefix) + ShapeText(Polygon(vs))
  }

  /** A polygon the pattern matched decodes exactly when it is decodable, and then to what its
      corners say. */
  lemma {:induction false} PolygonDecodes(prefix: string, vs: seq<Position>)
    requires forall i :: 0 <= i < |vs| ==> WellFormedPosition(vs[i])
    ensures var r := PolygonSpec(PolygonRow(prefix, vs));
      (r.Ok? <==> PolygonDecodable(vs)) && (r.Ok? ==> PolygonDecodesTo(prefix, vs, r.value))
  {
    var row := PolygonRow(prefix, vs);
    var boundary := ShapeText(Polygon(vs));
    assert Get(row, 1) == Ok(boundary);
    assert Get(row, 0) == Ok(prefix);
    BoundarySplits(vs);
    CornersDecode(vs);
  }

  /** A matched polygon can raise nothing but `ValueError`: its corners give an even number of
      tokens, so `coords_list[i + 1]` always exists, and its row holds both labels it reads. */
  lemma PolygonFailsWithValueError(prefix: string, vs: seq<Position>)
    requires forall i :: 0 <= i < |vs| ==> WellFormedPosition(vs[i])
    ensures var r := PolygonSpec(PolygonRow(prefix, vs));
      r.Err? ==> r.error.ValueError?
  {
    var row := PolygonRow(prefix, vs);
    GetAt(row, 1, 1);
    GetAt(row, 0, 0);
    BoundarySplits(vs);
    EvenPairsFailInDecoder(PolygonLatitude, PolygonLongitude, CornerTokens(vs));
  }

  /** The polygon decoders pair a run of corners' tokens into the corners' decodings. */
  lemma {:induction false} CornersDecode(vs: seq<Position>)
    requires forall i :: 0 <= i < |vs| ==> WellFormedPosition(vs[i])
    ensures var r := Pairs(PolygonLatitude, PolygonLongitude, CornerTokens(vs));
      (r.Ok? <==> PolygonDecodable(vs)) &&
      (r.Ok? ==> |r.value| == |vs| && forall i :: 0 <= i < |vs| ==>
        Latitude(vs[i].lat) == Ok(r.value[i].0) && Longitude(vs[i].lon) == Ok(r.value[i].1))
  {
    EveryCornerDecodes(vs);
    CornersPairAs(PolygonLatitude, PolygonLongitude, Latitude, Longitude, vs);
  }

  /** Pairing a run of corners' tokens agrees with reference readings `latRef` and `lonRef` of
      the numerals once every corner does. */
  lemma CornersPairAs(lat: Decoder, lon: Decoder, latRef: Decoder, lonRef: Decoder, vs: seq<Position>)
    requires forall i :: 0 <= i < |vs| ==>
      var r := Vertex(lat, lon, LatToken(vs[i]), LonToken(vs[i]));
      (r.Ok? <==> |vs[i].lat| >= 5 && |vs[i].lon| >= 6) &&
      (r.Ok? ==> latRef(vs[i].lat) == Ok(r.value.0) && lonRef(vs[i].lon) == Ok(r.value.1))
    ensures var r := Pairs(lat, lon, CornerTokens(vs));
      (r.Ok? <==> PolygonDecodable(vs)) &&
      (r.Ok? ==> |r.value| == |vs| && forall i :: 0 <= i < |vs| ==>
        latRef(vs[i].lat) == Ok(r.value[i].0) && lonRef(vs[i].lon) == Ok(r.value[i].1))
  {
    CornersPair(lat, lon, vs);
  }

  lemma EveryCornerDecodes(vs: seq<Position>)
    requires forall i :: 0 <= i < |vs| ==> WellFormedPosition(vs[i])
    ensures forall i :: 0 <= i < |vs| ==>
      var r := Vertex(PolygonLatitude, PolygonLongitude, LatToken(vs[i]), LonToken(vs[i]));
      (r.Ok? <==> |vs[i].lat| >= 5 && |vs[i].lon| >= 6) &&
      (r.Ok? ==> Latitude(vs[i].lat) == Ok(r.value.0) && Longitude(vs[i].lon) == Ok(r.value.1))
  {
    forall i | 0 <= i < |vs| ensures
      var r := Vertex(PolygonLatitude, PolygonLongitude, LatToken(vs[i]), LonToken(vs[i]));
      (r.Ok? <==> |vs[i].lat| >= 5 && |vs[i].lon| >= 6) &&
      (r.Ok? ==> Latitude(vs[i].lat) == Ok(r.value.0) && Longitude(vs[i].lon) == Ok(r.value.1))
    {
      CornerDecodes(vs[i]);
    }
  }
}
