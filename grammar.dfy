/** The two shape dialects of the patterns `circle_text` and `poly_text`, as deterministic parsers
    of the text that follows the lazy prefix. Every numeral in both patterns is followed by a
    character that cannot belong to a numeral (a space, N, S, W or E), so the regular expression
    has exactly one way to match a shape: each numeral is the longest run of digits and dots at
    its position. The parsers below take that run, and the completeness lemmas show they recover
    every capture from the text it produces. */
module Grammar {
  import opened Text
  import opened Results

  const Marker: string := " E)"
  const CirclePhrase: string := "AREA CIRCLE WITH RADIUS"
  const CentrePhrase: string := "CENTERED ON"
  const BoundaryPhrase: string := "AREA BOUNDED BY LINES JOINING:"

  /** The polygon code strips `boundary[30:]`: exactly this phrase. */
  lemma BoundaryPhraseLength()
    ensures |BoundaryPhrase| == 30
  {
  }

  /** A latitude numeral and its letter N or S, then a longitude numeral and its letter W or E:
      the centre of a circle, or one repetition of the polygon pattern's starred group. */
  datatype Position = Position(lat: string, latHemisphere: char, lon: string, lonHemisphere: char)

  /** The captures of one circle: radius numeral, unit and centre. */
  datatype CircleShape = CircleShape(radius: string, unit: string, centre: Position)

  datatype Shape = Circle(circle: CircleShape) | Polygon(corners: seq<Position>)

  datatype Dialect = CircleDialect | PolygonDialect

  predicate IsUnit(u: string) { u == "M" || u == "NM" || u == "KM" }
  predicate IsLatHemisphere(c: char) { c == 'N' || c == 'S' }
  predicate IsLonHemisphere(c: char) { c == 'W' || c == 'E' }

  predicate WellFormedPosition(v: Position) {
    IsCoordinateNumeral(v.lat) && IsLatHemisphere(v.latHemisphere)
    && IsCoordinateNumeral(v.lon) && IsLonHemisphere(v.lonHemisphere)
  }

  predicate WellFormedCircle(c: CircleShape) {
    IsRadiusNumeral(c.radius) && IsUnit(c.unit) && WellFormedPosition(c.centre)
  }

  predicate WellFormedShape(d: Dialect, sh: Shape) {
    match d
    case CircleDialect => sh.Circle? && WellFormedCircle(sh.circle)
    case PolygonDialect => sh.Polygon? && forall i :: 0 <= i < |sh.corners| ==> WellFormedPosition(sh.corners[i])
  }

  // Texts are written with the continuation `rest` nested inside, so that
  // parsing one piece at a time needs no reassociation of `+`.

  /** "lat" + N|S + " lon" + W|E. */
  function PositionThen(v: Position, rest: string): string {
    v.lat + ([v.latHemisphere] + (" " + (v.lon + ([v.lonHemisphere] + rest))))
  }

  /** "AREA CIRCLE WITH RADIUS r u CENTERED ON " and the centre. */
  function CircleThen(c: CircleShape, rest: string): string {
    CirclePhrase + " " + (c.radius + (" " + (c.unit + (" " + (CentrePhrase + " " + PositionThen(c.centre, rest))))))
  }

  /** A polygon corner: a space, then the position. */
  function CornerThen(v: Position, rest: string): string {
    " " + PositionThen(v, rest)
  }

  function CornersThen(vs: seq<Position>, rest: string): string {
    if vs == [] then rest else CornerThen(vs[0], CornersThen(vs[1..], rest))
  }

  function ShapeThen(sh: Shape, rest: string): string {
    match sh
    case Circle(c) => CircleThen(c, rest)
    case Polygon(vs) => BoundaryPhrase + CornersThen(vs, rest)
  }

  /** The text a shape occupies in the NOTAM. */
  function ShapeText(sh: Shape): string {
    ShapeThen(sh, "")
  }

  lemma PositionThenAppend(v: Position, rest: string)
    ensures PositionThen(v, rest) == PositionThen(v, "") + rest
  {
    var t4 := [v.lonHemisphere] + rest;
    assert t4 == [v.lonHemisphere] + "" + rest;
    var t3 := v.lon + t4;
    assert t3 == (v.lon + ([v.lonHemisphere] + "")) + rest;
    var t2 := " " + t3;
    assert t2 == (" " + (v.lon + ([v.lonHemisphere] + ""))) + rest;
    var t1 := [v.latHemisphere] + t2;
    assert t1 == ([v.latHemisphere] + (" " + (v.lon + ([v.lonHemisphere] + "")))) + rest;
  }

  lemma {:induction false} CornersThenAppend(vs: seq<Position>, rest: string)
    ensures CornersThen(vs, rest) == CornersThen(vs, "") + rest
    decreases |vs|
  {
    if vs != [] {
      CornersThenAppend(vs[1..], rest);
      var v, t := vs[0], CornersThen(vs[1..], "");
      PositionThenAppend(v, t + rest);
      PositionThenAppend(v, t);
    }
  }

  lemma {:induction false} ShapeThenAppend(sh: Shape, rest: string)
    ensures ShapeThen(sh, rest) == ShapeText(sh) + rest
  {
    match sh {
      case Circle(c) =>
        PositionThenAppend(c.centre, rest);
        var p, p0 := PositionThen(c.centre, rest), PositionThen(c.centre, "");
        var t3 := CentrePhrase + " " + p;
        assert t3 == (CentrePhrase + " " + p0) + rest;
        var t2 := c.unit + (" " + t3);
        assert t2 == (c.unit + (" " + (CentrePhrase + " " + p0))) + rest;
        var t1 := c.radius + (" " + t2);
        assert t1 == (c.radius + (" " + (c.unit + (" " + (CentrePhrase + " " + p0))))) + rest;
      case Polygon(vs) =>
        CornersThenAppend(vs, rest);
    }
  }

  /** The text after a literal at the start of `s`. */
  function Lit(s: string, lit: string): (r: Option<string>)
    ensures r.Some? ==> s == lit + r.value
  {
    if |lit| <= |s| && s[..|lit|] == lit then
      assert s == s[..|lit|] + s[|lit|..];
      Some(s[|lit|..])
    else None
  }

  lemma LitOf(lit: string, rest: string)
    ensures Lit(lit + rest, lit) == Some(rest)
  {
    assert (lit + rest)[..|lit|] == lit;
    assert (lit + rest)[|lit|..] == rest;
  }

  /** Length of the leading run of digits and dots. */
  function Span(s: string): (n: nat)
    ensures n <= |s| && AllNumeralChars(s[..n])
    ensures n < |s| ==> !IsNumeralChar(s[n])
  {
    if s == [] || !IsNumeralChar(s[0]) then 0
    else
      var n := 1 + Span(s[1..]);
      assert s[..n] == [s[0]] + s[1..][..n - 1];
      n
  }

  lemma {:induction false} SpanOf(tok: string, rest: string)
    requires AllNumeralChars(tok)
    requires rest != [] && !IsNumeralChar(rest[0])
    ensures Span(tok + rest) == |tok|
    decreases |tok|
  {
    if tok == [] {
      assert tok + rest == rest;
    } else {
      assert (tok + rest)[1..] == tok[1..] + rest;
      SpanOf(tok[1..], rest);
    }
  }

  /** The leading numeral of `s` and what follows it. */
  function Numeral(s: string): (r: (string, string))
    ensures s == r.0 + r.1 && AllNumeralChars(r.0)
    ensures r.1 != [] ==> !IsNumeralChar(r.1[0])
  {
    var n := Span(s);
    assert s == s[..n] + s[n..];
    (s[..n], s[n..])
  }

  lemma NumeralOf(tok: string, rest: string)
    requires AllNumeralChars(tok)
    requires rest != [] && !IsNumeralChar(rest[0])
    ensures Numeral(tok + rest) == (tok, rest)
  {
    SpanOf(tok, rest);
    assert (tok + rest)[..|tok|] == tok;
    assert (tok + rest)[|tok|..] == rest;
  }

  /** `(M|NM|KM) ` */
  function ParseUnit(s: string): (r: Option<(string, string)>)
    ensures r.Some? ==> IsUnit(r.value.0) && s == r.value.0 + (" " + r.value.1)
  {
    if Lit(s, "M ").Some? then Some(("M", Lit(s, "M ").value))
    else if Lit(s, "NM ").Some? then Some(("NM", Lit(s, "NM ").value))
    else if Lit(s, "KM ").Some? then Some(("KM", Lit(s, "KM ").value))
    else None
  }

  lemma ParseUnitOf(u: string, rest: string)
    requires IsUnit(u)
    ensures ParseUnit(u + (" " + rest)) == Some((u, rest))
  {
    var s := u + (" " + rest);
    if u == "M" {
      assert s == "M " + rest;
      LitOf("M ", rest);
    } else if u == "NM" {
      assert s == "NM " + rest;
      LitOf("NM ", rest);
    } else {
      assert s == "KM " + rest;
      LitOf("KM ", rest);
    }
  }

  /** `(([0-9]*[\.][0-9]+)|([0-9]*))` + hemisphere, twice, whichever way the pattern spaces them. */
  function ParsePosition(s: string): (r: Option<(Position, string)>)
    ensures r.Some? ==> WellFormedPosition(r.value.0) && s == PositionThen(r.value.0, r.value.1)
  {
    var (lat, s1) := Numeral(s);
    if !IsCoordinateNumeral(lat) || s1 == [] || !IsLatHemisphere(s1[0]) then None else
    HeadTail(s1);
    var s2 :- Lit(s1[1..], " ");
    var (lon, s3) := Numeral(s2);
    if !IsCoordinateNumeral(lon) || s3 == [] || !IsLonHemisphere(s3[0]) then None else
    HeadTail(s3);
    assert s2 == lon + ([s3[0]] + s3[1..]);
    assert s1 == [s1[0]] + (" " + s2);
    Some((Position(lat, s1[0], lon, s3[0]), s3[1..]))
  }

  lemma {:induction false} ParsePositionOf(v: Position, rest: string)
    requires WellFormedPosition(v)
    ensures ParsePosition(PositionThen(v, rest)) == Some((v, rest))
  {
    var s3 := [v.lonHemisphere] + rest;
    var s2 := v.lon + s3;
    var s1 := [v.latHemisphere] + (" " + s2);
    assert PositionThen(v, rest) == v.lat + s1;
    NumeralOf(v.lat, s1);
    assert s1[1..] == " " + s2;
    LitOf(" ", s2);
    NumeralOf(v.lon, s3);
    assert s3[1..] == rest;
  }

  /** The body of `circle_text` after the lazy prefix. */
  function ParseCircle(s: string): (r: Option<(CircleShape, string)>)
    ensures r.Some? ==> WellFormedCircle(r.value.0) && s == CircleThen(r.value.0, r.value.1)
  {
    var s1 :- Lit(s, CirclePhrase + " ");
    var (radius, s2) := Numeral(s1);
    if !IsRadiusNumeral(radius) then None else
    var s3 :- Lit(s2, " ");
    var u :- ParseUnit(s3);
    var s4 :- Lit(u.1, CentrePhrase + " ");
    var p :- ParsePosition(s4);
    Some((CircleShape(radius, u.0, p.0), p.1))
  }

  /** Every circle the pattern admits is recovered, captures and remainder, from its text. */
  lemma {:induction false} ParseCircleOf(c: CircleShape, rest: string)
    requires WellFormedCircle(c)
    ensures ParseCircle(CircleThen(c, rest)) == Some((c, rest))
  {
    var s4 := PositionThen(c.centre, rest);
    var s3' := CentrePhrase + " " + s4;
    var s3 := c.unit + (" " + s3');
    var s2 := " " + s3;
    var s1 := c.radius + s2;
    assert CircleThen(c, rest) == CirclePhrase + " " + s1;
    LitOf(CirclePhrase + " ", s1);
    NumeralOf(c.radius, s2);
    LitOf(" ", s3);
    ParseUnitOf(c.unit, s3');
    LitOf(CentrePhrase + " ", s4);
    ParsePositionOf(c.centre, rest);
  }

  /** One repetition of the starred group of `poly_text`. */
  function ParseCorner(s: string): (r: Option<(Position, string)>)
    ensures r.Some? ==> WellFormedPosition(r.value.0) && s == CornerThen(r.value.0, r.value.1)
  {
    var s1 :- Lit(s, " ");
    ParsePosition(s1)
  }

  lemma {:induction false} ParseCornerOf(v: Position, rest: string)
    requires WellFormedPosition(v)
    ensures ParseCorner(CornerThen(v, rest)) == Some((v, rest))
  {
    LitOf(" ", PositionThen(v, rest));
    ParsePositionOf(v, rest);
  }

  /** The greedy star: as many corners as follow one another. */
  function ParseCorners(s: string): (r: (seq<Position>, string))
    ensures s == CornersThen(r.0, r.1)
    ensures forall i :: 0 <= i < |r.0| ==> WellFormedPosition(r.0[i])
    ensures ParseCorner(r.1).None?
    decreases |s|
  {
    match ParseCorner(s)
    case None => ([], s)
    case Some(p) =>
      var (vs, rest) := ParseCorners(p.1);
      var all := [p.0] + vs;
      assert all[0] == p.0 && all[1..] == vs;
      assert forall i :: 1 <= i < |all| ==> all[i] == vs[i - 1];
      (all, rest)
  }

  /** Every sequence of corners is recovered from its text, provided no further corner follows. */
  lemma {:induction false} ParseCornersOf(vs: seq<Position>, rest: string)
    requires forall i :: 0 <= i < |vs| ==> WellFormedPosition(vs[i])
    requires ParseCorner(rest).None?
    ensures ParseCorners(CornersThen(vs, rest)) == (vs, rest)
    decreases |vs|
  {
    if vs != [] {
      ParseCornerOf(vs[0], CornersThen(vs[1..], rest));
      ParseCornersOf(vs[1..], rest);
      assert [vs[0]] + vs[1..] == vs;
    }
  }

  /** The shape part of a dialect's pattern, after the lazy prefix. */
  function ParseShape(d: Dialect, s: string): (r: Option<(Shape, string)>)
    ensures r.Some? ==> WellFormedShape(d, r.value.0) && s == ShapeThen(r.value.0, r.value.1)
    ensures d == PolygonDialect ==> (r.Some? <==> Lit(s, BoundaryPhrase).Some?)
  {
    match d
    case CircleDialect =>
      var p :- ParseCircle(s);
      Some((Circle(p.0), p.1))
    case PolygonDialect =>
      var s1 :- Lit(s, BoundaryPhrase);
      var (vs, rest) := ParseCorners(s1);
      Some((Polygon(vs), rest))
  }

  /** Completeness: every shape of the dialect is recovered from its text; for polygons the
      remainder must not start with another corner, since the star would have taken it. */
  lemma {:induction false} ParseShapeOf(d: Dialect, sh: Shape, rest: string)
    requires WellFormedShape(d, sh)
    requires d == PolygonDialect ==> ParseCorner(rest).None?
    ensures ParseShape(d, ShapeThen(sh, rest)) == Some((sh, rest))
  {
    match d {
      case CircleDialect =>
        ParseCircleOf(sh.circle, rest);
      case PolygonDialect =>
        LitOf(BoundaryPhrase, CornersThen(sh.corners, rest));
        ParseCornersOf(sh.corners, rest);
    }
  }
}
