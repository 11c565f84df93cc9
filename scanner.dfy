/** `re.findall` for the two patterns `circle_text` and `poly_text`. Both start with the
    literal " E)" and a lazy `(.*?)`, followed by the dialect's shape. A search tries every
    start position from left to right; at a start holding " E)" the lazy group takes the
    shortest run of characters other than a line break after which the shape parses. After a
    match the search resumes at its end, so matches never overlap. */
module Scanner {
  import opened Text
  import opened Results
  import opened Grammar

  /** The captures of one match: the lazy prefix and the shape. */
  datatype Match = Match(prefix: string, shape: Shape)

  /** A match found in the text, with the positions it spans. */
  datatype Occurrence = Occurrence(m: Match, start: nat, end: nat)

  predicate WellFormedMatch(d: Dialect, m: Match) {
    '\n' !in m.prefix && WellFormedShape(d, m.shape)
  }

  /** The text a match spans. */
  function MatchText(m: Match): string {
    Marker + m.prefix + ShapeText(m.shape)
  }

  /** A parser for the part of a pattern after the lazy prefix. */
  type BodyParser = string -> Option<(Shape, string)>

  /** `parse` recognises shapes of dialect `d`: what it returns is well formed and spells out
      the text it consumed. */
  ghost predicate ParserOf(d: Dialect, parse: BodyParser) {
    forall t :: ParsesAs(d, parse, t)
  }

  /** What `parse` returns for `t`, if anything, is a shape of `d` that spells out `t`. */
  ghost predicate ParsesAs(d: Dialect, parse: BodyParser, t: string) {
    parse(t).Some? ==> WellFormedShape(d, parse(t).value.0) && t == ShapeThen(parse(t).value.0, parse(t).value.1)
  }

  /** The body parser of a dialect's pattern. */
  function ShapeParser(d: Dialect): (parse: BodyParser)
    ensures ParserOf(d, parse)
    ensures forall t :: parse(t) == ParseShape(d, t)
  {
    var parse := t => ParseShape(d, t);
    assert forall t :: ParsesAs(d, parse, t) by {
      forall t ensures ParsesAs(d, parse, t) {
        assert parse(t) == ParseShape(d, t);
      }
    }
    parse
  }

  /** The lazy prefix may end at `k`: it crosses no line break and the body parses there. */
  predicate BodyAt(parse: BodyParser, s: string, from: nat, k: nat) {
    from <= k <= |s| && '\n' !in s[from..k] && parse(s[k..]).Some?
  }

  /** A line break inside `s[from..k']` stays inside every longer run. */
  lemma LineBreakStays(s: string, from: nat, k: nat, k': nat)
    requires from <= k < k' <= |s| && s[k] == '\n'
    ensures '\n' in s[from..k']
  {
    assert s[from..k'][k - from] == '\n';
  }

  /** The lazy group: the least end `k >= from` of the prefix at which the body matches. */
  function LazyBody(parse: BodyParser, s: string, from: nat, k: nat): (r: Option<(nat, (Shape, string))>)
    requires from <= k <= |s| && '\n' !in s[from..k]
    requires forall k' :: from <= k' < k ==> !BodyAt(parse, s, from, k')
    ensures r.Some? ==> BodyAt(parse, s, from, r.value.0) && parse(s[r.value.0..]) == Some(r.value.1)
    ensures r.Some? ==> forall k' :: from <= k' < r.value.0 ==> !BodyAt(parse, s, from, k')
    ensures r.None? ==> forall k' :: !BodyAt(parse, s, from, k')
    decreases |s| - k
  {
    match parse(s[k..])
    case Some(body) => Some((k, body))
    case None =>
      if k == |s| then None
      else if s[k] == '\n' then
        assert forall k' :: k < k' <= |s| ==> !BodyAt(parse, s, from, k') by {
          forall k' | k < k' <= |s| ensures '\n' in s[from..k'] {
            LineBreakStays(s, from, k, k');
          }
        }
        None
      else
        assert s[from..k + 1] == s[from..k] + [s[k]];
        LazyBody(parse, s, from, k + 1)
  }

  /** The lazy group stops at the first end where the body matches. */
  lemma LazyBodyFinds(parse: BodyParser, s: string, from: nat, k: nat)
    requires from <= |s| && BodyAt(parse, s, from, k)
    requires forall k' :: from <= k' < k ==> !BodyAt(parse, s, from, k')
    ensures LazyBody(parse, s, from, from) == Some((k, parse(s[k..]).value))
  {
    assert s[from..from] == [];
  }

  /** What a match spans once the marker and the body are found. */
  lemma Spans(s: string, p: nat, k: nat, shape: Shape, rest: string)
    requires |Marker| + p <= k <= |s| && s[p..p + |Marker|] == Marker && s[k..] == ShapeThen(shape, rest)
    ensures k + |ShapeText(shape)| <= |s|
    ensures s[p..k + |ShapeText(shape)|] == Marker + s[p + |Marker|..k] + ShapeText(shape)
  {
    ShapeThenAppend(shape, rest);
    var end := k + |ShapeText(shape)|;
    assert s[k..end] == ShapeText(shape) by {
      assert s[k..] == ShapeText(shape) + rest;
      assert s[k..end] == s[k..][..|ShapeText(shape)|];
    }
    SplitSlice(s, p, p + |Marker|, k, end);
  }

  /** A slice is the concatenation of the three slices it splits into. */
  lemma SplitSlice(s: string, a: nat, b: nat, c: nat, e: nat)
    requires a <= b <= c <= e <= |s|
    ensures s[a..e] == s[a..b] + s[b..c] + s[c..e]
  {
    forall i | 0 <= i < e - a ensures s[a..e][i] == (s[a..b] + s[b..c] + s[c..e])[i] {
      if i < b - a {
      } else if i < c - a {
        assert (s[a..b] + s[b..c] + s[c..e])[i] == s[b..c][i - (b - a)];
      } else {
        assert (s[a..b] + s[b..c] + s[c..e])[i] == s[c..e][i - (c - a)];
      }
    }
  }

  /** The match starting at `p`, if any, and where it ends. */
  function MatchAt(d: Dialect, parse: BodyParser, s: string, p: nat): (r: Option<(Match, nat)>)
    requires ParserOf(d, parse) && p <= |s|
    ensures r.Some? ==> p < r.value.1 <= |s| && s[p..r.value.1] == MatchText(r.value.0)
    ensures r.Some? ==> WellFormedMatch(d, r.value.0)
    ensures var from := p + |Marker|;
      r.Some? ==>
        && from <= |s| && s[p..from] == Marker && BodyAt(parse, s, from, from + |r.value.0.prefix|)
        && forall k' :: from <= k' < from + |r.value.0.prefix| ==> !BodyAt(parse, s, from, k')
    ensures var from := p + |Marker|;
      r.None? ==> !(from <= |s| && s[p..from] == Marker) || forall k' :: !BodyAt(parse, s, from, k')
  {
    if !(p + |Marker| <= |s| && s[p..p + |Marker|] == Marker) then None else
    var from := p + |Marker|;
    assert s[from..from] == [];
    var b :- LazyBody(parse, s, from, from);
    var (k, (shape, rest)) := b;
    assert ParsesAs(d, parse, s[k..]);
    Spans(s, p, k, shape, rest);
    Some((Match(s[from..k], shape), k + |ShapeText(shape)|))
  }

  lemma MatchTextSlices(m: Match, rest: string)
    ensures var s, from := MatchText(m) + rest, |Marker|;
      var k := from + |m.prefix|;
      k <= |s| && s[0..from] == Marker && s[from..k] == m.prefix && s[k..] == ShapeThen(m.shape, rest)
      && forall k' :: from <= k' < k ==> s[k'..] == m.prefix[k' - from..] + ShapeThen(m.shape, rest)
  {
    var t := ShapeThen(m.shape, rest);
    ShapeThenAppend(m.shape, rest);
    assert MatchText(m) + rest == Marker + m.prefix + t;
    ThreeParts(Marker, m.prefix, t);
    MiddleSuffixes(Marker, m.prefix, t);
  }

  /** A match is found at the start of its own text, for any body parser that reads the shape
      back and matches after no shorter prefix. */
  lemma MatchAtParser(d: Dialect, parse: BodyParser, m: Match, rest: string)
    requires ParserOf(d, parse) && '\n' !in m.prefix
    requires parse(ShapeThen(m.shape, rest)) == Some((m.shape, rest))
    requires forall j :: 0 <= j < |m.prefix| ==> parse(m.prefix[j..] + ShapeThen(m.shape, rest)).None?
    ensures MatchAt(d, parse, MatchText(m) + rest, 0) == Some((m, |MatchText(m)|))
  {
    var s := MatchText(m) + rest;
    var from := |Marker|;
    var k := from + |m.prefix|;
    MatchTextSlices(m, rest);
    forall k' | from <= k' < k ensures !BodyAt(parse, s, from, k') {
      var j := k' - from;
      assert parse(m.prefix[j..] + ShapeThen(m.shape, rest)).None?;
      assert s[k'..] == m.prefix[j..] + ShapeThen(m.shape, rest);
    }
    assert '\n' !in s[from..k] by {
      forall i | 0 <= i < k - from ensures s[from..k][i] != '\n' {
        assert s[from..k][i] == m.prefix[i];
      }
    }
    LazyBodyFinds(parse, s, from, k);
    assert LazyBody(parse, s, from, from) == Some((k, (m.shape, rest)));
  }

  /** A match is found at the start of its own text whenever no shorter prefix lets the body
      match and, for a polygon, the star has no further corner to take. */
  lemma MatchAtOf(d: Dialect, m: Match, rest: string)
    requires WellFormedMatch(d, m)
    requires forall j :: 0 <= j < |m.prefix| ==> ParseShape(d, m.prefix[j..] + ShapeThen(m.shape, rest)).None?
    requires d == PolygonDialect ==> ParseCorner(rest).None?
    ensures MatchAt(d, ShapeParser(d), MatchText(m) + rest, 0) == Some((m, |MatchText(m)|))
  {
    var parse := ShapeParser(d);
    ParseShapeOf(d, m.shape, rest);
    assert parse(ShapeThen(m.shape, rest)) == Some((m.shape, rest));
    assert forall j :: 0 <= j < |m.prefix| ==> parse(m.prefix[j..] + ShapeThen(m.shape, rest)).None?;
    MatchAtParser(d, parse, m, rest);
  }

  /** What a pattern matches at each start position of a text. */
  type Matcher = nat -> Option<(Match, nat)>

  /** Every match found at `q` ends after `q` and within the text. */
  ghost predicate Progress(at: Matcher, n: nat) {
    forall q: nat :: at(q).Some? ==> q < at(q).value.1 <= n
  }

  /** `MatchAt` on the text `s`, at every start position. */
  function MatcherOf(d: Dialect, parse: BodyParser, s: string): (at: Matcher)
    requires ParserOf(d, parse)
    ensures Progress(at, |s|)
    ensures forall q: nat :: q <= |s| ==> at(q) == MatchAt(d, parse, s, q)
    ensures forall q: nat :: q > |s| ==> at(q).None?
    ensures forall q: nat :: at(q).Some? ==> WellFormedMatch(d, at(q).value.0)
  {
    (q: nat) => if q <= |s| then MatchAt(d, parse, s, q) else None
  }

  /** `re.findall` from position `p`: the match found there, after which the search resumes
      at its end; otherwise the search moves on to the next position. */
  function FindAll(at: Matcher, n: nat, p: nat): (occ: seq<Occurrence>)
    requires Progress(at, n) && p <= n
    ensures forall i :: 0 <= i < |occ| ==> p <= occ[i].start < occ[i].end <= n
    decreases n - p
  {
    if p == n then []
    else
      match at(p)
      case None => FindAll(at, n, p + 1)
      case Some((m, end)) => [Occurrence(m, p, end)] + FindAll(at, n, end)
  }

  /** Every occurrence is the match found where it starts. */
  ghost predicate Found(at: Matcher, occ: seq<Occurrence>) {
    forall i :: 0 <= i < |occ| ==> at(occ[i].start) == Some((occ[i].m, occ[i].end))
  }

  /** No match starts anywhere in `[lo, hi)`. */
  ghost predicate NoMatchIn(at: Matcher, lo: nat, hi: nat) {
    forall q: nat :: lo <= q < hi ==> at(q).None?
  }

  /** The occurrences do not overlap, and no match starts from `p` on before the first,
      between two consecutive ones, or after the last. */
  ghost predicate Gapless(at: Matcher, n: nat, p: nat, occ: seq<Occurrence>) {
    && (occ == [] ==> NoMatchIn(at, p, n))
    && (occ != [] ==> NoMatchIn(at, p, occ[0].start) && NoMatchIn(at, occ[|occ| - 1].end, n))
    && forall i :: 0 <= i < |occ| - 1 ==>
         occ[i].end <= occ[i + 1].start && NoMatchIn(at, occ[i].end, occ[i + 1].start)
  }

  lemma {:induction false} FindAllFound(at: Matcher, n: nat, p: nat)
    requires Progress(at, n) && p <= n
    ensures Found(at, FindAll(at, n, p))
    decreases n - p
  {
    if p < n {
      match at(p)
      case None =>
        FindAllFound(at, n, p + 1);
      case Some((m, end)) =>
        FindAllFound(at, n, end);
        var tail := FindAll(at, n, end);
        var occ := [Occurrence(m, p, end)] + tail;
        assert FindAll(at, n, p) == occ;
        assert forall i :: 1 <= i < |occ| ==> occ[i] == tail[i - 1];
    }
  }

  lemma {:induction false} FindAllGaps(at: Matcher, n: nat, p: nat)
    requires Progress(at, n) && p <= n
    ensures Gapless(at, n, p, FindAll(at, n, p))
    decreases n - p
  {
    if p < n {
      match at(p)
      case None =>
        FindAllGaps(at, n, p + 1);
        GaplessSkip(at, n, p, FindAll(at, n, p + 1));
      case Some((m, end)) =>
        FindAllGaps(at, n, end);
        GaplessPrepend(at, n, Occurrence(m, p, end), FindAll(at, n, end));
    }
  }

  /** A start without a match widens the first gap. */
  lemma GaplessSkip(at: Matcher, n: nat, p: nat, occ: seq<Occurrence>)
    requires at(p).None? && Gapless(at, n, p + 1, occ)
    ensures Gapless(at, n, p, occ)
  {
    assert NoMatchIn(at, p, if occ == [] then n else occ[0].start);
  }

  /** A match in front of a gapless run keeps it gapless. */
  lemma GaplessPrepend(at: Matcher, n: nat, o: Occurrence, tail: seq<Occurrence>)
    requires Gapless(at, n, o.end, tail)
    requires forall i :: 0 <= i < |tail| ==> o.end <= tail[i].start
    ensures Gapless(at, n, o.start, [o] + tail)
  {
    var occ := [o] + tail;
    assert forall i :: 1 <= i < |occ| ==> occ[i] == tail[i - 1];
    assert NoMatchIn(at, occ[0].end, if tail == [] then n else tail[0].start);
  }

  /** The capture tuples `re.findall` returns for a dialect's pattern, in order. */
  function Matches(d: Dialect, s: string): (ms: seq<Match>)
    ensures |ms| == |FindAll(MatcherOf(d, ShapeParser(d), s), |s|, 0)|
    ensures forall i :: 0 <= i < |ms| ==>
      ms[i] == FindAll(MatcherOf(d, ShapeParser(d), s), |s|, 0)[i].m && WellFormedMatch(d, ms[i])
  {
    var at := MatcherOf(d, ShapeParser(d), s);
    var occ := FindAll(at, |s|, 0);
    FindAllFound(at, |s|, 0);
    assert forall i :: 0 <= i < |occ| ==> WellFormedMatch(d, occ[i].m) by {
      forall i | 0 <= i < |occ| ensures WellFormedMatch(d, occ[i].m) {
        assert at(occ[i].start) == Some((occ[i].m, occ[i].end));
      }
    }
    seq(|occ|, i requires 0 <= i < |occ| => occ[i].m)
  }

  /** `findall` finds nothing exactly when no position starts a match. */
  lemma NoMatches(d: Dialect, s: string)
    ensures Matches(d, s) == [] <==> forall q: nat :: q <= |s| ==> MatchAt(d, ShapeParser(d), s, q).None?
  {
    var at := MatcherOf(d, ShapeParser(d), s);
    var occ := FindAll(at, |s|, 0);
    FindAllFound(at, |s|, 0);
    FindAllGaps(at, |s|, 0);
    if occ != [] {
      assert at(occ[0].start).Some?;
    } else {
      assert MatchAt(d, ShapeParser(d), s, |s|).None?;
    }
  }

  /** Without the marker " E)" there is nothing to find. */
  lemma NoMarkerNoMatches(d: Dialect, s: string)
    requires forall q, e :: 0 <= q <= e <= |s| && e - q == |Marker| ==> s[q..e] != Marker
    ensures Matches(d, s) == []
  {
    NoMatches(d, s);
  }

  /** A polygon's star may repeat zero times, so a polygon match starts at every " E)" that
      is followed, on the same line, by the boundary phrase. */
  lemma PolygonMatchAt(s: string, p: nat)
    requires p <= |s|
    ensures MatchAt(PolygonDialect, ShapeParser(PolygonDialect), s, p).Some? <==>
      p + |Marker| <= |s| && s[p..p + |Marker|] == Marker
      && exists k :: p + |Marker| <= k <= |s| && '\n' !in s[p + |Marker|..k] && Lit(s[k..], BoundaryPhrase).Some?
  {
    var parse := ShapeParser(PolygonDialect);
    var from := p + |Marker|;
    if p + |Marker| <= |s| && s[p..p + |Marker|] == Marker {
      assert s[from..from] == [];
      if MatchAt(PolygonDialect, parse, s, p).Some? {
        var k := LazyBody(parse, s, from, from).value.0;
        assert BodyAt(parse, s, from, k);
      } else {
        assert LazyBody(parse, s, from, from).None?;
        forall k | from <= k <= |s| && '\n' !in s[from..k] ensures Lit(s[k..], BoundaryPhrase).None? {
          assert !BodyAt(parse, s, from, k);
        }
      }
    }
  }
}
