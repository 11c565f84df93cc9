/** The rows `pd.DataFrame(re.findall(...))` makes of the matches. A row is a sequence of cells
    labelled with the group number they came from, so that dropping columns keeps the labels of
    the others: `circle[5]` and `circle[9]` keep reading groups 5 and 9 after groups 6, 7, 10
    and 11 are dropped, while `circle[1:]` counts positions. */
module Rows {
  import opened Text
  import opened Results
  import opened Grammar

  /** One entry of a row: the column label and the text. */
  datatype Cell = Cell(column: nat, text: string)

  type Row = seq<Cell>

  /** The row of a `findall` tuple: group `i` under label `i`. */
  function TupleRow(groups: seq<string>): (row: Row)
    ensures |row| == |groups|
    ensures forall i :: 0 <= i < |row| ==> row[i] == Cell(i, groups[i])
  {
    seq(|groups|, i requires 0 <= i < |groups| => Cell(i, groups[i]))
  }

  /** `row[column]` by label: the first cell carrying it, or a `KeyError`. */
  function Get(row: Row, column: nat): (r: Result<string>)
    ensures r.Ok? <==> exists i :: 0 <= i < |row| && row[i].column == column
    ensures r.Ok? ==> exists i :: 0 <= i < |row| && row[i] == Cell(column, r.value)
    ensures r.Err? ==> r.error == KeyError(column)
  {
    if row == [] then Err(KeyError(column))
    else if row[0].column == column then Ok(row[0].text)
    else
      var r := Get(row[1..], column);
      assert forall i :: 1 <= i < |row| ==> row[i] == row[1..][i - 1];
      r
  }

  /** A label read at the first cell that carries it. */
  lemma {:induction false} GetAt(row: Row, i: nat, column: nat)
    requires i < |row| && row[i].column == column
    requires forall j :: 0 <= j < i ==> row[j].column != column
    ensures Get(row, column) == Ok(row[i].text)
    decreases i
  {
    if i > 0 {
      GetAt(row[1..], i - 1, column);
    }
  }

  /** `drop(columns, axis=1)`: the cells whose label is not dropped, in order. */
  function DropColumns(row: Row, columns: set<nat>): (r: Row)
    ensures |r| <= |row|
  {
    KeptFrom(row, columns, 0)
  }

  /** The cells from position `i` on whose label is not dropped. */
  function KeptFrom(row: Row, columns: set<nat>, i: nat): (r: Row)
    requires i <= |row|
    ensures |r| <= |row| - i
    decreases |row| - i
  {
    if i == |row| then []
    else (if row[i].column in columns then [] else [row[i]]) + KeptFrom(row, columns, i + 1)
  }

  /** Dropping keeps exactly the cells whose label is not dropped. */
  lemma {:induction false} KeptFromKeeps(row: Row, columns: set<nat>, i: nat, c: Cell)
    requires i <= |row|
    ensures c in KeptFrom(row, columns, i) <==> c in row[i..] && c.column !in columns
    decreases |row| - i
  {
    if i < |row| {
      KeptFromKeeps(row, columns, i + 1, c);
      assert row[i..] == [row[i]] + row[i + 1..];
    }
  }

  /** The texts of a row, in order. */
  function Texts(row: Row): (ts: seq<string>)
    ensures |ts| == |row| && forall i :: 0 <= i < |row| ==> ts[i] == row[i].text
  {
    seq(|row|, i requires 0 <= i < |row| => row[i].text)
  }

  /** What an alternation `(A)|(B)` leaves in its two inner groups: the numeral in `A`'s group
      when it holds a '.', so that `A` matched, and in `B`'s group otherwise. */
  function WithDot(numeral: string): string {
    if '.' in numeral then numeral else ""
  }

  function WithoutDot(numeral: string): string {
    if '.' in numeral then "" else numeral
  }

  /** The thirteen groups of a circle match, numbered as `findall` returns them. */
  function CircleGroups(prefix: string, c: CircleShape): (g: seq<string>)
    ensures |g| == 13
  {
    var v := c.centre;
    [prefix, CirclePhrase, c.radius, c.unit, CentrePhrase,
     v.lat, WithDot(v.lat), WithoutDot(v.lat), [v.latHemisphere] + " ",
     v.lon, WithDot(v.lon), WithoutDot(v.lon), [v.lonHemisphere]]
  }

  /** The circle columns removed as duplicates of groups 5 and 9. */
  const DuplicateColumns: set<nat> := {6, 7, 10, 11}

  /** A circle row after the duplicate columns are dropped. */
  function CircleRow(prefix: string, c: CircleShape): Row {
    DropColumns(TupleRow(CircleGroups(prefix, c)), DuplicateColumns)
  }

  /** Dropping leaves nine cells, labelled 0-5, 8, 9 and 12. */
  lemma CircleRowLayout(prefix: string, c: CircleShape)
    ensures var v := c.centre;
      CircleRow(prefix, c) ==
        [Cell(0, prefix), Cell(1, CirclePhrase), Cell(2, c.radius), Cell(3, c.unit), Cell(4, CentrePhrase),
         Cell(5, v.lat), Cell(8, [v.latHemisphere] + " "), Cell(9, v.lon), Cell(12, [v.lonHemisphere])]
  {
    DropDuplicates(CircleGroups(prefix, c));
  }

  lemma DropDuplicates(g: seq<string>)
    requires |g| == 13
    ensures DropColumns(TupleRow(g), DuplicateColumns) ==
      [Cell(0, g[0]), Cell(1, g[1]), Cell(2, g[2]), Cell(3, g[3]), Cell(4, g[4]),
       Cell(5, g[5]), Cell(8, g[8]), Cell(9, g[9]), Cell(12, g[12])]
  {
    var row := TupleRow(g);
    DropDuplicatesTail(row);
    DropDuplicatesHead(row);
  }

  /** The first five cells of a thirteen-cell row are all kept. */
  lemma DropDuplicatesHead(row: Row)
    requires |row| == 13 && forall i :: 0 <= i < 13 ==> row[i].column == i
    ensures KeptFrom(row, DuplicateColumns, 0) == [row[0], row[1], row[2], row[3], row[4]] + KeptFrom(row, DuplicateColumns, 5)
  {
    var d := DuplicateColumns;
    var tail := KeptFrom(row, d, 5);
    assert KeptFrom(row, d, 4) == [row[4]] + tail;
    assert KeptFrom(row, d, 3) == [row[3]] + ([row[4]] + tail);
    assert KeptFrom(row, d, 2) == [row[2]] + ([row[3]] + ([row[4]] + tail));
    assert KeptFrom(row, d, 1) == [row[1]] + ([row[2]] + ([row[3]] + ([row[4]] + tail)));
    assert KeptFrom(row, d, 0) == [row[0]] + ([row[1]] + ([row[2]] + ([row[3]] + ([row[4]] + tail))));
  }

  /** The last eight cells of a thirteen-cell row lose the four duplicates. */
  lemma DropDuplicatesTail(row: Row)
    requires |row| == 13 && forall i :: 0 <= i < 13 ==> row[i].column == i
    ensures KeptFrom(row, DuplicateColumns, 5) == [row[5], row[8], row[9], row[12]]
  {
    var d := DuplicateColumns;
    assert KeptFrom(row, d, 13) == [];
    assert KeptFrom(row, d, 12) == [row[12]];
    assert KeptFrom(row, d, 11) == [row[12]];
    assert KeptFrom(row, d, 10) == [row[12]];
    assert KeptFrom(row, d, 9) == [row[9], row[12]];
    assert KeptFrom(row, d, 8) == [row[8], row[9], row[12]];
    assert KeptFrom(row, d, 7) == [row[8], row[9], row[12]];
    assert KeptFrom(row, d, 6) == [row[8], row[9], row[12]];
  }

  /** The eleven groups of a polygon match: the prefix, the whole shape, and for groups 2-10 the
      captures of the last corner (empty when the star repeated zero times). CPython keeps each
      group's last successful capture, so a group inside an alternation may instead hold an
      earlier corner's text; only groups 0 and 1 are ever read, and those are exact. */
  function PolygonGroups(prefix: string, vs: seq<Position>): (g: seq<string>)
    ensures |g| == 11
  {
    if vs == [] then [prefix, ShapeText(Polygon(vs)), "", "", "", "", "", "", "", "", ""]
    else
      var v := vs[|vs| - 1];
      [prefix, ShapeText(Polygon(vs)), CornerThen(v, ""),
       " " + v.lat, WithDot(" " + v.lat), WithoutDot(" " + v.lat), [v.latHemisphere],
       " " + v.lon, WithDot(" " + v.lon), WithoutDot(" " + v.lon), [v.lonHemisphere]]
  }

  /** `polygons.iloc[:, 0:2]`: the first two columns by position. */
  function PolygonRow(prefix: string, vs: seq<Position>): (row: Row)
    ensures row == [Cell(0, prefix), Cell(1, ShapeText(Polygon(vs)))]
  {
    TupleRow(PolygonGroups(prefix, vs))[..2]
  }
}
