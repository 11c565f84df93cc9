# NOTAM Mapper: the Item E geometry parser

This project models how NOTAM Mapper turns the pasted text of a NOTAM (notice to airmen) into map
geometry, and proves properties of that model. It covers two programs: the web app
(`streamlit_app.py`) and the command-line tool (`NOTAM_mapper.py`). Both read circles ("AREA
CIRCLE WITH RADIUS r u CENTERED ON lat N|S lon W|E") and polygons ("AREA BOUNDED BY LINES
JOINING:" then corners) from the text after an item marker " E)". The model covers everything up
to the map:

- **Normalisation** (`Normalize`). The two chained `str.replace` calls. The web app turns each
  line break into a space; the tool deletes it. Both then make one left-to-right pass that
  replaces "  " by " ".
- **The two patterns** (`Grammar`, `Scanner`). The pattern after the lazy prefix is a
  deterministic parser, proved sound and complete against the text a shape spells out.
  `re.findall` is modelled as a leftmost scan that does not overlap matches. The lazy `(.*?)`
  stops at the first end where the shape matches, without crossing a line break.
- **Rows** (`Rows`). Each match becomes a frame row whose cells keep their group labels, so
  `drop(columns=[6, 7, 10, 11])` and `iloc[:, 0:2]` change what `row[k]` reads exactly as
  pandas does.
- **Decoding** (`Decimal`, `Coordinates`, `Radius`, `Pairing`, `Records`).
  - `float()` on the strings that reach it.
  - The fixed-width degrees/minutes/seconds slices, with Python's clamping slice semantics.
  - The NM/KM/M radius conversion.
  - The polygon loop that reads tokens two at a time, as an imperative `method` proved equal
    to a recursive specification.
  - The event names built with `re.sub("(.*?)E\)", "", …)`.
  - Every place the source can raise (`float()`, a missing token, a missing column) is an `Err`
    carrying that exception, in the order the source evaluates them.
- **The pipelines** (`Pipeline`). `DataFrame.apply` on every row, where the first exception
  wins. The web app's "No events found" outcome. The command-line tool, which does not check
  either search for emptiness.

Behaviour of the code worth knowing, all of it proved about the model:

- The comment "Remove multiple spaces" (streamlit_app.py:20, NOTAM_mapper.py:11) suggests a full
  collapse. The single `replace("  ", " ")` pass turns three spaces into two
  (`Normalize.ThreeSpacesLeaveTwo`).
- Up to the map (streamlit_app.py:17-101, NOTAM_mapper.py:10-92) neither program catches an
  exception. On what the patterns match, the only exception decoding can raise there is a
  `ValueError` from `float()`, for example on the empty seconds slice of a short
  numeral (`Pipeline.AppCrashesWithValueError`). The polygon loop's `IndexError` on an odd token
  count (`Pairing.OddTokens`) cannot happen on matched text, since every corner yields two tokens
  (`Records.PolygonFailsWithValueError`).
- The command-line tool raises `IndexError` on a text without a circle. It also raises pandas'
  length-mismatch `ValueError` on a text with circles but no polygon (`Pipeline.CliDecodes`,
  `Pipeline.CliFailures`).
- The hemisphere letter is captured but never read for the value, so S latitudes and W
  longitudes come out positive (`Coordinates.DecodeExample`).

Values are exact `real`s: `float()` of a numeral is its exact decimal value.

## Model

| member | source | states |
|---|---|---|
| Normalize.ReplaceNewlines | streamlit_app.py:19 | replacing line breaks by a separator without one leaves no line break, never lengthens the text for a separator of at most one character, and leaves single-line text unchanged |
| Normalize.ReplaceNewlinesAppend | NOTAM_mapper.py:10 | replacing line breaks distributes over concatenation |
| Normalize.CollapseDoubleSpaces | streamlit_app.py:20 | the double-space pass never lengthens the text and introduces no line break |
| Normalize.CollapseKeepsNonSpaces | streamlit_app.py:20 | the pass deletes only spaces: every other character survives, in order |
| Normalize.CollapseFixpoint | streamlit_app.py:20 | the pass changes a text exactly when it contains two adjacent spaces |
| Normalize.CollapseRun | streamlit_app.py:20 | a run of n spaces followed by a non-space (or the end) becomes ceil(n/2) spaces |
| Normalize.CollapseAfterNonSpace | streamlit_app.py:20 | after a part that does not end in a space, the pass treats the rest independently |
| Normalize.ThreeSpacesLeaveTwo | streamlit_app.py:20 | three spaces between non-spaces leave two: one pass does not collapse every run |
| Normalize.AppNormalize | streamlit_app.py:19-20 | the app's normalised text holds no line break and is no longer than the input |
| Normalize.CliNormalize | NOTAM_mapper.py:10-11 | the tool's normalised text holds no line break and is no longer than the input |
| Normalize.LineBreakIsSpace | streamlit_app.py:19 | in the app, a line break normalises exactly like a space |
| Normalize.LineBreakIsDeleted | NOTAM_mapper.py:10 | in the tool, a line break normalises as if it were absent, gluing the words around it |
| Normalize.NormalizersAgreeOnOneLine | NOTAM_mapper.py:10-11 | on single-line text both normalisers equal the one double-space pass |
| Text.SliceBound | streamlit_app.py:77 | a Python slice bound counts negatives from the end and is clamped to the length, to 0 below minus the length |
| Text.PySlice | streamlit_app.py:41-43 | a slice never raises: within range it is the ordinary subsequence, starting at or past the end it is empty |
| Text.SliceToLast | streamlit_app.py:77 | `s[lo:-1]` is everything from `lo` to just before the last element, and empty when `lo` reaches the last element |
| Text.Join | streamlit_app.py:61 | `sep.join(parts)`; one part joins to itself; contract in JoinSnoc, WordsOfJoin |
| Text.JoinSnoc | streamlit_app.py:61 | joining one more part appends the separator and the part |
| Text.Words | streamlit_app.py:68 | `split()` yields non-empty words free of whitespace |
| Text.WordsOfJoin | streamlit_app.py:68 | `split()` undoes `" ".join` on non-empty, whitespace-free words |
| Decimal.ParseFloat | streamlit_app.py:41-43 | `float()` accepts exactly the strings of digits with at most one point and at least one digit, yields a non-negative value, and otherwise raises ValueError carrying the string |
| Decimal.ParseFloatDigits | streamlit_app.py:41-42 | a plain numeral reads as its digits' value |
| Decimal.ParseFloatFraction | streamlit_app.py:43 | a numeral with a point reads as the whole part plus the fraction digits over 10 to their count |
| Decimal.ParseFloatRefusals | streamlit_app.py:43 | the empty slice and a lone point are refused |
| Coordinates.Sexagesimal | streamlit_app.py:41-44 | the three fields read exactly when each is a numeral `float()` accepts, the sum is non-negative, and a failure raises on the first refused field in source order |
| Coordinates.Latitude | streamlit_app.py:41-44 | slices `[0:2]`, `[2:4]`, `[4:]`; a read latitude is non-negative and every failure is a ValueError; contract in LatitudeFields, LatitudeDecodes |
| Coordinates.Longitude | streamlit_app.py:47-50 | slices `[0:3]`, `[3:5]`, `[5:len]`; a read longitude is non-negative and every failure is a ValueError; contract in LongitudeFields, LongitudeDecodes |
| Coordinates.PolygonLatitude | streamlit_app.py:75-78 | slices `[0:2]`, `[2:4]`, `[4:-1]` of a token with its letter; non-negative, failures are ValueErrors; contract in PolygonLatitudeDropsLetter, PolygonLatitudeDecodes |
| Coordinates.PolygonLongitude | streamlit_app.py:81-84 | slices `[0:3]`, `[3:5]`, `[5:-1]` of a token with its letter; non-negative, failures are ValueErrors; contract in PolygonLongitudeDropsLetter, PolygonLongitudeDecodes |
| Coordinates.NumeralSlice | streamlit_app.py:41-43 | a slice of a coordinate numeral that is two wide or reaches the end is either empty, exactly when it starts past the end, or accepted by `float()` |
| Coordinates.LatitudeDecodes | streamlit_app.py:41-44 | a circle latitude numeral decodes exactly when it has at least five characters, and otherwise raises ValueError('') |
| Coordinates.LongitudeDecodes | streamlit_app.py:47-50 | a circle longitude numeral decodes exactly when it has at least six characters, and otherwise raises ValueError('') |
| Coordinates.LatitudeFields | streamlit_app.py:41-44 | two degree digits, two minute digits and a seconds numeral read as degrees + minutes/60 + seconds/3600 |
| Coordinates.LongitudeFields | streamlit_app.py:47-50 | three degree digits, two minute digits and a seconds numeral read as degrees + minutes/60 + seconds/3600 |
| Coordinates.PolygonLatitudeDropsLetter | streamlit_app.py:75-78 | once the numeral has four characters, the `[4:-1]` slice cuts off the hemisphere letter and a polygon latitude reads like a circle latitude |
| Coordinates.PolygonLongitudeDropsLetter | streamlit_app.py:81-84 | once the numeral has five characters, the `[5:-1]` slice cuts off the hemisphere letter and a polygon longitude reads like a circle longitude |
| Coordinates.PolygonLatitudeDecodes | streamlit_app.py:75-78 | a polygon latitude token decodes exactly when its numeral has at least five characters, whichever letter follows |
| Coordinates.PolygonLongitudeDecodes | streamlit_app.py:81-84 | a polygon longitude token decodes exactly when its numeral has at least six characters, whichever letter follows |
| Coordinates.SixDigitLatitude | streamlit_app.py:41-44 | a six-digit latitude reads digit pair by digit pair as degrees, minutes and seconds |
| Coordinates.SevenDigitLongitude | streamlit_app.py:47-50 | a seven-digit longitude reads as three degree digits, then minutes and seconds |
| Coordinates.DecodeExample | streamlit_app.py:41-50 | 401200 reads as 40.2 and 0734500 as 73.75, with no sign from W |
| Radius.ToMetres | streamlit_app.py:53-58 | converting a non-negative radius never shrinks it, and NM and KM strictly enlarge a positive one |
| Radius.ConversionRoundTrip | streamlit_app.py:53-58 | the conversion to metres has an inverse in each unit, both ways |
| Radius.ConversionMonotone | streamlit_app.py:53-58 | the conversion keeps the order of radii |
| Radius.ConversionExamples | streamlit_app.py:53-58 | 5 NM are 9260.005 m, 1 KM is 1000 m, 1 M is 1 m |
| Radius.CircleRadius | streamlit_app.py:53-58 | the radius converts exactly when `float()` accepts it, is then at least its numeral's value, and otherwise raises ValueError carrying it |
| Radius.RadiusDecodes | streamlit_app.py:53-58 | a radius the pattern admits converts exactly when it holds a digit |
| Grammar.BoundaryPhraseLength | streamlit_app.py:68 | the polygon phrase is exactly 30 characters, so `[30:]` removes exactly it |
| Grammar.ParsePosition | streamlit_app.py:24 | a parsed position is well formed and spells out the text it was read from |
| Grammar.ParsePositionOf | streamlit_app.py:24 | every well-formed position is read back from its text |
| Grammar.ParseCircle | streamlit_app.py:24 | a parsed circle is well formed and spells out the text it was read from |
| Grammar.ParseCircleOf | streamlit_app.py:24 | every well-formed circle is read back from its text |
| Grammar.ParseCorners | streamlit_app.py:27 | the starred corner group reads well-formed corners that spell out the text, and stops only where no further corner follows (greedy) |
| Grammar.ParseCornersOf | streamlit_app.py:27 | every run of well-formed corners not followed by another corner is read back in full |
| Grammar.ParseShape | streamlit_app.py:23-28 | a parsed shape is well formed for its pattern and spells out the text; the polygon pattern matches exactly where the phrase starts, since its star may repeat zero times |
| Grammar.ParseShapeOf | streamlit_app.py:23-28 | every well-formed shape of a pattern is read back from its text |
| Scanner.LazyBody | streamlit_app.py:24 | the lazy prefix ends at the least position where the shape matches and crosses no line break, and there is none when no position works |
| Scanner.MatchAt | streamlit_app.py:31-32 | a match at a position starts with " E)", is well formed, spans exactly its own text and has the shortest line-break-free prefix after which the shape matches; there is none exactly when the marker is absent or no prefix works |
| Scanner.MatchAtOf | streamlit_app.py:23-28 | a match is found at the start of its own text whenever no shorter prefix lets a shape match |
| Scanner.PolygonMatchAt | streamlit_app.py:27 | a polygon match starts exactly where " E)" is followed, on the same line, by the boundary phrase |
| Scanner.FindAll | streamlit_app.py:31-32 | the search from a position; occurrences lie within the text after that position; contract in FindAllFound, FindAllGaps |
| Scanner.FindAllFound | streamlit_app.py:31-32 | every occurrence `findall` reports is the match found where it starts |
| Scanner.FindAllGaps | streamlit_app.py:31-32 | the occurrences do not overlap and run left to right, and no match starts before, between or after them |
| Scanner.Matches | streamlit_app.py:31-32 | the capture list is the occurrences' matches in order, each well formed |
| Scanner.NoMatches | streamlit_app.py:31-34 | the search comes back empty exactly when no position starts a match |
| Scanner.NoMarkerNoMatches | streamlit_app.py:23-28 | a text without " E)" has no match |
| Rows.TupleRow | streamlit_app.py:31 | a capture tuple becomes a row holding group i under label i |
| Rows.Get | streamlit_app.py:41-61 | `row[k]` succeeds exactly when some cell carries label k, reads such a cell, and otherwise raises KeyError(k) |
| Rows.GetAt | streamlit_app.py:41-61 | `row[k]` reads the first cell carrying label k |
| Rows.DropColumns | streamlit_app.py:93 | `drop(columns, axis=1)` never lengthens a row; contract in KeptFromKeeps, CircleRowLayout |
| Rows.KeptFromKeeps | streamlit_app.py:93 | dropping columns keeps exactly the cells whose label is not dropped (which cells only; that they stay in order is pinned for the circle rows by CircleRowLayout) |
| Rows.CircleRowLayout | streamlit_app.py:93 | a circle row keeps nine cells, labelled 0-5, 8, 9 and 12, holding the prefix, the phrases, radius, unit, the two numerals and their letters |
| Rows.PolygonRow | streamlit_app.py:99 | a polygon row keeps the prefix and the whole shape text |
| Pairing.Vertex | streamlit_app.py:75-86 | one loop pass succeeds exactly when both tokens read, reads the latitude first and raises the first failure |
| Pairing.Pairs | streamlit_app.py:72-86 | the loop's specification; a successful pairing had an even token count and has one vertex per two tokens; contract in PairsSucceed, PairsInOrder, OddTokens, EvenPairsFailInDecoder |
| Pairing.PairsSucceed | streamlit_app.py:72-86 | pairing succeeds exactly when the token count is even and every pair reads |
| Pairing.PairsInOrder | streamlit_app.py:72-86 | a successful pairing has one vertex per pair, vertex k from tokens 2k and 2k+1 |
| Pairing.OddTokens | streamlit_app.py:81 | an odd token count whose pairs and last latitude read fails with IndexError on the missing partner |
| Pairing.EvenPairsFailInDecoder | streamlit_app.py:72-86 | with an even token count the loop never indexes past the end: any exception it raises is a decoder's on one of the tokens |
| Pairing.PairUp | streamlit_app.py:72-86 | the loop's result is the pairing specification's, including its first error |
| Records.StripMarkers | streamlit_app.py:61 | `re.sub("(.*?)E\)", "", s)` never lengthens the text; contract in StripKeepsTail, StripNothing, StripExample |
| Records.FirstClose | streamlit_app.py:61 | the lazy group of `(.*?)E\)` ends at the first "E)" that no line break precedes |
| Records.StripNothing | streamlit_app.py:61 | a text without "E)" is left as it is |
| Records.StripKeepsTail | streamlit_app.py:61 | on one line, stripping keeps exactly a suffix with no "E)", and what it cuts off ends with "E)" |
| Records.StripExample | streamlit_app.py:61 | " LDS E) TEXT" becomes " TEXT" |
| Records.ProcessCircle | streamlit_app.py:38-63 | a decoded circle has non-negative latitude, longitude and radius |
| Records.CircleNameOf | streamlit_app.py:61 | the joined fields after the prefix are the circle's label, with two spaces after the latitude letter |
| Records.CircleCells | streamlit_app.py:41-61 | the cells `process_circles` reads hold the captures they are meant to |
| Records.CircleDecodes | streamlit_app.py:38-63 | a matched circle decodes exactly when its seconds slices are non-empty and its radius has a digit, then to its captures' values and name, and otherwise raises the first ValueError |
| Records.CornersSplit | streamlit_app.py:68 | corners' text splits into each corner's latitude and longitude tokens, letters attached |
| Records.BoundarySplits | streamlit_app.py:68 | `boundary[30:].split()` of a polygon match is its corner tokens |
| Records.CornerDecodes | streamlit_app.py:75-86 | a corner decodes exactly when its latitude has five and its longitude six characters, to the circle readings of its numerals |
| Records.CornerVertex | streamlit_app.py:72-86 | vertex k of a run of corners is read from corner k's two tokens |
| Records.CornersPair | streamlit_app.py:72-86 | corner tokens pair into one vertex per corner, in order, exactly when every corner reads |
| Records.CornersDecode | streamlit_app.py:72-86 | a run of corners decodes exactly when each corner is decodable, one vertex per corner in text order |
| Records.PolygonSpec | streamlit_app.py:65-90 | `process_polygons` on a row; a decoded polygon has one vertex per two coordinate tokens; contract in PolygonDecodes, PolygonFailsWithValueError |
| Records.PolygonFailsWithValueError | streamlit_app.py:65-90 | a matched polygon fails only with ValueError: its token count is even and both cells it reads are present |
| Records.ProcessPolygon | streamlit_app.py:65-90 | the procedure's result is the polygon specification's, including its first error |
| Records.PolygonDecodes | streamlit_app.py:65-90 | a matched polygon decodes exactly when every corner is decodable, then to its corners' values in order and its stripped prefix plus shape text |
| Pipeline.ApplyRows | streamlit_app.py:94 | `DataFrame.apply` on every row; a success has one result per row; contract in ApplyRowsInOrder |
| Pipeline.ApplyRowsInOrder | streamlit_app.py:94 | `apply` succeeds exactly when every row does, keeping row order, and otherwise raises the first failing row's exception |
| Pipeline.CircleRows | streamlit_app.py:92-93 | one circle row per circle match |
| Pipeline.PolygonRows | streamlit_app.py:98-99 | one polygon row per polygon match |
| Pipeline.CirclesDecode | streamlit_app.py:92-94 | the circle list decodes exactly when every circle match is decodable, one record per match in text order |
| Pipeline.PolygonsDecode | streamlit_app.py:98-100 | the polygon list decodes exactly when every polygon match is decodable, one record per match in text order |
| Pipeline.DecodeAll | streamlit_app.py:92-100 | decoding succeeds exactly when every match of either kind is decodable, and yields every match's decoding in order |
| Pipeline.Decode | streamlit_app.py:92-101 | both lists, circles first; a success has one record per match of each kind; contract in DecodeAll, DecodeFailsWithValueError |
| Pipeline.DecodeFailsWithValueError | streamlit_app.py:38-90 | decoding matched text can raise only a ValueError from `float()` |
| Pipeline.AppRun | streamlit_app.py:17-101 | the app's loop body; idle exactly on empty text, and a map always shows something; contract in AppNoEvents, AppMaps, AppCrashesWithValueError |
| Pipeline.AppCrashesWithValueError | streamlit_app.py:17-101 | up to the map (lines 17-101), the only exception the app can raise is a ValueError |
| Pipeline.CliRun | NOTAM_mapper.py:10-92 | the tool up to the map; a success holds at least one circle and one polygon; contract in CliDecodes, CliFailures |
| Pipeline.CliFailures | NOTAM_mapper.py:22-92 | up to the map (lines 10-92), the tool raises IndexError (no circle), the length mismatch (no polygon) or a ValueError from `float()`, and nothing else |
| Pipeline.NoEventsWhenNothingMatched | streamlit_app.py:34-36 | the app says "No events found" exactly when the text is not empty and both searches are empty |
| Pipeline.AppNoEvents | streamlit_app.py:17-36 | the app says "No events found" exactly when the text is not empty and no position of the normalised text starts a match |
| Pipeline.AppNoMarker | streamlit_app.py:23-36 | a non-empty text without " E)" yields "No events found" |
| Pipeline.AppMaps | streamlit_app.py:17-101 | the app reaches the map (line 101) with lists to draw exactly when something matched and every match decodes, and the lists hold all of them |
| Pipeline.CliDecodes | NOTAM_mapper.py:22-92 | the tool decodes exactly when both searches found something and every match decodes; without a circle it raises IndexError, and with circles but no polygon the length mismatch |
| Pipeline.OneLineAgreement | NOTAM_mapper.py:10-92 | on single-line text with both kinds of match, the tool yields the app's map or the app's exception; without a circle it raises IndexError |

## Left out

- The Streamlit page is not modelled: the title, the text area, the rerun loop and `quit()`. The
  loop body is modelled once, as `Pipeline.AppRun`.
- Reading standard input, `print` and saving the HTML map are I/O the model does not perform.
- `create_map` and folium are not modelled: the map, the median centre and the markers. The
  model stops at the circle and polygon lists.
- General regular expressions are not modelled. The scanner and the parsers are specific to the
  two patterns. `\d` is taken as ASCII `[0-9]`, not Python's Unicode digit class.
- Floating point is not modelled: values are exact reals. So 1852.001 and each quotient are exact
  rather than IEEE 754 doubles.
- `float()` accepts more than the model does: signs, exponents, underscores, whitespace, "inf"
  and "nan". The model decides strings of digits and points, possibly ending in a hemisphere
  letter, which is all the patterns let reach `float()`. Any other character makes it refuse.
- Pandas is not modelled beyond row order, column labels, the two column selections and the
  errors they raise. The frames' `columns` renaming is left out where it succeeds, and so is
  `result_type="expand"`.
- The hemisphere letter never gives a sign, because the code never reads it for the value.
- `create_map`'s exception handling is not modelled. It catches `ValueError` (and in the app
  `NameError`) from the circle median (streamlit_app.py:113, NOTAM_mapper.py:102). It then falls
  back to `polygon_list["Locations"][0][1]`, which raises `IndexError` when the first polygon
  has fewer than two corners. Every polygon's marker at `["Locations"][0]` raises `IndexError`
  for a polygon with no corner (streamlit_app.py:151, NOTAM_mapper.py:138), and the polygon
  pattern admits zero corners. So an outcome `Mapped` means that decoding finished, not that a
  map was drawn.
- Rows.PolygonGroups: only groups 0 and 1 are kept by `iloc[:, 0:2]`, so groups 2-10 are filled
  from the last corner. CPython keeps each group's last successful capture, so groups in the
  alternations may hold an earlier corner's text. This changes no result.
- Pipeline.AppRun: when only one kind of shape matched, the app leaves the other list
  undefined rather than empty. This matters only to `create_map`, so the model reports an empty list.
