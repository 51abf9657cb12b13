# Election dashboard core, modelled in Dafny

The `wybory` repository is a Streamlit dashboard of Polish parliamentary
election results. It shows, per electoral district (okręg), the winning
committee, one committee's vote share, or the turnout (frekwencja), as
colours on a district map. Under the UI sit a few pure rules, and this
project models them:

- **Range-bucket colour lookup** (`get_color_for_single_ambit`,
  `get_color_for_attendance`). It uses the two ordered tables
  `party_results_colors` and `attendance_colors`. A missing (NaN) or zero
  value is white. Otherwise the colour is that of the first range with
  `min < v <= max`. A value no range holds is white too. The legend label
  of each range is `"<int(min)>% - <int(max)>%"`.
- **District winners** (`get_ambit_winners`). Committee columns are those
  whose upper-cased name contains `KOMITET WYBORCZY`. For each row the
  winner is the row maximum over those columns, with NaN skipped. The
  winning column is the leftmost one that attains it. Entries are keyed by
  district number `row index + 1`.
- **Display names** (`get_party_display_name`). This is group 1 of
  `re.search('(.*)\s+- ZPOW.*', name)` when the name contains `ZPOW`.
  `load_data` applies it to every committee column of a sheet.
- **Party colours** (`get_color_for_party`). This is an ordered,
  case-insensitive substring table that yields an optional colour.

Files and modules:

| file | module | contents |
|---|---|---|
| wrappers.dfy | `Wrappers` | `Option`, `Result` |
| cells.dfy | `Cells` | a sheet cell, a number or NaN |
| text.dfy | `Text` | substring test, Python-like `upper()`, the `\s` class, first index of a character |
| decimal.dfy | `Decimal` | `str(int)` and its parser |
| colorscale.dfy | `ColorScale` | ranges, lookup, the two tables, legend labels |
| partynames.dfy | `PartyNames` | committee test, the `ZPOW` regex, header rename |
| partycolor.dfy | `PartyColor` | the party colour table |
| results.dfy | `Results` | results sheet, `max`/`idxmax` per row, district winners |

Modelling choices:

- A cell is `Option<real>`, and `None` stands for NaN. Real arithmetic
  replaces IEEE doubles.
- A colour table is a `seq<ColorRange>` in the dict's insertion order.
- A results sheet is a header `seq<string>` plus rows of cells. Rows are
  required to have one cell per column, as a data frame does.
- `upper()` is modelled on ASCII letters and the nine Polish diacritic
  letters. Every other character is kept.
- The regex is modelled with Python's semantics. `\s` is every character
  for which `str.isspace()` holds. `.` matches anything but `\n`.
  `re.search` takes the leftmost start, and greedy `(.*)` takes the
  longest group. `SearchResult` states this declaratively, and
  `DisplayName` is proved to compute it.
- `get_ambit_winners` gives an all-NaN row a distinguished `NoWinner`
  entry.
- A sheet with rows but no committee column makes `idxmax(axis=1)` reduce
  along a zero-length axis, which raises. `AmbitWinners` returns
  `Failure(NoCommitteeColumns)` for it.

Behaviour of the Python code that the model keeps:

- A sheet without rows gets an empty map, whether or not it has committee
  columns: `max` and `idxmax` return empty Series, and
  `get_ambit_winners` raises nothing for it.
- The greedy `(.*)` cuts before the LAST separator. For example,
  `"A - ZPOW x - ZPOW y"` gives `"A - ZPOW x"`.
- A name can contain `ZPOW` with no separator before it. Then `re.search`
  returns `None`, and indexing it raises. `DisplayName` returns
  `Failure(NoMatch(name))`. `RenameColumns` passes on the first such
  failure, as the list comprehension in `load_data` does.

## Model

| member | source | states |
|---|---|---|
| ColorScale.FirstMatch | wybory.py:113-115 | the index returned is the first range, in table order, with `min < v <= max`; `None` means no range holds `v` |
| ColorScale.BucketColor | wybory.py:109-116 | white for NaN or 0.0 whatever the table; otherwise the colour of the first matching range; white when nothing matches |
| ColorScale.FirstMatchUnique | wybory.py:113-115 | the first matching range is unique, so the scan's result is determined |
| ColorScale.ContiguousDisjoint | wybory.py:73-106 | in a contiguous table at most one range holds any value |
| ColorScale.ContiguousCovers | wybory.py:73-106 | a contiguous table has a matching range for every value in `(first min, last max]` |
| ColorScale.ContiguousOutside | wybory.py:116 | a value at or below the first `min`, or above the last `max`, matches no range and so falls back to white |
| ColorScale.BucketColorNotWhiteIff | wybory.py:109-116 | for a contiguous table without white entries, the colour is non-white exactly when the value is present, non-zero and inside the table's span (both directions) |
| ColorScale.UpperBoundInclusive | wybory.py:114 | a range's `max` gets that range's colour |
| ColorScale.LowerBoundExclusive | wybory.py:114 | a range's `min` gets the previous range's colour, and the first range's `min` gets white |
| ColorScale.JustAboveLowerBound | wybory.py:114 | any value within a range above its `min` gets that range's colour |
| ColorScale.PartyResultsColorsWellFormed | wybory.py:73-106 | the vote-share table is contiguous, spans `(0, 100]` and uses no white |
| ColorScale.AttendanceColorsWellFormed | wybory.py:164-185 | the turnout table is contiguous, spans `(0, 100]` and uses no white |
| ColorScale.TablesDistinctColors | wybory.py:73-106 | no colour appears twice in either table |
| ColorScale.ColorForSingleAmbit | wybory.py:109-116 | a vote share gets a non-white colour exactly when it is present and in `(0, 100]`; the colour always comes from `party_results_colors` or is white |
| ColorScale.ColorForAttendance | wybory.py:188-196 | a turnout gets a non-white colour exactly when it is present and in `(0, 100]`; the colour always comes from `attendance_colors` or is white |
| ColorScale.BoundaryExamples | wybory.py:109-116 | 5.0 gives `#DAF7A6`, 5.01 gives `#DAFF76`, NaN, 0, -1 and 100.5 give white |
| ColorScale.AttendanceBoundaryExamples | wybory.py:188-196 | turnout 50.0 gives `#87CEEB` and 50.5 gives `#4682B4` |
| ColorScale.Trunc | wybory.py:122 | `int()` on a float truncates toward zero: the result lies between zero and the value, less than 1 away from it |
| ColorScale.RangeLabelRoundTrip | wybory.py:122 | a range's legend label reads back as its bounds truncated to integers |
| ColorScale.ParseLabelExact | wybory.py:122 | only one text parses as the label of a pair of bounds: `"<a>% - <b>%"` with both numbers written canonically |
| ColorScale.Legend | wybory.py:119-125 | one legend entry per range, in table order, with the range's colour and a label that reads back as its truncated bounds |
| ColorScale.LegendText | wybory.py:122 | the legend's contract fixes each label's text as the f-string `f"{int(min)}% - {int(max)}%"` of its range |
| ColorScale.LegendFirstLabel | wybory.py:119-125 | the first entry of the vote-share legend reads `0% - 5%` |
| ColorScale.LegendExamples | wybory.py:207 | the first vote-share label is `0% - 5%` and the last turnout label is `80% - 100%` |
| Decimal.NatToStringRoundTrip | wybory.py:122 | the decimal digits written for a natural number read back as that number |
| Decimal.IntToString | wybory.py:122 | `str()` of an integer is a minus sign for negatives followed by decimal digits, with no leading zero |
| Decimal.CanonicalDigitsRoundTrip | wybory.py:122 | digits without a leading zero are exactly the digits written for their value |
| Decimal.ParseIntCanonical | wybory.py:122 | a text parses to an integer only if it is the text `str()` writes for that integer |
| Decimal.IntToStringRoundTrip | wybory.py:122 | the text written for an integer, sign included, parses back to that integer |
| Text.Upper | wybory.py:236 | `str.upper()` keeps the length; the result holds no lower-case letter; every lower-case letter is changed, and every other character is kept |
| Text.UpperIdempotent | wybory.py:236 | upper-casing an upper-cased string changes nothing |
| PartyColor.ColorForParty | wybory.py:235-241 | `#1248D4` exactly when the upper-cased name contains `PRAWO I SPRAWIEDLIWOŚĆ`; `#D41248` exactly when it does not but contains `KOALICJA OBYWATELSKA` or `PLATFORMA OBYWATELSKA`; no colour exactly when it contains none |
| PartyColor.ColorForPartyIgnoresCase | wybory.py:235-241 | the colour of a name and of its upper-cased form are the same |
| PartyColor.ColorForPartyLawAndJustice | wybory.py:236-237 | a mixed-case Law and Justice committee name, with Polish letters, gets `#1248D4` |
| PartyColor.ColorForPartyCivicCoalition | wybory.py:238-239 | a mixed-case Civic Coalition committee name gets `#D41248` |
| PartyColor.ColorForPartyUnknown | wybory.py:235-241 | a name matching no fragment has no colour |
| PartyNames.IsCommitteeColumn | wybory.py:21 | a committee column's name is at least as long as `KOMITET WYBORCZY`, which its upper-cased form contains |
| PartyNames.CommitteeColumnIgnoresCase | wybory.py:251 | a name and its upper-cased form are committee columns alike |
| PartyNames.SeparatorAtMeaning | wybory.py:246 | the computed separator test holds exactly when `\s+- ZPOW` matches at that position |
| PartyNames.Search | wybory.py:246 | scanning start positions in order finds the leftmost start that matches, and for it the longest group; `None` means no start matches |
| PartyNames.DisplayName | wybory.py:244-247 | a name without `ZPOW` is returned unchanged; with `ZPOW` the result is the regex group of the leftmost, greedy match, strictly shorter than the name; it fails exactly when the pattern matches nowhere |
| PartyNames.SingleLineDisplayName | wybory.py:246 | on a single-line name with `ZPOW`, the result exists exactly when some whitespace is followed by `- ZPOW`, and it is the prefix before the last such whitespace |
| PartyNames.SingleLineCut | wybory.py:246 | on a single-line marked name, the display name is the prefix up to the last separator |
| PartyNames.DisplayNameCutsSuffix | wybory.py:244-247 | `Komitet X - ZPOW w Warszawie` becomes `Komitet X` |
| PartyNames.DisplayNameKeepsUnmarked | wybory.py:247 | `Komitet Y` is kept unchanged |
| PartyNames.DisplayNameFailsWithoutSeparator | wybory.py:246 | `KOMITET ZPOW` contains the marker but no separator, and fails |
| PartyNames.MapOrFail | wybory.py:21 | a comprehension whose element function may raise: it succeeds exactly when every element does, yielding the results in order; otherwise it fails with the error of the first failing element |
| PartyNames.RenameColumns | wybory.py:21 | the rename succeeds exactly when every committee column's display name does; it then keeps length and order, renames committee columns and keeps the rest; on failure it reports the first failing column's error |
| Results.LoadSheet | wybory.py:19-22 | loading succeeds exactly when every committee column's display name does; it then gives each committee column its display name, keeps the other column names and the cells, and keeps a well-formed sheet well-formed; on failure it reports the first failing column's error |
| Results.CommitteeColumns | wybory.py:251 | exactly the indices of the committee columns, in increasing column order |
| Results.FirstMax | wybory.py:253-254 | the index of the largest present value, the leftmost one on ties; `None` exactly when every value is missing |
| Results.FirstMaxUnique | wybory.py:254 | there is only one leftmost maximum |
| Results.RowWinner | wybory.py:251-254 | a row's entry is the committee column holding the largest present value, the leftmost on ties, with that value; `NoWinner` exactly when every committee cell is missing |
| Results.NoCommitteeValue | wybory.py:253-254 | when no committee value is present, every committee cell of the row is missing |
| Results.FirstMaxWins | wybory.py:253-254 | the first maximum among the committee cells is a winning column of the whole row |
| Results.IncreasingIndex | wybory.py:251 | committee columns keep header order, so a column to the left has a smaller committee index |
| Results.WinningColumnUnique | wybory.py:254 | only one column can win a row |
| Results.DistrictWinnerUnique | wybory.py:251-254 | the winner specification admits exactly one entry per row |
| Results.Districts | wybory.py:257 | the key set holds exactly the numbers `1..n`, and it has `n` elements |
| Results.KeyByDistrict | wybory.py:256-260 | the keys are exactly `1..n`, and key `k` holds element `k - 1` |
| Results.RowWinners | wybory.py:253-254 | one entry per row, each that row's winner |
| Results.CommitteeColumnsEmpty | wybory.py:251 | the committee column list is empty exactly when no column is a committee column |
| Results.DistrictWinners | wybory.py:256-260 | exactly one entry per row, keyed `row index + 1` for keys `1..n`; each entry is that row's winner |
| Results.AmbitWinners | wybory.py:250-261 | fails exactly when the sheet has rows and the committee column list is empty (by `CommitteeColumnsEmpty`, when no column is a committee column), as `idxmax` on an empty selection raises; otherwise one entry per row, keyed `row index + 1` for keys `1..n`, each entry that row's winner |
| Results.SampleColumns | wybory.py:251 | `KOMITET WYBORCZY A` and `Komitet Wyborczy B` are committee columns, and `Frekwencja` is not |
| Results.SampleDistricts | wybory.py:256-260 | a three-row sheet gets exactly the keys 1, 2 and 3 |
| Results.SampleOutrightWinner | wybory.py:253-254 | in a row of 30 and 70 the second committee wins with 70, and the larger non-committee cell is ignored |
| Results.SampleNoWinner | wybory.py:253-254 | a row with no committee value has no winner, whatever its other cells hold |
| Results.SampleTie | wybory.py:254 | a 50/50 tie goes to the leftmost committee column |
| Results.SampleNoCommittees | wybory.py:251-254 | a sheet with rows holding only `Frekwencja` has no committee column, and the winner lookup fails |
| Results.SampleEmptySheet | wybory.py:250-261 | a sheet without rows gets the empty dict, whatever its columns |

## Left out

- Streamlit widgets, layout, session state and `render_svg`. They are UI with no rule to state.
- Reading the spreadsheet with pandas. The model starts from a parsed sheet and keeps only the header rename of `load_data`.
- lxml parsing and editing of the district map, and the XPath query. These belong to a foreign library. Their input, the colour per district, is what the lookups above compute.
- The HTML around legend entries: the span markup, the square glyph and the `|` joining with the last character dropped. Only the label text and the entry order are modelled.
- `print_legend_for_winners` and `print_legend_for_all_parties`. They only arrange already modelled values into widgets.
- Plotly charts and `show_general_results`. These belong to a charting library.
- IEEE floating point. Values are reals, so rounding of literals such as 5.01 is not modelled.
- Text.UpperChar: upper-cases only ASCII letters and the Polish letters. Python's full Unicode `upper()`, including length-changing cases such as `ß` to `SS`, is not modelled, because Polish committee names need only these letters.
- Results.AmbitWinners: an all-NaN row in a sheet that has committee columns gives `NoWinner`. Neither pandas' NaN label nor the exception that some pandas versions raise for such a row is modelled, because that behaviour depends on the pandas version.
- Results.AmbitWinners: the exception raised on a sheet with rows but without committee columns is one error value, `NoCommitteeColumns`. Its Python type is not modelled, because numpy's `ValueError` or pandas' `TypeError` comes first depending on the cells' dtype.
- Results.AmbitWinners: pandas' handling of duplicate column labels is not modelled. Columns are addressed by position.
- Non-string column labels, on which `col.upper()` would raise, are not modelled. Headers are strings.
