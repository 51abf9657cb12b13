/**
 A district results sheet and `get_ambit_winners`: for each district row,
 the committee column with the largest value (missing values skipped, ties
 to the leftmost column), keyed by district number `row index + 1`.
 */
module Results {
  import opened Wrappers
  import opened Text
  import opened Cells
  import opened PartyNames

  /** A results sheet: a header row and one row of cells per district. */
  datatype Table = Table(columns: seq<string>, rows: seq<seq<Value>>)

  /** Every row has one cell per column, as in a data frame. */
  ghost predicate WellFormed(t: Table) {
    forall r :: r in t.rows ==> |r| == |t.columns|
  }

  /** A district's winner, or none when every committee cell of the row is missing. */
  datatype Winner = Winner(name: string, value: real) | NoWinner

  /**
   `load_data`'s header rename: committee columns get their display name;
   the cells are untouched.
   */
  function LoadSheet(raw: Table): (r: Result<Table, NameError>)
    ensures r.Success? <==> forall i :: 0 <= i < |raw.columns| ==> ColumnDisplayName(raw.columns[i]).Success?
    ensures r.Success? ==> r.value.rows == raw.rows && |r.value.columns| == |raw.columns|
    ensures r.Success? ==> forall i :: 0 <= i < |raw.columns| ==>
      r.value.columns[i] == (if IsCommitteeColumn(raw.columns[i]) then DisplayName(raw.columns[i]).value else raw.columns[i])
    ensures r.Success? && WellFormed(raw) ==> WellFormed(r.value)
    ensures r.Failure? ==> exists i :: && 0 <= i < |raw.columns|
                                       && ColumnDisplayName(raw.columns[i]) == Failure(r.error)
                                       && forall j :: 0 <= j < i ==> ColumnDisplayName(raw.columns[j]).Success?
  {
    match RenameColumns(raw.columns)
    case Success(cols) => Success(Table(cols, raw.rows))
    case Failure(e) => Failure(e)
  }

  /** Indices of the committee columns, in column order. */
  function CommitteeColumns(columns: seq<string>): (r: seq<nat>)
    ensures forall k :: 0 <= k < |r| ==> r[k] < |columns| && IsCommitteeColumn(columns[r[k]])
    ensures forall i :: 0 <= i < |columns| && IsCommitteeColumn(columns[i]) ==> i in r
    ensures forall a, b :: 0 <= a < b < |r| ==> r[a] < r[b]
    decreases |columns|
  {
    if |columns| == 0 then []
    else
      var n := |columns| - 1;
      var front := CommitteeColumns(columns[..n]);
      assert forall i :: 0 <= i < n ==> columns[..n][i] == columns[i];
      front + (if IsCommitteeColumn(columns[n]) then [n] else [])
  }

  /** Position `k` holds the first maximum of the present values. */
  ghost predicate IsFirstMax(vals: seq<Value>, k: nat) {
    && k < |vals| && vals[k].Some?
    && (forall i :: 0 <= i < |vals| && vals[i].Some? ==> vals[i].value <= vals[k].value)
    && (forall i :: 0 <= i < k && vals[i].Some? ==> vals[i].value < vals[k].value)
  }

  /** `idxmax` with NaN skipped; `None` when every value is missing. */
  function FirstMax(vals: seq<Value>): (r: Option<nat>)
    ensures r.Some? ==> IsFirstMax(vals, r.value)
    ensures r.None? <==> forall i :: 0 <= i < |vals| ==> vals[i].None?
    decreases |vals|
  {
    if |vals| == 0 then None
    else
      var n := |vals| - 1;
      var front := vals[..n];
      assert forall i :: 0 <= i < n ==> front[i] == vals[i];
      var b := FirstMax(front);
      if vals[n].None? then b
      else if b.None? then Some(n)
      else if vals[n].value > vals[b.value].value then Some(n)
      else b
  }

  /** The first maximum is unique. */
  lemma FirstMaxUnique(vals: seq<Value>, a: nat, b: nat)
    requires IsFirstMax(vals, a) && IsFirstMax(vals, b)
    ensures a == b
  {
  }

  /** Column `c` is the row's winner: a committee column holding the largest present value, the leftmost such. */
  ghost predicate IsWinningColumn(columns: seq<string>, row: seq<Value>, c: nat)
    requires |row| == |columns|
  {
    && c < |columns| && IsCommitteeColumn(columns[c]) && row[c].Some?
    && (forall i :: 0 <= i < |columns| && IsCommitteeColumn(columns[i]) && row[i].Some? ==>
          row[i].value <= row[c].value)
    && (forall i :: 0 <= i < c && IsCommitteeColumn(columns[i]) && row[i].Some? ==>
          row[i].value < row[c].value)
  }

  /** What a district's entry must be, stated over the row's columns directly. */
  ghost predicate IsDistrictWinner(columns: seq<string>, row: seq<Value>, w: Winner)
    requires |row| == |columns|
  {
    && (w.NoWinner? <==>
          forall i :: 0 <= i < |columns| && IsCommitteeColumn(columns[i]) ==> row[i].None?)
    && (w.Winner? ==>
          exists c: nat :: IsWinningColumn(columns, row, c) && w.name == columns[c] && w.value == row[c].value)
  }

  /** At most one column wins a row. */
  lemma WinningColumnUnique(columns: seq<string>, row: seq<Value>, a: nat, b: nat)
    requires |row| == |columns|
    requires IsWinningColumn(columns, row, a) && IsWinningColumn(columns, row, b)
    ensures a == b
  {
  }

  /** The specification leaves no choice: a row has exactly one admissible entry. */
  lemma DistrictWinnerUnique(columns: seq<string>, row: seq<Value>, w1: Winner, w2: Winner)
    requires |row| == |columns|
    requires IsDistrictWinner(columns, row, w1) && IsDistrictWinner(columns, row, w2)
    ensures w1 == w2
  {
    if w1.Winner? && w2.Winner? {
      var a: nat :| IsWinningColumn(columns, row, a) && w1.name == columns[a] && w1.value == row[a].value;
      var b: nat :| IsWinningColumn(columns, row, b) && w2.name == columns[b] && w2.value == row[b].value;
      WinningColumnUnique(columns, row, a, b);
    }
  }

  /** The committee cells of a row, in column order. */
  function CommitteeValues(cols: seq<nat>, row: seq<Value>): (vals: seq<Value>)
    requires forall k :: 0 <= k < |cols| ==> cols[k] < |row|
    ensures |vals| == |cols| && forall k :: 0 <= k < |cols| ==> vals[k] == row[cols[k]]
  {
    seq(|cols|, k requires 0 <= k < |cols| => row[cols[k]])
  }

  /** A row whose committee cells are all NaN has every committee cell missing. */
  lemma NoCommitteeValue(columns: seq<string>, row: seq<Value>)
    requires |row| == |columns|
    requires FirstMax(CommitteeValues(CommitteeColumns(columns), row)).None?
    ensures forall i :: 0 <= i < |columns| && IsCommitteeColumn(columns[i]) ==> row[i].None?
  {
    var cols := CommitteeColumns(columns);
    var vals := CommitteeValues(cols, row);
    forall i | 0 <= i < |columns| && IsCommitteeColumn(columns[i]) ensures row[i].None? {
      var k :| 0 <= k < |cols| && cols[k] == i;
      assert vals[k] == row[i];
    }
  }

  /** The first maximal committee cell is a winning column of the row. */
  lemma FirstMaxWins(columns: seq<string>, row: seq<Value>, j: nat)
    requires |row| == |columns|
    requires FirstMax(CommitteeValues(CommitteeColumns(columns), row)) == Some(j)
    ensures j < |CommitteeColumns(columns)|
    ensures IsWinningColumn(columns, row, CommitteeColumns(columns)[j])
  {
    var cols := CommitteeColumns(columns);
    var vals := CommitteeValues(cols, row);
    var c := cols[j];
    forall i | 0 <= i < |columns| && IsCommitteeColumn(columns[i]) && row[i].Some?
      ensures row[i].value <= row[c].value
    {
      var k :| 0 <= k < |cols| && cols[k] == i;
      assert vals[k] == row[i];
    }
    forall i | 0 <= i < c && IsCommitteeColumn(columns[i]) && row[i].Some?
      ensures row[i].value < row[c].value
    {
      var k :| 0 <= k < |cols| && cols[k] == i;
      IncreasingIndex(cols, k, j);
      assert vals[k] == row[i];
    }
  }

  /** In a strictly increasing sequence, a smaller element sits at a smaller index. */
  lemma IncreasingIndex(r: seq<nat>, k: nat, j: nat)
    requires forall a, b :: 0 <= a < b < |r| ==> r[a] < r[b]
    requires k < |r| && j < |r| && r[k] < r[j]
    ensures k < j
  {
  }

  /** One row of `max(axis=1)` / `idxmax(axis=1)` over the committee columns. */
  function RowWinner(columns: seq<string>, row: seq<Value>): (w: Winner)
    requires |row| == |columns|
    ensures IsDistrictWinner(columns, row, w)
  {
    var cols := CommitteeColumns(columns);
    var vals := CommitteeValues(cols, row);
    match FirstMax(vals)
    case None =>
      NoCommitteeValue(columns, row);
      NoWinner
    case Some(j) =>
      FirstMaxWins(columns, row, j);
      Winner(columns[cols[j]], vals[j].value)
  }

  /** `k` numbers one of the `n` districts. */
  predicate IsDistrict(n: nat, k: nat) {
    1 <= k <= n
  }

  /** The district numbers `1..n`. */
  function Districts(n: nat): (ks: set<nat>)
    ensures forall k: nat :: k in ks <==> IsDistrict(n, k)
    ensures |ks| == n
    decreases n
  {
    if n == 0 then {}
    else
      var ks := Districts(n - 1) + {n};
      assert n !in Districts(n - 1);
      ks
  }

  /** `{i + 1: x for i, x in enumerate(xs)}`: each element keyed by its district number. */
  function KeyByDistrict<T>(xs: seq<T>): (m: map<nat, T>)
    ensures forall k: nat :: k in m <==> IsDistrict(|xs|, k)
    ensures forall k: nat :: IsDistrict(|xs|, k) ==> m[k] == xs[k - 1]
    decreases |xs|
  {
    if |xs| == 0 then map[]
    else
      var n := |xs|;
      var front := xs[..n - 1];
      assert forall i :: 0 <= i < n - 1 ==> front[i] == xs[i];
      KeyByDistrict(front)[n := xs[n - 1]]
  }

  /** One entry per row, in row order. */
  function RowWinners(t: Table): (ws: seq<Winner>)
    requires WellFormed(t)
    ensures |ws| == |t.rows|
    ensures forall i :: 0 <= i < |t.rows| ==> IsDistrictWinner(t.columns, t.rows[i], ws[i])
  {
    assert forall i :: 0 <= i < |t.rows| ==> |t.rows[i]| == |t.columns| by {
      forall i | 0 <= i < |t.rows| ensures |t.rows[i]| == |t.columns| {
        assert t.rows[i] in t.rows;
      }
    }
    seq(|t.rows|, i requires 0 <= i < |t.rows| && |t.rows[i]| == |t.columns| => RowWinner(t.columns, t.rows[i]))
  }

  /** The sheet has at least one committee column. */
  predicate HasCommitteeColumn(columns: seq<string>) {
    exists i :: 0 <= i < |columns| && IsCommitteeColumn(columns[i])
  }

  /** The committee column list is empty exactly when the sheet has no committee column. */
  lemma CommitteeColumnsEmpty(columns: seq<string>)
    ensures |CommitteeColumns(columns)| == 0 <==> !HasCommitteeColumn(columns)
  {
    if |CommitteeColumns(columns)| > 0 {
      assert IsCommitteeColumn(columns[CommitteeColumns(columns)[0]]);
    }
  }

  /**
   Raised by `idxmax(axis=1)` on the empty selection `df[[]]` of a sheet
   with rows: the reduction runs along an axis of length zero.
   */
  datatype WinnerError = NoCommitteeColumns

  /**
   `get_ambit_winners`: one entry per district, keyed `1..n`, each the
   district's winner; a sheet with rows but without committee columns
   raises, and a sheet without rows gives the empty dict.
   */
  function AmbitWinners(t: Table): (r: Result<map<nat, Winner>, WinnerError>)
    requires WellFormed(t)
    ensures r.Failure? <==> CommitteeColumns(t.columns) == [] && |t.rows| > 0
    ensures r.Success? ==> r.value.Keys == Districts(|t.rows|) && |r.value| == |t.rows|
    ensures r.Success? ==> forall k: nat :: IsDistrict(|t.rows|, k) ==>
      IsDistrictWinner(t.columns, t.rows[k - 1], r.value[k])
  {
    if CommitteeColumns(t.columns) == [] && |t.rows| > 0 then Failure(NoCommitteeColumns)
    else Success(DistrictWinners(t))
  }

  /** The dict comprehension of `get_ambit_winners`: row winners keyed by district number. */
  function DistrictWinners(t: Table): (m: map<nat, Winner>)
    requires WellFormed(t)
    ensures m.Keys == Districts(|t.rows|) && |m| == |t.rows|
    ensures forall k: nat :: IsDistrict(|t.rows|, k) ==> IsDistrictWinner(t.columns, t.rows[k - 1], m[k])
  {
    var ws := RowWinners(t);
    var m := KeyByDistrict(ws);
    assert m.Keys == Districts(|t.rows|);
    m
  }

  /** The sample header: committees in columns 0 and 1, a non-committee column 2. */
  ghost predicate SampleHeader(c: seq<string>) {
    |c| == 3 && IsCommitteeColumn(c[0]) && IsCommitteeColumn(c[1]) && !IsCommitteeColumn(c[2])
  }

  /** Row 1 of the sample: the second committee's 70 beats 30. */
  lemma OutrightRow(c: seq<string>, row: seq<Value>)
    requires SampleHeader(c)
    requires row == [Some(30.0), Some(70.0), Some(80.0)]
    ensures IsDistrictWinner(c, row, Winner(c[1], 70.0))
  {
    assert IsWinningColumn(c, row, 1);
  }

  /** Row 2 of the sample: both committee cells are missing. */
  lemma EmptyRow(c: seq<string>, row: seq<Value>)
    requires SampleHeader(c)
    requires row == [None, None, Some(60.0)]
    ensures IsDistrictWinner(c, row, NoWinner)
  {
  }

  /** Row 3 of the sample: both committees have 50. */
  lemma TiedRow(c: seq<string>, row: seq<Value>)
    requires SampleHeader(c)
    requires row == [Some(50.0), Some(50.0), Some(40.0)]
    ensures IsDistrictWinner(c, row, Winner(c[0], 50.0))
  {
    assert IsWinningColumn(c, row, 0);
  }

  /**
   A sample sheet of three districts: one won outright, one with no
   committee data (only its non-committee cell is filled), and a tie.
   */
  ghost predicate SampleTable(t: Table) {
    && SampleHeader(t.columns)
    && t.rows == [[Some(30.0), Some(70.0), Some(80.0)],
                  [None, None, Some(60.0)],
                  [Some(50.0), Some(50.0), Some(40.0)]]
  }

  /** The sample sheet gets exactly the district numbers 1, 2 and 3. */
  lemma SampleDistricts(t: Table)
    requires SampleTable(t)
    ensures WellFormed(t) && AmbitWinners(t).Success? && AmbitWinners(t).value.Keys == {1, 2, 3}
  {
    assert IsCommitteeColumn(t.columns[0]);
  }

  /** The outright winner takes district 1. */
  lemma SampleOutrightWinner(t: Table)
    requires SampleTable(t)
    ensures WellFormed(t) && AmbitWinners(t).Success? && AmbitWinners(t).value[1] == Winner(t.columns[1], 70.0)
  {
    assert IsCommitteeColumn(t.columns[0]);
    OutrightRow(t.columns, t.rows[0]);
    DistrictWinnerUnique(t.columns, t.rows[0], AmbitWinners(t).value[1], Winner(t.columns[1], 70.0));
  }

  /** District 2 has no committee value, so no winner; its other cell is ignored. */
  lemma SampleNoWinner(t: Table)
    requires SampleTable(t)
    ensures WellFormed(t) && AmbitWinners(t).Success? && AmbitWinners(t).value[2] == NoWinner
  {
    assert IsCommitteeColumn(t.columns[0]);
    EmptyRow(t.columns, t.rows[1]);
    DistrictWinnerUnique(t.columns, t.rows[1], AmbitWinners(t).value[2], NoWinner);
  }

  /** The tie in district 3 goes to the leftmost committee column. */
  lemma SampleTie(t: Table)
    requires SampleTable(t)
    ensures WellFormed(t) && AmbitWinners(t).Success? && AmbitWinners(t).value[3] == Winner(t.columns[0], 50.0)
  {
    assert IsCommitteeColumn(t.columns[0]);
    TiedRow(t.columns, t.rows[2]);
    DistrictWinnerUnique(t.columns, t.rows[2], AmbitWinners(t).value[3], Winner(t.columns[0], 50.0));
  }

  /** A sheet with rows holding only the turnout column has no committee to rank, so the lookup raises. */
  lemma SampleNoCommittees(t: Table)
    requires WellFormed(t) && t.columns == ["Frekwencja"] && |t.rows| > 0
    ensures AmbitWinners(t) == Failure(NoCommitteeColumns)
  {
    CommitteeColumnsEmpty(t.columns);
    var u := Upper(t.columns[0]);
    assert forall i :: 0 <= i < |u| ==> u[i] != ' ';
    NotContainsByChar(u, CommitteeMarker, 7);
  }

  /** A sheet without rows gets the empty dict, with or without committee columns. */
  lemma SampleEmptySheet(columns: seq<string>)
    ensures AmbitWinners(Table(columns, [])) == Success(map[])
  {
  }

  /** A real-looking header meets the sample's shape. */
  lemma SampleColumns(columns: seq<string>)
    requires columns == ["KOMITET WYBORCZY A", "Komitet Wyborczy B", "Frekwencja"]
    ensures SampleHeader(columns)
  {
    assert OccursAt(Upper(columns[0]), CommitteeMarker, 0) by {
      assert Upper(columns[0])[..16] == CommitteeMarker;
    }
    assert OccursAt(Upper(columns[1]), CommitteeMarker, 0) by {
      assert Upper(columns[1])[..16] == CommitteeMarker;
    }
    var u := Upper(columns[2]);
    assert forall i :: 0 <= i < |u| ==> u[i] != ' ';
    NotContainsByChar(u, CommitteeMarker, 7);
  }
}
