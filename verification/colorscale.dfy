/**
 Range-bucket colour lookup shared by `get_color_for_single_ambit` and
 `get_color_for_attendance`: an ordered table of `(color, min, max)` records,
 a value that may be missing, and the white "no data" colour.
 */
module ColorScale {
  import opened Wrappers
  import opened Text
  import opened Decimal
  import opened Cells

  /** One entry of a colour table: values in `(lo, hi]` get `color`. */
  datatype ColorRange = ColorRange(color: string, lo: real, hi: real)

  /** A colour table, in the insertion order of the dict literal that defines it. */
  type Scale = seq<ColorRange>

  const NoDataColor: string := "#ffffff"

  /** Lower bound exclusive, upper bound inclusive. */
  predicate InRange(r: ColorRange, v: real) {
    r.lo < v <= r.hi
  }

  /** Range `i` is the first one, in table order, that holds `v`. */
  ghost predicate IsFirstMatch(scale: Scale, v: real, i: nat) {
    i < |scale| && InRange(scale[i], v)
    && forall j :: 0 <= j < i ==> !InRange(scale[j], v)
  }

  ghost predicate NoMatch(scale: Scale, v: real) {
    forall j :: 0 <= j < |scale| ==> !InRange(scale[j], v)
  }

  /** Index of the first range holding `v`, scanning in table order. */
  function FirstMatch(scale: Scale, v: real): (r: Option<nat>)
    ensures r.Some? ==> IsFirstMatch(scale, v, r.value)
    ensures r.None? ==> NoMatch(scale, v)
  {
    if |scale| == 0 then None
    else if InRange(scale[0], v) then Some(0)
    else match FirstMatch(scale[1..], v)
      case None => None
      case Some(k) => Some(k + 1)
  }

  /**
   The lookup itself: white for a missing value or exactly zero, else the
   colour of the first range holding the value, else white.
   */
  function BucketColor(scale: Scale, v: Value): (c: string)
    ensures v.None? || v == Some(0.0) ==> c == NoDataColor
    ensures v.Some? && v.value != 0.0 ==>
      forall i: nat :: IsFirstMatch(scale, v.value, i) ==> c == scale[i].color
    ensures v.Some? && v.value != 0.0 && NoMatch(scale, v.value) ==> c == NoDataColor
  {
    match v
    case None => NoDataColor
    case Some(x) =>
      if x == 0.0 then NoDataColor
      else match FirstMatch(scale, x)
        case Some(i) => FirstMatchUnique(scale, x, i); scale[i].color
        case None => NoDataColor
  }

  /** There is at most one first match. */
  lemma FirstMatchUnique(scale: Scale, v: real, i: nat)
    requires IsFirstMatch(scale, v, i)
    ensures forall j :: IsFirstMatch(scale, v, j) ==> j == i
  {
  }

  /**
   A well-formed table: non-empty, every range non-empty, and each range
   starting where the previous one ends, so the ranges tile `(lo0, hiN]`.
   */
  ghost predicate Contiguous(scale: Scale) {
    && |scale| > 0
    && (forall i :: 0 <= i < |scale| ==> scale[i].lo < scale[i].hi)
    && (forall i :: 0 <= i < |scale| - 1 ==> scale[i].hi == scale[i + 1].lo)
  }

  ghost function Low(scale: Scale): real
    requires |scale| > 0
  {
    scale[0].lo
  }

  ghost function High(scale: Scale): real
    requires |scale| > 0
  {
    scale[|scale| - 1].hi
  }

  /** No range of the table uses the "no data" colour. */
  ghost predicate AvoidsNoData(scale: Scale) {
    forall i :: 0 <= i < |scale| ==> scale[i].color != NoDataColor
  }

  lemma ContiguousSuffix(scale: Scale)
    requires Contiguous(scale) && |scale| > 1
    ensures Contiguous(scale[1..]) && Low(scale[1..]) == scale[0].hi && High(scale[1..]) == High(scale)
  {
    var t := scale[1..];
    assert forall i :: 0 <= i < |t| ==> t[i] == scale[i + 1];
  }

  /** In a contiguous table, earlier ranges lie entirely below later ones. */
  lemma {:induction false} ContiguousOrdered(scale: Scale, i: nat, j: nat)
    requires Contiguous(scale) && i < j < |scale|
    ensures scale[i].hi <= scale[j].lo
    decreases j - i
  {
    if i + 1 < j {
      ContiguousOrdered(scale, i + 1, j);
    }
  }

  /** In a contiguous table at most one range holds any value. */
  lemma ContiguousDisjoint(scale: Scale, v: real, i: nat, j: nat)
    requires Contiguous(scale) && i < |scale| && j < |scale|
    requires InRange(scale[i], v) && InRange(scale[j], v)
    ensures i == j
  {
    if i < j {
      ContiguousOrdered(scale, i, j);
    } else if j < i {
      ContiguousOrdered(scale, j, i);
    }
  }

  /** A contiguous table covers every value in `(Low, High]`. */
  lemma {:induction false} ContiguousCovers(scale: Scale, v: real)
    requires Contiguous(scale) && Low(scale) < v <= High(scale)
    ensures FirstMatch(scale, v).Some?
    decreases |scale|
  {
    if !InRange(scale[0], v) {
      assert |scale| > 1;
      ContiguousSuffix(scale);
      ContiguousCovers(scale[1..], v);
    }
  }

  /** A value outside `(Low, High]` of a contiguous table matches no range. */
  lemma ContiguousOutside(scale: Scale, v: real)
    requires Contiguous(scale) && (v <= Low(scale) || v > High(scale))
    ensures NoMatch(scale, v)
  {
    forall j | 0 <= j < |scale| ensures !InRange(scale[j], v) {
      if 0 < j {
        ContiguousOrdered(scale, 0, j);
      }
      if j < |scale| - 1 {
        ContiguousOrdered(scale, j, |scale| - 1);
      }
    }
  }

  /**
   For a contiguous table without white entries, the lookup gives a real
   colour exactly for present, non-zero values inside the table's span.
   */
  lemma BucketColorNotWhiteIff(scale: Scale, v: Value)
    requires Contiguous(scale) && AvoidsNoData(scale)
    ensures BucketColor(scale, v) != NoDataColor
        <==> v.Some? && v.value != 0.0 && Low(scale) < v.value <= High(scale)
  {
    if v.Some? && v.value != 0.0 {
      if Low(scale) < v.value <= High(scale) {
        ContiguousCovers(scale, v.value);
      } else {
        ContiguousOutside(scale, v.value);
      }
    }
  }

  /** Upper bounds are inclusive: a range's `hi` gets that range's colour. */
  lemma UpperBoundInclusive(scale: Scale, i: nat)
    requires Contiguous(scale) && i < |scale| && scale[i].hi != 0.0
    ensures BucketColor(scale, Some(scale[i].hi)) == scale[i].color
  {
    var v := scale[i].hi;
    forall j | 0 <= j < i ensures !InRange(scale[j], v) {
      ContiguousOrdered(scale, j, i);
    }
    assert IsFirstMatch(scale, v, i);
  }

  /**
   Lower bounds are exclusive: a range's `lo` gets the previous range's
   colour, and the first range's `lo` gets white.
   */
  lemma LowerBoundExclusive(scale: Scale, i: nat)
    requires Contiguous(scale) && i < |scale| && scale[i].lo != 0.0
    ensures i == 0 ==> BucketColor(scale, Some(scale[i].lo)) == NoDataColor
    ensures i > 0 ==> BucketColor(scale, Some(scale[i].lo)) == scale[i - 1].color
  {
    var v := scale[i].lo;
    if i == 0 {
      ContiguousOutside(scale, v);
      assert NoMatch(scale, v);
    } else {
      assert scale[i - 1].hi == v;
      UpperBoundInclusive(scale, i - 1);
    }
  }

  /** Just above a range's `lo` (within the range) the range's own colour applies. */
  lemma JustAboveLowerBound(scale: Scale, i: nat, eps: real)
    requires Contiguous(scale) && i < |scale|
    requires 0.0 < eps <= scale[i].hi - scale[i].lo && scale[i].lo + eps != 0.0
    ensures BucketColor(scale, Some(scale[i].lo + eps)) == scale[i].color
  {
    var v := scale[i].lo + eps;
    forall j | 0 <= j < i ensures !InRange(scale[j], v) {
      ContiguousOrdered(scale, j, i);
    }
    assert IsFirstMatch(scale, v, i);
  }

  // ----- The two tables of the dashboard -----

  /** `party_results_colors`: a party's vote share in a district. */
  const PartyResultsColors: Scale := [
    ColorRange("#DAF7A6", 0.0, 5.0),
    ColorRange("#DAFF76", 5.0, 10.0),
    ColorRange("#47fb56", 10.0, 20.0),
    ColorRange("#ff9900", 20.0, 30.0),
    ColorRange("#FF5733", 30.0, 40.0),
    ColorRange("#C70039", 40.0, 50.0),
    ColorRange("#900C3F", 50.0, 60.0),
    ColorRange("#581845", 60.0, 100.0)
  ]

  /** `attendance_colors`: turnout in a district. */
  const AttendanceColors: Scale := [
    ColorRange("#87CEEB", 0.0, 50.0),
    ColorRange("#4682B4", 50.0, 60.0),
    ColorRange("#4169E1", 60.0, 70.0),
    ColorRange("#0000CD", 70.0, 80.0),
    ColorRange("#000080", 80.0, 100.0)
  ]

  /** No two ranges of the table share a colour. */
  ghost predicate DistinctColors(scale: Scale) {
    forall i, j :: 0 <= i < j < |scale| ==> scale[i].color != scale[j].color
  }

  lemma PartyResultsColorsWellFormed()
    ensures Contiguous(PartyResultsColors) && AvoidsNoData(PartyResultsColors)
    ensures Low(PartyResultsColors) == 0.0 && High(PartyResultsColors) == 100.0
  {
    var t := PartyResultsColors;
    assert t[0].hi == t[1].lo && t[1].hi == t[2].lo && t[2].hi == t[3].lo && t[3].hi == t[4].lo;
    assert t[4].hi == t[5].lo && t[5].hi == t[6].lo && t[6].hi == t[7].lo;
    forall i | 0 <= i < |t| ensures t[i].color != NoDataColor {
      assert i in {0, 1, 2, 3, 4, 5, 6, 7};
    }
  }

  lemma AttendanceColorsWellFormed()
    ensures Contiguous(AttendanceColors) && AvoidsNoData(AttendanceColors)
    ensures Low(AttendanceColors) == 0.0 && High(AttendanceColors) == 100.0
  {
    var t := AttendanceColors;
    assert t[0].hi == t[1].lo && t[1].hi == t[2].lo && t[2].hi == t[3].lo && t[3].hi == t[4].lo;
    forall i | 0 <= i < |t| ensures t[i].color != NoDataColor {
      assert i in {0, 1, 2, 3, 4};
    }
  }

  /** Neither table uses a colour twice, so each legend swatch is distinct. */
  lemma TablesDistinctColors()
    ensures DistinctColors(PartyResultsColors) && DistinctColors(AttendanceColors)
  {
    var t := PartyResultsColors;
    forall i, j | 0 <= i < j < |t| ensures t[i].color != t[j].color {
      assert i in {0, 1, 2, 3, 4, 5, 6} && j in {1, 2, 3, 4, 5, 6, 7};
    }
    var a := AttendanceColors;
    forall i, j | 0 <= i < j < |a| ensures a[i].color != a[j].color {
      assert i in {0, 1, 2, 3} && j in {1, 2, 3, 4};
    }
  }

  /** `get_color_for_single_ambit`. */
  function ColorForSingleAmbit(support: Value): (c: string)
    ensures c != NoDataColor <==> support.Some? && 0.0 < support.value <= 100.0
    ensures c == NoDataColor || exists i :: 0 <= i < |PartyResultsColors| && c == PartyResultsColors[i].color
  {
    PartyResultsColorsWellFormed();
    BucketColorNotWhiteIff(PartyResultsColors, support);
    BucketColor(PartyResultsColors, support)
  }

  /** `get_color_for_attendance`. */
  function ColorForAttendance(attendance: Value): (c: string)
    ensures c != NoDataColor <==> attendance.Some? && 0.0 < attendance.value <= 100.0
    ensures c == NoDataColor || exists i :: 0 <= i < |AttendanceColors| && c == AttendanceColors[i].color
  {
    AttendanceColorsWellFormed();
    BucketColorNotWhiteIff(AttendanceColors, attendance);
    BucketColor(AttendanceColors, attendance)
  }

  /** The boundary cases around the first two vote-share buckets and the first turnout bucket. */
  lemma BoundaryExamples()
    ensures ColorForSingleAmbit(Some(5.0)) == "#DAF7A6"
    ensures ColorForSingleAmbit(Some(5.01)) == "#DAFF76"
    ensures ColorForSingleAmbit(Some(0.0)) == NoDataColor
    ensures ColorForSingleAmbit(None) == NoDataColor
    ensures ColorForSingleAmbit(Some(-1.0)) == NoDataColor
    ensures ColorForSingleAmbit(Some(100.5)) == NoDataColor
  {
    PartyResultsColorsWellFormed();
    UpperBoundInclusive(PartyResultsColors, 0);
    JustAboveLowerBound(PartyResultsColors, 1, 0.01);
    ContiguousOutside(PartyResultsColors, -1.0);
    ContiguousOutside(PartyResultsColors, 100.5);
  }

  /** Turnout at a range boundary and just above it. */
  lemma AttendanceBoundaryExamples()
    ensures ColorForAttendance(Some(50.0)) == "#87CEEB"
    ensures ColorForAttendance(Some(50.5)) == "#4682B4"
  {
    AttendanceColorsWellFormed();
    UpperBoundInclusive(AttendanceColors, 0);
    JustAboveLowerBound(AttendanceColors, 1, 0.5);
  }

  // ----- Legend labels -----

  /** Python's `int(x)` on a float: truncation toward zero. */
  function Trunc(x: real): (t: int)
    ensures x >= 0.0 ==> 0.0 <= t as real <= x < t as real + 1.0
    ensures x < 0.0 ==> t as real - 1.0 < x <= t as real <= 0.0
  {
    if x >= 0.0 then x.Floor else -((-x).Floor)
  }

  /** One legend entry: the swatch colour and its `"<min>% - <max>%"` text. */
  datatype LegendEntry = LegendEntry(color: string, text: string)

  /** The label text of a range, `f"{int(min)}% - {int(max)}%"`. */
  function RangeLabel(r: ColorRange): string {
    IntToString(Trunc(r.lo)) + "% - " + IntToString(Trunc(r.hi)) + "%"
  }

  /** Reads the two bounds back out of a label; `None` when it is not one. */
  function ParseLabel(s: string): Option<(int, int)> {
    match FirstIndexOf(s, '%')
    case None => None
    case Some(p) => ParseLabelAt(s, p)
  }

  /** Reads a label whose first `%` is at `p`. */
  function ParseLabelAt(s: string, p: nat): Option<(int, int)> {
    if p + 5 <= |s| && s[p..p + 4] == "% - " && s[|s| - 1] == '%' then
      var a := ParseInt(s[..p]);
      var b := ParseInt(s[p + 4..|s| - 1]);
      if a.Some? && b.Some? then Some((a.value, b.value)) else None
    else None
  }

  /** A range's label reads back as its truncated bounds. */
  lemma RangeLabelRoundTrip(r: ColorRange)
    ensures ParseLabel(RangeLabel(r)) == Some((Trunc(r.lo), Trunc(r.hi)))
  {
    var a := IntToString(Trunc(r.lo));
    var b := IntToString(Trunc(r.hi));
    var s := RangeLabel(r);
    assert s == a + "% - " + b + "%";
    IntToStringAvoids(Trunc(r.lo), '%');
    assert s[|a|] == '%';
    assert forall k :: 0 <= k < |a| ==> s[k] == a[k];
    assert FirstIndexOf(s, '%') == Some(|a|);
    assert s[..|a|] == a;
    assert s[|a| + 4..|s| - 1] == b;
    assert s[|a|..|a| + 4] == "% - ";
    IntToStringRoundTrip(Trunc(r.lo));
    IntToStringRoundTrip(Trunc(r.hi));
  }

  /**
   The legend: one entry per range, in table order, with the range's colour
   and a label that reads back as its truncated bounds.
   */
  function Legend(scale: Scale): (l: seq<LegendEntry>)
    ensures |l| == |scale|
    ensures forall i :: 0 <= i < |scale| ==> l[i].color == scale[i].color
    ensures forall i :: 0 <= i < |scale| ==>
      ParseLabel(l[i].text) == Some((Trunc(scale[i].lo), Trunc(scale[i].hi)))
  {
    if |scale| == 0 then []
    else
      RangeLabelRoundTrip(scale[0]);
      [LegendEntry(scale[0].color, RangeLabel(scale[0]))] + Legend(scale[1..])
  }

  /** A text that parses as a label is the one label written for its bounds. */
  lemma ParseLabelExact(s: string, a: int, b: int)
    requires ParseLabel(s) == Some((a, b))
    ensures s == IntToString(a) + "% - " + IntToString(b) + "%"
  {
    ParseLabelAtExact(s, FirstIndexOf(s, '%').value, a, b);
  }

  /** The step of `ParseLabelExact` once the first `%` is found. */
  lemma ParseLabelAtExact(s: string, p: nat, a: int, b: int)
    requires ParseLabelAt(s, p) == Some((a, b))
    ensures s == IntToString(a) + "% - " + IntToString(b) + "%"
  {
    ParseIntCanonical(s[..p], a);
    ParseIntCanonical(s[p + 4..|s| - 1], b);
    SplitLabel(s, p);
  }

  /** A label splits into its first number, the separator, its second number and the final `%`. */
  lemma SplitLabel(s: string, p: nat)
    requires p + 5 <= |s| && s[p..p + 4] == "% - " && s[|s| - 1] == '%'
    ensures s == s[..p] + "% - " + s[p + 4..|s| - 1] + "%"
  {
    assert s == s[..p] + s[p..];
    assert s[p..] == s[p..p + 4] + s[p + 4..];
    assert s[p + 4..] == s[p + 4..|s| - 1] + [s[|s| - 1]];
  }

  /** The contract of `Legend` fixes each label's text: it is the range's f-string label. */
  lemma LegendText(scale: Scale, i: nat)
    requires i < |scale|
    ensures Legend(scale)[i].text == RangeLabel(scale[i])
  {
    var l := Legend(scale);
    ParseLabelExact(l[i].text, Trunc(scale[i].lo), Trunc(scale[i].hi));
  }

  /** The labels of the first vote-share range and the last turnout range. */
  lemma LegendExamples()
    ensures RangeLabel(PartyResultsColors[0]) == "0% - 5%"
    ensures RangeLabel(AttendanceColors[4]) == "80% - 100%"
  {
    assert Trunc(5.0) == 5 && Trunc(80.0) == 80 && Trunc(100.0) == 100;
    assert NatToString(10) == "10";
    assert NatToString(100) == "100";
    assert NatToString(8) == "8";
    assert NatToString(80) == "80";
  }

  /** The first entry of the vote-share legend reads `0% - 5%`. */
  lemma LegendFirstLabel(scale: Scale)
    requires scale == PartyResultsColors
    ensures Legend(scale)[0].text == "0% - 5%"
  {
    LegendText(scale, 0);
    LegendExamples();
  }
}
