/**
 Committee column names: which columns are committees (`'KOMITET WYBORCZY'
 in col.upper()`), how a raw committee label is shortened for display
 (`get_party_display_name`), and the rename `load_data` applies to the
 header row of a results sheet.
 */
module PartyNames {
  import opened Wrappers
  import opened Text

  const CommitteeMarker: string := "KOMITET WYBORCZY"
  const ZpowMarker: string := "ZPOW"
  const ZpowSeparator: string := "- ZPOW"

  /** A column holds a committee's results when its upper-cased name contains the marker. */
  predicate IsCommitteeColumn(name: string)
    ensures IsCommitteeColumn(name) ==> |name| >= |CommitteeMarker|
  {
    Contains(Upper(name), CommitteeMarker)
  }

  /** The committee test does not depend on letter case. */
  lemma CommitteeColumnIgnoresCase(name: string)
    ensures IsCommitteeColumn(name) <==> IsCommitteeColumn(Upper(name))
  {
    UpperIdempotent(name);
  }

  /** Raised by `re.search(...)[1]` when the search finds nothing. */
  datatype NameError = NoMatch(name: string)

  // ----- The pattern `(.*)\s+- ZPOW.*` -----

  /** End of the run of whitespace that starts at `k`. */
  function SpaceRunEnd(s: string, k: nat): (e: nat)
    requires k <= |s|
    ensures k <= e <= |s|
    ensures forall i :: k <= i < e ==> IsSpace(s[i])
    ensures e < |s| ==> !IsSpace(s[e])
    decreases |s| - k
  {
    if k < |s| && IsSpace(s[k]) then SpaceRunEnd(s, k + 1) else k
  }

  /** `\s+- ZPOW` matches at `k`, by taking the whole run of whitespace there. */
  predicate SeparatorAt(s: string, k: nat) {
    k < |s| && IsSpace(s[k]) && OccursAt(s, ZpowSeparator, SpaceRunEnd(s, k))
  }

  /** The regular-expression reading: one or more whitespace characters, then `- ZPOW`. */
  ghost predicate SeparatorMatches(s: string, k: nat) {
    exists m: nat | k < m <= |s| ::
      (forall i :: k <= i < m ==> IsSpace(s[i])) && OccursAt(s, ZpowSeparator, m)
  }

  /** Taking the whole whitespace run loses no match: `-` is not whitespace. */
  lemma SeparatorAtMeaning(s: string, k: nat)
    ensures SeparatorAt(s, k) <==> SeparatorMatches(s, k)
  {
    if SeparatorMatches(s, k) {
      var m: nat :| k < m <= |s| && (forall i :: k <= i < m ==> IsSpace(s[i])) && OccursAt(s, ZpowSeparator, m);
      assert s[m] == '-';
      assert !IsSpace(s[m]);
    }
    if SeparatorAt(s, k) {
      assert SpaceRunEnd(s, k) > k;
    }
  }

  /**
   The pattern matches starting at `p` with group 1 equal to `s[p..k]`:
   `.` never crosses a line break, and `\s+- ZPOW` follows at `k`.
   */
  ghost predicate MatchesWithGroup(s: string, p: nat, k: nat) {
    p <= k && SeparatorAt(s, k) && SingleLine(s, p, k)
  }

  /**
   What `re.search` returns: the leftmost starting point that matches, and
   for it the longest group, as greedy `(.*)` backtracks from the longest.
   */
  ghost predicate SearchResult(s: string, p: nat, k: nat) {
    && MatchesWithGroup(s, p, k)
    && (forall p': nat, k': nat :: p' < p ==> !MatchesWithGroup(s, p', k'))
    && (forall k': nat :: k < k' ==> !MatchesWithGroup(s, p, k'))
  }

  /** `s[p..k]` holds no line break, so `.*` can span it. */
  ghost predicate SingleLine(s: string, p: nat, k: nat) {
    k <= |s| && forall i :: p <= i < k ==> !IsLineBreak(s[i])
  }

  /** Index of the first line break at or after `p`, or `|s|`. */
  function LineEnd(s: string, p: nat): (e: nat)
    requires p <= |s|
    ensures p <= e <= |s|
    ensures forall i :: p <= i < e ==> !IsLineBreak(s[i])
    ensures e < |s| ==> IsLineBreak(s[e])
    ensures forall k: nat :: p <= k && SingleLine(s, p, k) ==> k <= e
    decreases |s| - p
  {
    if p < |s| && !IsLineBreak(s[p]) then LineEnd(s, p + 1) else p
  }

  /** The largest separator position in `[lo, hi)`. */
  function LastSeparatorIn(s: string, lo: nat, hi: nat): (r: Option<nat>)
    ensures r.Some? ==> lo <= r.value < hi && SeparatorAt(s, r.value)
    ensures r.Some? ==> forall k: nat :: r.value < k < hi ==> !SeparatorAt(s, k)
    ensures r.None? ==> forall k: nat :: lo <= k < hi ==> !SeparatorAt(s, k)
    decreases hi
  {
    if hi <= lo then None
    else if SeparatorAt(s, hi - 1) then Some(hi - 1)
    else LastSeparatorIn(s, lo, hi - 1)
  }

  /** Matching at one starting point: the longest group that lets the rest match. */
  function MatchAt(s: string, p: nat): (r: Option<nat>)
    requires p <= |s|
    ensures r.Some? ==> MatchesWithGroup(s, p, r.value)
    ensures r.Some? ==> forall k: nat :: r.value < k ==> !MatchesWithGroup(s, p, k)
    ensures r.None? ==> forall k: nat :: !MatchesWithGroup(s, p, k)
  {
    var e := LineEnd(s, p);
    var hi := if e < |s| then e + 1 else |s|;
    LastSeparatorIn(s, p, hi)
  }

  /** `re.search` from position `p` on: tries each starting point in turn. */
  function Search(s: string, p: nat): (r: Option<(nat, nat)>)
    requires p <= |s|
    ensures r.Some? ==> p <= r.value.0 && MatchesWithGroup(s, r.value.0, r.value.1)
    ensures r.Some? ==> forall p': nat, k: nat :: p <= p' < r.value.0 ==> !MatchesWithGroup(s, p', k)
    ensures r.Some? ==> forall k: nat :: r.value.1 < k ==> !MatchesWithGroup(s, r.value.0, k)
    ensures r.None? ==> forall p': nat, k: nat :: p <= p' ==> !MatchesWithGroup(s, p', k)
    decreases |s| - p
  {
    match MatchAt(s, p)
    case Some(k) => Some((p, k))
    case None =>
      if p == |s| then
        assert forall p': nat, k: nat :: p < p' ==> !MatchesWithGroup(s, p', k);
        None
      else Search(s, p + 1)
  }

  /**
   `get_party_display_name`: a name without `ZPOW` is kept; otherwise it is
   group 1 of `re.search('(.*)\s+- ZPOW.*', name)`, and a failed search is
   the `TypeError` raised when `get_party_display_name` indexes `None`.
   */
  function DisplayName(name: string): (r: Result<string, NameError>)
    ensures !Contains(name, ZpowMarker) ==> r == Success(name)
    ensures Contains(name, ZpowMarker) ==>
      (r.Failure? <==> forall p: nat, k: nat :: !MatchesWithGroup(name, p, k))
    ensures Contains(name, ZpowMarker) && r.Success? ==>
      |r.value| < |name| &&
      exists p: nat, k: nat :: SearchResult(name, p, k) && r.value == name[p..k]
    ensures r.Failure? ==> r.error == NoMatch(name)
  {
    if !Contains(name, ZpowMarker) then Success(name)
    else match Search(name, 0)
      case None => Failure(NoMatch(name))
      case Some((p, k)) =>
        assert SearchResult(name, p, k);
        Success(name[p..k])
  }

  /**
   On a single-line name the group starts at the beginning: the result is
   the prefix before the LAST whitespace that is followed by `- ZPOW`.
   */
  lemma SingleLineDisplayName(name: string)
    requires forall i :: 0 <= i < |name| ==> !IsLineBreak(name[i])
    requires Contains(name, ZpowMarker)
    ensures DisplayName(name).Success? <==> exists k: nat :: SeparatorAt(name, k)
    ensures DisplayName(name).Success? ==>
      exists k: nat :: && SeparatorAt(name, k)
                  && (forall k': nat :: k < k' ==> !SeparatorAt(name, k'))
                  && DisplayName(name).value == name[..k]
  {
    if k: nat :| SeparatorAt(name, k) {
      assert MatchesWithGroup(name, 0, k);
    }
    var r := DisplayName(name);
    if r.Success? {
      var p: nat, k: nat :| SearchResult(name, p, k) && r.value == name[p..k];
      assert MatchesWithGroup(name, 0, k);
      assert p == 0;
      assert forall k': nat :: SeparatorAt(name, k') ==> MatchesWithGroup(name, 0, k');
    }
  }

  /** No separator can start where no `-` follows. */
  lemma NoSeparatorFrom(s: string, j: nat)
    requires forall i :: j <= i < |s| ==> s[i] != '-'
    ensures forall k: nat :: j <= k ==> !SeparatorAt(s, k)
  {
    forall k: nat | j <= k && k < |s| && IsSpace(s[k]) ensures !SeparatorAt(s, k) {
      var m := SpaceRunEnd(s, k);
      assert m < |s| ==> s[m] != '-';
    }
  }

  /** A single-line marked name is cut at its last separator. */
  lemma SingleLineCut(name: string, k: nat)
    requires forall i :: 0 <= i < |name| ==> !IsLineBreak(name[i])
    requires Contains(name, ZpowMarker)
    requires SeparatorAt(name, k) && forall k': nat :: k < k' ==> !SeparatorAt(name, k')
    ensures DisplayName(name) == Success(name[..k])
  {
    SingleLineDisplayName(name);
  }

  /** A marked label is cut before its `- ZPOW` suffix. */
  lemma DisplayNameCutsSuffix(a: string)
    requires a == "Komitet X - ZPOW w Warszawie"
    ensures DisplayName(a) == Success("Komitet X")
  {
    assert forall i :: 0 <= i < |a| ==> !IsLineBreak(a[i]);
    SampleLabelMarked(a);
    SampleLabelLastSeparator(a);
    SingleLineCut(a, 9);
    assert a[..9] == "Komitet X";
  }

  /** The sample label contains `ZPOW`, at index 12. */
  lemma SampleLabelMarked(a: string)
    requires a == "Komitet X - ZPOW w Warszawie"
    ensures Contains(a, ZpowMarker)
  {
    assert a[12..16] == ZpowMarker;
    assert OccursAt(a, ZpowMarker, 12);
  }

  /** The sample label's only separator starts at index 9. */
  lemma SampleLabelLastSeparator(a: string)
    requires a == "Komitet X - ZPOW w Warszawie"
    ensures SeparatorAt(a, 9) && forall k': nat :: 9 < k' ==> !SeparatorAt(a, k')
  {
    assert SeparatorAt(a, 9) by {
      assert SpaceRunEnd(a, 10) == 10;
      assert SpaceRunEnd(a, 9) == 10;
      assert a[10..16] == ZpowSeparator;
    }
    NoSeparatorFrom(a, 11);
    assert !IsSpace(a[10]);
  }

  /** An unmarked label is kept as it is. */
  lemma DisplayNameKeepsUnmarked()
    ensures DisplayName("Komitet Y") == Success("Komitet Y")
  {
    NotContainsByChar("Komitet Y", ZpowMarker, 0);
  }

  /** A marked label without the whitespace-and-dash separator fails. */
  lemma DisplayNameFailsWithoutSeparator()
    ensures DisplayName("KOMITET ZPOW").Failure?
  {
    var c := "KOMITET ZPOW";
    assert OccursAt(c, ZpowMarker, 8);
    NoSeparatorFrom(c, 0);
    SingleLineDisplayName(c);
  }

  /** The name a district column gets in `load_data`. */
  function ColumnDisplayName(col: string): Result<string, NameError> {
    if IsCommitteeColumn(col) then DisplayName(col) else Success(col)
  }

  /**
   A list comprehension `[f(x) for x in xs]` whose `f` may raise: the
   results in order, or the error of the first element that fails.
   */
  function MapOrFail<A, B, E(==)>(xs: seq<A>, f: A -> Result<B, E>): (r: Result<seq<B>, E>)
    ensures r.Success? <==> forall i :: 0 <= i < |xs| ==> f(xs[i]).Success?
    ensures r.Success? ==> |r.value| == |xs| && forall i :: 0 <= i < |xs| ==> r.value[i] == f(xs[i]).value
    ensures r.Failure? ==> exists i :: && 0 <= i < |xs|
                                       && f(xs[i]).Failure? && f(xs[i]).error == r.error
                                       && forall j :: 0 <= j < i ==> f(xs[j]).Success?
    decreases |xs|
  {
    if |xs| == 0 then Success([])
    else
      var tail := xs[1..];
      assert forall i :: 1 <= i < |xs| ==> xs[i] == tail[i - 1];
      match f(xs[0])
      case Failure(e) => Failure(e)
      case Success(first) =>
        match MapOrFail(tail, f)
        case Failure(e) =>
          var i :| && 0 <= i < |tail| && f(tail[i]).Failure? && f(tail[i]).error == e
                   && forall j :: 0 <= j < i ==> f(tail[j]).Success?;
          assert f(xs[i + 1]).error == e;
          Failure(e)
        case Success(rest) => Success([first] + rest)
  }

  /**
   The header rename of `load_data`: committee columns get their display
   name, other columns are kept, and the first failing committee column
   aborts the whole rename with its error.
   */
  function RenameColumns(cols: seq<string>): (r: Result<seq<string>, NameError>)
    ensures r.Success? <==> forall i :: 0 <= i < |cols| ==> ColumnDisplayName(cols[i]).Success?
    ensures r.Success? ==> |r.value| == |cols|
    ensures r.Success? ==> forall i :: 0 <= i < |cols| ==>
      r.value[i] == (if IsCommitteeColumn(cols[i]) then DisplayName(cols[i]).value else cols[i])
    ensures r.Failure? ==> exists i :: && 0 <= i < |cols|
                                       && ColumnDisplayName(cols[i]) == Failure(r.error)
                                       && forall j :: 0 <= j < i ==> ColumnDisplayName(cols[j]).Success?
  {
    MapOrFail(cols, ColumnDisplayName)
  }
}
