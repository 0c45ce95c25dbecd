/**
 * The view-parameter logic of the job table page (src/pages/Dashboard.tsx):
 * the two column predicates the page defines, the table cells for score and
 * status, the list of column filters that three effects keep in step with
 * the filter controls, and the sorted list of distinct locations offered by
 * the location control.
 */
module Dashboard {
  import opened Wrappers
  import opened Sequences
  import JobScore

  /**
   * The field of a job record that the page reads directly; the score and
   * status columns read their cell value through the table, and the
   * predicates below take that value.
   */
  datatype Job = Job(location: string)

  // ---------------------------------------------------------------------
  // Column predicates and cells
  // ---------------------------------------------------------------------

  /** `filterFn` of the score column: the minimum-score predicate. */
  predicate ScoreFilterFn(score: Option<int>, threshold: int)
  {
    match score
    case None => false
    case Some(s) => s >= threshold
  }

  /** A row without a score is rejected, whatever the threshold. */
  lemma AbsentScoreNeverPasses(threshold: int)
    ensures !ScoreFilterFn(None, threshold)
  {
  }

  /** A row with a score passes exactly when the score reaches the threshold. */
  lemma PresentScorePassesIffAtLeast(s: int, threshold: int)
    ensures ScoreFilterFn(Some(s), threshold) <==> s >= threshold
  {
  }

  /** Raising the threshold never lets more rows through. */
  lemma ScoreFilterAntitone(score: Option<int>, low: int, high: int)
    requires low <= high && ScoreFilterFn(score, high)
    ensures ScoreFilterFn(score, low)
  {
  }

  /**
   * The status the page assumes for a row: `status || "Not Applied"`. The
   * record type declares `application_status` as a string, but the status
   * column reads it as `string | null` and handles the null, so it may be
   * absent here.
   */
  function EffectiveStatus(status: Option<string>): (s: string)
    ensures s != ""
    ensures status.Some? && status.value != "" ==> s == status.value
    ensures status == None || status == Some("") ==> s == "Not Applied"
  {
    match status
    case None => "Not Applied"
    case Some(v) => if v == "" then "Not Applied" else v
  }

  /** `filterFn` of the status column: exact equality after defaulting. */
  predicate StatusFilterFn(status: Option<string>, filterValue: string)
  {
    EffectiveStatus(status) == filterValue
  }

  /** With the filter "Not Applied", rows whose status is absent or empty pass. */
  lemma MissingStatusCountsAsNotApplied(status: Option<string>)
    requires status == None || status == Some("")
    ensures StatusFilterFn(status, "Not Applied")
    ensures !StatusFilterFn(status, "Applied")
  {
  }

  /** A present, non-empty status passes exactly the filter value equal to it. */
  lemma StatusFilterIsExactMatch(status: string, filterValue: string)
    requires status != ""
    ensures StatusFilterFn(Some(status), filterValue) <==> status == filterValue
  {
  }

  /** The status cell: the label it prints and whether it uses the "applied" styling. */
  datatype StatusCellView = StatusCellView(caption: string, applied: bool)

  function StatusCell(status: Option<string>): (cell: StatusCellView)
    ensures cell.applied <==> status == Some("Applied")
    ensures cell.applied ==> cell.caption == "Applied"
  {
    StatusCellView(EffectiveStatus(status), status == Some("Applied"))
  }

  /** The status filter accepts a row exactly when the row's status cell reads as the filter value. */
  lemma StatusFilterMatchesCellLabel(status: Option<string>, filterValue: string)
    ensures StatusFilterFn(status, filterValue) <==> StatusCell(status).caption == filterValue
  {
  }

  /** The score cell: "N/A", or the number in a band colour. */
  datatype ScoreCellView = NotAvailable | ScoreText(value: int, colorClass: string)

  /**
   * The score cell. It tests `!score`, so an absent score and the score 0
   * both print "N/A"; any other score is printed in its band's text colour.
   */
  function ScoreCell(score: Option<int>): (cell: ScoreCellView)
    ensures cell.NotAvailable? <==> score == None || score == Some(0)
    ensures cell.ScoreText? ==> cell.value == score.value
    ensures cell.ScoreText? ==> forall t :: cell.colorClass == JobScore.TextClass(t) <==> JobScore.InBand(t, score)
  {
    if score == None || score == Some(0) then NotAvailable
    else
      var s := score.value;
      var colorClass :=
        if s >= 80 then "text-green-400"
        else if s >= 60 then "text-yellow-400"
        else if s >= 40 then "text-orange-400"
        else "text-red-400";
      ScoreText(s, colorClass)
  }

  /** For every present nonzero score the table cell and the detail panel use the same text colour. */
  lemma ScoreCellAgreesWithScorePanel(score: Option<int>)
    requires score.Some? && score.value != 0
    ensures ScoreCell(score) == ScoreText(score.value, JobScore.ScoreColor(score))
    ensures JobScore.Panel(score).body == JobScore.Number(score.value, ScoreCell(score).colorClass)
  {
    JobScore.BandsPartitionScores(score);
  }

  /** The score 0 is "N/A" in the table but a number on the detail panel. */
  lemma ZeroScoreDiffersBetweenViews()
    ensures ScoreCell(Some(0)) == NotAvailable
    ensures JobScore.Panel(Some(0)).body == JobScore.Number(0, "text-gray-400")
  {
  }

  /** A row that passes a positive minimum score is never shown as "N/A". */
  lemma PassingPositiveThresholdIsColoured(score: Option<int>, threshold: int)
    requires threshold > 0 && ScoreFilterFn(score, threshold)
    ensures ScoreCell(score).ScoreText?
  {
  }

  // ---------------------------------------------------------------------
  // The column-filter list
  // ---------------------------------------------------------------------

  /** A filter value: the location and status controls give text, the score control a number. */
  datatype FilterValue = Text(text: string) | Number(number: int)

  /** One entry of the table's column-filter state. */
  datatype ColumnFilter = ColumnFilter(id: string, value: FilterValue)

  const LocationId: string := "location"
  const StatusId: string := "application_status"
  const ScoreId: string := "score"

  /** Number of entries with the given id. */
  function IdCount(filters: seq<ColumnFilter>, id: string): nat
  {
    if filters == [] then 0
    else (if filters[0].id == id then 1 else 0) + IdCount(filters[1..], id)
  }

  /** `prev.filter(f => f.id !== id)`: every entry with the id goes. */
  function WithoutId(filters: seq<ColumnFilter>, id: string): (r: seq<ColumnFilter>)
    ensures forall f: ColumnFilter :: f in r ==> f.id != id
    ensures IdCount(r, id) == 0
  {
    if filters == [] then []
    else
      var rest := WithoutId(filters[1..], id);
      if filters[0].id == id then rest
      else
        assert ([filters[0]] + rest)[1..] == rest;
        [filters[0]] + rest
  }

  /** Every entry with another id stays, as often as it occurred. */
  lemma {:induction false} WithoutIdKeepsOthers(filters: seq<ColumnFilter>, id: string)
    ensures forall f: ColumnFilter :: f.id != id ==> multiset(WithoutId(filters, id))[f] == multiset(filters)[f]
  {
    if filters != [] {
      WithoutIdKeepsOthers(filters[1..], id);
      assert filters == [filters[0]] + filters[1..];
    }
  }

  /** The entries that stay keep their order. */
  lemma {:induction false} WithoutIdKeepsOrder(filters: seq<ColumnFilter>, id: string)
    ensures IsSubsequence(WithoutId(filters, id), filters)
  {
    if filters != [] {
      var rest := WithoutId(filters[1..], id);
      WithoutIdKeepsOrder(filters[1..], id);
      if filters[0].id != id {
        assert ([filters[0]] + rest)[1..] == rest;
      }
    }
  }

  lemma {:induction false} IdCountAppend(a: seq<ColumnFilter>, b: seq<ColumnFilter>, id: string)
    ensures IdCount(a + b, id) == IdCount(a, id) + IdCount(b, id)
  {
    if a == [] {
      assert a + b == b;
    } else {
      assert (a + b)[0] == a[0];
      assert (a + b)[1..] == a[1..] + b;
      IdCountAppend(a[1..], b, id);
    }
  }

  lemma {:induction false} WithoutIdAppend(a: seq<ColumnFilter>, b: seq<ColumnFilter>, id: string)
    ensures WithoutId(a + b, id) == WithoutId(a, id) + WithoutId(b, id)
  {
    if a == [] {
      assert a + b == b;
    } else {
      assert (a + b)[0] == a[0];
      assert (a + b)[1..] == a[1..] + b;
      WithoutIdAppend(a[1..], b, id);
    }
  }

  /** Removing an id from a list that has none of it changes nothing. */
  lemma {:induction false} WithoutAbsentId(filters: seq<ColumnFilter>, id: string)
    requires forall f :: f in filters ==> f.id != id
    ensures WithoutId(filters, id) == filters
  {
    if filters != [] {
      WithoutAbsentId(filters[1..], id);
    }
  }

  /** Removing one id does not change how many entries another id has. */
  lemma {:induction false} WithoutIdKeepsOtherCounts(filters: seq<ColumnFilter>, id: string, other: string)
    requires other != id
    ensures IdCount(WithoutId(filters, id), other) == IdCount(filters, other)
  {
    if filters != [] {
      WithoutIdKeepsOtherCounts(filters[1..], id, other);
    }
  }

  /**
   * What every effect does to the column-filter list for its control: drop
   * the entries with the control's id, then, when the control holds a value,
   * append one entry with it.
   */
  function ReplaceFilter(prev: seq<ColumnFilter>, id: string, value: Option<FilterValue>): (next: seq<ColumnFilter>)
    ensures WithoutId(next, id) == WithoutId(prev, id)
    ensures value == None ==> IdCount(next, id) == 0
    ensures value.Some? ==> IdCount(next, id) == 1 && next[|next| - 1] == ColumnFilter(id, value.value)
  {
    var kept := WithoutId(prev, id);
    WithoutAbsentId(kept, id);
    match value
    case None => kept
    case Some(v) =>
      WithoutIdAppend(kept, [ColumnFilter(id, v)], id);
      IdCountAppend(kept, [ColumnFilter(id, v)], id);
      kept + [ColumnFilter(id, v)]
  }

  /** Running an effect twice with the same control value gives the list that running it once gives. */
  lemma ReplaceFilterIdempotent(prev: seq<ColumnFilter>, id: string, value: Option<FilterValue>)
    ensures ReplaceFilter(ReplaceFilter(prev, id, value), id, value) == ReplaceFilter(prev, id, value)
  {
    var once := ReplaceFilter(prev, id, value);
    var kept := WithoutId(prev, id);
    WithoutAbsentId(kept, id);
    assert WithoutId(once, id) == kept;
  }

  /** Entries with a different id are the same, as a multiset, before and after an effect. */
  lemma ReplaceFilterKeepsOthers(prev: seq<ColumnFilter>, id: string, value: Option<FilterValue>, f: ColumnFilter)
    requires f.id != id
    ensures multiset(ReplaceFilter(prev, id, value))[f] == multiset(prev)[f]
    ensures IdCount(ReplaceFilter(prev, id, value), f.id) == IdCount(prev, f.id)
  {
    var next := ReplaceFilter(prev, id, value);
    WithoutIdKeepsOthers(next, id);
    WithoutIdKeepsOthers(prev, id);
    WithoutIdKeepsOtherCounts(next, id, f.id);
    WithoutIdKeepsOtherCounts(prev, id, f.id);
  }

  /** The value a select control (location or status) contributes: none for "all". */
  function SelectValue(selected: string): Option<FilterValue>
  {
    if selected == "all" then None else Some(Text(selected))
  }

  /** The value the minimum-score control contributes: none when the input is empty. */
  function ScoreValue(minScore: Option<int>): Option<FilterValue>
  {
    match minScore
    case None => None
    case Some(n) => Some(Number(n))
  }

  /** The location effect. */
  function LocationEffect(prev: seq<ColumnFilter>, locationFilter: string): (next: seq<ColumnFilter>)
    ensures WithoutId(next, LocationId) == WithoutId(prev, LocationId)
    ensures locationFilter == "all" ==> IdCount(next, LocationId) == 0
    ensures locationFilter != "all" ==>
      IdCount(next, LocationId) == 1 && next[|next| - 1] == ColumnFilter(LocationId, Text(locationFilter))
  {
    ReplaceFilter(prev, LocationId, SelectValue(locationFilter))
  }

  /** The status effect. */
  function StatusEffect(prev: seq<ColumnFilter>, statusFilter: string): (next: seq<ColumnFilter>)
    ensures WithoutId(next, StatusId) == WithoutId(prev, StatusId)
    ensures statusFilter == "all" ==> IdCount(next, StatusId) == 0
    ensures statusFilter != "all" ==>
      IdCount(next, StatusId) == 1 && next[|next| - 1] == ColumnFilter(StatusId, Text(statusFilter))
  {
    ReplaceFilter(prev, StatusId, SelectValue(statusFilter))
  }

  /** The minimum-score effect; the control's text is taken as already parsed. */
  function ScoreEffect(prev: seq<ColumnFilter>, minScore: Option<int>): (next: seq<ColumnFilter>)
    ensures WithoutId(next, ScoreId) == WithoutId(prev, ScoreId)
    ensures minScore == None ==> IdCount(next, ScoreId) == 0
    ensures minScore.Some? ==>
      IdCount(next, ScoreId) == 1 && next[|next| - 1] == ColumnFilter(ScoreId, Number(minScore.value))
  {
    ReplaceFilter(prev, ScoreId, ScoreValue(minScore))
  }

  /** The list holds exactly one entry for a set control, with its value, and none for a cleared one. */
  ghost predicate Tracks(filters: seq<ColumnFilter>, id: string, value: Option<FilterValue>)
  {
    match value
    case None => IdCount(filters, id) == 0
    case Some(v) => IdCount(filters, id) == 1 && ColumnFilter(id, v) in filters
  }

  lemma ReplaceFilterTracks(prev: seq<ColumnFilter>, id: string, value: Option<FilterValue>)
    ensures Tracks(ReplaceFilter(prev, id, value), id, value)
  {
    var next := ReplaceFilter(prev, id, value);
    if value.Some? {
      assert next[|next| - 1] in next;
    }
  }

  /** An effect for one control keeps what the list says about another control. */
  lemma ReplaceFilterKeepsTracks(prev: seq<ColumnFilter>, id: string, value: Option<FilterValue>,
                                 other: string, otherValue: Option<FilterValue>)
    requires other != id && Tracks(prev, other, otherValue)
    ensures Tracks(ReplaceFilter(prev, id, value), other, otherValue)
  {
    var next := ReplaceFilter(prev, id, value);
    match otherValue
    case None =>
      ReplaceFilterKeepsOthers(prev, id, value, ColumnFilter(other, Text("")));
    case Some(v) =>
      ReplaceFilterKeepsOthers(prev, id, value, ColumnFilter(other, v));
  }

  /** Only the three controls' ids ever occur in the list. */
  ghost predicate KnownIds(filters: seq<ColumnFilter>)
  {
    forall f :: f in filters ==> f.id == LocationId || f.id == StatusId || f.id == ScoreId
  }

  lemma ReplaceFilterKeepsKnownIds(prev: seq<ColumnFilter>, id: string, value: Option<FilterValue>)
    requires KnownIds(prev) && (id == LocationId || id == StatusId || id == ScoreId)
    ensures KnownIds(ReplaceFilter(prev, id, value))
  {
    var next := ReplaceFilter(prev, id, value);
    forall f | f in next
      ensures f.id == LocationId || f.id == StatusId || f.id == ScoreId
    {
      if f.id != id {
        ReplaceFilterKeepsOthers(prev, id, value, f);
        assert f in multiset(prev);
      }
    }
  }

  /** The list holds an entry for each set control, with its value, and nothing else. */
  ghost predicate InSync(filters: seq<ColumnFilter>, location: Option<FilterValue>, status: Option<FilterValue>,
                         score: Option<FilterValue>)
  {
    && KnownIds(filters)
    && Tracks(filters, LocationId, location)
    && Tracks(filters, StatusId, status)
    && Tracks(filters, ScoreId, score)
  }

  /** Each effect keeps the list in step, with its own control's new value. */
  lemma ReplaceFilterKeepsSync(prev: seq<ColumnFilter>, location: Option<FilterValue>, status: Option<FilterValue>,
                               score: Option<FilterValue>, id: string, value: Option<FilterValue>)
    requires InSync(prev, location, status, score)
    requires id == LocationId || id == StatusId || id == ScoreId
    ensures id == LocationId ==> InSync(ReplaceFilter(prev, id, value), value, status, score)
    ensures id == StatusId ==> InSync(ReplaceFilter(prev, id, value), location, value, score)
    ensures id == ScoreId ==> InSync(ReplaceFilter(prev, id, value), location, status, value)
  {
    ReplaceFilterTracks(prev, id, value);
    ReplaceFilterKeepsKnownIds(prev, id, value);
    if id != LocationId {
      ReplaceFilterKeepsTracks(prev, id, value, LocationId, location);
    }
    if id != StatusId {
      ReplaceFilterKeepsTracks(prev, id, value, StatusId, status);
    }
    if id != ScoreId {
      ReplaceFilterKeepsTracks(prev, id, value, ScoreId, score);
    }
  }

  /**
   * The page's filter state: the three controls and the column-filter list
   * handed to the table. Each setter is a control's change handler followed
   * by the effect that depends on that control; React runs the effect only
   * when the control's value actually changed.
   */
  class FilterControls {
    var columnFilters: seq<ColumnFilter>
    var locationFilter: string
    var statusFilter: string
    /** The minimum-score input, already parsed; `None` is the empty input. */
    var minScore: Option<int>

    /** The list is in step with all three controls and holds nothing else. */
    ghost predicate Valid()
      reads this
    {
      InSync(columnFilters, SelectValue(locationFilter), SelectValue(statusFilter), ScoreValue(minScore))
    }

    /** Initial state; on mount the three effects each remove their id from the empty list. */
    constructor ()
      ensures Valid()
      ensures locationFilter == "all" && statusFilter == "all" && minScore == None
      ensures columnFilters == []
    {
      locationFilter := "all";
      statusFilter := "all";
      minScore := None;
      columnFilters := [];
      new;
      columnFilters := LocationEffect(columnFilters, "all");
      columnFilters := StatusEffect(columnFilters, "all");
      columnFilters := ScoreEffect(columnFilters, None);
    }

    method SetLocationFilter(value: string)
      requires Valid()
      modifies this
      ensures Valid()
      ensures locationFilter == value && statusFilter == old(statusFilter) && minScore == old(minScore)
      ensures columnFilters ==
        if value == old(locationFilter) then old(columnFilters) else LocationEffect(old(columnFilters), value)
    {
      if value != locationFilter {
        ReplaceFilterKeepsSync(columnFilters, SelectValue(locationFilter), SelectValue(statusFilter),
                               ScoreValue(minScore), LocationId, SelectValue(value));
        var next := LocationEffect(columnFilters, value);
        locationFilter, columnFilters := value, next;
        assert Valid();
      }
    }

    method SetStatusFilter(value: string)
      requires Valid()
      modifies this
      ensures Valid()
      ensures statusFilter == value && locationFilter == old(locationFilter) && minScore == old(minScore)
      ensures columnFilters ==
        if value == old(statusFilter) then old(columnFilters) else StatusEffect(old(columnFilters), value)
    {
      if value != statusFilter {
        ReplaceFilterKeepsSync(columnFilters, SelectValue(locationFilter), SelectValue(statusFilter),
                               ScoreValue(minScore), StatusId, SelectValue(value));
        var next := StatusEffect(columnFilters, value);
        statusFilter, columnFilters := value, next;
        assert Valid();
      }
    }

    method SetMinScore(value: Option<int>)
      requires Valid()
      modifies this
      ensures Valid()
      ensures minScore == value && locationFilter == old(locationFilter) && statusFilter == old(statusFilter)
      ensures columnFilters ==
        if value == old(minScore) then old(columnFilters) else ScoreEffect(old(columnFilters), value)
    {
      if value != minScore {
        var next := ScoreEffect(columnFilters, value);
        ReplaceFilterKeepsSync(columnFilters, SelectValue(locationFilter), SelectValue(statusFilter),
                               ScoreValue(minScore), ScoreId, ScoreValue(value));
        minScore, columnFilters := value, next;
        assert Valid();
      }
    }
  }

  // ---------------------------------------------------------------------
  // Distinct locations, sorted
  // ---------------------------------------------------------------------

  /**
   * The order of JavaScript's default `sort` on strings: lexicographic by
   * character code, a proper prefix first.
   */
  predicate StrLess(a: string, b: string)
  {
    if a == [] then b != []
    else if b == [] then false
    else a[0] < b[0] || (a[0] == b[0] && StrLess(a[1..], b[1..]))
  }

  lemma {:induction false} StrLessIrreflexive(a: string)
    ensures !StrLess(a, a)
  {
    if a != [] {
      StrLessIrreflexive(a[1..]);
    }
  }

  lemma {:induction false} StrLessTransitive(a: string, b: string, c: string)
    requires StrLess(a, b) && StrLess(b, c)
    ensures StrLess(a, c)
  {
    if a != [] && b != [] && c != [] && a[0] == b[0] && b[0] == c[0] {
      StrLessTransitive(a[1..], b[1..], c[1..]);
    }
  }

  lemma {:induction false} StrLessTotal(a: string, b: string)
    ensures a == b || StrLess(a, b) || StrLess(b, a)
  {
    if a != [] && b != [] && a[0] == b[0] {
      StrLessTotal(a[1..], b[1..]);
      if a[1..] == b[1..] {
        assert a == [a[0]] + a[1..] && b == [b[0]] + b[1..];
      }
    }
  }

  /** Sorted in the default order, hence without duplicates. */
  predicate StrictlySorted(s: seq<string>)
  {
    forall i, j :: 0 <= i < j < |s| ==> StrLess(s[i], s[j])
  }

  /** The locations that occur in a list of jobs. */
  function Locations(jobs: seq<Job>): set<string>
  {
    set j | j in jobs :: j.location
  }

  /** Adds one string to a strictly sorted list, unless it is already there. */
  function InsertSorted(s: seq<string>, x: string): (r: seq<string>)
    requires StrictlySorted(s)
    ensures StrictlySorted(r)
    ensures forall y :: y in r <==> y in s || y == x
  {
    if s == [] then [x]
    else if x == s[0] then s
    else if StrLess(x, s[0]) then
      assert forall j :: 0 < j < |s| ==> StrLess(x, s[j]) by {
        forall j | 0 < j < |s| ensures StrLess(x, s[j]) {
          StrLessTransitive(x, s[0], s[j]);
        }
      }
      [x] + s
    else
      StrLessTotal(x, s[0]);
      var rest := InsertSorted(s[1..], x);
      assert forall y :: y in rest ==> StrLess(s[0], y);
      [s[0]] + rest
  }

  /** `Array.from(new Set(jobs.map(job => job.location))).sort()`. */
  function UniqueLocations(jobs: seq<Job>): (r: seq<string>)
    ensures StrictlySorted(r)
    ensures forall l :: l in r <==> l in Locations(jobs)
  {
    if jobs == [] then []
    else
      assert Locations(jobs) == {jobs[0].location} + Locations(jobs[1..]) by {
        assert jobs == [jobs[0]] + jobs[1..];
      }
      InsertSorted(UniqueLocations(jobs[1..]), jobs[0].location)
  }

  /**
   * A strictly sorted list is determined by its elements, so the list above
   * is the one the page computes, however the set was built and sorted.
   */
  lemma {:induction false} StrictlySortedIsUnique(a: seq<string>, b: seq<string>)
    requires StrictlySorted(a) && StrictlySorted(b)
    requires forall x :: x in a <==> x in b
    ensures a == b
  {
    assert a != [] ==> a[0] in a;
    assert b != [] ==> b[0] in b;
    if a != [] && b != [] {
      SortedHeadIsLeast(b, a[0]);
      SortedHeadIsLeast(a, b[0]);
      StrLessAsymmetric(a[0], b[0]);
      StrLessIrreflexive(a[0]);
      forall x
        ensures x in a[1..] <==> x in b[1..]
      {
        assert a == [a[0]] + a[1..] && b == [b[0]] + b[1..];
        if x in a[1..] {
          var k :| 1 <= k < |a| && a[k] == x;
          assert StrLess(a[0], a[k]);
          assert x in b && x != b[0];
        }
        if x in b[1..] {
          var k :| 1 <= k < |b| && b[k] == x;
          assert StrLess(b[0], b[k]);
          assert x in a && x != a[0];
        }
      }
      StrictlySortedIsUnique(a[1..], b[1..]);
    }
  }

  lemma SortedHeadIsLeast(s: seq<string>, x: string)
    requires StrictlySorted(s) && x in s
    ensures x == s[0] || StrLess(s[0], x)
  {
  }

  lemma StrLessAsymmetric(a: string, b: string)
    ensures !(StrLess(a, b) && StrLess(b, a))
  {
    StrLessIrreflexive(a);
    if StrLess(a, b) && StrLess(b, a) {
      StrLessTransitive(a, b, a);
    }
  }

  /** The dropdown lists every location of `jobs` once, in order, and nothing else. */
  lemma UniqueLocationsSortedAndDistinct(jobs: seq<Job>)
    ensures forall i, j :: 0 <= i < j < |UniqueLocations(jobs)| ==>
      UniqueLocations(jobs)[i] != UniqueLocations(jobs)[j]
    ensures forall j :: j in jobs ==> j.location in UniqueLocations(jobs)
  {
    var r := UniqueLocations(jobs);
    forall i, j | 0 <= i < j < |r| ensures r[i] != r[j] {
      StrLessIrreflexive(r[i]);
    }
  }
}
