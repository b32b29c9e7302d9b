/** The report list of the admin progress-report page: the derived,
    filtered and ordered view of the unread reports, and the view state
    that the page's event handlers update. */
module ReportList {
  import opened Reports
  import opened Strings
  import opened Sequences
  import ReportDocument

  // ---- the filter predicate of `filteredReports`

  /** A text query restricts only when it is a truthy string: set and non-empty. */
  predicate Active(query: Option<string>) {
    query.Some? && query.value != ""
  }

  /** `report.principalInvestigator.some(pi => pi.toLowerCase().includes(q))`,
      with `q` already lower-cased. */
  predicate AnyInvestigatorContains(investigators: seq<string>, q: string) {
    investigators != [] &&
    (Contains(Lower(investigators[0]), q) || AnyInvestigatorContains(investigators[1..], q))
  }

  predicate MatchesYear(r: Report, f: FilterCriteria) {
    f.year.Some? ==> r.currentYear == f.year.value
  }

  predicate MatchesTitle(r: Report, f: FilterCriteria) {
    Active(f.projectTitle) ==> Contains(Lower(r.projectTitle), Lower(f.projectTitle.value))
  }

  predicate MatchesInvestigator(r: Report, f: FilterCriteria) {
    Active(f.principalInvestigator) ==>
      AnyInvestigatorContains(r.principalInvestigator, Lower(f.principalInvestigator.value))
  }

  /** The callback handed to `reports.filter`: all three criteria hold. */
  predicate Matches(r: Report, f: FilterCriteria) {
    MatchesYear(r, f) && MatchesTitle(r, f) && MatchesInvestigator(r, f)
  }

  /** `.some` holds exactly when some investigator's name contains the query. */
  lemma {:induction false} AnyInvestigatorContainsIff(investigators: seq<string>, q: string)
    ensures AnyInvestigatorContains(investigators, q) <==>
            exists i :: 0 <= i < |investigators| && Contains(Lower(investigators[i]), q)
  {
    if investigators != [] {
      AnyInvestigatorContainsIff(investigators[1..], q);
      if AnyInvestigatorContains(investigators[1..], q) {
        var i :| 0 <= i < |investigators[1..]| && Contains(Lower(investigators[1..][i]), q);
        assert investigators[1..][i] == investigators[i + 1];
      }
      if exists i :: 0 <= i < |investigators| && Contains(Lower(investigators[i]), q) {
        var i :| 0 <= i < |investigators| && Contains(Lower(investigators[i]), q);
        if i > 0 {
          assert investigators[1..][i - 1] == investigators[i];
        }
      }
    }
  }

  /** A report passes the filter exactly when: its year equals the year
      criterion if one is set; its lower-cased title contains the lower-cased
      title query if that query is non-empty; and some investigator's
      lower-cased name contains the lower-cased investigator query if that
      query is non-empty. */
  lemma MatchesIff(r: Report, f: FilterCriteria)
    ensures Matches(r, f) <==>
      (f.year.Some? ==> r.currentYear == f.year.value) &&
      (Active(f.projectTitle) ==>
        Contains(Lower(r.projectTitle), Lower(f.projectTitle.value))) &&
      (Active(f.principalInvestigator) ==>
        exists i :: 0 <= i < |r.principalInvestigator| &&
          Contains(Lower(r.principalInvestigator[i]), Lower(f.principalInvestigator.value)))
  {
    if Active(f.principalInvestigator) {
      AnyInvestigatorContainsIff(r.principalInvestigator, Lower(f.principalInvestigator.value));
    }
  }

  function LowerQuery(q: Option<string>): Option<string> {
    if q.Some? then Some(Lower(q.value)) else None
  }

  /** Matching ignores the letter case of both queries: lower-casing them first
      changes nothing. */
  lemma MatchesIgnoresQueryCase(r: Report, f: FilterCriteria)
    ensures Matches(r, f) ==
      Matches(r, f.(projectTitle := LowerQuery(f.projectTitle),
                    principalInvestigator := LowerQuery(f.principalInvestigator)))
  {
    if f.projectTitle.Some? {
      LowerIdempotent(f.projectTitle.value);
      LowerIsLower(f.projectTitle.value);
    }
    if f.principalInvestigator.Some? {
      LowerIdempotent(f.principalInvestigator.value);
      LowerIsLower(f.principalInvestigator.value);
    }
  }

  // ---- `reports.filter(...)`

  /** The reports that pass every active criterion, in their original order. */
  function MatchingReports(reports: seq<Report>, f: FilterCriteria): (kept: seq<Report>)
    ensures forall r :: r in kept ==> r in reports && Matches(r, f)
  {
    Filter(reports, r => Matches(r, f))
  }

  /** The filter keeps every copy of a passing report and no failing one,
      without reordering. */
  lemma MatchingReportsExact(reports: seq<Report>, f: FilterCriteria)
    ensures forall r :: multiset(MatchingReports(reports, f))[r] ==
                        if Matches(r, f) then multiset(reports)[r] else 0
    ensures IsSubsequence(MatchingReports(reports, f), reports)
  {
    forall r
      ensures multiset(MatchingReports(reports, f))[r] ==
              if Matches(r, f) then multiset(reports)[r] else 0
    {
      FilterCount(reports, r => Matches(r, f), r);
    }
    FilterIsSubsequence(reports, r => Matches(r, f));
  }

  /** Unset or empty criteria place no restriction. */
  lemma NoCriteriaKeepsAll(reports: seq<Report>, f: FilterCriteria)
    requires f.year.None? && !Active(f.projectTitle) && !Active(f.principalInvestigator)
    ensures MatchingReports(reports, f) == reports
  {
    FilterKeepsAll(reports, r => Matches(r, f));
  }

  /** With only a year set, exactly the reports of that year are kept. */
  lemma YearOnlyKeepsThatYear(reports: seq<Report>, f: FilterCriteria, y: int)
    requires f.year == Some(y) && !Active(f.projectTitle) && !Active(f.principalInvestigator)
    ensures forall r :: r in MatchingReports(reports, f) <==> r in reports && r.currentYear == y
  {
    MatchingReportsExact(reports, f);
    forall r ensures r in MatchingReports(reports, f) <==> r in reports && r.currentYear == y {
      assert r in MatchingReports(reports, f) <==> multiset(MatchingReports(reports, f))[r] > 0;
    }
  }

  /** Setting a year criterion only removes reports from the list the other
      criteria keep; the rest stay in order. */
  lemma YearCriterionNarrows(reports: seq<Report>, f: FilterCriteria, y: int)
    ensures IsSubsequence(MatchingReports(reports, f.(year := Some(y))),
                          MatchingReports(reports, f.(year := None)))
  {
    var narrow, wide := f.(year := Some(y)), f.(year := None);
    FilterMonotone(reports, r => Matches(r, narrow), r => Matches(r, wide));
  }

  // ---- `.sort(...)`

  /** The comparator handed to `.sort`: ascending by year for "asc", descending otherwise. */
  function Compare(a: Report, b: Report, sortOrder: string): int {
    if sortOrder == "asc" then a.currentYear - b.currentYear else b.currentYear - a.currentYear
  }

  /** The year as the comparator ranks it: `Compare(a, b, o)` is the difference of the keys. */
  function YearKey(r: Report, ascending: bool): int {
    if ascending then r.currentYear else -r.currentYear
  }

  /** The first `n` reports of `s` are in key order. */
  ghost predicate SortedUpTo(s: seq<Report>, n: int, ascending: bool) {
    forall k, l :: 0 <= k < l < n && l < |s| ==> YearKey(s[k], ascending) <= YearKey(s[l], ascending)
  }

  /** While `s[i]` moves left, it sits at `j`: the other reports up to `i`
      are in order, and those it has passed have larger keys. */
  ghost predicate Inserting(s: seq<Report>, j: int, i: int, ascending: bool) {
    && (forall k, l :: 0 <= k < l <= i && l < |s| && l != j ==>
          YearKey(s[k], ascending) <= YearKey(s[l], ascending))
    && (forall l :: j < l <= i && 0 <= j && l < |s| ==>
          YearKey(s[j], ascending) < YearKey(s[l], ascending))
  }

  lemma InsertingStep(s: seq<Report>, j: int, i: int, ascending: bool)
    requires 0 < j <= i < |s| && Inserting(s, j, i, ascending)
    requires YearKey(s[j - 1], ascending) > YearKey(s[j], ascending)
    ensures Inserting(s[j - 1 := s[j]][j := s[j - 1]], j - 1, i, ascending)
  {
  }

  lemma InsertingDone(s: seq<Report>, j: int, i: int, ascending: bool)
    requires 0 <= j <= i < |s| && Inserting(s, j, i, ascending)
    requires j == 0 || YearKey(s[j - 1], ascending) <= YearKey(s[j], ascending)
    ensures SortedUpTo(s, i + 1, ascending)
  {
  }

  method Swap(a: array<Report>, i: int, j: int)
    requires 0 <= i < a.Length && 0 <= j < a.Length
    modifies a
    ensures a[..] == old(a[..])[i := old(a[j])][j := old(a[i])]
    ensures multiset(a[..]) == old(multiset(a[..]))
  {
    a[i], a[j] := a[j], a[i];
  }

  /** One step of the insertion sort: move `a[i]` left past the larger
      keys before it, so that `a[..i + 1]` is sorted. */
  method InsertAt(a: array<Report>, i: int, sortOrder: string)
    requires 0 <= i < a.Length
    requires SortedUpTo(a[..], i, sortOrder == "asc")
    modifies a
    ensures SortedUpTo(a[..], i + 1, sortOrder == "asc")
    ensures multiset(a[..]) == old(multiset(a[..]))
  {
    ghost var asc := sortOrder == "asc";
    var j := i;
    while j > 0 && Compare(a[j - 1], a[j], sortOrder) > 0
      invariant 0 <= j <= i
      invariant Inserting(a[..], j, i, asc)
      invariant multiset(a[..]) == old(multiset(a[..]))
    {
      InsertingStep(a[..], j, i, asc);
      Swap(a, j - 1, j);
      j := j - 1;
    }
    InsertingDone(a[..], j, i, asc);
  }

  /** `a.sort(compare)` in place, as an insertion sort: afterwards no pair of
      reports is out of order for the comparator, and the array holds the
      same reports. */
  method SortInPlace(a: array<Report>, sortOrder: string)
    modifies a
    ensures forall i, j :: 0 <= i < j < a.Length ==> Compare(a[i], a[j], sortOrder) <= 0
    ensures multiset(a[..]) == old(multiset(a[..]))
  {
    var i := 0;
    while i < a.Length
      invariant 0 <= i <= a.Length
      invariant SortedUpTo(a[..], i, sortOrder == "asc")
      invariant multiset(a[..]) == old(multiset(a[..]))
    {
      InsertAt(a, i, sortOrder);
      i := i + 1;
    }
    assert forall i, j :: 0 <= i < j < a.Length ==> a[..][i] == a[i] && a[..][j] == a[j];
  }

  /** `filteredReports`: the reports passing every active criterion, ordered
      by year as `sortOrder` asks. */
  method DeriveView(reports: seq<Report>, filters: FilterCriteria, sortOrder: string)
    returns (view: seq<Report>)
    ensures forall r :: multiset(view)[r] == if Matches(r, filters) then multiset(reports)[r] else 0
    ensures forall r :: r in view <==> r in reports && Matches(r, filters)
    ensures sortOrder == "asc" ==>
      forall i, j :: 0 <= i < j < |view| ==> view[i].currentYear <= view[j].currentYear
    ensures sortOrder != "asc" ==>
      forall i, j :: 0 <= i < j < |view| ==> view[i].currentYear >= view[j].currentYear
  {
    var kept := MatchingReports(reports, filters);
    var a := new Report[|kept|](i requires 0 <= i < |kept| => kept[i]);
    assert a[..] == kept;
    SortInPlace(a, sortOrder);
    view := a[..];
    MatchingReportsExact(reports, filters);
    forall r ensures r in view <==> r in reports && Matches(r, filters) {
      assert r in view <==> multiset(view)[r] > 0;
      assert r in reports <==> multiset(reports)[r] > 0;
    }
  }

  /** Two reports of 2020 and 2021, in that order, with no criterion and a
      descending order, are listed 2021 first. */
  method DescendingExample(older: Report, newer: Report) returns (view: seq<Report>)
    requires older.currentYear == 2020 && newer.currentYear == 2021
    ensures view == [newer, older]
  {
    var none := FilterCriteria(None, None, None);
    view := DeriveView([older, newer], none, "desc");
    assert Matches(older, none) && Matches(newer, none);
    assert multiset(view) == multiset([older, newer]);
    assert |view| == 2 by {
      calc {
        |view|;
        |multiset(view)|;
        |multiset([older, newer])|;
        2;
      }
    }
    assert view[0] in multiset([older, newer]) && view[1] in multiset([older, newer]);
  }

  /** Of reports from 2022 and 2023, the year criterion 2023 keeps only the second. */
  lemma YearFilterExample(a: Report, b: Report)
    requires a.currentYear == 2022 && b.currentYear == 2023
    ensures MatchingReports([a, b], FilterCriteria(Some(2023), None, None)) == [b]
  {
    var f := FilterCriteria(Some(2023), None, None);
    assert !Matches(a, f) && Matches(b, f);
    assert [a, b][1..] == [b];
    assert MatchingReports([a, b], f) == MatchingReports([b], f);
    assert [b][1..] == [];
    assert MatchingReports([b], f) == [b] + MatchingReports([], f);
  }

  // ---- `markAsRead`

  /** `reports.filter(report => report._id !== id)`. */
  function WithoutId(reports: seq<Report>, id: string): (rest: seq<Report>)
    ensures forall r :: r in rest ==> r in reports && r.id != id
  {
    Filter(reports, (r: Report) => r.id != id)
  }

  /** Removal drops every entry with the identifier, keeps every copy of
      every other entry, and keeps their order. */
  lemma WithoutIdExact(reports: seq<Report>, id: string)
    ensures forall r: Report :: r.id != id ==> multiset(WithoutId(reports, id))[r] == multiset(reports)[r]
    ensures IsSubsequence(WithoutId(reports, id), reports)
  {
    forall r: Report | r.id != id
      ensures multiset(WithoutId(reports, id))[r] == multiset(reports)[r]
    {
      FilterCount(reports, (r: Report) => r.id != id, r);
    }
    FilterIsSubsequence(reports, (r: Report) => r.id != id);
  }

  predicate UniqueIds(reports: seq<Report>) {
    forall i, j :: 0 <= i < j < |reports| ==> reports[i].id != reports[j].id
  }

  /** When identifiers are unique, marking a present one as read removes
      exactly one report. */
  lemma {:induction false} WithoutUniqueIdDropsOne(reports: seq<Report>, id: string)
    requires UniqueIds(reports)
    requires exists i :: 0 <= i < |reports| && reports[i].id == id
    ensures |WithoutId(reports, id)| == |reports| - 1
  {
    var rest := reports[1..];
    if reports[0].id == id {
      forall i | 0 <= i < |rest| ensures rest[i].id != id {
        assert rest[i] == reports[i + 1];
      }
      FilterKeepsAll(rest, (r: Report) => r.id != id);
    } else {
      var i :| 0 <= i < |reports| && reports[i].id == id;
      assert rest[i - 1].id == id;
      WithoutUniqueIdDropsOne(rest, id);
    }
  }

  /** Removing an identifier that no entry carries changes nothing; in
      particular a second successful removal of the same id is a no-op. */
  lemma WithoutAbsentIdKeepsAll(reports: seq<Report>, id: string)
    requires forall i :: 0 <= i < |reports| ==> reports[i].id != id
    ensures WithoutId(reports, id) == reports
  {
    FilterKeepsAll(reports, (r: Report) => r.id != id);
  }

  // ---- the page's state and handlers

  /** A change event from one of the three filter inputs, named by the input's `name`. */
  datatype FilterChange =
    | YearInput(year: Option<int>)
    | TitleInput(title: string)
    | InvestigatorInput(investigator: string)

  class ViewState {
    var reports: seq<Report>
    var selectedReport: Option<Report>
    var isPopupOpen: bool
    var filters: FilterCriteria
    var sortOrder: string

    /** The detail popup is only ever open on a selected report. */
    ghost predicate Valid()
      reads this
    {
      isPopupOpen ==> selectedReport.Some?
    }

    /** The state at mount, before the reports are fetched. */
    constructor ()
      ensures Valid()
      ensures reports == [] && selectedReport == None && !isPopupOpen
      ensures filters == FilterCriteria(None, None, None) && sortOrder == "asc"
    {
      reports := [];
      selectedReport := None;
      isPopupOpen := false;
      filters := FilterCriteria(None, None, None);
      sortOrder := "asc";
    }

    /** `markAsRead(id)`; `succeeded` is the outcome of the PUT request. */
    method MarkAsRead(id: string, succeeded: bool)
      requires Valid()
      modifies this`reports
      ensures Valid()
      ensures succeeded ==> reports == WithoutId(old(reports), id)
      ensures succeeded ==> forall r :: r in reports ==> r.id != id
      ensures !succeeded ==> reports == old(reports)
    {
      if succeeded {
        reports := WithoutId(reports, id);
      }
    }

    /** `viewReport(report)`: select it and open the popup. */
    method ViewReport(report: Report)
      modifies this`selectedReport, this`isPopupOpen
      ensures Valid()
      ensures selectedReport == Some(report) && isPopupOpen
    {
      selectedReport := Some(report);
      isPopupOpen := true;
    }

    /** The popup's Close button: only the open flag changes; the selection stays. */
    method ClosePopup()
      requires Valid()
      modifies this`isPopupOpen
      ensures Valid()
      ensures !isPopupOpen
    {
      isPopupOpen := false;
    }

    /** The popup's "Save as PDF" button: the export of the selection. The
        button exists only while the popup is open, and then a report is
        selected, so a document is always produced from it. */
    method SaveSelectedAsPdf() returns (doc: Option<ReportDocument.PdfDocument>)
      requires Valid()
      ensures doc == ReportDocument.SaveAsPdf(selectedReport)
      ensures isPopupOpen ==> doc.Some? && doc.value.filename == ReportDocument.Filename(selectedReport.value)
    {
      doc := ReportDocument.SaveAsPdf(selectedReport);
    }

    /** `handleSortChange`. */
    method HandleSortChange(value: string)
      requires Valid()
      modifies this`sortOrder
      ensures Valid()
      ensures sortOrder == value
    {
      sortOrder := value;
    }

    /** `handleFilterChange`: overwrite the named field, keep the others. */
    method HandleFilterChange(change: FilterChange)
      requires Valid()
      modifies this`filters
      ensures Valid()
      ensures change.YearInput? ==> filters == old(filters).(year := change.year)
      ensures change.TitleInput? ==> filters == old(filters).(projectTitle := Some(change.title))
      ensures change.InvestigatorInput? ==>
        filters == old(filters).(principalInvestigator := Some(change.investigator))
    {
      match change
      case YearInput(y) => filters := filters.(year := y);
      case TitleInput(t) => filters := filters.(projectTitle := Some(t));
      case InvestigatorInput(n) => filters := filters.(principalInvestigator := Some(n));
    }
  }
}
