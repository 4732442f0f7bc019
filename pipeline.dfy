/** The analysis run behind the "开始分析" button
    (new-employee-select.py:76-119, 142, 152): validate, parse the join
    dates, filter, project, sort, name, group, and collect the excluded
    special employees. */
module Pipeline {
  import opened Wrappers
  import opened Dates
  import opened Text
  import opened Roster
  import opened Eligibility
  import opened ReportBuilder

  /** What one run hands to the page: the detail table, its row count, the
      summary table and the names of the excluded special employees. */
  datatype Analysis = Analysis(
    detail: seq<ReportRow>,
    count: nat,
    summary: seq<SummaryRow>,
    excludedNames: seq<string>)

  /** Lines 102-114: kept rows, projected, sorted, with display names. */
  function BuildDetail(rows: seq<Row>, range: (Date, Date), cfg: Config): (d: seq<ReportRow>)
    ensures |d| == |Kept(rows, range, cfg)|
    ensures forall i :: 0 <= i < |d| ==> d[i].displayName == DisplayName(d[i].row.name, d[i].row.preferred)
    ensures forall i, j :: 0 <= i < j < |d| ==> ReportLe(d[i].row, d[j].row)
  {
    var sorted := SortForReport(ProjectAll(Kept(rows, range, cfg)));
    assert |sorted| == |multiset(sorted)|;
    Annotate(sorted)
  }

  /** The run for a target year and month. A failed validation stops it
      before any filtering, carrying the verdict. */
  function Analyze(sheet: Sheet, parse: ColumnParser, year: int, month: int, cfg: Config)
    : (r: Result<Analysis, Verdict>)
    requires MIN_YEAR <= year <= MAX_YEAR && 1 <= month <= 12
    ensures r.Failure? <==> Validate(sheet, parse) != Valid
    ensures r.Failure? ==> r.error == Validate(sheet, parse)
    ensures r.Success? ==>
              var rows := ParseJoinDates(sheet.rows, parse);
              && r.value.detail == BuildDetail(rows, MonthRange(year, month), cfg)
              && r.value.count == |r.value.detail|
              && r.value.summary == Summarize(r.value.detail)
              && r.value.excludedNames == ExcludedNames(rows, MonthRange(year, month), cfg)
  {
    var v := Validate(sheet, parse);
    if v != Valid then Failure(v)
    else
      var rows := ParseJoinDates(sheet.rows, parse);
      var range := MonthRange(year, month);
      var detail := BuildDetail(rows, range, cfg);
      Success(Analysis(detail, |detail|, Summarize(detail), ExcludedNames(rows, range, cfg)))
  }

  /** The detail rows without their display names. */
  function DetailRows(detail: seq<ReportRow>): (ds: seq<DetailRow>)
    ensures |ds| == |detail|
    ensures forall i :: 0 <= i < |detail| ==> ds[i] == detail[i].row
  {
    seq(|detail|, i requires 0 <= i < |detail| => detail[i].row)
  }

  /** The projected kept rows, with multiplicity, make up the detail table;
      it is in report order, its length is the number of kept rows, and every
      row carries its display name. */
  lemma DetailIsSortedKept(rows: seq<Row>, range: (Date, Date), cfg: Config)
    ensures var detail := BuildDetail(rows, range, cfg);
            && multiset(DetailRows(detail)) == multiset(ProjectAll(Kept(rows, range, cfg)))
            && InReportOrder(DetailRows(detail))
            && |detail| == |Kept(rows, range, cfg)|
            && forall i :: 0 <= i < |detail| ==>
                 detail[i].displayName == DisplayName(detail[i].row.name, detail[i].row.preferred)
  {
    var sorted := SortForReport(ProjectAll(Kept(rows, range, cfg)));
    assert DetailRows(Annotate(sorted)) == sorted;
    assert |sorted| == |multiset(sorted)|;
  }

  lemma InProjectAll(rows: seq<Row>, x: DetailRow)
    ensures x in ProjectAll(rows) <==> exists r :: r in rows && Project(r) == x
  {
    if r :| r in rows && Project(r) == x {
      var m :| 0 <= m < |rows| && rows[m] == r;
      assert ProjectAll(rows)[m] == x;
    }
  }

  /** The detail table holds exactly the eligible rows: every detail row is
      the projection of an input row that passes all four conditions, and
      every such input row appears in the detail table. */
  lemma DetailIsExactlyEligible(rows: seq<Row>, range: (Date, Date), cfg: Config, x: DetailRow)
    ensures x in DetailRows(BuildDetail(rows, range, cfg)) <==>
              exists r :: r in rows && Eligible(r, range, cfg) && Project(r) == x
  {
    var kept := Kept(rows, range, cfg);
    DetailIsSortedKept(rows, range, cfg);
    assert x in DetailRows(BuildDetail(rows, range, cfg)) <==> x in multiset(ProjectAll(kept));
    InProjectAll(kept, x);
  }

  /** What every detail row satisfies on its own: the required category, a
      non-special id, and a join date (never NaT) in the range, that is, in
      the target year and month. The rows are those the join-date conversion
      produces, whose stamps are NaT or valid dates (ParseJoinDates). */
  lemma DetailRowsQualify(rows: seq<Row>, year: int, month: int, cfg: Config)
    requires MIN_YEAR <= year <= MAX_YEAR && 1 <= month <= 12
    requires forall i :: 0 <= i < |rows| ==> ValidStamp(rows[i].joinDate)
    ensures forall x :: x in DetailRows(BuildDetail(rows, MonthRange(year, month), cfg)) ==>
              && x.category == cfg.requiredCategory
              && IdString(x.id) !in cfg.specialIds
              && InRange(x.joinDate, MonthRange(year, month))
              && x.joinDate.Day?
              && x.joinDate.date.year == year && x.joinDate.date.month == month
  {
    var range := MonthRange(year, month);
    forall x | x in DetailRows(BuildDetail(rows, range, cfg))
      ensures && x.category == cfg.requiredCategory
              && IdString(x.id) !in cfg.specialIds
              && InRange(x.joinDate, range)
              && x.joinDate.Day?
              && x.joinDate.date.year == year && x.joinDate.date.month == month
    {
      DetailIsExactlyEligible(rows, range, cfg, x);
      var r :| r in rows && Eligible(r, range, cfg) && Project(r) == x;
      InMonthRangeIffSameMonth(r.joinDate.date, year, month);
    }
  }

  /** The excluded names are the legal names of the special-id rows, in
      input order, and none of those rows reaches the detail table. */
  lemma ExcludedNamesAreSpecial(rows: seq<Row>, range: (Date, Date), cfg: Config)
    ensures var names := ExcludedNames(rows, range, cfg);
            && |names| == |SpecialRows(rows, cfg)|
            && (forall i :: 0 <= i < |names| ==> names[i] == SpecialRows(rows, cfg)[i].name)
            && (forall r :: r in SpecialRows(rows, cfg) ==> Project(r) !in DetailRows(BuildDetail(rows, range, cfg)))
  {
    ExcludedAreSpecial(rows, range, cfg);
    forall r | r in SpecialRows(rows, cfg)
      ensures Project(r) !in DetailRows(BuildDetail(rows, range, cfg))
    {
      assert r in ExcludedRows(rows, range, cfg);
      DetailIsExactlyEligible(rows, range, cfg, Project(r));
    }
  }

  /** No eligible rows, no report: both tables are empty. */
  lemma EmptySelectionEmptyReport(rows: seq<Row>, range: (Date, Date), cfg: Config)
    requires Kept(rows, range, cfg) == []
    ensures BuildDetail(rows, range, cfg) == []
    ensures Summarize(BuildDetail(rows, range, cfg)) == []
  {
    DetailIsSortedKept(rows, range, cfg);
  }
}
