/** Concrete runs of the model on one-row rosters for March 2025, under the
    source's own constants. */
module Scenarios {
  import opened Wrappers
  import opened Dates
  import opened Text
  import opened Roster
  import opened Eligibility
  import opened ReportBuilder
  import opened Pipeline

  /** A cell reader that knows the one date these sheets use and reads an
      empty cell as NaT. */
  function ParseSampleCell(s: string): Option<Stamp> {
    if s == "2025-03-15" then Some(Day(Date(2025, 3, 15)))
    else if s == "" then Some(NaT)
    else None
  }

  /** A column converter built on it: the whole column is refused as soon
      as one cell is unreadable. */
  function ParseSample(cells: seq<string>): (r: Option<seq<Stamp>>)
    ensures r.Some? <==> forall i :: 0 <= i < |cells| ==> ParseSampleCell(cells[i]).Some?
    ensures r.Some? ==> |r.value| == |cells|
    ensures r.Some? ==> forall i :: 0 <= i < |cells| ==>
              ParseSampleCell(cells[i]) == Some(r.value[i]) && ValidStamp(r.value[i])
  {
    if |cells| == 0 then Some([])
    else
      var head := ParseSampleCell(cells[0]);
      var rest := ParseSample(cells[1..]);
      assert forall i :: 1 <= i < |cells| ==> cells[i] == cells[1..][i - 1];
      if head.Some? && rest.Some? then Some([head.value] + rest.value) else None
  }

  /** A one-cell column converts as its cell does. */
  lemma ParseSampleSingle(cell: string)
    ensures ParseSample([cell]) == if ParseSampleCell(cell).Some? then Some([ParseSampleCell(cell).value]) else None
  {
    assert [cell][1..] == [];
    assert ParseSample([]) == Some([]);
    if ParseSampleCell(cell).Some? {
      assert [ParseSampleCell(cell).value] + [] == [ParseSampleCell(cell).value];
    }
  }

  /** The sample converter, seen as a converter of join-date columns. */
  const SAMPLE_PARSER: ColumnParser := ParseSample

  function SampleRow(id: IdCell, level4: string): RawRow {
    Record("A部", id, "张三", None, "2025-03-15", "正式员工", level4)
  }

  /** A formal employee who joined on 15 March 2025 is reported, under the
      display name 张三, in a summary row of their own org. */
  lemma EligibleRowIsReported()
    ensures var row := SampleRow(IdText("1001"), "X部");
            Analyze(Sheet(REQUIRED_COLUMNS, [row]), SAMPLE_PARSER, 2025, 3, DEFAULT_CONFIG)
            == Success(Analysis(
                 [ReportRow(DetailRow("A部", IdText("1001"), "张三", None, Day(Date(2025, 3, 15)), "正式员工"), "张三")],
                 1,
                 [SummaryRow("A部", "张三")],
                 []))
  {
    var row := SampleRow(IdText("1001"), "X部");
    var parsed := WithJoinDate(row, Day(Date(2025, 3, 15)));
    assert JoinColumn([row]) == [row.joinDate];
    ParseSampleSingle(row.joinDate);
    assert Validate(Sheet(REQUIRED_COLUMNS, [row]), SAMPLE_PARSER) == Valid;
    assert ParseJoinDates([row], SAMPLE_PARSER) == [parsed];
    assert Eligible(parsed, MonthRange(2025, 3), DEFAULT_CONFIG);
    var kept := Kept([parsed], MonthRange(2025, 3), DEFAULT_CONFIG);
    assert kept == [parsed];
    var d := DetailRow("A部", IdText("1001"), "张三", None, Day(Date(2025, 3, 15)), "正式员工");
    assert ProjectAll(kept) == [d];
    assert SortForReport([d]) == [d];
    var detail := [ReportRow(d, "张三")];
    assert Annotate([d]) == detail;
    assert GroupKeys(detail) == ["A部"];
    assert GroupNames(detail, "A部") == ["张三"];
    assert Summarize(detail) == [SummaryRow("A部", "张三")];
    assert BuildDetail([parsed], MonthRange(2025, 3), DEFAULT_CONFIG) == detail;
    assert ExcludedRows([parsed], MonthRange(2025, 3), DEFAULT_CONFIG) == [];
    assert ExcludedNames([parsed], MonthRange(2025, 3), DEFAULT_CONFIG) == [];
  }

  /** The numeric special id spells as its text form. */
  lemma SpecialIdSpelling()
    ensures IdString(IdNumber(31049588)) == "31049588"
  {
    assert NatToDecimal(3) == "3";
    assert NatToDecimal(31) == "31";
    assert NatToDecimal(310) == "310";
    assert NatToDecimal(3104) == "3104";
    assert NatToDecimal(31049) == "31049";
    assert NatToDecimal(310495) == "310495";
    assert NatToDecimal(3104958) == "3104958";
    assert NatToDecimal(31049588) == "31049588";
  }

  /** The same row with a special id, as text or as a number, is left out of
      the report and named in the exclusion list instead. */
  lemma SpecialRowIsListed(id: IdCell)
    requires id == IdText("31049588") || id == IdNumber(31049588)
    ensures var row := SampleRow(id, "X部");
            Analyze(Sheet(REQUIRED_COLUMNS, [row]), SAMPLE_PARSER, 2025, 3, DEFAULT_CONFIG)
            == Success(Analysis([], 0, [], ["张三"]))
  {
    var row := SampleRow(id, "X部");
    var parsed := WithJoinDate(row, Day(Date(2025, 3, 15)));
    assert JoinColumn([row]) == [row.joinDate];
    ParseSampleSingle(row.joinDate);
    assert Validate(Sheet(REQUIRED_COLUMNS, [row]), SAMPLE_PARSER) == Valid;
    assert ParseJoinDates([row], SAMPLE_PARSER) == [parsed];
    SpecialIdSpelling();
    assert IdString(id) == "31049588";
    assert IsSpecial(parsed, DEFAULT_CONFIG);
    assert Kept([parsed], MonthRange(2025, 3), DEFAULT_CONFIG) == [];
    assert BuildDetail([parsed], MonthRange(2025, 3), DEFAULT_CONFIG) == [];
    assert ExcludedRows([parsed], MonthRange(2025, 3), DEFAULT_CONFIG) == [parsed];
    assert ExcludedNames([parsed], MonthRange(2025, 3), DEFAULT_CONFIG) == ["张三"];
    assert Analyze(Sheet(REQUIRED_COLUMNS, [row]), SAMPLE_PARSER, 2025, 3, DEFAULT_CONFIG)
           == Success(Analysis([], 0, Summarize([]), ["张三"]));
  }

  /** A row of the excluded department is left out and, having no special
      id, is not listed either. */
  lemma ExcludedDeptIsSilent()
    ensures var row := SampleRow(IdText("1001"), "证照支持部");
            Analyze(Sheet(REQUIRED_COLUMNS, [row]), SAMPLE_PARSER, 2025, 3, DEFAULT_CONFIG)
            == Success(Analysis([], 0, [], []))
  {
    var row := SampleRow(IdText("1001"), "证照支持部");
    var parsed := WithJoinDate(row, Day(Date(2025, 3, 15)));
    assert JoinColumn([row]) == [row.joinDate];
    ParseSampleSingle(row.joinDate);
    assert ParseJoinDates([row], SAMPLE_PARSER) == [parsed];
    assert Kept([parsed], MonthRange(2025, 3), DEFAULT_CONFIG) == [];
    assert ExcludedRows([parsed], MonthRange(2025, 3), DEFAULT_CONFIG) == [];
    assert SortForReport([]) == [];
  }

  /** A row whose join-date cell is empty passes validation (the cell is
      NaT) but is never reported, since NaT lies in no month. */
  lemma EmptyJoinDateIsNotReported()
    ensures var row := SampleRow(IdText("1001"), "X部").(joinDate := "");
            Analyze(Sheet(REQUIRED_COLUMNS, [row]), SAMPLE_PARSER, 2025, 3, DEFAULT_CONFIG)
            == Success(Analysis([], 0, [], []))
  {
    var row := SampleRow(IdText("1001"), "X部").(joinDate := "");
    var parsed := WithJoinDate(row, NaT);
    assert JoinColumn([row]) == [row.joinDate];
    ParseSampleSingle(row.joinDate);
    assert Validate(Sheet(REQUIRED_COLUMNS, [row]), SAMPLE_PARSER) == Valid;
    assert ParseJoinDates([row], SAMPLE_PARSER) == [parsed];
    assert Kept([parsed], MonthRange(2025, 3), DEFAULT_CONFIG) == [];
    assert ExcludedRows([parsed], MonthRange(2025, 3), DEFAULT_CONFIG) == [];
    assert SortForReport([]) == [];
  }

  /** A sheet without the 花名 column is refused with exactly that column
      named, and an unparseable join date is refused with the date error. */
  lemma ValidationFailures()
    ensures Analyze(Sheet(REQUIRED_COLUMNS - {PREFERRED_NAME}, []), SAMPLE_PARSER, 2025, 3, DEFAULT_CONFIG)
            == Failure(MissingColumns({PREFERRED_NAME}))
    ensures Analyze(Sheet(REQUIRED_COLUMNS, [SampleRow(IdText("1001"), "X部").(joinDate := "15/03")]),
                    SAMPLE_PARSER, 2025, 3, DEFAULT_CONFIG)
            == Failure(BadJoinDate)
  {
    assert REQUIRED_COLUMNS - (REQUIRED_COLUMNS - {PREFERRED_NAME}) == {PREFERRED_NAME};
    var row := SampleRow(IdText("1001"), "X部").(joinDate := "15/03");
    assert JoinColumn([row]) == ["15/03"];
  }
}
