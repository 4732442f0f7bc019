/** The roster sheet ("花名册") and the schema check `validate_data`
    (new-employee-select.py:22-32). */
module Roster {
  import opened Wrappers
  import opened Dates
  import opened Text

  // Column headers of the roster sheet.
  const LEVEL3_ORG := "三级组织"
  const EMPLOYEE_ID := "员工系统号"
  const LEGAL_NAME := "姓名"
  const PREFERRED_NAME := "花名"
  const JOIN_DATE := "入职日期"
  const CATEGORY := "员工二级类别"
  const LEVEL4_ORG := "四级组织"

  const REQUIRED_COLUMNS: set<string> :=
    {LEVEL3_ORG, EMPLOYEE_ID, LEGAL_NAME, PREFERRED_NAME, JOIN_DATE, CATEGORY, LEVEL4_ORG}

  /** An employee-id cell as the spreadsheet reader delivers it: text, or a
      number when the column holds only digits. */
  datatype IdCell = IdText(text: string) | IdNumber(number: int)

  /** `astype(str)` of an id cell: text stays as it is, a number becomes its
      decimal digits (so a numeric id loses any leading zeros it had). */
  function IdString(c: IdCell): (s: string)
    ensures c.IdText? ==> s == c.text
    ensures c.IdNumber? && c.number >= 0 ==>
              && (forall i :: 0 <= i < |s| ==> IsDigit(s[i]))
              && DecimalValue(s) == c.number
              && (|s| > 1 ==> s[0] != '0')
    ensures c.IdNumber? && c.number < 0 ==>
              && |s| >= 2 && s[0] == '-'
              && (forall i :: 1 <= i < |s| ==> IsDigit(s[i]))
              && DecimalValue(s[1..]) == -c.number
  {
    match c
    case IdText(t) => t
    case IdNumber(n) =>
      if n >= 0 then
        DecimalRoundTrip(n);
        IntToDecimal(n)
      else
        DecimalRoundTrip(-n);
        assert IntToDecimal(n)[1..] == NatToDecimal(-n);
        IntToDecimal(n)
  }

  /** Text ids and numeric ids with the same digits compare equal as strings,
      and two numeric ids compare equal exactly when the numbers do. */
  lemma IdStringComparesDigits(n: nat, m: int)
    ensures IdString(IdNumber(n)) == IdString(IdText(NatToDecimal(n)))
    ensures IdString(IdNumber(n)) == IdString(IdNumber(m)) <==> n == m
  {
    IntToDecimalInjective(n, m);
  }

  /** One roster row. D is the type of the join-date cell: raw text as read
      from the sheet, or a Stamp once `pd.to_datetime` has converted it. */
  datatype Record<D> = Record(
    level3: string,
    id: IdCell,
    name: string,
    preferred: Option<string>,  // None for an empty (NaN) cell
    joinDate: D,
    category: string,
    level4: string)

  type RawRow = Record<string>
  type Row = Record<Stamp>

  /** The sheet: the set of column headers present, and the rows. */
  datatype Sheet = Sheet(columns: set<string>, rows: seq<RawRow>)

  /** The outcome of `validate_data`: success, or one of its two errors. */
  datatype Verdict = Valid | MissingColumns(missing: set<string>) | BadJoinDate

  /** What a converter of the whole join-date column promises: when it
      succeeds, one stamp per cell, each NaT or a valid date. */
  ghost predicate IsColumnParser(f: seq<string> -> Option<seq<Stamp>>) {
    forall cells: seq<string> {:trigger f(cells)} :: f(cells).Some? ==>
      && |f(cells).value| == |cells|
      && forall i :: 0 <= i < |cells| ==> ValidStamp(f(cells).value[i])
  }

  /** `pd.to_datetime` on the join-date column, as a parameter of the model.
      It sees the whole column at once: the format pandas infers from one cell
      decides how the others are read, or that they are rejected. None stands
      for the call raising, Some(NaT) at a position for an empty cell. */
  type ColumnParser = f: seq<string> -> Option<seq<Stamp>> | IsColumnParser(f)
    witness (cells: seq<string>) => None

  /** The join-date column of the sheet, cell by cell. */
  function JoinColumn(rows: seq<RawRow>): (cells: seq<string>)
    ensures |cells| == |rows|
    ensures forall i :: 0 <= i < |rows| ==> cells[i] == rows[i].joinDate
  {
    seq(|rows|, i requires 0 <= i < |rows| => rows[i].joinDate)
  }

  lemma MissingIsNonEmpty(required: set<string>, present: set<string>)
    requires !(required <= present)
    ensures required - present != {}
  {
    var c :| c in required && c !in present;
    assert c in required - present;
  }

  /** `validate_data`: the column check first, then the date check. */
  function Validate(sheet: Sheet, parse: ColumnParser): (v: Verdict)
    ensures v.MissingColumns? <==> !(REQUIRED_COLUMNS <= sheet.columns)
    ensures v.MissingColumns? ==> v.missing == REQUIRED_COLUMNS - sheet.columns && v.missing != {}
    ensures v == BadJoinDate <==> REQUIRED_COLUMNS <= sheet.columns && parse(JoinColumn(sheet.rows)).None?
    ensures v == Valid <==> REQUIRED_COLUMNS <= sheet.columns && parse(JoinColumn(sheet.rows)).Some?
  {
    if !(REQUIRED_COLUMNS <= sheet.columns) then
      MissingIsNonEmpty(REQUIRED_COLUMNS, sheet.columns);
      MissingColumns(REQUIRED_COLUMNS - sheet.columns)
    else if parse(JoinColumn(sheet.rows)).None? then BadJoinDate
    else Valid
  }

  /** A listing of a set of names: each one exactly once, in some order. */
  predicate Enumerates(listing: seq<string>, names: set<string>) {
    && (set i | 0 <= i < |listing| :: listing[i]) == names
    && (forall i, j :: 0 <= i < j < |listing| ==> listing[i] != listing[j])
  }

  /** The message `validate_data` returns beside its flag. Python joins the
      missing columns in set-iteration order, which is given here as `listing`. */
  function Message(v: Verdict, listing: seq<string>): (msg: string)
    requires v.MissingColumns? ==> Enumerates(listing, v.missing)
    ensures msg == "" <==> v == Valid
    ensures v.MissingColumns? ==> msg == "缺失必要字段：" + Join(listing, ", ")
    ensures v == BadJoinDate ==> msg == "入职日期格式异常"
  {
    match v
    case Valid => ""
    case MissingColumns(_) => "缺失必要字段：" + Join(listing, ", ")
    case BadJoinDate => "入职日期格式异常"
  }

  /** The same row with another join-date cell. */
  function WithJoinDate<D, E>(r: Record<D>, d: E): Record<E> {
    Record(r.level3, r.id, r.name, r.preferred, d, r.category, r.level4)
  }

  /** Line 90: the join-date column replaced by its parsed stamps. */
  function ParseJoinDates(rows: seq<RawRow>, parse: ColumnParser): (r: seq<Row>)
    requires parse(JoinColumn(rows)).Some?
    ensures |r| == |rows|
    ensures forall i :: 0 <= i < |rows| ==>
              r[i] == WithJoinDate(rows[i], parse(JoinColumn(rows)).value[i])
    ensures forall i :: 0 <= i < |rows| ==> ValidStamp(r[i].joinDate)
  {
    var stamps := parse(JoinColumn(rows)).value;
    seq(|rows|, i requires 0 <= i < |rows| => WithJoinDate(rows[i], stamps[i]))
  }
}
