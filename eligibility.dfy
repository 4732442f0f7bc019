/** The eligibility mask (new-employee-select.py:94-102) and the list of
    excluded special employees (new-employee-select.py:152-154). */
module Eligibility {
  import opened Wrappers
  import opened Dates
  import opened Text
  import opened Roster

  /** The compiled-in constants of the report, gathered in one value. */
  datatype Config = Config(specialIds: set<string>, excludedDept: string, requiredCategory: string)

  /** SPECIAL_IDS, EXCLUDE_DEPT and the category literal of the mask. */
  const DEFAULT_CONFIG := Config({"31049588", "31268163"}, "证照支持部", "正式员工")

  /** The id, as a string, is one of the special ids. */
  /** A numeric id is looked up by its decimal spelling, so it matches the
      special id with the same digits and no leading zero. */
  function IsSpecial(r: Row, cfg: Config): (b: bool)
    ensures r.id.IdText? ==> (b <==> r.id.text in cfg.specialIds)
    ensures r.id.IdNumber? && r.id.number >= 0 ==> (b <==> NatToDecimal(r.id.number) in cfg.specialIds)
  {
    IdString(r.id) in cfg.specialIds
  }

  /** `between(start, end)`: inclusive at both ends; NaT is never between.
      For calendar dates this is chronological: the day number lies between
      those of the two ends. */
  function InRange(s: Stamp, range: (Date, Date)): (b: bool)
    ensures b ==> s.Day?
    ensures s.Day? && ValidDate(range.0) && ValidDate(range.1) && ValidDate(s.date) ==>
              (b <==> Ordinal(range.0) <= Ordinal(s.date) <= Ordinal(range.1))
  {
    s.Day? && (BetweenIsChronological(range.0, s.date, range.1); DateLe(range.0, s.date) && DateLe(s.date, range.1))
  }

  lemma BetweenIsChronological(a: Date, d: Date, b: Date)
    ensures ValidDate(a) && ValidDate(d) && ValidDate(b) ==>
              (DateLe(a, d) && DateLe(d, b) <==> Ordinal(a) <= Ordinal(d) <= Ordinal(b))
  {
    if ValidDate(a) && ValidDate(d) && ValidDate(b) {
      DateLeIsChronological(a, d);
      DateLeIsChronological(d, b);
    }
  }

  /** The mask: all four conditions at once. For a valid range and a parsed
      stamp, a row is eligible exactly when it has a join date whose day
      number lies in the range, the required category, a department other
      than the excluded one, and an id whose string is not special. */
  function Eligible(r: Row, range: (Date, Date), cfg: Config): (b: bool)
    ensures b ==> r.joinDate.Day?
    ensures ValidDate(range.0) && ValidDate(range.1) && ValidStamp(r.joinDate) ==>
              (b <==> && r.joinDate.Day?
                      && Ordinal(range.0) <= Ordinal(r.joinDate.date) <= Ordinal(range.1)
                      && r.category == cfg.requiredCategory
                      && r.level4 != cfg.excludedDept
                      && IdString(r.id) !in cfg.specialIds)
  {
    && InRange(r.joinDate, range)
    && r.category == cfg.requiredCategory
    && r.level4 != cfg.excludedDept
    && !IsSpecial(r, cfg)
  }

  /** `df[mask]`: the eligible rows, in input order. */
  function Kept(rows: seq<Row>, range: (Date, Date), cfg: Config): (k: seq<Row>)
    ensures |k| <= |rows|
    ensures forall r :: r in k <==> r in rows && Eligible(r, range, cfg)
    decreases |rows|
  {
    if |rows| == 0 then []
    else
      var rest := Kept(rows[1..], range, cfg);
      assert forall r :: r in rows <==> r == rows[0] || r in rows[1..];
      if Eligible(rows[0], range, cfg) then [rows[0]] + rest else rest
  }

  /** Kept rows keep their multiplicity; rejected rows vanish entirely. */
  lemma {:induction false} KeptMultiplicity(rows: seq<Row>, range: (Date, Date), cfg: Config, r: Row)
    ensures multiset(Kept(rows, range, cfg))[r] == if Eligible(r, range, cfg) then multiset(rows)[r] else 0
    decreases |rows|
  {
    if |rows| > 0 {
      KeptMultiplicity(rows[1..], range, cfg, r);
      assert rows == [rows[0]] + rows[1..];
    }
  }

  /** `df[~mask & isin(SPECIAL_IDS)]`, as written: rows that fail the mask
      and carry a special id, in input order. */
  function ExcludedRows(rows: seq<Row>, range: (Date, Date), cfg: Config): (e: seq<Row>)
    ensures forall r :: r in e <==> r in rows && IsSpecial(r, cfg)
    decreases |rows|
  {
    if |rows| == 0 then []
    else
      var rest := ExcludedRows(rows[1..], range, cfg);
      assert forall r :: r in rows <==> r == rows[0] || r in rows[1..];
      if !Eligible(rows[0], range, cfg) && IsSpecial(rows[0], cfg) then [rows[0]] + rest else rest
  }

  /** The rows with a special id, in input order, whatever their other fields. */
  function SpecialRows(rows: seq<Row>, cfg: Config): seq<Row>
    decreases |rows|
  {
    if |rows| == 0 then []
    else if IsSpecial(rows[0], cfg) then [rows[0]] + SpecialRows(rows[1..], cfg)
    else SpecialRows(rows[1..], cfg)
  }

  /** The `~mask` part of the selection is redundant: a special id already
      forces the mask false, so the excluded rows are exactly the special
      rows, in the same order, for every month and every other field. */
  lemma {:induction false} ExcludedAreSpecial(rows: seq<Row>, range: (Date, Date), cfg: Config)
    ensures ExcludedRows(rows, range, cfg) == SpecialRows(rows, cfg)
    decreases |rows|
  {
    if |rows| > 0 {
      ExcludedAreSpecial(rows[1..], range, cfg);
    }
  }

  /** No excluded row is kept, and no kept row is excluded. */
  lemma ExcludedDisjointFromKept(rows: seq<Row>, range: (Date, Date), cfg: Config)
    ensures forall r :: r in ExcludedRows(rows, range, cfg) ==> r !in Kept(rows, range, cfg)
  {
  }

  /** `excluded['姓名'].tolist()`: their legal names, in input order. */
  function ExcludedNames(rows: seq<Row>, range: (Date, Date), cfg: Config): (names: seq<string>)
    ensures |names| == |ExcludedRows(rows, range, cfg)|
    ensures forall i :: 0 <= i < |names| ==> names[i] == ExcludedRows(rows, range, cfg)[i].name
  {
    var e := ExcludedRows(rows, range, cfg);
    seq(|e|, i requires 0 <= i < |e| => e[i].name)
  }

  /** The warning shown under the results: present exactly when some special
      row was excluded, and then listing the names. */
  function ExclusionNotice(rows: seq<Row>, range: (Date, Date), cfg: Config): (notice: Option<string>)
    ensures notice.None? <==> forall r :: r in rows ==> !IsSpecial(r, cfg)
    ensures notice.Some? ==> notice.value == "已排除特殊人员：" + Join(ExcludedNames(rows, range, cfg), ", ")
  {
    var names := ExcludedNames(rows, range, cfg);
    if |names| == 0 then None
    else
      assert ExcludedRows(rows, range, cfg)[0] in ExcludedRows(rows, range, cfg);
      Some("已排除特殊人员：" + Join(names, ", "))
  }
}
