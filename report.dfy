/** The report built from the kept rows: projection and sort
    (new-employee-select.py:103-104), the display name (111-114) and the
    per-organisation summary (117-119). */
module ReportBuilder {
  import opened Wrappers
  import opened Dates
  import opened Text
  import opened Roster

  // ---------------------------------------------------------------------------
  // Projection
  // ---------------------------------------------------------------------------

  /** A row of the detail table: the six reported columns, 四级组织 dropped. */
  datatype DetailRow = DetailRow(
    level3: string,
    id: IdCell,
    name: string,
    preferred: Option<string>,
    joinDate: Stamp,
    category: string)

  function Project(r: Row): (p: DetailRow)
    ensures p.level3 == r.level3 && p.id == r.id && p.name == r.name
    ensures p.preferred == r.preferred && p.joinDate == r.joinDate && p.category == r.category
  {
    DetailRow(r.level3, r.id, r.name, r.preferred, r.joinDate, r.category)
  }

  function ProjectAll(rows: seq<Row>): (ps: seq<DetailRow>)
    ensures |ps| == |rows|
    ensures forall i :: 0 <= i < |rows| ==> ps[i] == Project(rows[i])
  {
    seq(|rows|, i requires 0 <= i < |rows| => Project(rows[i]))
  }

  // ---------------------------------------------------------------------------
  // sort_values(by=["三级组织", "入职日期"], ascending=[False, True])
  // ---------------------------------------------------------------------------

  /** a may precede b: a larger level-3 org, or the same org and a join date
      no later than b's. */
  function ReportLe(a: DetailRow, b: DetailRow): (le: bool)
    ensures le ==> LexLe(b.level3, a.level3)
    ensures a.level3 != b.level3 ==> (le <==> LexLt(b.level3, a.level3))
    ensures a.level3 == b.level3 && b.joinDate.NaT? ==> le
  {
    LexLeReflexive(a.level3);
    LexLt(b.level3, a.level3) || (a.level3 == b.level3 && StampLe(a.joinDate, b.joinDate))
  }

  predicate InReportOrder(s: seq<DetailRow>) {
    forall i, j :: 0 <= i < j < |s| ==> ReportLe(s[i], s[j])
  }

  lemma ReportLeTotal(a: DetailRow, b: DetailRow)
    ensures ReportLe(a, b) || ReportLe(b, a)
  {
    LexLeTotal(a.level3, b.level3);
    StampLeTotalPreorder(a.joinDate, b.joinDate, a.joinDate);
  }

  lemma ReportLeTransitive(a: DetailRow, b: DetailRow, c: DetailRow)
    requires ReportLe(a, b) && ReportLe(b, c)
    ensures ReportLe(a, c)
  {
    LexLeTransitive(c.level3, b.level3, a.level3);
    LexLeAntisymmetric(c.level3, a.level3);
    LexLeAntisymmetric(b.level3, a.level3);
    LexLeAntisymmetric(c.level3, b.level3);
    StampLeTotalPreorder(a.joinDate, b.joinDate, c.joinDate);
  }

  /** Report order read off per key: level-3 orgs never increase, and the
      join dates never decrease within one org. */
  lemma ReportOrderMeaning(s: seq<DetailRow>)
    requires InReportOrder(s)
    ensures forall i, j :: 0 <= i < j < |s| ==> LexLe(s[j].level3, s[i].level3)
    ensures forall i, j :: 0 <= i < j < |s| && s[i].level3 == s[j].level3 ==>
              StampLe(s[i].joinDate, s[j].joinDate)
  {
    forall i, j | 0 <= i < j < |s|
      ensures LexLe(s[j].level3, s[i].level3)
      ensures s[i].level3 == s[j].level3 ==> StampLe(s[i].joinDate, s[j].joinDate)
    {
      assert ReportLe(s[i], s[j]);
      LexLeReflexive(s[i].level3);
    }
  }

  /** x placed into a sequence that is already in report order. */
  function Insert(x: DetailRow, s: seq<DetailRow>): (r: seq<DetailRow>)
    requires InReportOrder(s)
    ensures multiset(r) == multiset(s) + multiset{x}
    ensures InReportOrder(r)
    decreases |s|
  {
    if |s| == 0 then [x]
    else if ReportLe(x, s[0]) then
      assert forall j :: 0 < j < |s| ==> ReportLe(s[0], s[j]);
      InsertFront(x, s);
      [x] + s
    else
      ReportLeTotal(x, s[0]);
      var rest := Insert(x, s[1..]);
      assert s == [s[0]] + s[1..];
      InsertBehind(s[0], x, s[1..], rest);
      [s[0]] + rest
  }

  lemma InsertFront(x: DetailRow, s: seq<DetailRow>)
    requires InReportOrder(s) && |s| > 0 && ReportLe(x, s[0])
    ensures InReportOrder([x] + s)
  {
    var r := [x] + s;
    forall i, j | 0 <= i < j < |r| ensures ReportLe(r[i], r[j]) {
      assert r[j] == s[j - 1];
      if i == 0 {
        if j > 1 {
          assert ReportLe(s[0], s[j - 1]);
          ReportLeTransitive(x, s[0], s[j - 1]);
        }
      } else {
        assert r[i] == s[i - 1];
      }
    }
  }

  lemma InsertBehind(h: DetailRow, x: DetailRow, t: seq<DetailRow>, rest: seq<DetailRow>)
    requires InReportOrder([h] + t) && ReportLe(h, x)
    requires InReportOrder(rest) && multiset(rest) == multiset(t) + multiset{x}
    ensures InReportOrder([h] + rest)
  {
    var r := [h] + rest;
    forall i, j | 0 <= i < j < |r| ensures ReportLe(r[i], r[j]) {
      assert r[j] == rest[j - 1];
      if i == 0 {
        var y := rest[j - 1];
        assert y in multiset(rest);
        if y != x {
          assert y in multiset(t);
          var k :| 0 <= k < |t| && t[k] == y;
          assert ([h] + t)[k + 1] == y;
          assert ReportLe(([h] + t)[0], ([h] + t)[k + 1]);
        }
      } else {
        assert r[i] == rest[i - 1];
      }
    }
  }

  /** The sort: the same rows, in report order. Rows equal on both keys are
      left in some order; the contract does not fix it. */
  function SortForReport(s: seq<DetailRow>): (r: seq<DetailRow>)
    ensures multiset(r) == multiset(s)
    ensures InReportOrder(r)
    decreases |s|
  {
    if |s| == 0 then []
    else
      assert s == [s[0]] + s[1..];
      Insert(s[0], SortForReport(s[1..]))
  }

  // ---------------------------------------------------------------------------
  // 姓名+花名
  // ---------------------------------------------------------------------------

  /** `姓名（花名）` when the preferred name cell is not null, else `姓名`. */
  function DisplayName(name: string, preferred: Option<string>): (d: string)
    ensures |name| <= |d| && d[..|name|] == name
    ensures preferred.None? <==> |d| == |name|
    ensures preferred.Some? ==> |d| == |name| + |preferred.value| + 2
  {
    match preferred
    case None => name
    case Some(p) => name + "（" + p + "）"
  }

  /** Reads the preferred name back out of a display name. */
  function PreferredFromDisplay(name: string, d: string): Option<string> {
    if |d| >= |name| + 2 then Some(d[|name| + 1..|d| - 1]) else None
  }

  /** The display name determines the preferred name: reading it back gives
      exactly the cell, null or not (an empty string counts as not null). */
  lemma DisplayNameRoundTrip(name: string, preferred: Option<string>)
    ensures PreferredFromDisplay(name, DisplayName(name, preferred)) == preferred
    ensures preferred.Some? ==>
              DisplayName(name, preferred) == name + "（" + preferred.value + "）"
  {
    if preferred.Some? {
      var d := DisplayName(name, preferred);
      assert d[|name| + 1..|d| - 1] == preferred.value;
    }
  }

  /** A detail row with its display name column. */
  datatype ReportRow = ReportRow(row: DetailRow, displayName: string)

  function Annotate(s: seq<DetailRow>): (rs: seq<ReportRow>)
    ensures |rs| == |s|
    ensures forall i :: 0 <= i < |s| ==>
              rs[i].row == s[i] && rs[i].displayName == DisplayName(s[i].name, s[i].preferred)
  {
    seq(|s|, i requires 0 <= i < |s| => ReportRow(s[i], DisplayName(s[i].name, s[i].preferred)))
  }

  // ---------------------------------------------------------------------------
  // groupby("三级组织")["姓名+花名"].agg("、".join)
  // ---------------------------------------------------------------------------

  const NAME_SEPARATOR := '、'

  /** A summary row: one org and the joined display names of its rows. */
  datatype SummaryRow = SummaryRow(level3: string, joined: string)

  predicate StrictlyAscending(ks: seq<string>) {
    forall i, j :: 0 <= i < j < |ks| ==> LexLt(ks[i], ks[j])
  }

  /** k merged into an ascending list of distinct keys. */
  function InsertKey(k: string, ks: seq<string>): (r: seq<string>)
    requires StrictlyAscending(ks)
    ensures StrictlyAscending(r)
    ensures forall x :: x in r <==> x == k || x in ks
    decreases |ks|
  {
    if |ks| == 0 then [k]
    else if k == ks[0] then ks
    else if LexLe(k, ks[0]) then
      KeyFront(k, ks);
      [k] + ks
    else
      LexLeTotal(k, ks[0]);
      var rest := InsertKey(k, ks[1..]);
      KeyBehind(ks[0], k, ks[1..], rest);
      [ks[0]] + rest
  }

  lemma LexLtTransitive(a: string, b: string, c: string)
    requires LexLt(a, b) && LexLt(b, c)
    ensures LexLt(a, c)
  {
    LexLeTransitive(a, b, c);
    LexLeAntisymmetric(a, b);
  }

  lemma KeyFront(k: string, ks: seq<string>)
    requires StrictlyAscending(ks) && |ks| > 0 && LexLt(k, ks[0])
    ensures StrictlyAscending([k] + ks)
  {
    var r := [k] + ks;
    forall i, j | 0 <= i < j < |r| ensures LexLt(r[i], r[j]) {
      assert r[j] == ks[j - 1];
      if i == 0 {
        if j > 1 {
          assert LexLt(ks[0], ks[j - 1]);
          LexLtTransitive(k, ks[0], ks[j - 1]);
        }
      } else {
        assert r[i] == ks[i - 1];
      }
    }
  }

  lemma KeyBehind(h: string, k: string, t: seq<string>, rest: seq<string>)
    requires StrictlyAscending([h] + t) && LexLt(h, k)
    requires StrictlyAscending(rest) && forall x :: x in rest <==> x == k || x in t
    ensures StrictlyAscending([h] + rest)
  {
    var r := [h] + rest;
    forall i, j | 0 <= i < j < |r| ensures LexLt(r[i], r[j]) {
      assert r[j] == rest[j - 1];
      if i == 0 {
        var y := rest[j - 1];
        assert y in rest;
        if y != k {
          var m :| 0 <= m < |t| && t[m] == y;
          assert ([h] + t)[m + 1] == y;
          assert LexLt(([h] + t)[0], ([h] + t)[m + 1]);
        }
      } else {
        assert r[i] == rest[i - 1];
      }
    }
  }

  /** The level-3 orgs that occur in the rows. */
  function OrgsOf(rs: seq<ReportRow>): set<string> {
    set i | 0 <= i < |rs| :: rs[i].row.level3
  }

  /** The distinct level-3 orgs of the rows, in ascending order (groupby's
      default sort=True). */
  function GroupKeys(rs: seq<ReportRow>): (ks: seq<string>)
    ensures StrictlyAscending(ks)
    ensures forall k :: k in ks <==> k in OrgsOf(rs)
    decreases |rs|
  {
    if |rs| == 0 then []
    else
      var rest := GroupKeys(rs[1..]);
      assert OrgsOf(rs) == {rs[0].row.level3} + OrgsOf(rs[1..]) by {
        assert forall i :: 1 <= i < |rs| ==> rs[i] == rs[1..][i - 1];
        assert forall i :: 0 <= i < |rs[1..]| ==> rs[1..][i] == rs[i + 1];
      }
      InsertKey(rs[0].row.level3, rest)
  }

  /** The positions of the rows of org k, in ascending order: exactly the
      positions whose row has that org. */
  function GroupIndices(rs: seq<ReportRow>, k: string): (idx: seq<int>)
    ensures forall m :: 0 <= m < |idx| ==> 0 <= idx[m] < |rs| && rs[idx[m]].row.level3 == k
    ensures forall m, n :: 0 <= m < n < |idx| ==> idx[m] < idx[n]
    ensures forall i :: 0 <= i < |rs| && rs[i].row.level3 == k ==> i in idx
    decreases |rs|
  {
    if |rs| == 0 then []
    else
      var rest := GroupIndices(rs[1..], k);
      ShiftedIndices(rs, k, rest);
      if rs[0].row.level3 == k then
        FirstIndex(rs, k, Shift(rest));
        [0] + Shift(rest)
      else Shift(rest)
  }

  /** Every position moved one place on. */
  function Shift(xs: seq<int>): (ys: seq<int>)
    ensures |ys| == |xs|
    ensures forall m :: 0 <= m < |xs| ==> ys[m] == xs[m] + 1
  {
    seq(|xs|, m requires 0 <= m < |xs| => xs[m] + 1)
  }

  /** The positions of org k in the tail, moved one place on, are those of
      org k in the whole sequence after its first row. */
  lemma ShiftedIndices(rs: seq<ReportRow>, k: string, rest: seq<int>)
    requires |rs| > 0
    requires forall m :: 0 <= m < |rest| ==> 0 <= rest[m] < |rs| - 1 && rs[1..][rest[m]].row.level3 == k
    requires forall m, n :: 0 <= m < n < |rest| ==> rest[m] < rest[n]
    requires forall i :: 0 <= i < |rs| - 1 && rs[1..][i].row.level3 == k ==> i in rest
    ensures forall m :: 0 <= m < |rest| ==> 1 <= Shift(rest)[m] < |rs| && rs[Shift(rest)[m]].row.level3 == k
    ensures forall m, n :: 0 <= m < n < |rest| ==> Shift(rest)[m] < Shift(rest)[n]
    ensures forall i :: 1 <= i < |rs| && rs[i].row.level3 == k ==> i in Shift(rest)
  {
    var shifted := Shift(rest);
    forall m | 0 <= m < |rest|
      ensures 1 <= shifted[m] < |rs| && rs[shifted[m]].row.level3 == k
    {
      assert rs[1..][rest[m]] == rs[shifted[m]];
    }
    forall i | 1 <= i < |rs| && rs[i].row.level3 == k
      ensures i in shifted
    {
      assert rs[1..][i - 1] == rs[i];
      var m :| 0 <= m < |rest| && rest[m] == i - 1;
      assert shifted[m] == i;
    }
  }

  /** Position 0 in front of the later positions of org k, when the first
      row has org k, gives all its positions. */
  lemma FirstIndex(rs: seq<ReportRow>, k: string, shifted: seq<int>)
    requires |rs| > 0 && rs[0].row.level3 == k
    requires forall m :: 0 <= m < |shifted| ==> 1 <= shifted[m] < |rs| && rs[shifted[m]].row.level3 == k
    requires forall m, n :: 0 <= m < n < |shifted| ==> shifted[m] < shifted[n]
    requires forall i :: 1 <= i < |rs| && rs[i].row.level3 == k ==> i in shifted
    ensures forall m :: 0 <= m < |[0] + shifted| ==> 0 <= ([0] + shifted)[m] < |rs| && rs[([0] + shifted)[m]].row.level3 == k
    ensures forall m, n :: 0 <= m < n < |[0] + shifted| ==> ([0] + shifted)[m] < ([0] + shifted)[n]
    ensures forall i :: 0 <= i < |rs| && rs[i].row.level3 == k ==> i in [0] + shifted
  {
    var idx := [0] + shifted;
    assert forall m :: 1 <= m < |idx| ==> idx[m] == shifted[m - 1];
    forall i | 0 <= i < |rs| && rs[i].row.level3 == k
      ensures i in idx
    {
      if i > 0 {
        var m :| 0 <= m < |shifted| && shifted[m] == i;
        assert idx[m + 1] == i;
      }
    }
  }

  /** The display names of the rows of org k, in row order: one name per
      position of GroupIndices, so repeated names are kept. */
  function GroupNames(rs: seq<ReportRow>, k: string): (g: seq<string>)
    ensures |g| == |GroupIndices(rs, k)|
    ensures forall m :: 0 <= m < |g| ==> g[m] == rs[GroupIndices(rs, k)[m]].displayName
    ensures forall n :: n in g ==> exists i :: 0 <= i < |rs| && rs[i].row.level3 == k && rs[i].displayName == n
    ensures forall i :: 0 <= i < |rs| && rs[i].row.level3 == k ==> rs[i].displayName in g
    decreases |rs|
  {
    if |rs| == 0 then []
    else
      var rest := GroupNames(rs[1..], k);
      var g := if rs[0].row.level3 == k then [rs[0].displayName] + rest else rest;
      NamesAtIndices(rs, k, GroupIndices(rs[1..], k), GroupIndices(rs, k), rest, g);
      NamesOfGroup(rs, k, g);
      g
  }

  /** The names of the tail, preceded by the first name when the first row
      has org k, are the names at the positions of org k. */
  lemma NamesAtIndices(rs: seq<ReportRow>, k: string, ri: seq<int>, idx: seq<int>, rest: seq<string>, g: seq<string>)
    requires |rs| > 0
    requires |rest| == |ri|
    requires forall m :: 0 <= m < |rest| ==> 0 <= ri[m] < |rs| - 1 && rest[m] == rs[1..][ri[m]].displayName
    requires idx == if rs[0].row.level3 == k then [0] + Shift(ri) else Shift(ri)
    requires g == if rs[0].row.level3 == k then [rs[0].displayName] + rest else rest
    ensures |g| == |idx|
    ensures forall m :: 0 <= m < |g| ==> 0 <= idx[m] < |rs| && g[m] == rs[idx[m]].displayName
  {
    var shifted := Shift(ri);
    var d := if rs[0].row.level3 == k then 1 else 0;
    forall m | 0 <= m < |g|
      ensures 0 <= idx[m] < |rs| && g[m] == rs[idx[m]].displayName
    {
      if m >= d {
        if d == 1 {
          assert g[m] == rest[m - 1] && idx[m] == shifted[m - 1];
        }
        assert g[m] == rest[m - d] && idx[m] == ri[m - d] + 1;
        assert rs[1..][ri[m - d]] == rs[idx[m]];
      }
    }
  }

  /** Names at the positions of org k are exactly the names of its rows. */
  lemma NamesOfGroup(rs: seq<ReportRow>, k: string, g: seq<string>)
    requires |g| == |GroupIndices(rs, k)|
    requires forall m :: 0 <= m < |g| ==> g[m] == rs[GroupIndices(rs, k)[m]].displayName
    ensures forall n :: n in g ==> exists i :: 0 <= i < |rs| && rs[i].row.level3 == k && rs[i].displayName == n
    ensures forall i :: 0 <= i < |rs| && rs[i].row.level3 == k ==> rs[i].displayName in g
  {
    var idx := GroupIndices(rs, k);
    forall n | n in g
      ensures exists i :: 0 <= i < |rs| && rs[i].row.level3 == k && rs[i].displayName == n
    {
      var m :| 0 <= m < |g| && g[m] == n;
      var i := idx[m];
      assert 0 <= i < |rs| && rs[i].row.level3 == k && rs[i].displayName == n;
    }
    forall i | 0 <= i < |rs| && rs[i].row.level3 == k
      ensures rs[i].displayName in g
    {
      var m :| 0 <= m < |idx| && idx[m] == i;
      assert g[m] == rs[i].displayName;
    }
  }

  /** The summary table: one row per org, in ascending org order, holding
      that org's display names joined by 、. */
  function Summarize(rs: seq<ReportRow>): (summary: seq<SummaryRow>)
    ensures |summary| == |GroupKeys(rs)|
    ensures forall i, j :: 0 <= i < j < |summary| ==> LexLt(summary[i].level3, summary[j].level3)
    ensures (set i | 0 <= i < |summary| :: summary[i].level3) == OrgsOf(rs)
    ensures forall i :: 0 <= i < |summary| ==>
              summary[i].joined == Join(GroupNames(rs, summary[i].level3), [NAME_SEPARATOR])
    ensures rs == [] ==> summary == []
  {
    var ks := GroupKeys(rs);
    var summary := seq(|ks|, i requires 0 <= i < |ks| =>
      SummaryRow(ks[i], Join(GroupNames(rs, ks[i]), [NAME_SEPARATOR])));
    SummaryOrgs(rs, ks, summary);
    summary
  }

  /** Summary rows labelled by the keys in order carry exactly the orgs. */
  lemma SummaryOrgs(rs: seq<ReportRow>, ks: seq<string>, summary: seq<SummaryRow>)
    requires forall k :: k in ks <==> k in OrgsOf(rs)
    requires |summary| == |ks|
    requires forall i :: 0 <= i < |summary| ==> summary[i].level3 == ks[i]
    ensures (set i | 0 <= i < |summary| :: summary[i].level3) == OrgsOf(rs)
  {
    forall k
      ensures k in (set i | 0 <= i < |summary| :: summary[i].level3) <==> k in OrgsOf(rs)
    {
      if k in OrgsOf(rs) {
        var i :| 0 <= i < |ks| && ks[i] == k;
        assert summary[i].level3 == k;
      }
    }
  }

  /** Each detail row lands in exactly one summary row: the one of its org,
      whose names include its display name. */
  lemma RowInExactlyOneGroup(rs: seq<ReportRow>, j: int)
    requires 0 <= j < |rs|
    ensures exists i :: 0 <= i < |Summarize(rs)| && Summarize(rs)[i].level3 == rs[j].row.level3
    ensures forall i :: 0 <= i < |Summarize(rs)| && Summarize(rs)[i].level3 == rs[j].row.level3 ==>
              rs[j].displayName in GroupNames(rs, Summarize(rs)[i].level3)
    ensures forall i1, i2 :: 0 <= i1 < |Summarize(rs)| && 0 <= i2 < |Summarize(rs)|
              && Summarize(rs)[i1].level3 == rs[j].row.level3 && Summarize(rs)[i2].level3 == rs[j].row.level3
              ==> i1 == i2
  {
    var summary := Summarize(rs);
    assert rs[j].row.level3 in OrgsOf(rs);
    assert rs[j].row.level3 in (set i | 0 <= i < |summary| :: summary[i].level3);
    forall i1, i2 | 0 <= i1 < |summary| && 0 <= i2 < |summary|
      && summary[i1].level3 == rs[j].row.level3 && summary[i2].level3 == rs[j].row.level3
      ensures i1 == i2
    {
    }
  }

  /** When no display name contains 、, each joined string splits back into
      exactly its org's display names, in detail order. */
  lemma SummaryDecodes(rs: seq<ReportRow>, i: int)
    requires forall j :: 0 <= j < |rs| ==> NAME_SEPARATOR !in rs[j].displayName
    requires 0 <= i < |Summarize(rs)|
    ensures Split(Summarize(rs)[i].joined, NAME_SEPARATOR) == GroupNames(rs, Summarize(rs)[i].level3)
  {
    var summary := Summarize(rs);
    var k := summary[i].level3;
    var g := GroupNames(rs, k);
    assert k in (set m | 0 <= m < |summary| :: summary[m].level3);
    assert k in OrgsOf(rs);
    var j :| 0 <= j < |rs| && rs[j].row.level3 == k;
    assert rs[j].displayName in g;
    forall m | 0 <= m < |g| ensures NAME_SEPARATOR !in g[m] {
      assert g[m] in g;
    }
    SplitJoin(g, NAME_SEPARATOR);
  }

  // ---------------------------------------------------------------------------
  // The groups partition the detail rows.
  // ---------------------------------------------------------------------------

  /** The total number of names in the groups of the keys ks. */
  function GroupSizes(rs: seq<ReportRow>, ks: seq<string>): nat
    decreases |ks|
  {
    if |ks| == 0 then 0 else |GroupNames(rs, ks[0])| + GroupSizes(rs, ks[1..])
  }

  lemma {:induction false} InsertKeyPresent(k: string, ks: seq<string>)
    requires StrictlyAscending(ks) && k in ks
    ensures InsertKey(k, ks) == ks
    decreases |ks|
  {
    if k != ks[0] {
      var m :| 0 <= m < |ks| && ks[m] == k;
      assert 0 < m && LexLt(ks[0], ks[m]);
      assert !LexLe(k, ks[0]) by {
        if LexLe(k, ks[0]) {
          LexLeAntisymmetric(k, ks[0]);
        }
      }
      assert ks[1..][m - 1] == k;
      InsertKeyPresent(k, ks[1..]);
      assert InsertKey(k, ks) == [ks[0]] + ks[1..];
      assert [ks[0]] + ks[1..] == ks;
    }
  }

  lemma {:induction false} GroupSizesInsert(rs: seq<ReportRow>, k: string, ks: seq<string>)
    requires StrictlyAscending(ks) && k !in ks
    ensures GroupSizes(rs, InsertKey(k, ks)) == |GroupNames(rs, k)| + GroupSizes(rs, ks)
    decreases |ks|
  {
    if |ks| > 0 && !LexLe(k, ks[0]) {
      GroupSizesInsert(rs, k, ks[1..]);
      assert ([ks[0]] + InsertKey(k, ks[1..]))[1..] == InsertKey(k, ks[1..]);
    }
  }

  lemma {:induction false} GroupSizesDropFirst(rs: seq<ReportRow>, ks: seq<string>)
    requires |rs| > 0 && StrictlyAscending(ks)
    ensures GroupSizes(rs, ks) == GroupSizes(rs[1..], ks) + (if rs[0].row.level3 in ks then 1 else 0)
    decreases |ks|
  {
    if |ks| > 0 {
      GroupSizesDropFirst(rs, ks[1..]);
      assert ks == [ks[0]] + ks[1..];
      if ks[0] == rs[0].row.level3 {
        assert forall m :: 0 <= m < |ks[1..]| ==> ks[1..][m] == ks[m + 1];
        assert ks[0] !in ks[1..];
      }
    }
  }

  /** An org without rows has no names. */
  lemma NoRowsNoNames(rs: seq<ReportRow>, k: string)
    requires k !in OrgsOf(rs)
    ensures GroupNames(rs, k) == []
  {
  }

  /** Every detail row is counted in exactly one summary row: the group sizes
      add up to the number of detail rows, so grouping loses no name and
      repeats none. */
  lemma {:induction false} GroupsPartitionRows(rs: seq<ReportRow>)
    ensures GroupSizes(rs, GroupKeys(rs)) == |rs|
    decreases |rs|
  {
    if |rs| > 0 {
      var k := rs[0].row.level3;
      var rest := GroupKeys(rs[1..]);
      GroupsPartitionRows(rs[1..]);
      GroupSizesDropFirst(rs, rest);
      if k in rest {
        InsertKeyPresent(k, rest);
      } else {
        GroupSizesInsert(rs, k, rest);
        assert k !in OrgsOf(rs[1..]);
        NoRowsNoNames(rs[1..], k);
        GroupSizesDropFirst(rs, rest);
      }
    }
  }
}
