/** The process-list comparison tool (excel_compare.py): records are grouped by
    project and car/segment; a group missing from the compare table, a process
    code missing from a compare group, and a changed duration of a process
    present in both are reported.

    The report's rows are specified by `Classify`, which decides for each base
    row whether it yields a row: every reported row comes from exactly one base
    row, and a base row yields at most one. The tool walks Python sets, whose
    order is not fixed, so the tool's rows are specified up to order, as a
    multiset equal to that of `Expected`. */
module ExcelCompare {
  import opened Collect
  import opened Durations
  import opened Records

  /** The change type of a row: 缺少 (group missing), 缺少工序 (process
      missing), 工时变化 (duration changed). */
  datatype Kind = MissingGroup | MissingProcess | DurationChanged

  /** The change type as the result table shows it. */
  function Label(k: Kind): string
  {
    match k
    case MissingGroup => "缺少"
    case MissingProcess => "缺少工序"
    case DurationChanged => "工时变化"
  }

  /** The values the result table shows for a row, in column order. */
  function Values(d: ChangeRow): seq<Cell>
  {
    [Text(Label(d.kind)), Text(d.project), Text(d.unit), Text(d.code), Text(d.name), Text(d.station),
     d.baseDuration, d.compareDuration]
  }

  /** The shown values determine the row: the three change types have
      distinct labels and every field is shown. */
  lemma ValuesDetermineRow(d1: ChangeRow, d2: ChangeRow)
    ensures Values(d1) == Values(d2) ==> d1 == d2
  {
    if Values(d1) == Values(d2) {
      assert Values(d1)[0] == Values(d2)[0];
      assert Label(d1.kind) == Label(d2.kind);
    }
  }

  /** One row of the result table: change type, the base record's identity
      fields, the base duration and the compare duration. */
  datatype ChangeRow = ChangeRow(
    kind: Kind,
    project: string,
    unit: string,
    code: string,
    name: string,
    station: string,
    baseDuration: Cell,
    compareDuration: Cell)

  /** The compare duration shown when the compare table has no such process. */
  const Absent: Cell := Text("-")

  /** The table is named by its role, 基准表 (base) or 比较表 (compare). */
  datatype SchemaError = SchemaError(table: string, missing: seq<string>)

  datatype Outcome = NoFilesSelected | Failed(error: SchemaError) | Completed

  /** The required columns absent from `columns`, in the order required. */
  function MissingColumns(required: seq<string>, columns: seq<string>): (r: seq<string>)
    ensures forall col :: col in r <==> col in required && col !in columns
    ensures IsSubsequence(r, required)
  {
    if |required| == 0 then []
    else
      var rest := MissingColumns(required[1..], columns);
      if required[0] in columns then rest else [required[0]] + rest
  }

  /** validate_dataframe: an error naming the table and listing every missing
      required column, or nothing when all are there. */
  function ValidateDataframe(t: Table, fileName: string): (r: Option<SchemaError>)
    ensures r.None? <==> forall col :: col in RequiredColumns ==> col in t.columns
    ensures r.Some? ==> r.value.table == fileName && |r.value.missing| > 0
    ensures r.Some? ==> forall col :: col in r.value.missing <==> col in RequiredColumns && col !in t.columns
    ensures r.Some? ==> IsSubsequence(r.value.missing, RequiredColumns)
  {
    var missing := MissingColumns(RequiredColumns, t.columns);
    if |missing| > 0 then
      assert missing[0] in missing;
      Some(SchemaError(fileName, missing))
    else None
  }

  /** The rows of `t` whose group key is `key`, in table order. */
  function GroupOf(t: seq<Record>, key: string): (r: seq<Record>)
    ensures forall x :: x in r <==> x in t && GroupKey(x) == key
  {
    if |t| == 0 then []
    else
      var rest := GroupOf(t[1..], key);
      assert forall x :: x in t <==> x == t[0] || x in t[1..];
      if GroupKey(t[0]) == key then [t[0]] + rest else rest
  }

  function GroupKeys(t: seq<Record>): set<string>
  {
    set x | x in t :: GroupKey(x)
  }

  function Codes(rows: seq<Record>): set<string>
  {
    set x | x in rows :: x.code
  }

  predicate Matches(x: Record, key: string, process: string)
  {
    GroupKey(x) == key && x.code == process
  }

  /** The index of the first row of `t` in group `key` with process code
      `process` (what `.iloc[0]` picks), if there is one. */
  function FirstIn(t: seq<Record>, key: string, process: string): (r: Option<nat>)
    ensures r.Some? ==> r.value < |t| && Matches(t[r.value], key, process)
    ensures r.Some? ==> forall j :: 0 <= j < r.value ==> !Matches(t[j], key, process)
    ensures r.None? ==> forall j :: 0 <= j < |t| ==> !Matches(t[j], key, process)
  {
    if |t| == 0 then None
    else if Matches(t[0], key, process) then Some(0)
    else match FirstIn(t[1..], key, process)
      case None => None
      case Some(j) => Some(j + 1)
  }

  /** A missing-group or missing-process row for base row `r`. */
  function MissingRow(kind: Kind, r: Record): ChangeRow
  {
    ChangeRow(kind, r.project, r.unit, r.code, r.name, r.station, r.duration, Absent)
  }

  /** A duration-changed row: base identity, both durations. */
  function ChangedRow(base: Record, compare: Record): ChangeRow
  {
    ChangeRow(DurationChanged, base.project, base.unit, base.code, base.name, base.station,
              base.duration, compare.duration)
  }

  /** The compare table has no row in group `key`. */
  predicate GroupAbsent(c: seq<Record>, key: string)
  {
    |GroupOf(c, key)| == 0
  }

  /** The row base row `i` contributes to the report, if any. It carries the
      row's identity fields and duration; it is a 缺少 row exactly when the
      compare table lacks the group, a 缺少工序 row exactly when the compare
      group lacks the code, and otherwise a 工时变化 row only for the first
      base row of its group and code, with two different durations. */
  function Classify(b: seq<Record>, c: seq<Record>, i: nat): (r: Option<ChangeRow>)
    requires i < |b|
    ensures r.Some? ==>
      && r.value.project == b[i].project && r.value.unit == b[i].unit && r.value.code == b[i].code
      && r.value.name == b[i].name && r.value.station == b[i].station && r.value.baseDuration == b[i].duration
    ensures (r.Some? && r.value.kind == MissingGroup) <==> GroupAbsent(c, GroupKey(b[i]))
    ensures (r.Some? && r.value.kind == MissingProcess) <==>
      !GroupAbsent(c, GroupKey(b[i])) && b[i].code !in Codes(GroupOf(c, GroupKey(b[i])))
    ensures r.Some? && r.value.kind != DurationChanged ==> r.value.compareDuration == Absent
    ensures r.Some? && r.value.kind == DurationChanged ==>
      FirstIn(b, GroupKey(b[i]), b[i].code) == Some(i) && r.value.baseDuration != r.value.compareDuration
  {
    var r := b[i];
    var key := GroupKey(r);
    var group := GroupOf(c, key);
    if |group| == 0 then Some(MissingRow(MissingGroup, r))
    else if r.code !in Codes(group) then Some(MissingRow(MissingProcess, r))
    else match (FirstIn(b, key, r.code), FirstIn(c, key, r.code))
      case (Some(bi), Some(ci)) =>
        if bi == i && b[bi].duration != c[ci].duration then Some(ChangedRow(b[bi], c[ci])) else None
      case _ => None
  }

  function Classification(b: seq<Record>, c: seq<Record>): (r: seq<Option<ChangeRow>>)
    ensures |r| == |b|
    ensures forall i :: 0 <= i < |b| ==> r[i] == Classify(b, c, i)
  {
    seq(|b|, i requires 0 <= i < |b| => Classify(b, c, i))
  }

  /** The classification with only the two missing kinds kept. */
  function MissingOnly(b: seq<Record>, c: seq<Record>): (r: seq<Option<ChangeRow>>)
    ensures |r| == |b|
    ensures forall i :: 0 <= i < |b| ==> r[i] == MissingPart(Classify(b, c, i))
  {
    seq(|b|, i requires 0 <= i < |b| => MissingPart(Classify(b, c, i)))
  }

  /** The report, in base-row order: at most one row per base row; a missing
      row shows "-" for the compare duration, and a changed row two different
      durations. */
  function Expected(b: seq<Record>, c: seq<Record>): (r: seq<ChangeRow>)
    ensures |r| <= |b|
    ensures forall d :: d in r ==> WellFormed(d)
  {
    var o := Classification(b, c);
    assert forall d :: d in Flatten(o) ==> WellFormed(d) by {
      forall d | d in Flatten(o) ensures WellFormed(d) {
        FlattenMember(o, d);
      }
    }
    Flatten(o)
  }

  /** A missing row shows "-"; a changed row shows two different durations. */
  predicate WellFormed(d: ChangeRow)
  {
    if d.kind == DurationChanged then d.baseDuration != d.compareDuration else d.compareDuration == Absent
  }

  /** Base row `i` is missing from the compare table: its whole group, or
      its process code within the group. */
  predicate IsMissing(b: seq<Record>, c: seq<Record>, i: nat)
    requires i < |b|
  {
    GroupAbsent(c, GroupKey(b[i])) || b[i].code !in Codes(GroupOf(c, GroupKey(b[i])))
  }

  ghost function MissingIndices(b: seq<Record>, c: seq<Record>): set<int>
  {
    set i | 0 <= i < |b| && IsMissing(b, c, i)
  }

  /** The number of rows of the two missing kinds: none exactly when every
      row is a 工时变化 row, all exactly when none is. */
  function CountMissing(rows: seq<ChangeRow>): (n: nat)
    ensures n <= |rows|
    ensures n == 0 <==> forall k :: 0 <= k < |rows| ==> rows[k].kind == DurationChanged
    ensures n == |rows| <==> forall k :: 0 <= k < |rows| ==> rows[k].kind != DurationChanged
  {
    if |rows| == 0 then 0
    else
      var init := rows[..|rows| - 1];
      assert forall k :: 0 <= k < |init| ==> init[k] == rows[k];
      CountMissing(init) + (if rows[|rows| - 1].kind != DurationChanged then 1 else 0)
  }

  lemma CountMissingSnoc(rows: seq<ChangeRow>, row: ChangeRow)
    ensures CountMissing(rows + [row]) == CountMissing(rows) + (if row.kind != DurationChanged then 1 else 0)
  {
    assert (rows + [row])[..|rows|] == rows;
  }

  /** The group key of the record a row was made from. */
  function RowGroupKey(d: ChangeRow): string
  {
    d.project + "_" + d.unit
  }

  /** A row's group key is the group key of any record with its project and
      car/segment, in particular the record it was made from. */
  lemma RowGroupKeyIsGroupKey(d: ChangeRow, r: Record)
    requires d.project == r.project && d.unit == r.unit
    ensures RowGroupKey(d) == GroupKey(r)
  {
  }

  // ---------------------------------------------------------------------
  // Properties of the report

  /** Every base row of a group the compare table lacks entirely yields one
      missing-group row with its fields, its duration and "-"; a row of that
      kind occurs exactly as often as there are such base rows. */
  lemma MissingGroupReported(b: seq<Record>, c: seq<Record>, d: ChangeRow)
    requires d.kind == MissingGroup
    ensures multiset(Expected(b, c))[d] ==
            |set i | 0 <= i < |b| && GroupAbsent(c, GroupKey(b[i])) && MissingRow(MissingGroup, b[i]) == d|
  {
    var o := Classification(b, c);
    FlattenMultiplicity(o, d);
    assert IndicesOf(o, d) ==
           set i | 0 <= i < |b| && GroupAbsent(c, GroupKey(b[i])) && MissingRow(MissingGroup, b[i]) == d;
  }

  /** Every base row of a group present in both tables whose process code the
      compare group lacks yields one missing-process row with "-"; duplicates
      in the base table each yield their own row. */
  lemma MissingProcessReported(b: seq<Record>, c: seq<Record>, d: ChangeRow)
    requires d.kind == MissingProcess
    ensures multiset(Expected(b, c))[d] ==
            |set i | 0 <= i < |b| && !GroupAbsent(c, GroupKey(b[i]))
                     && b[i].code !in Codes(GroupOf(c, GroupKey(b[i])))
                     && MissingRow(MissingProcess, b[i]) == d|
  {
    var o := Classification(b, c);
    FlattenMultiplicity(o, d);
    assert IndicesOf(o, d) ==
           set i | 0 <= i < |b| && !GroupAbsent(c, GroupKey(b[i]))
                   && b[i].code !in Codes(GroupOf(c, GroupKey(b[i])))
                   && MissingRow(MissingProcess, b[i]) == d;
  }

  /** Only base row `i` of the first base row of its group and process code
      can yield a duration-changed row, and then only against the first
      compare row of that group and code. */
  lemma ChangedComesFromFirstRows(b: seq<Record>, c: seq<Record>, i: nat)
    requires i < |b|
    requires Classify(b, c, i).Some? && Classify(b, c, i).value.kind == DurationChanged
    ensures FirstIn(b, GroupKey(b[i]), b[i].code) == Some(i)
    ensures FirstIn(c, GroupKey(b[i]), b[i].code).Some?
    ensures var ci := FirstIn(c, GroupKey(b[i]), b[i].code).value;
            Classify(b, c, i) == Some(ChangedRow(b[i], c[ci])) && b[i].duration != c[ci].duration
  {
  }

  /** A reported duration-changed row comes from the first base and compare
      rows of its group and process code, whose durations differ. */
  lemma ChangedSource(b: seq<Record>, c: seq<Record>, d: ChangeRow) returns (i: nat)
    requires d in Expected(b, c) && d.kind == DurationChanged
    ensures i < |b| && Classification(b, c)[i] == Some(d)
    ensures FirstIn(b, RowGroupKey(d), d.code) == Some(i)
    ensures FirstIn(c, RowGroupKey(d), d.code).Some?
    ensures var ci := FirstIn(c, RowGroupKey(d), d.code).value;
            d == ChangedRow(b[i], c[ci]) && b[i].duration != c[ci].duration
  {
    var o := Classification(b, c);
    FlattenMember(o, d);
    i :| 0 <= i < |b| && o[i] == Some(d);
    ChangedComesFromFirstRows(b, c, i);
    assert GroupKey(b[i]) == RowGroupKey(d);
  }

  /** For a process code of a group present on both sides, a duration-changed
      row is reported exactly when the first base row's duration differs from
      the first compare row's, and it is that pair's row. */
  lemma ChangedIff(b: seq<Record>, c: seq<Record>, key: string, process: string)
    requires process in Codes(GroupOf(b, key)) && process in Codes(GroupOf(c, key))
    ensures FirstIn(b, key, process).Some? && FirstIn(c, key, process).Some?
    ensures var br, cr := b[FirstIn(b, key, process).value], c[FirstIn(c, key, process).value];
            (exists d :: d in Expected(b, c) && d.kind == DurationChanged && RowGroupKey(d) == key && d.code == process)
            <==> br.duration != cr.duration
    ensures var br, cr := b[FirstIn(b, key, process).value], c[FirstIn(c, key, process).value];
            br.duration != cr.duration ==> ChangedRow(br, cr) in Expected(b, c)
  {
    FirstInOfCode(b, key, process);
    FirstInOfCode(c, key, process);
    var bi, ci := FirstIn(b, key, process).value, FirstIn(c, key, process).value;
    var br, cr := b[bi], c[ci];
    if br.duration != cr.duration {
      var o := Classification(b, c);
      assert o[bi] == Classify(b, c, bi);
      assert GroupKey(br) == key && br.code == process;
      assert cr in GroupOf(c, key);
      assert o[bi] == Some(ChangedRow(br, cr));
      FlattenMember(o, ChangedRow(br, cr));
      assert RowGroupKey(ChangedRow(br, cr)) == key;
    }
    forall d | d in Expected(b, c) && d.kind == DurationChanged && RowGroupKey(d) == key && d.code == process
      ensures br.duration != cr.duration
    {
      var i := ChangedSource(b, c, d);
    }
  }

  /** At most one duration-changed row per group key and process code, and
      it occurs once. */
  lemma ChangedAtMostOnce(b: seq<Record>, c: seq<Record>, d1: ChangeRow, d2: ChangeRow)
    requires d1 in Expected(b, c) && d2 in Expected(b, c)
    requires d1.kind == DurationChanged && d2.kind == DurationChanged
    requires RowGroupKey(d1) == RowGroupKey(d2) && d1.code == d2.code
    ensures d1 == d2
    ensures multiset(Expected(b, c))[d1] == 1
  {
    var o := Classification(b, c);
    var i1 := ChangedSource(b, c, d1);
    var i2 := ChangedSource(b, c, d2);
    FlattenMultiplicity(o, d1);
    forall i | i in IndicesOf(o, d1) ensures i == i1 {
      ChangedComesFromFirstRows(b, c, i);
      assert GroupKey(b[i]) == RowGroupKey(d1);
    }
    assert IndicesOf(o, d1) == {i1};
  }

  /** Every reported row carries the identity fields and the duration of some
      base row: nothing is reported from the compare table alone. */
  lemma RowsComeFromBase(b: seq<Record>, c: seq<Record>, d: ChangeRow)
    requires d in Expected(b, c)
    ensures exists i :: 0 <= i < |b| && d.project == b[i].project && d.unit == b[i].unit
              && d.code == b[i].code && d.name == b[i].name && d.station == b[i].station
              && d.baseDuration == b[i].duration
  {
    var o := Classification(b, c);
    FlattenMember(o, d);
    var i :| 0 <= i < |b| && o[i] == Some(d);
  }

  /** A reported row's group and process code occur in the base table. */
  lemma RowInBaseGroup(b: seq<Record>, c: seq<Record>, d: ChangeRow)
    requires d in Expected(b, c)
    ensures RowGroupKey(d) in GroupKeys(b)
    ensures d.code in Codes(GroupOf(b, RowGroupKey(d)))
  {
    RowsComeFromBase(b, c, d);
    var i :| 0 <= i < |b| && d.project == b[i].project && d.unit == b[i].unit && d.code == b[i].code
             && d.name == b[i].name && d.station == b[i].station && d.baseDuration == b[i].duration;
    var x := b[i];
    assert GroupKey(x) == RowGroupKey(d);
    assert x in b;
    assert x in GroupOf(b, RowGroupKey(d));
  }

  /** Groups found only in the compare table, and process codes found only in
      a compare group, never produce a row. */
  lemma CompareOnlyNeverReported(b: seq<Record>, c: seq<Record>, key: string, process: string)
    ensures key !in GroupKeys(b) ==> forall d :: d in Expected(b, c) ==> RowGroupKey(d) != key
    ensures process !in Codes(GroupOf(b, key)) ==>
              forall d :: d in Expected(b, c) ==> !(RowGroupKey(d) == key && d.code == process)
  {
    forall d | d in Expected(b, c) {
      RowInBaseGroup(b, c, d);
    }
  }

  /** The missing count of the report is the number of base rows missing from
      the compare table; duration-changed rows are not counted. */
  lemma {:induction false} MissingCountOfExpected(b: seq<Record>, c: seq<Record>)
    ensures CountMissing(Expected(b, c)) == |Flatten(MissingOnly(b, c))| == |MissingIndices(b, c)|
  {
    var o, m := Classification(b, c), MissingOnly(b, c);
    CountMissingFlatten(o, m);
    FlattenLength(m);
    forall i | 0 <= i < |b| ensures m[i].Some? <==> IsMissing(b, c, i) {
      ClassifyMissing(b, c, i);
    }
    assert PresentIndices(m) == MissingIndices(b, c);
  }

  /** A base row yields a row of one of the missing kinds exactly when it is
      missing from the compare table. */
  lemma ClassifyMissing(b: seq<Record>, c: seq<Record>, i: nat)
    requires i < |b|
    ensures (Classify(b, c, i).Some? && Classify(b, c, i).value.kind != DurationChanged) <==> IsMissing(b, c, i)
  {
  }

  /** The part of a classification entry that the missing count counts. */
  function MissingPart(o: Option<ChangeRow>): Option<ChangeRow>
  {
    if o.Some? && o.value.kind != DurationChanged then o else None
  }

  lemma {:induction false} CountMissingFlatten(o: seq<Option<ChangeRow>>, m: seq<Option<ChangeRow>>)
    requires |o| == |m|
    requires forall i :: 0 <= i < |o| ==> m[i] == MissingPart(o[i])
    ensures CountMissing(Flatten(o)) == |Flatten(m)|
  {
    if |o| > 0 {
      var n := |o| - 1;
      var o', m' := o[..n], m[..n];
      assert forall i :: 0 <= i < n ==> m'[i] == MissingPart(o'[i]) by {
        forall i | 0 <= i < n ensures m'[i] == MissingPart(o'[i]) {
          assert o'[i] == o[i] && m'[i] == m[i];
        }
      }
      CountMissingFlatten(o', m');
      assert Flatten(o) == Flatten(o') + AsSeq(o[n]);
      assert Flatten(m) == Flatten(m') + AsSeq(m[n]);
      CountMissingStep(Flatten(o'), Flatten(m'), o[n], m[n]);
    }
  }

  /** One more classification entry adds one to the count exactly when its
      missing part is present. */
  lemma CountMissingStep(fo: seq<ChangeRow>, fm: seq<ChangeRow>, x: Option<ChangeRow>, y: Option<ChangeRow>)
    requires CountMissing(fo) == |fm| && y == MissingPart(x)
    ensures CountMissing(fo + AsSeq(x)) == |fm + AsSeq(y)|
  {
    if x.Some? {
      CountMissingSnoc(fo, x.value);
    } else {
      assert fo + AsSeq(x) == fo;
    }
  }

  /** Scenario: the compare table has nothing for the base record's project
      and car/segment, so one missing-group row with "-" is reported. */
  lemma ScenarioMissingGroup()
    ensures var base := [Record("P1", "U1", "OP1", "Weld", "S1", Num(5.0))];
            var compare := [Record("P1", "U2", "OP1", "Weld", "S1", Num(5.0))];
            Expected(base, compare) == [ChangeRow(MissingGroup, "P1", "U1", "OP1", "Weld", "S1", Num(5.0), Text("-"))]
  {
    var base := [Record("P1", "U1", "OP1", "Weld", "S1", Num(5.0))];
    var compare := [Record("P1", "U2", "OP1", "Weld", "S1", Num(5.0))];
    assert GroupKey(compare[0]) == "P1_U2" != "P1_U1" == GroupKey(base[0]);
    assert GroupOf(compare, "P1_U1") == [];
    assert Classification(base, compare)[0] == Some(MissingRow(MissingGroup, base[0]));
    assert Classification(base, compare)[..0] == [];
  }

  /** Scenario: base group (P1, U1) has OP1 and OP2, the compare group only
      OP1 with the same duration: exactly one missing-process row, for OP2. */
  lemma ScenarioMissingProcess()
    ensures var base := [Record("P1", "U1", "OP1", "Weld", "S1", Num(5.0)),
                         Record("P1", "U1", "OP2", "Paint", "S2", Num(3.0))];
            var compare := [Record("P1", "U1", "OP1", "Weld", "S1", Num(5.0))];
            Expected(base, compare) == [ChangeRow(MissingProcess, "P1", "U1", "OP2", "Paint", "S2", Num(3.0), Text("-"))]
  {
    var base := [Record("P1", "U1", "OP1", "Weld", "S1", Num(5.0)),
                 Record("P1", "U1", "OP2", "Paint", "S2", Num(3.0))];
    var compare := [Record("P1", "U1", "OP1", "Weld", "S1", Num(5.0))];
    var key := "P1_U1";
    assert GroupKey(base[0]) == key && GroupKey(base[1]) == key && GroupKey(compare[0]) == key;
    assert GroupOf(compare, key) == compare by {
      assert compare[1..] == [];
    }
    assert Codes(compare) == {"OP1"};
    assert FirstIn(base, key, "OP1") == Some(0);
    assert FirstIn(compare, key, "OP1") == Some(0);
    var o := Classification(base, compare);
    assert o[0] == None;
    assert o[1] == Some(MissingRow(MissingProcess, base[1]));
    assert o[..1][..0] == [];
    assert o[..1] == [None];
    assert o[..2] == o;
  }

  // ---------------------------------------------------------------------
  // The tool

  /** `mcls` is the missing part of the classification `cls` of `b`. */
  ghost predicate Parts(b: seq<Record>, cls: seq<Option<ChangeRow>>, mcls: seq<Option<ChangeRow>>)
  {
    |cls| == |b| && |mcls| == |b| && forall i :: 0 <= i < |b| ==> mcls[i] == MissingPart(cls[i])
  }

  /** What a group's classification amounts to when the compare table lacks
      the group: a 缺少 row for each base row of it. */
  lemma MissingGroupClassified(b: seq<Record>, c: seq<Record>, key: string)
    requires GroupAbsent(c, key)
    ensures forall i :: 0 <= i < |b| && GroupKey(b[i]) == key ==>
      Classification(b, c)[i] == Some(MissingRow(MissingGroup, b[i]))
  {
  }

  /** ... and when the compare group lacks a process code: a 缺少工序 row for
      each base row of the group with that code. */
  lemma MissingProcessClassified(b: seq<Record>, c: seq<Record>, key: string, compareProcesses: set<string>)
    requires !GroupAbsent(c, key) && compareProcesses == Codes(GroupOf(c, key))
    ensures forall i :: 0 <= i < |b| && GroupKey(b[i]) == key && b[i].code !in compareProcesses ==>
      Classification(b, c)[i] == Some(MissingRow(MissingProcess, b[i]))
  {
  }

  /** For process code `process` of group `key` on both sides: the first base
      row yields the changed row when the first rows' durations differ and
      nothing otherwise; the other base rows with that code yield nothing. */
  ghost predicate ChangedSpec(b: seq<Record>, c: seq<Record>, cls: seq<Option<ChangeRow>>, key: string, process: string)
    requires |cls| == |b|
  {
    && FirstIn(b, key, process).Some? && FirstIn(c, key, process).Some?
    && var bi, ci := FirstIn(b, key, process).value, FirstIn(c, key, process).value;
       && cls[bi] == (if b[bi].duration != c[ci].duration then Some(ChangedRow(b[bi], c[ci])) else None)
       && forall i :: 0 <= i < |b| && Matches(b[i], key, process) && i != bi ==> cls[i].None?
  }

  lemma ChangedClassified(b: seq<Record>, c: seq<Record>, key: string,
                          baseProcesses: set<string>, compareProcesses: set<string>)
    requires !GroupAbsent(c, key)
    requires baseProcesses == Codes(GroupOf(b, key)) && compareProcesses == Codes(GroupOf(c, key))
    ensures forall process :: process in baseProcesses * compareProcesses ==>
      ChangedSpec(b, c, Classification(b, c), key, process)
  {
    forall process | process in baseProcesses * compareProcesses
      ensures ChangedSpec(b, c, Classification(b, c), key, process)
    {
      FirstInOfCode(b, key, process);
      FirstInOfCode(c, key, process);
    }
  }

  /** Every base row of group `key` has its code among the group's codes. */
  lemma InBaseProcesses(b: seq<Record>, key: string, baseProcesses: set<string>)
    requires baseProcesses == Codes(GroupOf(b, key))
    ensures forall i :: 0 <= i < |b| && GroupKey(b[i]) == key ==> b[i].code in baseProcesses
  {
    forall i | 0 <= i < |b| && GroupKey(b[i]) == key
      ensures b[i].code in baseProcesses
    {
      assert b[i] in GroupOf(b, key);
    }
  }

  /** A process code of group `key` has a first row there. */
  lemma FirstInOfCode(t: seq<Record>, key: string, process: string)
    requires process in Codes(GroupOf(t, key))
    ensures FirstIn(t, key, process).Some?
  {
    var x :| x in GroupOf(t, key) && x.code == process;
    var j :| 0 <= j < |t| && t[j] == x;
    assert Matches(t[j], key, process);
  }

  /** The base rows below `j` in group `key`. */
  ghost function GroupBelow(b: seq<Record>, key: string, j: int): set<int>
    requires j <= |b|
  {
    set i | 0 <= i < j && GroupKey(b[i]) == key
  }

  lemma GroupBelowStep(b: seq<Record>, key: string, j: int, done: set<int>)
    requires 0 <= j < |b|
    ensures GroupKey(b[j]) == key ==> done + GroupBelow(b, key, j + 1) == done + GroupBelow(b, key, j) + {j}
    ensures GroupKey(b[j]) != key ==> done + GroupBelow(b, key, j + 1) == done + GroupBelow(b, key, j)
    ensures j !in GroupBelow(b, key, j)
  {
    var g, g' := GroupBelow(b, key, j), GroupBelow(b, key, j + 1);
    if GroupKey(b[j]) == key {
      assert g' == g + {j};
    } else {
      assert g' == g;
    }
  }

  /** The base rows below `j` in group `key` whose code is in `missing`. */
  ghost function MissingBelow(b: seq<Record>, key: string, missing: set<string>, j: int): set<int>
    requires j <= |b|
  {
    set i | 0 <= i < j && GroupKey(b[i]) == key && b[i].code in missing
  }

  lemma MissingBelowStep(b: seq<Record>, key: string, missing: set<string>, j: int, done: set<int>)
    requires 0 <= j < |b|
    ensures GroupKey(b[j]) == key && b[j].code in missing ==>
      done + MissingBelow(b, key, missing, j + 1) == done + MissingBelow(b, key, missing, j) + {j}
    ensures !(GroupKey(b[j]) == key && b[j].code in missing) ==>
      done + MissingBelow(b, key, missing, j + 1) == done + MissingBelow(b, key, missing, j)
    ensures j !in MissingBelow(b, key, missing, j)
  {
    var m, m' := MissingBelow(b, key, missing, j), MissingBelow(b, key, missing, j + 1);
    if GroupKey(b[j]) == key && b[j].code in missing {
      assert m' == m + {j};
    } else {
      assert m' == m;
    }
  }

  /** Process code `process` of group `key` occurs on both sides and its first
      rows' durations differ. */
  predicate DiffersAt(b: seq<Record>, c: seq<Record>, key: string, process: string)
  {
    && FirstIn(b, key, process).Some? && FirstIn(c, key, process).Some?
    && b[FirstIn(b, key, process).value].duration != c[FirstIn(c, key, process).value].duration
  }

  /** The first base rows of the codes in `processes` whose durations differ. */
  ghost function ChangedOf(b: seq<Record>, c: seq<Record>, key: string, processes: set<string>): set<int>
  {
    set p | p in processes && DiffersAt(b, c, key, p) :: FirstIn(b, key, p).value
  }

  lemma ChangedOfStep(b: seq<Record>, c: seq<Record>, key: string, processes: set<string>, process: string,
                      done: set<int>)
    ensures DiffersAt(b, c, key, process) ==>
      done + ChangedOf(b, c, key, processes + {process}) ==
        done + ChangedOf(b, c, key, processes) + {FirstIn(b, key, process).value}
    ensures !DiffersAt(b, c, key, process) ==>
      done + ChangedOf(b, c, key, processes + {process}) == done + ChangedOf(b, c, key, processes)
  {
    var x, x' := ChangedOf(b, c, key, processes), ChangedOf(b, c, key, processes + {process});
    if DiffersAt(b, c, key, process) {
      assert x' == x + {FirstIn(b, key, process).value};
    } else {
      assert x' == x;
    }
  }

  lemma ChangedOfCodes(b: seq<Record>, c: seq<Record>, key: string, processes: set<string>)
    ensures forall i :: i in ChangedOf(b, c, key, processes) ==>
      0 <= i < |b| && GroupKey(b[i]) == key && b[i].code in processes
  {
    forall i | i in ChangedOf(b, c, key, processes)
      ensures 0 <= i < |b| && GroupKey(b[i]) == key && b[i].code in processes
    {
      var p :| p in processes && DiffersAt(b, c, key, p) && i == FirstIn(b, key, p).value;
    }
  }

  /** The reported base rows all belong to groups in `doneKeys`, and every
      base row of those groups that is not reported yields nothing. */
  ghost predicate Covered(b: seq<Record>, cls: seq<Option<ChangeRow>>, done: set<int>, doneKeys: set<string>)
    requires |cls| == |b|
  {
    && (forall i :: i in done ==> 0 <= i < |b| && GroupKey(b[i]) in doneKeys)
    && (forall i :: 0 <= i < |b| && i !in done && GroupKey(b[i]) in doneKeys ==> cls[i].None?)
  }

  lemma AddGroup(b: seq<Record>, cls: seq<Option<ChangeRow>>, done: set<int>, doneKeys: set<string>,
                 key: string, extra: set<int>)
    requires |cls| == |b| && Covered(b, cls, done, doneKeys)
    requires forall i :: i in extra ==> 0 <= i < |b| && GroupKey(b[i]) == key
    requires forall i :: 0 <= i < |b| && GroupKey(b[i]) == key && i !in extra ==> cls[i].None?
    ensures Covered(b, cls, done + extra, doneKeys + {key})
  {
  }

  /** The rows of group `key` the tool reports when the compare table has the
      group are exactly those the classification gives a row for. */
  lemma GroupCovered(b: seq<Record>, c: seq<Record>, key: string,
                     baseProcesses: set<string>, compareProcesses: set<string>)
    requires !GroupAbsent(c, key)
    requires baseProcesses == Codes(GroupOf(b, key)) && compareProcesses == Codes(GroupOf(c, key))
    ensures forall i :: i in MissingBelow(b, key, baseProcesses - compareProcesses, |b|) ==>
      0 <= i < |b| && GroupKey(b[i]) == key
    ensures forall i :: 0 <= i < |b| && GroupKey(b[i]) == key ==>
      || i in MissingBelow(b, key, baseProcesses - compareProcesses, |b|)
      || i in ChangedOf(b, c, key, baseProcesses * compareProcesses)
      || Classification(b, c)[i].None?
  {
    var common := baseProcesses * compareProcesses;
    var cls := Classification(b, c);
    InBaseProcesses(b, key, baseProcesses);
    ChangedClassified(b, c, key, baseProcesses, compareProcesses);
    forall i | 0 <= i < |b| && GroupKey(b[i]) == key && b[i].code in compareProcesses
      ensures i in ChangedOf(b, c, key, common) || cls[i].None?
    {
      var p := b[i].code;
      assert p in common;
      assert ChangedSpec(b, c, cls, key, p);
      assert Matches(b[i], key, p);
      if i == FirstIn(b, key, p).value && DiffersAt(b, c, key, p) {
        assert i in ChangedOf(b, c, key, common);
      }
    }
  }

  /** The process-list comparison window's state: the rows of the result
      table, the missing-process count shown under it, and the result list,
      which is reset but never filled. */
  class ExcelCompareTool {
    var rows: seq<ChangeRow>
    var missingCount: nat
    var comparisonResult: Option<seq<ChangeRow>>

    constructor ()
      ensures rows == [] && missingCount == 0 && comparisonResult == None
    {
      rows := [];
      missingCount := 0;
      comparisonResult := None;
    }

    /** The rows so far are those of the base rows in `done` (`cls` being the
        classification and `mcls` its missing part), and the count matches. */
    ghost predicate Tallied(cls: seq<Option<ChangeRow>>, mcls: seq<Option<ChangeRow>>, done: set<int>)
      reads this
    {
      && multiset(rows) == multiset(Restrict(cls, done))
      && missingCount == |Restrict(mcls, done)|
      && missingCount == CountMissing(rows)
    }

    /** Appends base row `i`'s row, which is what the classification gives for it. */
    method Report(ghost cls: seq<Option<ChangeRow>>, ghost mcls: seq<Option<ChangeRow>>, i: nat, row: ChangeRow,
                  ghost done: set<int>)
      requires |mcls| == |cls| && i < |cls| && i !in done
      requires cls[i] == Some(row)
      requires mcls[i] == MissingPart(Some(row))
      requires Tallied(cls, mcls, done)
      modifies this
      ensures rows == old(rows) + [row]
      ensures missingCount == old(missingCount) + (if row.kind != DurationChanged then 1 else 0)
      ensures comparisonResult == old(comparisonResult)
      ensures Tallied(cls, mcls, done + {i})
    {
      CountMissingSnoc(rows, row);
      RestrictInsert(cls, done, i);
      RestrictInsert(mcls, done, i);
      rows := rows + [row];
      if row.kind != DurationChanged {
        missingCount := missingCount + 1;
      }
    }

    /** A group the compare table lacks: one 缺少 row per base row of it, in
        base order. */
    method ReportMissingGroup(b: seq<Record>, key: string,
                              ghost cls: seq<Option<ChangeRow>>, ghost mcls: seq<Option<ChangeRow>>,
                              ghost done: set<int>) returns (ghost done': set<int>)
      requires Parts(b, cls, mcls)
      requires forall i :: 0 <= i < |b| && GroupKey(b[i]) == key ==> cls[i] == Some(MissingRow(MissingGroup, b[i]))
      requires forall i :: i in done ==> 0 <= i < |b| && GroupKey(b[i]) != key
      requires Tallied(cls, mcls, done)
      modifies this
      ensures done' == done + GroupBelow(b, key, |b|)
      ensures Tallied(cls, mcls, done')
      ensures comparisonResult == old(comparisonResult)
    {
      done' := done;
      for j := 0 to |b|
        invariant done' == done + GroupBelow(b, key, j)
        invariant Tallied(cls, mcls, done')
        invariant comparisonResult == old(comparisonResult)
      {
        GroupBelowStep(b, key, j, done);
        if GroupKey(b[j]) == key {
          Report(cls, mcls, j, MissingRow(MissingGroup, b[j]), done');
          done' := done' + {j};
        }
      }
    }

    /** A group present on both sides: one 缺少工序 row per base row whose
        process code is in `missingProcesses`, in base order. */
    method ReportMissingProcesses(b: seq<Record>, key: string, missingProcesses: set<string>,
                                  ghost cls: seq<Option<ChangeRow>>, ghost mcls: seq<Option<ChangeRow>>,
                                  ghost done: set<int>) returns (ghost done': set<int>)
      requires Parts(b, cls, mcls)
      requires forall i :: 0 <= i < |b| && GroupKey(b[i]) == key && b[i].code in missingProcesses ==>
        cls[i] == Some(MissingRow(MissingProcess, b[i]))
      requires forall i :: i in done ==> 0 <= i < |b| && GroupKey(b[i]) != key
      requires Tallied(cls, mcls, done)
      modifies this
      ensures done' == done + MissingBelow(b, key, missingProcesses, |b|)
      ensures Tallied(cls, mcls, done')
      ensures comparisonResult == old(comparisonResult)
    {
      done' := done;
      for j := 0 to |b|
        invariant done' == done + MissingBelow(b, key, missingProcesses, j)
        invariant Tallied(cls, mcls, done')
        invariant comparisonResult == old(comparisonResult)
      {
        MissingBelowStep(b, key, missingProcesses, j, done);
        if GroupKey(b[j]) == key && b[j].code in missingProcesses {
          Report(cls, mcls, j, MissingRow(MissingProcess, b[j]), done');
          done' := done' + {j};
        }
      }
    }

    /** A group present on both sides: for each process code in
        `commonProcesses`, one 工时变化 row when the first rows' durations differ. */
    method ReportChangedDurations(b: seq<Record>, c: seq<Record>, key: string, commonProcesses: set<string>,
                                  ghost cls: seq<Option<ChangeRow>>, ghost mcls: seq<Option<ChangeRow>>,
                                  ghost done: set<int>) returns (ghost done': set<int>)
      requires Parts(b, cls, mcls)
      requires forall process :: process in commonProcesses ==> ChangedSpec(b, c, cls, key, process)
      requires forall i :: i in done ==> 0 <= i < |b| && (GroupKey(b[i]) != key || b[i].code !in commonProcesses)
      requires Tallied(cls, mcls, done)
      modifies this
      ensures done' == done + ChangedOf(b, c, key, commonProcesses)
      ensures Tallied(cls, mcls, done')
      ensures comparisonResult == old(comparisonResult)
    {
      done' := done;
      var left := commonProcesses;
      while left != {}
        invariant left <= commonProcesses
        invariant done' == done + ChangedOf(b, c, key, commonProcesses - left)
        invariant Tallied(cls, mcls, done')
        invariant comparisonResult == old(comparisonResult)
        decreases left
      {
        var process :| process in left;
        assert ChangedSpec(b, c, cls, key, process);
        ghost var handled := commonProcesses - left;
        ChangedOfStep(b, c, key, handled, process, done);
        ChangedOfCodes(b, c, key, handled);
        HandleOne(commonProcesses, left, process);
        var bi, ci := FirstIn(b, key, process).value, FirstIn(c, key, process).value;
        var baseRow, compareRow := b[bi], c[ci];
        if baseRow.duration != compareRow.duration {
          assert bi !in done;
          Report(cls, mcls, bi, ChangedRow(baseRow, compareRow), done');
          done' := done' + {bi};
        }
        left := left - {process};
      }
    }

    /** The body of the loop over all group keys, for group `key`. */
    method CompareGroup(b: seq<Record>, c: seq<Record>, key: string,
                        ghost cls: seq<Option<ChangeRow>>, ghost mcls: seq<Option<ChangeRow>>,
                        ghost done: set<int>, ghost doneKeys: set<string>) returns (ghost done': set<int>)
      requires cls == Classification(b, c) && mcls == MissingOnly(b, c)
      requires key !in doneKeys
      requires Covered(b, cls, done, doneKeys) && Tallied(cls, mcls, done)
      modifies this
      ensures Covered(b, cls, done', doneKeys + {key}) && Tallied(cls, mcls, done')
      ensures comparisonResult == old(comparisonResult)
    {
      assert Parts(b, cls, mcls);
      var baseRows := GroupOf(b, key);
      var compareRows := GroupOf(c, key);
      if |compareRows| == 0 {
        MissingGroupClassified(b, c, key);
        done' := ReportMissingGroup(b, key, cls, mcls, done);
        AddGroup(b, cls, done, doneKeys, key, GroupBelow(b, key, |b|));
      } else {
        var baseProcesses := Codes(baseRows);
        var compareProcesses := Codes(compareRows);
        var missingProcesses := baseProcesses - compareProcesses;
        var commonProcesses := baseProcesses * compareProcesses;
        MissingProcessClassified(b, c, key, compareProcesses);
        ghost var done1 := ReportMissingProcesses(b, key, missingProcesses, cls, mcls, done);
        ChangedClassified(b, c, key, baseProcesses, compareProcesses);
        done' := ReportChangedDurations(b, c, key, commonProcesses, cls, mcls, done1);
        ChangedOfCodes(b, c, key, commonProcesses);
        GroupCovered(b, c, key, baseProcesses, compareProcesses);
        ghost var extra := MissingBelow(b, key, missingProcesses, |b|) + ChangedOf(b, c, key, commonProcesses);
        assert done' == done + extra;
        AddGroup(b, cls, done, doneKeys, key, extra);
      }
    }

    /** compare_files: resets the count and the result table, validates both
        tables, and reports every base row missing from the compare table or
        whose duration changed. */
    method CompareFiles(baseFile: Option<Table>, compareFile: Option<Table>) returns (outcome: Outcome)
      modifies this
      ensures baseFile.None? || compareFile.None? ==> outcome == NoFilesSelected && unchanged(this)
      ensures outcome != NoFilesSelected ==> baseFile.Some? && compareFile.Some?
      ensures outcome.Failed? ==> rows == [] && missingCount == 0 && comparisonResult == old(comparisonResult)
      ensures baseFile.Some? && compareFile.Some? ==>
        var v1 := ValidateDataframe(baseFile.value, "基准表");
        var v2 := ValidateDataframe(compareFile.value, "比较表");
        && (v1.Some? ==> outcome == Failed(v1.value))
        && (v1.None? && v2.Some? ==> outcome == Failed(v2.value))
        && (v1.None? && v2.None? ==> outcome == Completed)
      ensures outcome == Completed ==>
        var b, c := baseFile.value.rows, compareFile.value.rows;
        && multiset(rows) == multiset(Expected(b, c))
        && missingCount == CountMissing(rows)
        && missingCount == |MissingIndices(b, c)|
        && comparisonResult == Some([])
    {
      if baseFile.None? || compareFile.None? {
        return NoFilesSelected;
      }
      missingCount := 0;
      rows := [];
      var dfBase, dfCompare := baseFile.value, compareFile.value;
      var invalid := ValidateDataframe(dfBase, "基准表");
      if invalid.Some? {
        return Failed(invalid.value);
      }
      invalid := ValidateDataframe(dfCompare, "比较表");
      if invalid.Some? {
        return Failed(invalid.value);
      }
      comparisonResult := Some([]);
      CompareAll(dfBase.rows, dfCompare.rows);
      return Completed;
    }

    /** The loop over the union of both tables' group keys, from an empty
        result table. */
    method CompareAll(b: seq<Record>, c: seq<Record>)
      requires rows == [] && missingCount == 0
      modifies this
      ensures multiset(rows) == multiset(Expected(b, c))
      ensures missingCount == CountMissing(rows)
      ensures missingCount == |MissingIndices(b, c)|
      ensures comparisonResult == old(comparisonResult)
    {
      var allKeys := GroupKeys(b) + GroupKeys(c);
      ghost var cls, mcls := Classification(b, c), MissingOnly(b, c);
      ghost var done: set<int> := {};
      RestrictNothing(cls);
      RestrictNothing(mcls);
      var remaining := allKeys;
      while remaining != {}
        invariant remaining <= allKeys
        invariant Covered(b, cls, done, allKeys - remaining) && Tallied(cls, mcls, done)
        invariant comparisonResult == old(comparisonResult)
        decreases remaining
      {
        var key :| key in remaining;
        ghost var doneKeys := allKeys - remaining;
        done := CompareGroup(b, c, key, cls, mcls, done, doneKeys);
        assert doneKeys + {key} == allKeys - (remaining - {key});
        remaining := remaining - {key};
      }
      Finish(b, c, cls, mcls, done, allKeys);
    }

    /** After every group key: the rows are the report, up to order. */
    lemma Finish(b: seq<Record>, c: seq<Record>, cls: seq<Option<ChangeRow>>, mcls: seq<Option<ChangeRow>>,
                 done: set<int>, allKeys: set<string>)
      requires cls == Classification(b, c) && mcls == MissingOnly(b, c)
      requires GroupKeys(b) <= allKeys
      requires Covered(b, cls, done, allKeys) && Tallied(cls, mcls, done)
      ensures multiset(rows) == multiset(Expected(b, c))
      ensures missingCount == CountMissing(rows) && missingCount == |MissingIndices(b, c)|
    {
      forall i | 0 <= i < |b| ensures GroupKey(b[i]) in allKeys {
        assert b[i] in b;
      }
      RestrictCovers(cls, done);
      RestrictCovers(mcls, done);
      MissingCountOfExpected(b, c);
    }
  }
}
