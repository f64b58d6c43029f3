/** The duration comparison (time_compare.py): records of an EAS export and
    of a second table are matched by their record key, and every key present
    in both tables whose first rows' durations differ yields a difference row
    carrying the signed, rounded delta. */
module TimeCompare {
  import opened Collect
  import opened Durations
  import opened Records

  /** One entry of `differences`: the EAS row's identity fields, both
      durations as read by `float()`, and the delta rounded to two decimals. */
  datatype Difference = Difference(
    project: string,
    unit: string,
    code: string,
    name: string,
    station: string,
    easDuration: real,
    compareDuration: real,
    delta: real)

  /** The colour of the result table's delta cell. */
  datatype Color = Red | Green

  /** A row of the result table: the difference shown and its delta colour. */
  datatype TreeRow = TreeRow(diff: Difference, color: Color)

  /** What one run of compare_files ends with. A conversion failure carries
      the cell `float()` refused. */
  datatype Outcome =
    | NoFilesSelected
    | MissingColumn(column: string)
    | ConversionFailed(cell: Cell)
    | Completed(totalRecords: nat, changedRecords: nat)

  // ---------------------------------------------------------------------
  // Required columns

  /** The first required column, in the order given, that at least one of the
      two headers lacks. */
  function FirstMissingColumn(required: seq<string>, easColumns: seq<string>, compareColumns: seq<string>)
    : (r: Option<string>)
    ensures r.None? <==> forall k :: 0 <= k < |required| ==> required[k] in easColumns && required[k] in compareColumns
    ensures r.Some? ==>
      exists k :: 0 <= k < |required| && required[k] == r.value
        && (r.value !in easColumns || r.value !in compareColumns)
        && forall j :: 0 <= j < k ==> required[j] in easColumns && required[j] in compareColumns
  {
    if |required| == 0 then None
    else if required[0] !in easColumns || required[0] !in compareColumns then Some(required[0])
    else
      var r := FirstMissingColumn(required[1..], easColumns, compareColumns);
      if r.Some? then
        var k :| 0 <= k < |required[1..]| && required[1..][k] == r.value
          && (r.value !in easColumns || r.value !in compareColumns)
          && forall j :: 0 <= j < k ==> required[1..][j] in easColumns && required[1..][j] in compareColumns;
        assert required[k + 1] == r.value;
        assert forall j :: 0 <= j < k + 1 ==> required[j] in easColumns && required[j] in compareColumns by {
          forall j | 0 <= j < k + 1 ensures required[j] in easColumns && required[j] in compareColumns {
            if j > 0 { assert required[j] == required[1..][j - 1]; }
          }
        }
        r
      else
        assert forall k :: 0 <= k < |required| ==> required[k] in easColumns && required[k] in compareColumns by {
          forall k | 0 <= k < |required| ensures required[k] in easColumns && required[k] in compareColumns {
            if k > 0 { assert required[k] == required[1..][k - 1]; }
          }
        }
        r
  }

  /** The column check of compare_files: the loop over the required columns
      that stops at the first one either header lacks. */
  method CheckColumns(easColumns: seq<string>, compareColumns: seq<string>) returns (missing: Option<string>)
    ensures missing == FirstMissingColumn(RequiredColumns, easColumns, compareColumns)
  {
    var k := 0;
    while k < |RequiredColumns|
      invariant 0 <= k <= |RequiredColumns|
      invariant FirstMissingColumn(RequiredColumns, easColumns, compareColumns)
                == FirstMissingColumn(RequiredColumns[k..], easColumns, compareColumns)
    {
      var col := RequiredColumns[k];
      if col !in easColumns || col !in compareColumns {
        return Some(col);
      }
      assert RequiredColumns[k..][1..] == RequiredColumns[k + 1..];
      k := k + 1;
    }
    return None;
  }

  // ---------------------------------------------------------------------
  // Record keys and the reference reconciliation

  /** The record keys of a table's rows. */
  function RecordKeys(t: seq<Record>): set<string>
  {
    set x | x in t :: RecordKey(x)
  }

  /** The keys present in both tables: the records that are compared. */
  function CommonKeys(b: seq<Record>, c: seq<Record>): set<string>
  {
    RecordKeys(b) * RecordKeys(c)
  }

  /** The index of the first row of `t` with record key `key` (what `.iloc[0]`
      picks), if there is one. */
  function FirstKey(t: seq<Record>, key: string): (r: Option<nat>)
    ensures r.Some? ==> r.value < |t| && RecordKey(t[r.value]) == key
    ensures r.Some? ==> forall j :: 0 <= j < r.value ==> RecordKey(t[j]) != key
    ensures r.None? ==> forall j :: 0 <= j < |t| ==> RecordKey(t[j]) != key
  {
    if |t| == 0 then None
    else if RecordKey(t[0]) == key then Some(0)
    else match FirstKey(t[1..], key)
      case None => None
      case Some(j) => Some(j + 1)
  }

  /** A key of a table has a first row there. */
  lemma FirstKeyOfMember(t: seq<Record>, key: string)
    requires key in RecordKeys(t)
    ensures FirstKey(t, key).Some?
  {
    var x :| x in t && RecordKey(x) == key;
    var j :| 0 <= j < |t| && t[j] == x;
  }

  /** The difference row for EAS row `r` with durations `eas` and `compare`:
      its delta is within half a hundredth of compare − EAS, a whole number of
      hundredths, and never of the opposite sign. */
  function MakeDifference(r: Record, eas: real, compare: real): (d: Difference)
    ensures -0.005 <= d.delta - (compare - eas) <= 0.005
    ensures (d.delta * 100.0).Floor as real == d.delta * 100.0
    ensures compare >= eas ==> d.delta >= 0.0
    ensures compare <= eas ==> d.delta <= 0.0
  {
    Round2KeepsSign(compare - eas);
    Difference(r.project, r.unit, r.code, r.name, r.station, eas, compare, Round2(compare - eas))
  }

  /** What evaluating one key yields. */
  datatype Step = Skip | Found(diff: Difference) | Unreadable(cell: Cell)

  /** Evaluating a key from its first EAS row and first compare row: the EAS
      duration is read first, then the compare one, and a difference results
      when the two differ. */
  function Evaluate(rowEas: Record, rowCompare: Record): (r: Step)
    ensures r.Found? <==> ToFloat(rowEas.duration).Some? && ToFloat(rowCompare.duration).Some?
                          && ToFloat(rowEas.duration) != ToFloat(rowCompare.duration)
    ensures r.Found? ==> r.diff == MakeDifference(rowEas, ToFloat(rowEas.duration).value, ToFloat(rowCompare.duration).value)
    ensures r.Unreadable? <==> ToFloat(rowEas.duration).None? || ToFloat(rowCompare.duration).None?
    ensures r.Unreadable? ==> r.cell == if ToFloat(rowEas.duration).None? then rowEas.duration else rowCompare.duration
  {
    var timeEas := ToFloat(rowEas.duration);
    var timeCompare := ToFloat(rowCompare.duration);
    if timeEas.None? then Unreadable(rowEas.duration)
    else if timeCompare.None? then Unreadable(rowCompare.duration)
    else if timeEas.value != timeCompare.value then Found(MakeDifference(rowEas, timeEas.value, timeCompare.value))
    else Skip
  }

  /** What EAS row `i` contributes: only the first EAS row of a key that the
      compare table also has is evaluated, against the first compare row. */
  function KeyStep(b: seq<Record>, c: seq<Record>, i: nat): (r: Step)
    requires i < |b|
    ensures !r.Skip? ==> FirstKey(b, RecordKey(b[i])) == Some(i) && FirstKey(c, RecordKey(b[i])).Some?
    ensures r.Found? ==>
      && r.diff.project == b[i].project && r.diff.unit == b[i].unit && r.diff.code == b[i].code
      && r.diff.name == b[i].name && r.diff.station == b[i].station
      && ToFloat(b[i].duration) == Some(r.diff.easDuration) && r.diff.easDuration != r.diff.compareDuration
  {
    var key := RecordKey(b[i]);
    if FirstKey(b, key) == Some(i) && FirstKey(c, key).Some? then Evaluate(b[i], c[FirstKey(c, key).value])
    else Skip
  }

  /** A row that contributes something is the first EAS row of a key both
      tables have. */
  lemma Evaluated(b: seq<Record>, c: seq<Record>, i: nat)
    requires i < |b| && !KeyStep(b, c, i).Skip?
    ensures FirstKey(b, RecordKey(b[i])) == Some(i) && FirstKey(c, RecordKey(b[i])).Some?
    ensures RecordKey(b[i]) in CommonKeys(b, c)
    ensures KeyStep(b, c, i) == Evaluate(b[i], c[FirstKey(c, RecordKey(b[i])).value])
  {
    var ci := FirstKey(c, RecordKey(b[i])).value;
    assert b[i] in b && c[ci] in c;
  }

  function AsDifference(s: Step): Option<Difference>
  {
    if s.Found? then Some(s.diff) else None
  }

  /** The difference each EAS row contributes, by EAS row. */
  function Reconciliation(b: seq<Record>, c: seq<Record>): (r: seq<Option<Difference>>)
    ensures |r| == |b|
    ensures forall i :: 0 <= i < |b| ==> r[i] == AsDifference(KeyStep(b, c, i))
  {
    seq(|b|, i requires 0 <= i < |b| => AsDifference(KeyStep(b, c, i)))
  }

  /** The differences of a run that completes, in EAS order: at most one per
      EAS row, each with two different durations and the rounded delta. */
  function Expected(b: seq<Record>, c: seq<Record>): (r: seq<Difference>)
    ensures |r| <= |b|
    ensures forall d :: d in r ==> d.easDuration != d.compareDuration
    ensures forall d :: d in r ==> d.delta == Round2(d.compareDuration - d.easDuration)
  {
    ReconciledDifferences(b, c);
    Flatten(Reconciliation(b, c))
  }

  /** Every difference of the reconciliation has two different durations and
      the rounded delta. */
  lemma ReconciledDifferences(b: seq<Record>, c: seq<Record>)
    ensures forall d: Difference :: d in Flatten(Reconciliation(b, c)) ==>
      (d.easDuration != d.compareDuration && d.delta == Round2(d.compareDuration - d.easDuration))
  {
    var o := Reconciliation(b, c);
    forall d: Difference | d in Flatten(o)
      ensures d.easDuration != d.compareDuration && d.delta == Round2(d.compareDuration - d.easDuration)
    {
      FlattenMember(o, d);
      var i :| 0 <= i < |o| && o[i] == Some(d);
      FoundDifference(b, c, i, d);
    }
  }

  /** A difference found for an EAS row has two different durations and the
      rounded delta. */
  lemma FoundDifference(b: seq<Record>, c: seq<Record>, i: nat, d: Difference)
    requires i < |b| && AsDifference(KeyStep(b, c, i)) == Some(d)
    ensures d.easDuration != d.compareDuration && d.delta == Round2(d.compareDuration - d.easDuration)
  {
  }

  /** Some evaluated key has a duration `float()` refuses. */
  ghost predicate Unconvertible(b: seq<Record>, c: seq<Record>)
  {
    exists i :: 0 <= i < |b| && KeyStep(b, c, i).Unreadable?
  }

  /** The colour of a difference's delta cell: red exactly when the compare
      duration exceeds the EAS duration, decided on the unrounded delta. With
      the rounded delta, a positive delta is red, a negative one green, and red
      never shows a negative delta. */
  function Tag(d: Difference): (r: Color)
    ensures r == Red <==> d.compareDuration > d.easDuration
    ensures d.delta == Round2(d.compareDuration - d.easDuration) ==>
      && (d.delta > 0.0 ==> r == Red)
      && (d.delta < 0.0 ==> r == Green)
      && (r == Red ==> d.delta >= 0.0)
  {
    Round2KeepsSign(d.compareDuration - d.easDuration);
    if d.compareDuration - d.easDuration > 0.0 then Red else Green
  }

  /** The result table shown for `ds`. */
  function Tagged(ds: seq<Difference>): (r: seq<TreeRow>)
    ensures |r| == |ds|
    ensures forall k :: 0 <= k < |ds| ==> r[k] == TreeRow(ds[k], Tag(ds[k]))
  {
    seq(|ds|, k requires 0 <= k < |ds| => TreeRow(ds[k], Tag(ds[k])))
  }

  /** The record key of the row a difference was made from. */
  function DiffKey(d: Difference): string
  {
    d.project + "_" + d.unit + "_" + d.code
  }

  /** A difference's key is the record key of any record with its project,
      car/segment and code, in particular the EAS row it was made from. */
  lemma DiffKeyIsRecordKey(d: Difference, r: Record)
    requires d.project == r.project && d.unit == r.unit && d.code == r.code
    ensures DiffKey(d) == RecordKey(r)
  {
  }

  // ---------------------------------------------------------------------
  // Properties of the reconciliation

  /** A reported difference comes from the first EAS row and the first
      compare row of a common key, whose durations both read and differ. */
  lemma DifferenceSource(b: seq<Record>, c: seq<Record>, d: Difference) returns (i: nat)
    requires d in Expected(b, c)
    ensures i < |b| && Reconciliation(b, c)[i] == Some(d) && RecordKey(b[i]) == DiffKey(d)
    ensures DiffKey(d) in CommonKeys(b, c)
    ensures FirstKey(b, DiffKey(d)) == Some(i) && FirstKey(c, DiffKey(d)).Some?
    ensures var ci := FirstKey(c, DiffKey(d)).value;
            && ToFloat(b[i].duration) == Some(d.easDuration)
            && ToFloat(c[ci].duration) == Some(d.compareDuration)
            && d == MakeDifference(b[i], d.easDuration, d.compareDuration)
            && d.easDuration != d.compareDuration
  {
    var o := Reconciliation(b, c);
    FlattenMember(o, d);
    i :| 0 <= i < |b| && o[i] == Some(d);
    Evaluated(b, c, i);
  }

  /** For a key present in both tables whose first durations both read, a
      difference is reported exactly when they differ, and it is that pair's
      difference with delta compare − EAS rounded to two decimals. */
  lemma DifferenceIff(b: seq<Record>, c: seq<Record>, key: string)
    requires key in CommonKeys(b, c)
    ensures FirstKey(b, key).Some? && FirstKey(c, key).Some?
    ensures var br, cr := b[FirstKey(b, key).value], c[FirstKey(c, key).value];
            ToFloat(br.duration).Some? && ToFloat(cr.duration).Some? ==>
            var eas, compare := ToFloat(br.duration).value, ToFloat(cr.duration).value;
            && ((exists d :: d in Expected(b, c) && DiffKey(d) == key) <==> eas != compare)
            && (eas != compare ==> MakeDifference(br, eas, compare) in Expected(b, c))
  {
    FirstKeyOfMember(b, key);
    FirstKeyOfMember(c, key);
    var bi, ci := FirstKey(b, key).value, FirstKey(c, key).value;
    var br, cr := b[bi], c[ci];
    if ToFloat(br.duration).Some? && ToFloat(cr.duration).Some? {
      var eas, compare := ToFloat(br.duration).value, ToFloat(cr.duration).value;
      var o := Reconciliation(b, c);
      if eas != compare {
        assert o[bi] == Some(MakeDifference(br, eas, compare));
        FlattenMember(o, MakeDifference(br, eas, compare));
        assert DiffKey(MakeDifference(br, eas, compare)) == key;
      }
      forall d | d in Expected(b, c) && DiffKey(d) == key
        ensures eas != compare
      {
        var i := DifferenceSource(b, c, d);
      }
    }
  }

  /** At most one difference per key, occurring once: two reported
      differences with the same key are the same. */
  lemma OneDifferencePerKey(b: seq<Record>, c: seq<Record>, d1: Difference, d2: Difference)
    requires d1 in Expected(b, c) && d2 in Expected(b, c) && DiffKey(d1) == DiffKey(d2)
    ensures d1 == d2
    ensures multiset(Expected(b, c))[d1] == 1
  {
    var o := Reconciliation(b, c);
    var i1 := DifferenceSource(b, c, d1);
    var i2 := DifferenceSource(b, c, d2);
    FlattenMultiplicity(o, d1);
    forall i | i in IndicesOf(o, d1) ensures i == i1 {
      assert RecordKey(b[i]) == DiffKey(d1);
    }
    assert IndicesOf(o, d1) == {i1};
  }

  /** The number of differences never exceeds the number of common keys. */
  lemma DifferencesBounded(b: seq<Record>, c: seq<Record>)
    ensures |Expected(b, c)| <= |CommonKeys(b, c)|
  {
    var o := Reconciliation(b, c);
    FlattenLength(o);
    forall i | i in PresentIndices(o) ensures i in Firsts(b, CommonKeys(b, c)) {
      Evaluated(b, c, i);
    }
    SubsetSize(PresentIndices(o), Firsts(b, CommonKeys(b, c)));
    FirstsSize(b, CommonKeys(b, c));
  }

  lemma {:induction false} SubsetSize<T>(a: set<T>, s: set<T>)
    requires a <= s
    ensures |a| <= |s|
    decreases |s|
  {
    if a != {} {
      var x :| x in a;
      SubsetSize(a - {x}, s - {x});
    }
  }

  /** Keys found in only one table are never reported. */
  lemma OneSidedKeysNeverReported(b: seq<Record>, c: seq<Record>, d: Difference)
    requires d in Expected(b, c)
    ensures DiffKey(d) in RecordKeys(b) && DiffKey(d) in RecordKeys(c)
  {
    var i := DifferenceSource(b, c, d);
  }

  /** The delta of a reported difference is compare − EAS rounded to two
      decimals: within half a hundredth of the exact difference, a whole
      number of hundredths, and never of the opposite sign. */
  lemma DeltaIsRoundedDifference(b: seq<Record>, c: seq<Record>, d: Difference)
    requires d in Expected(b, c)
    ensures d.delta == Round2(d.compareDuration - d.easDuration)
    ensures -0.005 <= d.delta - (d.compareDuration - d.easDuration) <= 0.005
    ensures (d.delta * 100.0).Floor as real == d.delta * 100.0
    ensures d.compareDuration > d.easDuration ==> d.delta >= 0.0
    ensures d.compareDuration < d.easDuration ==> d.delta <= 0.0
  {
    Round2KeepsSign(d.compareDuration - d.easDuration);
  }

  /** Because the colour is decided before rounding, an increase smaller than
      half a hundredth is red although its delta shows 0.0. */
  lemma RedWithZeroDelta()
    ensures exists d: Difference :: d.delta == Round2(d.compareDuration - d.easDuration) && d.delta == 0.0
                                    && Tag(d) == Red
  {
    var d := Difference("P", "U", "OP", "", "", 1.0, 1.004, Round2(0.004));
    assert (0.004 * 100.0).Floor == 0;
    assert Round2(0.004) == 0.0;
    assert Tag(d) == Red;
  }

  /** A compare duration of 7 against an EAS duration of 5 gives one red
      difference with delta 2.0. */
  lemma ScenarioIncrease()
    ensures var r1 := Record("P1", "U1", "OP1", "焊接", "S1", Num(5.0));
            var r2 := Record("P1", "U1", "OP1", "焊接", "S1", Num(7.0));
            var d := Difference("P1", "U1", "OP1", "焊接", "S1", 5.0, 7.0, 2.0);
            Expected([r1], [r2]) == [d] && Tag(d) == Red
  {
    var r1 := Record("P1", "U1", "OP1", "焊接", "S1", Num(5.0));
    var r2 := Record("P1", "U1", "OP1", "焊接", "S1", Num(7.0));
    Round2Exact(2.0);
    assert KeyStep([r1], [r2], 0) == Found(Difference("P1", "U1", "OP1", "焊接", "S1", 5.0, 7.0, 2.0));
    assert Reconciliation([r1], [r2])[..0] == [];
  }

  /** A duration written as text with trailing zeros reads the same as the
      number: "10.00" against 10 is no difference. */
  lemma ScenarioTextDuration()
    ensures var r1 := Record("P1", "U1", "OP1", "", "", Text("10.00"));
            var r2 := Record("P1", "U1", "OP1", "", "", Num(10.0));
            Expected([r1], [r2]) == [] && !Unconvertible([r1], [r2])
  {
    var r1 := Record("P1", "U1", "OP1", "", "", Text("10.00"));
    var r2 := Record("P1", "U1", "OP1", "", "", Num(10.0));
    TextTenReads();
    assert KeyStep([r1], [r2], 0) == Skip;
    assert Reconciliation([r1], [r2])[..0] == [];
  }

  lemma TextTenReads()
    ensures ParseReal("10.00") == Some(10.0)
  {
    var w, f := "10", "00";
    assert w + "." + f == "10.00";
    ParseDecimal(w, f);
    assert w[..1] == "1";
    assert IntValue(w) == 10;
    ZerosHaveNoFraction(f);
  }

  // ---------------------------------------------------------------------
  // The comparison window

  /** The first EAS rows of the keys in `keys`. */
  ghost function Firsts(b: seq<Record>, keys: set<string>): set<int>
  {
    set k | k in keys && FirstKey(b, k).Some? :: FirstKey(b, k).value
  }

  lemma FirstsStep(b: seq<Record>, keys: set<string>, key: string)
    ensures Firsts(b, keys + {key}) == Firsts(b, keys) + (if FirstKey(b, key).Some? then {FirstKey(b, key).value} else {})
  {
  }

  /** Each key has at most one first row. */
  lemma {:induction false} FirstsSize(b: seq<Record>, keys: set<string>)
    ensures |Firsts(b, keys)| <= |keys|
    decreases |keys|
  {
    if keys != {} {
      var k :| k in keys;
      FirstsSize(b, keys - {k});
      FirstsStep(b, keys - {k}, k);
      assert keys - {k} + {k} == keys;
    } else {
      assert Firsts(b, keys) == {};
    }
  }

  lemma FirstsKeys(b: seq<Record>, keys: set<string>)
    ensures forall i :: i in Firsts(b, keys) ==> 0 <= i < |b| && RecordKey(b[i]) in keys
  {
    forall i | i in Firsts(b, keys) ensures 0 <= i < |b| && RecordKey(b[i]) in keys {
      var k :| k in keys && FirstKey(b, k).Some? && i == FirstKey(b, k).value;
    }
  }

  /** The duration comparison window's state: the differences found and the
      rows of the result table. */
  class ExcelCompareTool {
    var differences: seq<Difference>
    var tree: seq<TreeRow>

    constructor ()
      ensures differences == [] && tree == []
    {
      differences := [];
      tree := [];
    }

    /** The differences so far are those of the EAS rows in `done`, and the
        table shows them. */
    ghost predicate Tallied(o: seq<Option<Difference>>, done: set<int>)
      reads this
    {
      && multiset(differences) == multiset(Restrict(o, done))
      && tree == Tagged(differences)
    }

    /** Appends EAS row `i`'s difference and its table row. */
    method Append(ghost o: seq<Option<Difference>>, i: nat, diff: Difference, row: TreeRow, ghost done: set<int>)
      requires i < |o| && i !in done && o[i] == Some(diff)
      requires row == TreeRow(diff, Tag(diff))
      requires Tallied(o, done)
      modifies this
      ensures differences == old(differences) + [diff]
      ensures tree == old(tree) + [row]
      ensures Tallied(o, done + {i})
    {
      RestrictInsert(o, done, i);
      differences := differences + [diff];
      tree := tree + [row];
    }

    /** compare_files: checks the required columns, clears the result, and
        evaluates every key present in both tables, stopping at the first
        duration `float()` refuses. */
    method CompareFiles(easFile: Option<Table>, compareFile: Option<Table>) returns (outcome: Outcome)
      modifies this
      ensures easFile.None? || compareFile.None? ==> outcome == NoFilesSelected && unchanged(this)
      ensures outcome != NoFilesSelected ==> easFile.Some? && compareFile.Some?
      ensures easFile.Some? && compareFile.Some? ==>
        var missing := FirstMissingColumn(RequiredColumns, easFile.value.columns, compareFile.value.columns);
        && (missing.Some? ==> outcome == MissingColumn(missing.value) && unchanged(this))
        && (missing.None? ==> outcome.ConversionFailed? || outcome.Completed?)
      ensures outcome.Completed? || outcome.ConversionFailed? ==>
        var b, c := easFile.value.rows, compareFile.value.rows;
        && tree == Tagged(differences)
        && multiset(differences) <= multiset(Expected(b, c))
        && (outcome.Completed? <==> !Unconvertible(b, c))
      ensures outcome.Completed? ==>
        var b, c := easFile.value.rows, compareFile.value.rows;
        && multiset(differences) == multiset(Expected(b, c))
        && outcome.totalRecords == |CommonKeys(b, c)|
        && outcome.changedRecords == |differences|
      ensures outcome.ConversionFailed? ==>
        var b, c := easFile.value.rows, compareFile.value.rows;
        exists i :: 0 <= i < |b| && KeyStep(b, c, i) == Unreadable(outcome.cell)
    {
      if easFile.None? || compareFile.None? {
        return NoFilesSelected;
      }
      var dfEas, dfCompare := easFile.value, compareFile.value;
      var missing := CheckColumns(dfEas.columns, dfCompare.columns);
      if missing.Some? {
        return MissingColumn(missing.value);
      }
      tree := [];
      differences := [];
      outcome := CompareRecords(dfEas.rows, dfCompare.rows);
    }

    /** The loop over the common keys, from an empty result. */
    method CompareRecords(b: seq<Record>, c: seq<Record>) returns (outcome: Outcome)
      requires differences == [] && tree == []
      modifies this
      ensures outcome.Completed? || outcome.ConversionFailed?
      ensures tree == Tagged(differences)
      ensures multiset(differences) <= multiset(Expected(b, c))
      ensures outcome.Completed? <==> !Unconvertible(b, c)
      ensures outcome.Completed? ==>
        && multiset(differences) == multiset(Expected(b, c))
        && outcome.totalRecords == |CommonKeys(b, c)|
        && outcome.changedRecords == |differences|
      ensures outcome.ConversionFailed? ==> exists i :: 0 <= i < |b| && KeyStep(b, c, i) == Unreadable(outcome.cell)
    {
      var commonKeys := RecordKeys(b) * RecordKeys(c);
      var totalRecords := |commonKeys|;
      var changedRecords := 0;
      ghost var o := Reconciliation(b, c);
      ghost var done: set<int> := {};
      RestrictNothing(o);
      var remaining := commonKeys;
      while remaining != {}
        invariant remaining <= commonKeys
        invariant done == Firsts(b, commonKeys - remaining)
        invariant forall i :: i in done ==> 0 <= i < |b| && !KeyStep(b, c, i).Unreadable?
        invariant Tallied(o, done)
        invariant changedRecords == |differences|
        decreases remaining
      {
        var key :| key in remaining;
        ghost var handled := commonKeys - remaining;
        FirstKeyOfMember(b, key);
        FirstKeyOfMember(c, key);
        ghost var next: set<int>;
        var failure, changed;
        failure, changed, next := CompareKey(b, c, key, o, done, handled);
        if failure.Some? {
          RestrictWithin(o, done);
          return ConversionFailed(failure.value);
        }
        if changed {
          changedRecords := changedRecords + 1;
        }
        done := next;
        HandleOne(commonKeys, remaining, key);
        remaining := remaining - {key};
      }
      Finish(b, c, o, done, commonKeys);
      return Completed(totalRecords, changedRecords);
    }

    /** The body of the loop over the common keys, for key `key`: reads both
        first rows' durations and records a difference when they differ. */
    method CompareKey(b: seq<Record>, c: seq<Record>, key: string,
                      ghost o: seq<Option<Difference>>, ghost done: set<int>, ghost handled: set<string>)
      returns (failure: Option<Cell>, changed: bool, ghost done': set<int>)
      requires o == Reconciliation(b, c)
      requires FirstKey(b, key).Some? && FirstKey(c, key).Some? && key !in handled
      requires done == Firsts(b, handled)
      requires Tallied(o, done)
      modifies this
      ensures failure.Some? ==> exists i :: 0 <= i < |b| && KeyStep(b, c, i) == Unreadable(failure.value)
      ensures failure.Some? ==> unchanged(this)
      ensures failure.None? ==>
        && done' == Firsts(b, handled + {key})
        && done' == done + {FirstKey(b, key).value}
        && !KeyStep(b, c, FirstKey(b, key).value).Unreadable?
        && Tallied(o, done')
        && |differences| == |old(differences)| + (if changed then 1 else 0)
    {
      var bi, ci := FirstKey(b, key).value, FirstKey(c, key).value;
      var rowEas, rowCompare := b[bi], c[ci];
      assert KeyStep(b, c, bi) == Evaluate(rowEas, rowCompare);
      var timeEas := ToFloat(rowEas.duration);
      if timeEas.None? {
        return Some(rowEas.duration), false, done;
      }
      var timeCompare := ToFloat(rowCompare.duration);
      if timeCompare.None? {
        return Some(rowCompare.duration), false, done;
      }
      FirstsStep(b, handled, key);
      FirstsKeys(b, handled);
      assert bi !in done;
      changed := timeEas.value != timeCompare.value;
      if changed {
        var timeDiff := timeCompare.value - timeEas.value;
        var diff := Difference(rowEas.project, rowEas.unit, rowEas.code, rowEas.name, rowEas.station,
                               timeEas.value, timeCompare.value, Round2(timeDiff));
        var color := if timeDiff > 0.0 then Red else Green;
        Append(o, bi, diff, TreeRow(diff, color), done);
      } else {
        RestrictInsert(o, done, bi);
      }
      return None, changed, done + {bi};
    }

    /** After every common key: the differences are the reference ones, up to
        order, and no evaluated duration was refused. */
    lemma Finish(b: seq<Record>, c: seq<Record>, o: seq<Option<Difference>>, done: set<int>, commonKeys: set<string>)
      requires o == Reconciliation(b, c) && commonKeys == CommonKeys(b, c)
      requires done == Firsts(b, commonKeys)
      requires forall i :: i in done ==> 0 <= i < |b| && !KeyStep(b, c, i).Unreadable?
      requires Tallied(o, done)
      ensures multiset(differences) == multiset(Expected(b, c))
      ensures !Unconvertible(b, c)
    {
      forall i | 0 <= i < |b| && FirstKey(b, RecordKey(b[i])) == Some(i) && FirstKey(c, RecordKey(b[i])).Some?
        ensures i in done
      {
        var key := RecordKey(b[i]);
        var ci := FirstKey(c, key).value;
        assert b[i] in b && c[ci] in c;
        assert key in commonKeys;
      }
      RestrictCovers(o, done);
    }
  }
}
