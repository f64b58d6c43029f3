/** Process records, the tables they are read into, and the two composite
    keys the tools match records by.

    The key fields are taken as already-canonical strings: the conversion the
    spreadsheet reader's native values undergo before concatenation is not
    modelled. */
module Records {
  import opened Durations

  /** One row of a process table: project, car/segment, process code, process
      name, workstation and duration. */
  datatype Record = Record(
    project: string,
    unit: string,
    code: string,
    name: string,
    station: string,
    duration: Cell)

  /** A table as read from a spreadsheet: its header and its rows. A row's
      field for a column missing from the header is never looked at, because
      both tools stop before comparing such a table. */
  datatype Table = Table(columns: seq<string>, rows: seq<Record>)

  /** 项目号, 节车号, 工序编码, 工序名称, 工位, 工序工时: project, car/segment,
      process code, process name, workstation, duration. */
  const RequiredColumns: seq<string> := ["项目号", "节车号", "工序编码", "工序名称", "工位", "工序工时"]

  /** The group key of the process-list comparison: project and car/segment. */
  function GroupKey(r: Record): string
  {
    r.project + "_" + r.unit
  }

  /** The record key of the duration comparison: project, car/segment and
      process code. */
  function RecordKey(r: Record): string
  {
    r.project + "_" + r.unit + "_" + r.code
  }

  /** The keys are determined by the identity fields they are built from: by
      construction, equal project and car/segment give equal group keys, and
      an equal code as well gives equal record keys. */
  lemma KeysDependOnIdentity(r1: Record, r2: Record)
    ensures r1.project == r2.project && r1.unit == r2.unit ==> GroupKey(r1) == GroupKey(r2)
    ensures r1.project == r2.project && r1.unit == r2.unit && r1.code == r2.code ==>
              RecordKey(r1) == RecordKey(r2)
  {
  }

  /** The record key extends the group key by the process code. */
  lemma RecordKeyExtendsGroupKey(r: Record)
    ensures |RecordKey(r)| == |GroupKey(r)| + 1 + |r.code|
    ensures RecordKey(r)[..|GroupKey(r)|] == GroupKey(r)
    ensures RecordKey(r)[|GroupKey(r)|] == '_'
    ensures RecordKey(r)[|GroupKey(r)| + 1..] == r.code
  {
    assert RecordKey(r) == GroupKey(r) + ("_" + r.code);
  }

  /** The group key starts with the project and ends with the car/segment,
      joined by one underscore. */
  lemma GroupKeyLayout(r: Record)
    ensures |GroupKey(r)| == |r.project| + 1 + |r.unit|
    ensures GroupKey(r)[..|r.project|] == r.project
    ensures GroupKey(r)[|r.project|] == '_'
    ensures GroupKey(r)[|r.project| + 1..] == r.unit
  {
    var k := GroupKey(r);
    assert k == r.project + ("_" + r.unit);
  }

  /** The underscore may occur inside a field, so different identities can
      share a key: the keys are not injective. */
  lemma KeysCollide()
    ensures exists r1: Record, r2: Record :: r1.project != r2.project && GroupKey(r1) == GroupKey(r2)
    ensures exists r1: Record, r2: Record :: r1.unit != r2.unit && RecordKey(r1) == RecordKey(r2)
  {
    var a := Record("P_1", "U", "OP", "", "", Num(0.0));
    var b := Record("P", "1_U", "OP", "", "", Num(0.0));
    assert GroupKey(a) == "P_1_U" == GroupKey(b);
    var c := Record("P", "U_1", "OP", "", "", Num(0.0));
    var d := Record("P", "U", "1_OP", "", "", Num(0.0));
    assert RecordKey(c) == "P_U_1_OP" == RecordKey(d);
  }
}
