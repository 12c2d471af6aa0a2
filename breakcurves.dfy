/** The break-curve scripts: cutting the angle table, sorted by mesh and break,
    into maximal runs of equal (mesh, break) rows, one record per run in a
    two-level dictionary mesh -> break -> record (process_break_curve_data.py,
    old/process_break_curve_data.py); the VG variants that wrap each run's
    coordinates with the break's two endpoints and put them in curve order
    (process_VG_data.py, preprocessing/process_VG_data.py); and the in-place
    reordering of every stored curve (old/order_all_breaks.py). */
module BreakCurves {
  import opened Wrappers
  import opened Seqs
  import opened Tsp

  /** One row of the angle table. */
  datatype Measurement = Measurement(
    mesh: string, breakNo: int, angle: real, vertices: int, radius: real,
    x: real, y: real, z: real, fit: real, segParam: real)

  /** The record stored for one break. `measurements` is the 'Number of
      Measurements' entry, absent where the dictionary literal lost it. */
  datatype BreakCurve = BreakCurve(
    measurements: Option<nat>, angle: seq<real>, vertices: seq<int>, radius: seq<real>,
    x: seq<real>, y: seq<real>, z: seq<real>, fit: seq<real>, segParam: seq<real>)

  /** The dictionary mesh -> break -> record. */
  type Curves = map<string, map<int, BreakCurve>>

  datatype CurveKey = CurveKey(mesh: string, breakNo: int)

  datatype SegmentError = NoRows | MissingEndpoint(key: CurveKey)

  /** Python's `s[:n]`. */
  function Prefix(s: string, n: nat): (p: string)
    ensures |p| == if |s| <= n then |s| else n
    ensures p <= s
  {
    if |s| <= n then s else s[..n]
  }

  /** The (mesh, break) key of a row; the VG scripts keep only the first ten
      characters of the mesh name. */
  function KeyOf(m: Measurement, truncate: bool): CurveKey {
    CurveKey(if truncate then Prefix(m.mesh, 10) else m.mesh, m.breakNo)
  }

  function KeysOf(rows: seq<Measurement>, truncate: bool): (keys: seq<CurveKey>)
    ensures |keys| == |rows|
    ensures forall k :: 0 <= k < |rows| ==> keys[k] == KeyOf(rows[k], truncate)
  {
    seq(|rows|, k requires 0 <= k < |rows| => KeyOf(rows[k], truncate))
  }

  // ---------------------------------------------------------------------------
  // Maximal runs

  /** The half-open row range [start, end) of one record. */
  datatype Run = Run(start: nat, end: nat)

  /** Every key in positions s .. e-1 equals the one at s. */
  predicate OneKey<K(==)>(keys: seq<K>, s: nat, e: nat)
    requires s <= e <= |keys|
  {
    forall k :: s <= k < e ==> keys[k] == keys[s]
  }

  /** A run of one key grows by a position holding that key. */
  lemma OneKeyExtend<K>(keys: seq<K>, s: nat, e: nat)
    requires s <= e < |keys| && OneKey(keys, s, e) && keys[e] == keys[s]
    ensures OneKey(keys, s, e + 1)
  {
    forall k | s <= k < e + 1 ensures keys[k] == keys[s] {
      if k < e {
        assert keys[k] == keys[s];
      }
    }
  }

  /** The end of the maximal run of equal keys beginning at s. */
  function RunEnd<K(==)>(keys: seq<K>, s: nat): (e: nat)
    requires s < |keys|
    ensures s < e <= |keys|
    ensures forall k :: s <= k < e ==> keys[k] == keys[s]
    ensures e == |keys| || keys[e] != keys[s]
    decreases |keys| - s
  {
    if s + 1 == |keys| || keys[s + 1] != keys[s] then s + 1 else RunEnd(keys, s + 1)
  }

  /** The runs of `keys[s..]`, in order, each maximal from its start. */
  function Runs<K(==)>(keys: seq<K>, s: nat): (runs: seq<Run>)
    requires s <= |keys|
    ensures runs == [] <==> s == |keys|
    ensures runs != [] ==> runs[0].start == s
    ensures forall j :: 0 <= j < |runs| ==> s <= runs[j].start < runs[j].end <= |keys|
    decreases |keys| - s
  {
    if s == |keys| then [] else [Run(s, RunEnd(keys, s))] + Runs(keys, RunEnd(keys, s))
  }

  /** The runs are contiguous and non-empty, end at the end of the rows, each
      holds one key, and the key changes at every boundary. */
  lemma {:induction false} RunsAreMaximal<K>(keys: seq<K>, s: nat)
    requires s <= |keys|
    ensures var runs := Runs(keys, s);
            && (runs != [] ==> runs[|runs| - 1].end == |keys|)
            && (forall j :: 0 <= j < |runs| - 1 ==> runs[j].end == runs[j + 1].start)
            && (forall j :: 0 <= j < |runs| ==> OneKey(keys, runs[j].start, runs[j].end))
            && (forall j :: 0 <= j < |runs| && runs[j].end < |keys| ==> keys[runs[j].end] != keys[runs[j].start])
    decreases |keys| - s
  {
    if s < |keys| {
      var e := RunEnd(keys, s);
      RunsAreMaximal(keys, e);
      var runs := Runs(keys, s);
      var rest := Runs(keys, e);
      assert runs == [Run(s, e)] + rest;
      if rest != [] {
        assert runs[|runs| - 1] == rest[|rest| - 1];
      }
      forall j | 0 <= j < |runs| - 1 ensures runs[j].end == runs[j + 1].start {
        assert runs[j + 1] == rest[j];
        if j > 0 {
          assert runs[j] == rest[j - 1];
        }
      }
      forall j | 0 <= j < |runs|
        ensures OneKey(keys, runs[j].start, runs[j].end)
        ensures runs[j].end < |keys| ==> keys[runs[j].end] != keys[runs[j].start]
      {
        if j > 0 {
          assert runs[j] == rest[j - 1];
        }
      }
    }
  }

  /** A range of one key that ends where the key changes is the run from its start. */
  lemma RunEndUnique<K>(keys: seq<K>, s: nat, e: nat)
    requires s < e <= |keys|
    requires forall k :: s <= k < e ==> keys[k] == keys[s]
    requires e == |keys| || keys[e] != keys[s]
    ensures RunEnd(keys, s) == e
  {
  }

  /** The runs from `s` are the run [s, e) followed by the runs from e, when e
      ends the key of s. */
  lemma RunsStep<K>(keys: seq<K>, s: nat, e: nat)
    requires s < e <= |keys|
    requires forall k :: s <= k < e ==> keys[k] == keys[s]
    requires e == |keys| || keys[e] != keys[s]
    ensures Runs(keys, s) == [Run(s, e)] + Runs(keys, e)
  {
    RunEndUnique(keys, s, e);
  }

  /** Every row lies in exactly one run. */
  lemma {:induction false} RunsCover<K>(keys: seq<K>, s: nat, k: nat)
    requires s <= k < |keys|
    ensures exists j :: 0 <= j < |Runs(keys, s)| && Runs(keys, s)[j].start <= k < Runs(keys, s)[j].end
    decreases |keys| - s
  {
    var e := RunEnd(keys, s);
    var runs := Runs(keys, s);
    assert runs[0] == Run(s, e);
    if e <= k {
      RunsCover(keys, e, k);
      var j :| 0 <= j < |Runs(keys, e)| && Runs(keys, e)[j].start <= k < Runs(keys, e)[j].end;
      assert runs[j + 1] == Runs(keys, e)[j];
    }
  }

  /** Where a run starts after row 0, the key has just changed. */
  lemma RunStartIsKeyChange<K>(keys: seq<K>, j: nat)
    requires j < |Runs(keys, 0)| && 0 < Runs(keys, 0)[j].start
    ensures keys[Runs(keys, 0)[j].start - 1] != keys[Runs(keys, 0)[j].start]
  {
    var runs := Runs(keys, 0);
    RunsAreMaximal(keys, 0);
    var k := runs[j].start;
    assert j > 0;
    assert runs[j - 1].end == k;
    assert OneKey(keys, runs[j - 1].start, runs[j - 1].end);
    assert keys[k - 1] == keys[runs[j - 1].start];
  }

  /** Where the key changes after position s, a run of `keys[s..]` starts. */
  lemma {:induction false} KeyChangeIsRunStart<K>(keys: seq<K>, s: nat, k: nat)
    requires s < k < |keys| && keys[k - 1] != keys[k]
    ensures exists j :: 0 <= j < |Runs(keys, s)| && Runs(keys, s)[j].start == k
    decreases |keys| - s
  {
    var e := RunEnd(keys, s);
    var runs := Runs(keys, s);
    if e == k {
      assert runs[1] == Runs(keys, e)[0];
    } else if e < k {
      KeyChangeIsRunStart(keys, e, k);
      var j :| 0 <= j < |Runs(keys, e)| && Runs(keys, e)[j].start == k;
      assert runs[j + 1] == Runs(keys, e)[j];
    }
  }

  // ---------------------------------------------------------------------------
  // The two-level dictionary

  datatype Entry = Entry(key: CurveKey, curve: BreakCurve)

  /** `if mesh not in d: d[mesh] = {}` followed by `d[mesh][break] = curve`. */
  function Place(d: Curves, key: CurveKey, curve: BreakCurve): Curves {
    d[key.mesh := (if key.mesh in d then d[key.mesh] else map[])[key.breakNo := curve]]
  }

  /** Storing a record adds its mesh and its break and leaves every other record as it was. */
  lemma PlaceStores(d: Curves, key: CurveKey, curve: BreakCurve)
    ensures var r := Place(d, key, curve);
            && r.Keys == d.Keys + {key.mesh}
            && key.breakNo in r[key.mesh] && r[key.mesh][key.breakNo] == curve
            && (key.mesh in d ==> r[key.mesh].Keys == d[key.mesh].Keys + {key.breakNo})
            && (key.mesh !in d ==> r[key.mesh].Keys == {key.breakNo})
            && (forall m, b :: m in d && b in d[m] && (m != key.mesh || b != key.breakNo) ==>
                  m in r && b in r[m] && r[m][b] == d[m][b])
  {
  }

  /** The dictionary after storing the entries one after another. */
  function Collect(d: Curves, entries: seq<Entry>): Curves
    decreases |entries|
  {
    if entries == [] then d else Collect(Place(d, entries[0].key, entries[0].curve), entries[1..])
  }

  /** The meshes named by the entries. */
  function MeshesOf(entries: seq<Entry>): set<string> {
    set j | 0 <= j < |entries| :: entries[j].key.mesh
  }

  /** The meshes of the dictionary are those it had and those of the entries. */
  lemma {:induction false} CollectMeshes(d: Curves, entries: seq<Entry>)
    ensures Collect(d, entries).Keys == d.Keys + MeshesOf(entries)
    decreases |entries|
  {
    if entries != [] {
      var d' := Place(d, entries[0].key, entries[0].curve);
      PlaceStores(d, entries[0].key, entries[0].curve);
      CollectMeshes(d', entries[1..]);
      var rest := entries[1..];
      assert MeshesOf(entries) == {entries[0].key.mesh} + MeshesOf(rest) by {
        forall m | m in MeshesOf(entries) ensures m in {entries[0].key.mesh} + MeshesOf(rest) {
          var j :| 0 <= j < |entries| && entries[j].key.mesh == m;
          if j > 0 {
            assert rest[j - 1].key.mesh == m;
          }
        }
        forall m | m in MeshesOf(rest) ensures m in MeshesOf(entries) {
          var j :| 0 <= j < |rest| && rest[j].key.mesh == m;
          assert entries[j + 1].key.mesh == m;
        }
      }
    }
  }

  /** Storing entries of other keys leaves a stored record as it was. */
  lemma {:induction false} CollectKeeps(d: Curves, entries: seq<Entry>, key: CurveKey)
    requires key.mesh in d && key.breakNo in d[key.mesh]
    requires forall j :: 0 <= j < |entries| ==> entries[j].key != key
    ensures var r := Collect(d, entries);
            key.mesh in r && key.breakNo in r[key.mesh] && r[key.mesh][key.breakNo] == d[key.mesh][key.breakNo]
    decreases |entries|
  {
    if entries != [] {
      var d' := Place(d, entries[0].key, entries[0].curve);
      PlaceStores(d, entries[0].key, entries[0].curve);
      assert entries[0].key.mesh != key.mesh || entries[0].key.breakNo != key.breakNo;
      CollectKeeps(d', entries[1..], key);
    }
  }

  /** The record stored for a key is that of its last entry: a repeated key
      overwrites the earlier record. */
  lemma {:induction false} CollectLast(d: Curves, entries: seq<Entry>, j: nat)
    requires j < |entries|
    requires forall i :: j < i < |entries| ==> entries[i].key != entries[j].key
    ensures var r := Collect(d, entries); var key := entries[j].key;
            key.mesh in r && key.breakNo in r[key.mesh] && r[key.mesh][key.breakNo] == entries[j].curve
    decreases |entries|
  {
    var d' := Place(d, entries[0].key, entries[0].curve);
    PlaceStores(d, entries[0].key, entries[0].curve);
    if j == 0 {
      CollectKeeps(d', entries[1..], entries[0].key);
    } else {
      CollectLast(d', entries[1..], j - 1);
    }
  }

  // ---------------------------------------------------------------------------
  // Records of the plain scripts

  /** A column of the run, in row order: `df[field].values[start_index:i]`. */
  function Column<T>(part: seq<Measurement>, f: Measurement -> T): (col: seq<T>)
    ensures |col| == |part| && forall k :: 0 <= k < |part| ==> col[k] == f(part[k])
  {
    seq(|part|, k requires 0 <= k < |part| => f(part[k]))
  }

  /** The record of one run. The current script stores the run length as
      'Number of Measurements'; the old one writes the key 'Number_of_Vertices'
      twice, so the vertex column replaces the count and no count is kept. */
  function PlainCurve(part: seq<Measurement>, counted: bool): (c: BreakCurve)
    ensures counted <==> c.measurements == Some(|part|)
    ensures |c.angle| == |c.vertices| == |c.radius| == |c.x| == |c.y| == |c.z| == |c.fit| == |c.segParam| == |part|
  {
    BreakCurve(if counted then Some(|part|) else None,
      Column(part, (m: Measurement) => m.angle), Column(part, (m: Measurement) => m.vertices), Column(part, (m: Measurement) => m.radius),
      Column(part, (m: Measurement) => m.x), Column(part, (m: Measurement) => m.y), Column(part, (m: Measurement) => m.z),
      Column(part, (m: Measurement) => m.fit), Column(part, (m: Measurement) => m.segParam))
  }

  /** Runs lie inside the rows. */
  predicate RunsWithin(runs: seq<Run>, n: nat) {
    forall j :: 0 <= j < |runs| ==> runs[j].start < runs[j].end <= n
  }

  /** One entry per run, keyed by the key of the run's first row. */
  function PlainEntries(rows: seq<Measurement>, runs: seq<Run>, counted: bool, truncate: bool): (es: seq<Entry>)
    requires RunsWithin(runs, |rows|)
    ensures |es| == |runs|
  {
    if runs == [] then []
    else [Entry(KeyOf(rows[runs[0].start], truncate), PlainCurve(rows[runs[0].start..runs[0].end], counted))]
         + PlainEntries(rows, runs[1..], counted, truncate)
  }

  /** Closing the run that starts at `start` and ends at `i` stores its record. */
  lemma PlainStep(rows: seq<Measurement>, d: Curves, start: nat, i: nat, counted: bool)
    requires start < i <= |rows|
    requires OneKey(KeysOf(rows, false), start, i)
    requires i == |rows| || KeyOf(rows[i], false) != KeyOf(rows[start], false)
    ensures var keys := KeysOf(rows, false);
            Collect(d, PlainEntries(rows, Runs(keys, start), counted, false))
            == Collect(Place(d, KeyOf(rows[start], false), PlainCurve(rows[start..i], counted)),
                       PlainEntries(rows, Runs(keys, i), counted, false))
  {
    var keys := KeysOf(rows, false);
    RunsStep(keys, start, i);
    var runs := Runs(keys, start);
    assert runs[1..] == Runs(keys, i);
  }

  /** The dictionary the plain scripts build. */
  function Segmented(rows: seq<Measurement>, counted: bool): Curves {
    Collect(map[], PlainEntries(rows, Runs(KeysOf(rows, false), 0), counted, false))
  }

  /** Entry j is the record of run j, under the key of the run's first row. */
  lemma {:induction false} PlainEntryAt(rows: seq<Measurement>, runs: seq<Run>, counted: bool, truncate: bool, j: nat)
    requires RunsWithin(runs, |rows|) && j < |runs|
    ensures PlainEntries(rows, runs, counted, truncate)[j]
         == Entry(KeyOf(rows[runs[j].start], truncate), PlainCurve(rows[runs[j].start..runs[j].end], counted))
  {
    if j > 0 {
      PlainEntryAt(rows, runs[1..], counted, truncate, j - 1);
    }
  }

  /** Rows of one key form one block. Sorting by (mesh, break) gives this for
      the full keys; it does not give it for the 10-character keys of the VG
      scripts, which sort on the full `Mesh_Name` (two meshes sharing a prefix
      interleave their break numbers), so there it is an assumption. */
  predicate Grouped<K(==)>(keys: seq<K>) {
    forall i, j, k :: 0 <= i < j < k < |keys| && keys[i] == keys[k] ==> keys[j] == keys[i]
  }

  /** Later runs start after earlier ones end. */
  lemma {:induction false} RunsOrdered<K>(keys: seq<K>, s: nat, j: nat, j': nat)
    requires s <= |keys| && j < j' < |Runs(keys, s)|
    ensures Runs(keys, s)[j].end <= Runs(keys, s)[j'].start
    decreases j' - j
  {
    RunsAreMaximal(keys, s);
    if j + 1 < j' {
      RunsOrdered(keys, s, j + 1, j');
    }
  }

  /** On grouped rows no two runs share a key. */
  lemma GroupedRunsDistinct<K>(keys: seq<K>, j: nat, j': nat)
    requires Grouped(keys) && j < j' < |Runs(keys, 0)|
    ensures keys[Runs(keys, 0)[j].start] != keys[Runs(keys, 0)[j'].start]
  {
    var runs := Runs(keys, 0);
    RunsAreMaximal(keys, 0);
    RunsOrdered(keys, 0, j, j');
    var p := runs[j].end;
    assert keys[p] != keys[runs[j].start];
  }

  /** The keys of one run are all equal. */
  lemma RunOneKey<K>(keys: seq<K>, s: nat, j: nat)
    requires s <= |keys| && j < |Runs(keys, s)|
    ensures OneKey(keys, Runs(keys, s)[j].start, Runs(keys, s)[j].end)
  {
    RunsAreMaximal(keys, s);
  }

  /** Every row's mesh names some run's entry. */
  lemma RowMeshHasEntry(rows: seq<Measurement>, counted: bool, k: nat)
    requires k < |rows|
    ensures rows[k].mesh in MeshesOf(PlainEntries(rows, Runs(KeysOf(rows, false), 0), counted, false))
  {
    var keys := KeysOf(rows, false);
    var runs := Runs(keys, 0);
    RunsCover(keys, 0, k);
    var j :| 0 <= j < |runs| && runs[j].start <= k < runs[j].end;
    RunOneKey(keys, 0, j);
    var start := runs[j].start;
    assert KeyOf(rows[k], false) == KeyOf(rows[start], false) by {
      assert keys[k] == keys[start];
    }
    var es := PlainEntries(rows, runs, counted, false);
    PlainEntryAt(rows, runs, counted, false, j);
    assert es[j].key.mesh == rows[k].mesh;
  }

  /** The meshes of the dictionary are exactly the mesh names of the rows. */
  lemma SegmentedMeshes(rows: seq<Measurement>, counted: bool)
    ensures Segmented(rows, counted).Keys == set k | 0 <= k < |rows| :: rows[k].mesh
  {
    var keys := KeysOf(rows, false);
    var runs := Runs(keys, 0);
    var es := PlainEntries(rows, runs, counted, false);
    var names := set k | 0 <= k < |rows| :: rows[k].mesh;
    CollectMeshes(map[], es);
    forall m | m in MeshesOf(es) ensures m in names {
      var j :| 0 <= j < |es| && es[j].key.mesh == m;
      PlainEntryAt(rows, runs, counted, false, j);
      assert rows[runs[j].start].mesh == m;
    }
    forall m | m in names ensures m in MeshesOf(es) {
      var k :| 0 <= k < |rows| && rows[k].mesh == m;
      RowMeshHasEntry(rows, counted, k);
    }
  }

  /** On grouped rows every maximal run is stored as its own record: the rows of
      the run in every column, and, in the current script, the run length as
      the count. */
  lemma SegmentedRecord(rows: seq<Measurement>, counted: bool, j: nat)
    requires Grouped(KeysOf(rows, false)) && j < |Runs(KeysOf(rows, false), 0)|
    ensures var run := Runs(KeysOf(rows, false), 0)[j];
            var key := KeyOf(rows[run.start], false);
            var d := Segmented(rows, counted);
            && key.mesh in d && key.breakNo in d[key.mesh]
            && d[key.mesh][key.breakNo] == PlainCurve(rows[run.start..run.end], counted)
  {
    var keys := KeysOf(rows, false);
    var runs := Runs(keys, 0);
    var es := PlainEntries(rows, runs, counted, false);
    forall i | j < i < |es| ensures es[i].key != es[j].key {
      GroupedRunsDistinct(keys, j, i);
      PlainEntryAt(rows, runs, counted, false, i);
      PlainEntryAt(rows, runs, counted, false, j);
    }
    CollectLast(map[], es, j);
    PlainEntryAt(rows, runs, counted, false, j);
  }

  /** Stores one record: `if current_mesh not in angledata.keys(): angledata[current_mesh] = {}`,
      then `angledata[current_mesh][current_break] = record`. */
  method Store(angledata: Curves, key: CurveKey, curve: BreakCurve) returns (d: Curves)
    ensures d == Place(angledata, key, curve)
  {
    d := angledata;
    if key.mesh !in d {
      d := d[key.mesh := map[]];
    }
    d := d[key.mesh := d[key.mesh][key.breakNo := curve]];
  }

  /** The loop of process_break_curve_data.py (`counted`) and of
      old/process_break_curve_data.py (not `counted`): walk `range(len(df)+1)`,
      and at the end of the rows or where the (mesh, break) key changes, store
      the rows since `start_index` as one record. Row 0 is read first, so no
      rows is a failure. */
  method SegmentBreaks(rows: seq<Measurement>, counted: bool) returns (r: Result<Curves, SegmentError>)
    ensures r.Failure? <==> rows == []
    ensures r.Success? ==> r.value == Segmented(rows, counted)
  {
    if rows == [] {
      return Failure(NoRows);
    }
    ghost var keys := KeysOf(rows, false);
    ghost var target := Segmented(rows, counted);
    var angledata: Curves := map[];
    var startIndex := 0;
    var current := KeyOf(rows[0], false);
    for i := 0 to |rows| + 1
      invariant startIndex < |rows| && startIndex <= i
      invariant current == KeyOf(rows[startIndex], false)
      invariant i <= |rows| ==> OneKey(keys, startIndex, i)
      invariant i <= |rows| ==> Collect(angledata, PlainEntries(rows, Runs(keys, startIndex), counted, false)) == target
      invariant i == |rows| + 1 ==> angledata == target
    {
      if i == |rows| || current != KeyOf(rows[i], false) {
        PlainStep(rows, angledata, startIndex, i, counted);
        angledata := Store(angledata, current, PlainCurve(rows[startIndex..i], counted));
        if i < |rows| {
          current := KeyOf(rows[i], false);
          startIndex := i;
        }
      } else {
        OneKeyExtend(keys, startIndex, i);
      }
    }
    return Success(angledata);
  }

  // ---------------------------------------------------------------------------
  // The VG scripts: endpoints and curve order

  /** A row of the endpoint table. */
  datatype EndpointRow = EndpointRow(specimen: string, breakNo: int, ep1: Point, ep2: Point)

  datatype EndpointPair = EndpointPair(first: Point, second: Point)

  /** The endpoint dictionary specimen -> break -> (ep1, ep2). */
  type Endpoints = map<string, map<int, EndpointPair>>

  /** The endpoint dictionary after `endpoints_dict[mesh].update({break: [ep1, ep2]})`
      for every row in order: a later row for the same key replaces an earlier one. */
  function EndpointsOf(table: seq<EndpointRow>): Endpoints {
    if table == [] then map[]
    else
      var d := EndpointsOf(table[..|table| - 1]);
      var row := table[|table| - 1];
      d[row.specimen := (if row.specimen in d then d[row.specimen] else map[])[row.breakNo := EndpointPair(row.ep1, row.ep2)]]
  }

  /** The loop building the endpoint dictionary. */
  method BuildEndpoints(table: seq<EndpointRow>) returns (d: Endpoints)
    ensures d == EndpointsOf(table)
  {
    d := map[];
    for i := 0 to |table|
      invariant d == EndpointsOf(table[..i])
    {
      assert table[..i + 1][..i] == table[..i];
      var row := table[i];
      var inner := if row.specimen in d then d[row.specimen] else map[];
      d := d[row.specimen := inner[row.breakNo := EndpointPair(row.ep1, row.ep2)]];
    }
    assert table[..|table|] == table;
  }

  /** A break has endpoints exactly when some row names it. */
  lemma {:induction false} EndpointsPresent(table: seq<EndpointRow>, m: string, b: int)
    ensures (m in EndpointsOf(table) && b in EndpointsOf(table)[m])
        <==> exists k :: 0 <= k < |table| && table[k].specimen == m && table[k].breakNo == b
  {
    if table != [] {
      var prior := table[..|table| - 1];
      EndpointsPresent(prior, m, b);
      if k :| 0 <= k < |prior| && prior[k].specimen == m && prior[k].breakNo == b {
        assert table[k] == prior[k];
      }
      if k :| 0 <= k < |table| - 1 && table[k].specimen == m && table[k].breakNo == b {
        assert prior[k] == table[k];
      }
    }
  }

  /** The endpoints of a break are those of the last row naming it. */
  lemma {:induction false} EndpointsLast(table: seq<EndpointRow>, k: nat)
    requires k < |table|
    requires forall i :: k < i < |table| ==> table[i].specimen != table[k].specimen || table[i].breakNo != table[k].breakNo
    ensures var d := EndpointsOf(table);
            table[k].specimen in d && table[k].breakNo in d[table[k].specimen]
            && d[table[k].specimen][table[k].breakNo] == EndpointPair(table[k].ep1, table[k].ep2)
  {
    if k < |table| - 1 {
      var prior := table[..|table| - 1];
      EndpointsLast(prior, k);
    }
  }

  /** The order `tsp_order(x, y, z)` returns for at least one point. */
  function CurveOrder(x: seq<real>, y: seq<real>, z: seq<real>, metric: (Point, Point) -> real): (idx: seq<nat>)
    requires |y| == |x| && |z| == |x| && |x| >= 1
    ensures IsPermutation(idx, |x|)
  {
    var M := DistanceMatrix(Points(x, y, z), metric);
    WalkIsPermutation(M, BestStart(M));
    GreedyOrder(M)
  }

  /** `np.hstack([e1, col, e2])`. */
  function Wrap(e1: real, col: seq<real>, e2: real): (w: seq<real>)
    ensures |w| == |col| + 2 && w[0] == e1 && w[|w| - 1] == e2 && w[1..|w| - 1] == col
  {
    [e1] + col + [e2]
  }

  /** The record of one run in the VG scripts: coordinates wrapped with the two
      endpoints and put in curve order by one index list; every other column
      in row order. */
  function VGCurve(part: seq<Measurement>, ends: EndpointPair, metric: (Point, Point) -> real): BreakCurve {
    var x := Wrap(ends.first.x, Column(part, (m: Measurement) => m.x), ends.second.x);
    var y := Wrap(ends.first.y, Column(part, (m: Measurement) => m.y), ends.second.y);
    var z := Wrap(ends.first.z, Column(part, (m: Measurement) => m.z), ends.second.z);
    var idx := CurveOrder(x, y, z, metric);
    BreakCurve(Some(|part|),
      Column(part, (m: Measurement) => m.angle), Column(part, (m: Measurement) => m.vertices),
      Column(part, (m: Measurement) => m.radius),
      Gather(x, idx), Gather(y, idx), Gather(z, idx),
      Column(part, (m: Measurement) => m.fit), Column(part, (m: Measurement) => m.segParam))
  }

  /** Each coordinate list of a VG record holds the run's values and the two
      endpoints, two more than the run length, and x, y and z are permuted by
      the same index list. */
  lemma VGCoordinates(part: seq<Measurement>, ends: EndpointPair, metric: (Point, Point) -> real)
    ensures var c := VGCurve(part, ends, metric);
            var x := Wrap(ends.first.x, Column(part, (m: Measurement) => m.x), ends.second.x);
            var y := Wrap(ends.first.y, Column(part, (m: Measurement) => m.y), ends.second.y);
            var z := Wrap(ends.first.z, Column(part, (m: Measurement) => m.z), ends.second.z);
            && |c.x| == |c.y| == |c.z| == |part| + 2
            && multiset(c.x) == multiset(x) && multiset(c.y) == multiset(y) && multiset(c.z) == multiset(z)
            && exists idx :: IsPermutation(idx, |part| + 2)
                 && c.x == Gather(x, idx) && c.y == Gather(y, idx) && c.z == Gather(z, idx)
  {
    var x := Wrap(ends.first.x, Column(part, (m: Measurement) => m.x), ends.second.x);
    var y := Wrap(ends.first.y, Column(part, (m: Measurement) => m.y), ends.second.y);
    var z := Wrap(ends.first.z, Column(part, (m: Measurement) => m.z), ends.second.z);
    var idx := CurveOrder(x, y, z, metric);
    var c := VGCurve(part, ends, metric);
    assert c.x == Gather(x, idx) && c.y == Gather(y, idx) && c.z == Gather(z, idx);
    GatherPermutation(x, idx);
    GatherPermutation(y, idx);
    GatherPermutation(z, idx);
  }

  /** The count of a VG record is the run length and its other columns are the
      run's rows in order. */
  lemma VGRowColumns(part: seq<Measurement>, ends: EndpointPair, metric: (Point, Point) -> real, k: nat)
    requires k < |part|
    ensures var c := VGCurve(part, ends, metric);
            && c.measurements == Some(|part|)
            && |c.angle| == |c.vertices| == |c.radius| == |c.fit| == |c.segParam| == |part|
            && c.angle[k] == part[k].angle && c.vertices[k] == part[k].vertices && c.radius[k] == part[k].radius
            && c.fit[k] == part[k].fit && c.segParam[k] == part[k].segParam
  {
  }

  /** The endpoints of a key, if the dictionary has them. */
  function EndpointsFor(eps: Endpoints, key: CurveKey): Option<EndpointPair> {
    if key.mesh in eps && key.breakNo in eps[key.mesh] then Some(eps[key.mesh][key.breakNo]) else None
  }

  /** How a run's record is built from its rows and its key's endpoints. */
  type Recorder = (seq<Measurement>, EndpointPair) -> BreakCurve

  /** The VG record builder for one distance. */
  function VGRecorder(metric: (Point, Point) -> real): (record: Recorder)
    ensures forall part, ends :: record(part, ends) == VGCurve(part, ends, metric)
  {
    (part, ends) => VGCurve(part, ends, metric)
  }

  /** The entry of one run: its key and its record. */
  function VGRunEntry(rows: seq<Measurement>, run: Run, ends: EndpointPair, record: Recorder): (e: Entry)
    requires run.start < run.end <= |rows|
    ensures e.key == KeyOf(rows[run.start], true)
  {
    Entry(KeyOf(rows[run.start], true), record(rows[run.start..run.end], ends))
  }

  /** One entry per run, or the first run whose key has no endpoints. */
  function VGEntries(rows: seq<Measurement>, runs: seq<Run>, eps: Endpoints, record: Recorder)
    : Result<seq<Entry>, SegmentError>
    requires RunsWithin(runs, |rows|)
  {
    if runs == [] then Success([])
    else
      var key := KeyOf(rows[runs[0].start], true);
      match EndpointsFor(eps, key)
      case None => Failure(MissingEndpoint(key))
      case Some(ends) =>
        var rest :- VGEntries(rows, runs[1..], eps, record);
        Success([VGRunEntry(rows, runs[0], ends, record)] + rest)
  }

  /** The dictionary `d` extended by the outcome of the remaining runs. */
  function Continue(d: Curves, pending: Result<seq<Entry>, SegmentError>): Result<Curves, SegmentError> {
    match pending
    case Success(es) => Success(Collect(d, es))
    case Failure(e) => Failure(e)
  }

  /** What the VG scripts produce: the dictionary, or the key whose endpoints are missing. */
  function SegmentedVG(rows: seq<Measurement>, eps: Endpoints, metric: (Point, Point) -> real): Result<Curves, SegmentError> {
    Continue(map[], VGEntries(rows, Runs(KeysOf(rows, true), 0), eps, VGRecorder(metric)))
  }

  /** The entries of the runs `[run] + later`, as they unfold from their head. */
  lemma VGEntriesCons(rows: seq<Measurement>, runs: seq<Run>, eps: Endpoints, record: Recorder)
    requires RunsWithin(runs, |rows|) && runs != []
    ensures var key := KeyOf(rows[runs[0].start], true);
            var now := VGEntries(rows, runs, eps, record);
            var later := VGEntries(rows, runs[1..], eps, record);
            && (EndpointsFor(eps, key).None? ==> now == Failure(MissingEndpoint(key)))
            && (EndpointsFor(eps, key).Some? && later.Failure? ==> now == later)
            && (EndpointsFor(eps, key).Some? && later.Success? ==>
                  now == Success([VGRunEntry(rows, runs[0], EndpointsFor(eps, key).value, record)] + later.value))
  {
  }

  /** Storing one entry before the rest is storing the rest into the dictionary with that entry. */
  lemma ContinueCons(d: Curves, e: Entry, later: Result<seq<Entry>, SegmentError>)
    ensures Continue(d, if later.Failure? then later else Success([e] + later.value))
         == Continue(Place(d, e.key, e.curve), later)
  {
    if later.Success? {
      assert ([e] + later.value)[1..] == later.value;
    }
  }

  /** Closing the run [start, i): a missing endpoint ends the script with that
      key; otherwise the run's record is stored and the later runs follow. */
  lemma VGStep(rows: seq<Measurement>, eps: Endpoints, record: Recorder, d: Curves, start: nat, i: nat)
    requires start < i <= |rows|
    requires OneKey(KeysOf(rows, true), start, i)
    requires i == |rows| || KeyOf(rows[i], true) != KeyOf(rows[start], true)
    ensures var keys := KeysOf(rows, true);
            var key := KeyOf(rows[start], true);
            var now := Continue(d, VGEntries(rows, Runs(keys, start), eps, record));
            && (EndpointsFor(eps, key).None? ==> now == Failure(MissingEndpoint(key)))
            && (EndpointsFor(eps, key).Some? ==>
                  now == Continue(Place(d, key, record(rows[start..i], EndpointsFor(eps, key).value)),
                                  VGEntries(rows, Runs(keys, i), eps, record)))
  {
    var keys := KeysOf(rows, true);
    var key := KeyOf(rows[start], true);
    RunsStep(keys, start, i);
    var runs := Runs(keys, start);
    assert runs[1..] == Runs(keys, i);
    VGEntriesCons(rows, runs, eps, record);
    if EndpointsFor(eps, key).Some? {
      var later := VGEntries(rows, Runs(keys, i), eps, record);
      ContinueCons(d, Entry(key, record(rows[start..i], EndpointsFor(eps, key).value)), later);
    }
  }

  /** The loop of process_VG_data.py and preprocessing/process_VG_data.py. At
      each boundary the endpoints of the (10-character mesh prefix, break) key
      are looked up, raising when absent; the coordinates of the run are wrapped
      with them, ordered by `tsp_order`, and all three permuted by its index list.
      Row 0 is read first, so no rows is a failure. */
  method SegmentVGBreaks(rows: seq<Measurement>, eps: Endpoints, metric: (Point, Point) -> real)
    returns (r: Result<Curves, SegmentError>)
    ensures rows == [] ==> r == Failure(NoRows)
    ensures rows != [] ==> r == SegmentedVG(rows, eps, metric)
  {
    if rows == [] {
      return Failure(NoRows);
    }
    ghost var keys := KeysOf(rows, true);
    ghost var record := VGRecorder(metric);
    ghost var target := SegmentedVG(rows, eps, metric);
    var angledata: Curves := map[];
    var startIndex := 0;
    var current := KeyOf(rows[0], true);
    for i := 0 to |rows| + 1
      invariant startIndex < |rows| && startIndex <= i
      invariant current == KeyOf(rows[startIndex], true)
      invariant i <= |rows| ==> OneKey(keys, startIndex, i)
      invariant i <= |rows| ==> Continue(angledata, VGEntries(rows, Runs(keys, startIndex), eps, record)) == target
      invariant i == |rows| + 1 ==> Success(angledata) == target
    {
      if i == |rows| || current != KeyOf(rows[i], true) {
        VGStep(rows, eps, record, angledata, startIndex, i);
        if current.mesh !in eps || current.breakNo !in eps[current.mesh] {
          return Failure(MissingEndpoint(current));
        }
        var ends := eps[current.mesh][current.breakNo];
        var curve := VGRecord(rows[startIndex..i], ends, metric);
        assert curve == record(rows[startIndex..i], ends);
        angledata := Store(angledata, current, curve);
        if i < |rows| {
          current := KeyOf(rows[i], true);
          startIndex := i;
        }
      } else {
        OneKeyExtend(keys, startIndex, i);
      }
    }
    return Success(angledata);
  }

  /** The body of one boundary step of the VG scripts: wrap, order, permute. */
  method VGRecord(part: seq<Measurement>, ends: EndpointPair, metric: (Point, Point) -> real)
    returns (curve: BreakCurve)
    ensures curve == VGCurve(part, ends, metric)
  {
    var x := Wrap(ends.first.x, Column(part, (m: Measurement) => m.x), ends.second.x);
    var y := Wrap(ends.first.y, Column(part, (m: Measurement) => m.y), ends.second.y);
    var z := Wrap(ends.first.z, Column(part, (m: Measurement) => m.z), ends.second.z);
    var ordered := TspOrder(x, y, z, metric);
    assert |y| == |x| && |z| == |x| && |x| >= 2;
    assert ordered.Success?;
    var idx := ordered.value;
    curve := BreakCurve(Some(|part|),
      Column(part, (m: Measurement) => m.angle), Column(part, (m: Measurement) => m.vertices),
      Column(part, (m: Measurement) => m.radius),
      Gather(x, idx), Gather(y, idx), Gather(z, idx),
      Column(part, (m: Measurement) => m.fit), Column(part, (m: Measurement) => m.segParam));
  }

  /** The entries fail exactly when some run's key has no endpoints. */
  lemma {:induction false} VGEntriesFail(rows: seq<Measurement>, runs: seq<Run>, eps: Endpoints, record: Recorder)
    requires RunsWithin(runs, |rows|)
    ensures VGEntries(rows, runs, eps, record).Failure?
        <==> exists j :: 0 <= j < |runs| && EndpointsFor(eps, KeyOf(rows[runs[j].start], true)).None?
  {
    if runs != [] {
      VGEntriesFail(rows, runs[1..], eps, record);
      VGEntriesCons(rows, runs, eps, record);
      if j :| 0 <= j < |runs[1..]| && EndpointsFor(eps, KeyOf(rows[runs[1..][j].start], true)).None? {
        assert runs[j + 1] == runs[1..][j];
      }
      if j :| 0 <= j < |runs| && EndpointsFor(eps, KeyOf(rows[runs[j].start], true)).None? {
        if j > 0 {
          assert runs[1..][j - 1] == runs[j];
        }
      }
    }
  }

  /** Successful entries are one per run. */
  lemma {:induction false} VGEntriesLength(rows: seq<Measurement>, runs: seq<Run>, eps: Endpoints, record: Recorder)
    requires RunsWithin(runs, |rows|)
    requires VGEntries(rows, runs, eps, record).Success?
    ensures |VGEntries(rows, runs, eps, record).value| == |runs|
  {
    if runs != [] {
      VGEntriesCons(rows, runs, eps, record);
      VGEntriesLength(rows, runs[1..], eps, record);
    }
  }

  /** Successful entry j is the record of run j, under the run's key. */
  lemma {:induction false} VGEntryAt(rows: seq<Measurement>, runs: seq<Run>, eps: Endpoints, record: Recorder, j: nat)
    requires RunsWithin(runs, |rows|) && j < |runs|
    requires VGEntries(rows, runs, eps, record).Success?
    ensures var es := VGEntries(rows, runs, eps, record).value;
            var key := KeyOf(rows[runs[j].start], true);
            && |es| == |runs| && EndpointsFor(eps, key).Some?
            && es[j] == VGRunEntry(rows, runs[j], EndpointsFor(eps, key).value, record)
  {
    VGEntriesLength(rows, runs, eps, record);
    VGEntriesCons(rows, runs, eps, record);
    if j > 0 {
      var rest := VGEntries(rows, runs[1..], eps, record);
      assert runs[1..][j - 1] == runs[j];
      VGEntryAt(rows, runs[1..], eps, record, j - 1);
      assert VGEntries(rows, runs, eps, record).value[j] == rest.value[j - 1];
    }
  }

  /** A row whose key has no endpoint row stops the VG scripts. */
  lemma SegmentedVGFailsAt(rows: seq<Measurement>, eps: Endpoints, metric: (Point, Point) -> real, k: nat)
    requires k < |rows| && EndpointsFor(eps, KeyOf(rows[k], true)).None?
    ensures SegmentedVG(rows, eps, metric).Failure?
  {
    var keys := KeysOf(rows, true);
    var runs := Runs(keys, 0);
    VGEntriesFail(rows, runs, eps, VGRecorder(metric));
    RunsCover(keys, 0, k);
    var j :| 0 <= j < |runs| && runs[j].start <= k < runs[j].end;
    RunOneKey(keys, 0, j);
    assert keys[k] == keys[runs[j].start];
    assert KeyOf(rows[runs[j].start], true) == KeyOf(rows[k], true);
  }

  /** When the VG scripts stop, the first row of some run lacks endpoints. */
  lemma SegmentedVGFailsWitness(rows: seq<Measurement>, eps: Endpoints, metric: (Point, Point) -> real)
    requires SegmentedVG(rows, eps, metric).Failure?
    ensures exists k :: 0 <= k < |rows| && EndpointsFor(eps, KeyOf(rows[k], true)).None?
  {
    var runs := Runs(KeysOf(rows, true), 0);
    VGEntriesFail(rows, runs, eps, VGRecorder(metric));
    var j :| 0 <= j < |runs| && EndpointsFor(eps, KeyOf(rows[runs[j].start], true)).None?;
    var k := runs[j].start;
    assert 0 <= k < |rows| && EndpointsFor(eps, KeyOf(rows[k], true)).None?;
  }

  /** The VG scripts stop with a missing endpoint exactly when some row's
      (mesh prefix, break) key has no endpoint row. */
  lemma SegmentedVGFails(rows: seq<Measurement>, eps: Endpoints, metric: (Point, Point) -> real)
    ensures SegmentedVG(rows, eps, metric).Failure?
        <==> exists k :: 0 <= k < |rows| && EndpointsFor(eps, KeyOf(rows[k], true)).None?
  {
    if k :| 0 <= k < |rows| && EndpointsFor(eps, KeyOf(rows[k], true)).None? {
      SegmentedVGFailsAt(rows, eps, metric, k);
    }
    if SegmentedVG(rows, eps, metric).Failure? {
      SegmentedVGFailsWitness(rows, eps, metric);
    }
  }

  /** On grouped rows, no later VG entry has the key of entry `j`. */
  lemma VGLaterKeysDiffer(rows: seq<Measurement>, runs: seq<Run>, eps: Endpoints, record: Recorder, j: nat)
    requires Grouped(KeysOf(rows, true)) && runs == Runs(KeysOf(rows, true), 0) && j < |runs|
    requires VGEntries(rows, runs, eps, record).Success?
    ensures var es := VGEntries(rows, runs, eps, record).value;
            |es| == |runs| && forall i :: j < i < |es| ==> es[i].key != es[j].key
  {
    var es := VGEntries(rows, runs, eps, record).value;
    VGEntryAt(rows, runs, eps, record, j);
    forall i | j < i < |es| ensures es[i].key != es[j].key {
      GroupedRunsDistinct(KeysOf(rows, true), j, i);
      VGEntryAt(rows, runs, eps, record, i);
    }
  }

  /** On rows whose 10-character keys are grouped and all have endpoints, every
      maximal run is stored as its own VG record, built from the endpoints of its
      key. Sorting does not make the truncated keys grouped; where they are not,
      a later run of the same key overwrites the record (`CollectLast`). */
  lemma SegmentedVGRecord(rows: seq<Measurement>, eps: Endpoints, metric: (Point, Point) -> real, j: nat)
    requires Grouped(KeysOf(rows, true)) && j < |Runs(KeysOf(rows, true), 0)|
    requires SegmentedVG(rows, eps, metric).Success?
    ensures var run := Runs(KeysOf(rows, true), 0)[j];
            var key := KeyOf(rows[run.start], true);
            var d := SegmentedVG(rows, eps, metric).value;
            && key.mesh in eps && key.breakNo in eps[key.mesh]
            && key.mesh in d && key.breakNo in d[key.mesh]
            && d[key.mesh][key.breakNo] == VGCurve(rows[run.start..run.end], eps[key.mesh][key.breakNo], metric)
  {
    var keys := KeysOf(rows, true);
    var runs := Runs(keys, 0);
    var record := VGRecorder(metric);
    var es := VGEntries(rows, runs, eps, record).value;
    VGEntryAt(rows, runs, eps, record, j);
    var run := runs[j];
    var key := KeyOf(rows[run.start], true);
    var ends := eps[key.mesh][key.breakNo];
    assert es[j] == Entry(key, record(rows[run.start..run.end], ends));
    assert record(rows[run.start..run.end], ends) == VGCurve(rows[run.start..run.end], ends, metric);
    VGLaterKeysDiffer(rows, runs, eps, record, j);
    CollectLast(map[], es, j);
    assert SegmentedVG(rows, eps, metric).value == Collect(map[], es);
  }

  // ---------------------------------------------------------------------------
  // old/order_all_breaks.py: reordering every stored curve

  /** The coordinates can be handed to `tsp_order`: equally long, not empty. */
  predicate Orderable(c: BreakCurve) {
    |c.y| == |c.x| && |c.z| == |c.x| && |c.x| >= 1
  }

  /** The record with x, y and z replaced by `[x[i] for i in idx]` for the order `idx`. */
  function Reordered(c: BreakCurve, metric: (Point, Point) -> real): BreakCurve
    requires Orderable(c)
  {
    var idx := CurveOrder(c.x, c.y, c.z, metric);
    c.(x := Gather(c.x, idx), y := Gather(c.y, idx), z := Gather(c.z, idx))
  }

  /** Reordering keeps each coordinate list's length and values, and changes no other field. */
  lemma ReorderedKeepsValues(c: BreakCurve, metric: (Point, Point) -> real)
    requires Orderable(c)
    ensures var r := Reordered(c, metric);
            && multiset(r.x) == multiset(c.x) && multiset(r.y) == multiset(c.y) && multiset(r.z) == multiset(c.z)
            && |r.x| == |c.x| && |r.y| == |c.y| && |r.z| == |c.z|
            && r.(x := c.x, y := c.y, z := c.z) == c
  {
    var idx := CurveOrder(c.x, c.y, c.z, metric);
    GatherPermutation(c.x, idx);
    GatherPermutation(c.y, idx);
    GatherPermutation(c.z, idx);
  }

  /** One record of the reordering loop: `idx = tsp_order(x, y, z)`, then the
      three list comprehensions. `tsp_order` raises on empty or unequal lists. */
  method ReorderCurve(c: BreakCurve, metric: (Point, Point) -> real) returns (r: Result<BreakCurve, TspError>)
    ensures r.Success? <==> Orderable(c)
    ensures r.Success? ==> r.value == Reordered(c, metric)
  {
    var ordered := TspOrder(c.x, c.y, c.z, metric);
    if ordered.Failure? {
      return Failure(ordered.error);
    }
    var idx := ordered.value;
    var newX := Gather(c.x, idx);
    var newY := Gather(c.y, idx);
    var newZ := Gather(c.z, idx);
    return Success(c.(x := newX, y := newY, z := newZ));
  }

  /** Every record of one mesh can be ordered. */
  predicate AllOrderable(breaks: map<int, BreakCurve>) {
    forall b :: b in breaks ==> Orderable(breaks[b])
  }

  /** `after` holds, for each break of `before` outside `todo`, its reordered
      record, and for each break in `todo` the record as it was. */
  predicate ReorderedExcept(before: map<int, BreakCurve>, after: map<int, BreakCurve>, todo: set<int>,
                            metric: (Point, Point) -> real) {
    && after.Keys == before.Keys
    && (forall b :: b in todo && b in before ==> after[b] == before[b])
    && (forall b :: b in before && b !in todo ==> Orderable(before[b]) && after[b] == Reordered(before[b], metric))
  }

  /** A non-empty set of break numbers has a member (the generic
      `NonEmptyHasElement` gives its witness as a boxed value, which the
      such-that below does not pick up for `int`). */
  lemma SomeBreakLeft(todo: set<int>)
    requires todo != {}
    ensures exists b :: b in todo
  {
    if forall b :: b !in todo {
    }
  }

  /** The inner loop over the breaks of one mesh. */
  method ReorderMesh(breaks: map<int, BreakCurve>, metric: (Point, Point) -> real)
    returns (r: Result<map<int, BreakCurve>, TspError>)
    ensures r.Success? <==> AllOrderable(breaks)
    ensures r.Success? ==> ReorderedExcept(breaks, r.value, {}, metric)
  {
    var out := breaks;
    var todo := breaks.Keys;
    while todo != {}
      invariant todo <= breaks.Keys
      invariant ReorderedExcept(breaks, out, todo, metric)
      decreases |todo|
    {
      SomeBreakLeft(todo);
      var b :| b in todo;
      var rec := ReorderCurve(out[b], metric);
      if rec.Failure? {
        return Failure(rec.error);
      }
      out := out[b := rec.value];
      todo := todo - {b};
    }
    return Success(out);
  }

  /** The reordering of old/order_all_breaks.py: every (mesh, break) record
      gets its coordinates put in curve order exactly once; the script stops at
      the first record `tsp_order` cannot take. */
  method ReorderAll(angledata: Curves, metric: (Point, Point) -> real) returns (r: Result<Curves, TspError>)
    ensures r.Success? <==> forall m, b :: m in angledata && b in angledata[m] ==> Orderable(angledata[m][b])
    ensures r.Success? ==> r.value.Keys == angledata.Keys
    ensures r.Success? ==> forall m :: m in angledata ==> r.value[m].Keys == angledata[m].Keys
    ensures r.Success? ==> forall m, b :: m in angledata && b in angledata[m] ==>
              Orderable(angledata[m][b]) && r.value[m][b] == Reordered(angledata[m][b], metric)
  {
    var out := angledata;
    var todo := angledata.Keys;
    while todo != {}
      invariant todo <= angledata.Keys && out.Keys == angledata.Keys
      invariant forall m :: m in todo ==> out[m] == angledata[m]
      invariant forall m :: m in angledata && m !in todo ==> out[m].Keys == angledata[m].Keys
      invariant forall m, b :: m in angledata && m !in todo && b in angledata[m] ==>
                  Orderable(angledata[m][b]) && out[m][b] == Reordered(angledata[m][b], metric)
      decreases |todo|
    {
      NonEmptyHasElement(todo);
      var m :| m in todo;
      var breaks := ReorderMesh(out[m], metric);
      if breaks.Failure? {
        return Failure(breaks.error);
      }
      assert ReorderedExcept(angledata[m], breaks.value, {}, metric);
      out := out[m := breaks.value];
      todo := todo - {m};
    }
    return Success(out);
  }
}
