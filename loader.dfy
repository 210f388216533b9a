/**
 * `load_data_from_csv`: reading the persisted table into the in-memory store.
 * The CSV parser is modelled by `DictRowOf`, which pairs header names with
 * cells the way `csv.DictReader` does for a line that has no missing cells.
 */
module Loader {
  import opened Wrappers
  import opened Records
  import opened Paths

  /** The `KeyError` raised when a kept row lacks a column the loader reads. */
  datatype LoadError = MissingColumn(column: string)

  /** One parsed line: column name to cell. */
  type DictRow = map<string, string>

  /** `dict(zip(names, values))` on equal-length lists: a later duplicate name wins. */
  function Zip<K, V>(names: seq<K>, values: seq<V>): map<K, V>
    requires |names| == |values|
    decreases |names|
  {
    if names == [] then map[]
    else
      var n := |names| - 1;
      Zip(names[..n], values[..n])[names[n] := values[n]]
  }

  /** The zipped dictionary has exactly the given names, each bound to the value at its last position. */
  lemma {:induction false} ZipLookup<K, V>(names: seq<K>, values: seq<V>, i: nat)
    requires |names| == |values| && i < |names|
    requires forall j :: i < j < |names| ==> names[j] != names[i]
    ensures names[i] in Zip(names, values) && Zip(names, values)[names[i]] == values[i]
    decreases |names|
  {
    var n := |names| - 1;
    if i < n {
      ZipLookup(names[..n], values[..n], i);
    }
  }

  /** Only the given names are keys of the zipped dictionary. */
  lemma {:induction false} ZipKeys<K, V>(names: seq<K>, values: seq<V>, k: K)
    requires |names| == |values|
    ensures k in Zip(names, values) ==> k in names
    decreases |names|
  {
    if names != [] {
      var n := |names| - 1;
      ZipKeys(names[..n], values[..n], k);
      assert names == names[..n] + [names[n]];
    }
  }

  /** The dictionary `DictReader` yields for one line; cells beyond the header are not keyed by a name. */
  function DictRowOf(header: seq<string>, cells: seq<string>): DictRow {
    var n := if |header| < |cells| then |header| else |cells|;
    Zip(header[..n], cells[..n])
  }

  /** The lines `DictReader` reads: a line with no cells at all is skipped. */
  function DataLines(lines: seq<seq<string>>): (ds: seq<seq<string>>)
    ensures |ds| <= |lines|
    ensures forall l :: l in ds <==> l in lines && l != []
    ensures (forall i :: 0 <= i < |lines| ==> lines[i] != []) ==> ds == lines
    decreases |lines|
  {
    if lines == [] then []
    else
      var n := |lines| - 1;
      assert lines == lines[..n] + [lines[n]];
      DataLines(lines[..n]) + (if lines[n] == [] then [] else [lines[n]])
  }

  /** Skipping blank lines distributes over concatenation, so the kept lines stay in file order, each copy kept. */
  lemma {:induction false} DataLinesAppend(a: seq<seq<string>>, b: seq<seq<string>>)
    ensures DataLines(a + b) == DataLines(a) + DataLines(b)
    decreases |b|
  {
    if b == [] {
      assert a + b == a;
    } else {
      var n := |b| - 1;
      assert (a + b)[..|a + b| - 1] == a + b[..n];
      DataLinesAppend(a, b[..n]);
    }
  }

  /** Each line parsed against the header, in order. */
  function ParseLines(header: seq<string>, lines: seq<seq<string>>): (rows: seq<DictRow>)
    ensures |rows| == |lines|
    ensures forall i :: 0 <= i < |lines| ==> rows[i] == DictRowOf(header, lines[i])
    decreases |lines|
  {
    if lines == [] then []
    else ParseLines(header, lines[..|lines| - 1]) + [DictRowOf(header, lines[|lines| - 1])]
  }

  /** Every non-blank data line of a file, parsed against its header, in file order. */
  function ReadRows(f: CsvFile): (rows: seq<DictRow>)
    ensures |rows| == |DataLines(f.rows)|
    ensures forall i :: 0 <= i < |rows| ==> rows[i] == DictRowOf(f.header, DataLines(f.rows)[i])
  {
    ParseLines(f.header, DataLines(f.rows))
  }

  /** A file with no blank line is parsed line for line. */
  lemma ReadRowsNoBlank(f: CsvFile)
    requires forall i :: 0 <= i < |f.rows| ==> f.rows[i] != []
    ensures |ReadRows(f)| == |f.rows|
    ensures forall i :: 0 <= i < |f.rows| ==> ReadRows(f)[i] == DictRowOf(f.header, f.rows[i])
  {
  }

  /** A header followed by one blank line holds no data: it loads as an empty store and no annotations. */
  lemma BlankLineSkipped()
    ensures ReadRows(CsvFile(Columns, [[]])) == []
    ensures Load(Some(ReadRows(CsvFile(Columns, [[]])))) == Success([])
    ensures Annotations(Some(ReadRows(CsvFile(Columns, [[]])))) == Success(map[])
  {
    var lines: seq<seq<string>> := [[]];
    assert lines[..0] == [];
    assert DataLines(lines) == [];
  }

  /** The snapshot has no blank line, so it is parsed line for line. */
  lemma SnapshotRows(items: seq<Item>)
    ensures |ReadRows(Snapshot(items))| == |items|
    ensures forall i :: 0 <= i < |items| ==>
      ReadRows(Snapshot(items))[i] == DictRowOf(Columns, Snapshot(items).rows[i])
  {
    var f := Snapshot(items);
    forall i | 0 <= i < |f.rows| ensures f.rows[i] != [] {
      SnapshotLine(items, i);
    }
    ReadRowsNoBlank(f);
  }

  /** The filter on line 74: the row names an observation, a species and a sound file. */
  predicate HasKeys(row: DictRow) {
    "observationID" in row && "scientificName" in row && "segmentsFilePath" in row
  }

  /** The row also has the two columns the loader reads without checking. */
  predicate Complete(row: DictRow) {
    "classificationProbability" in row && "userResponse" in row
  }

  /** The rows the filter lets through, in their original order. */
  function Kept(rows: seq<DictRow>): (ks: seq<DictRow>)
    ensures |ks| <= |rows|
    ensures forall i :: 0 <= i < |ks| ==> HasKeys(ks[i])
    ensures forall r :: r in ks <==> r in rows && HasKeys(r)
    decreases |rows|
  {
    if rows == [] then []
    else
      var last := rows[|rows| - 1];
      assert rows == rows[..|rows| - 1] + [last];
      Kept(rows[..|rows| - 1]) + (if HasKeys(last) then [last] else [])
  }

  /** Filtering distributes over concatenation, so kept rows keep their relative order. */
  lemma {:induction false} KeptAppend(a: seq<DictRow>, b: seq<DictRow>)
    ensures Kept(a + b) == Kept(a) + Kept(b)
    decreases |b|
  {
    if b == [] {
      assert a + b == a;
    } else {
      var n := |b| - 1;
      assert (a + b)[..|a + b| - 1] == a + b[..n];
      KeptAppend(a, b[..n]);
    }
  }

  /** When every row passes the filter, none is dropped. */
  lemma {:induction false} KeptAll(rows: seq<DictRow>)
    requires forall i :: 0 <= i < |rows| ==> HasKeys(rows[i])
    ensures Kept(rows) == rows
    decreases |rows|
  {
    if rows != [] {
      var n := |rows| - 1;
      KeptAll(rows[..n]);
      assert rows[..n] + [rows[n]] == rows;
    }
  }

  /** A derived entry is consistent: sound path as stored, species as stored, image path from the sound path. */
  predicate WellFormed(it: Item) {
    it.sound == it.segmentsFilePath && it.species == it.scientificName && it.image == ImagePath(it.sound)
  }

  /** The dictionary appended on lines 78-87 for a row with all five columns. */
  function MakeItem(row: DictRow): (it: Item)
    requires HasKeys(row) && Complete(row)
    ensures WellFormed(it)
    ensures Project(it) == Row(row["observationID"], row["classificationProbability"],
      row["segmentsFilePath"], row["scientificName"], row["userResponse"])
  {
    var sound := row["segmentsFilePath"];
    var species := row["scientificName"];
    Item(row["observationID"], row["classificationProbability"], sound, species,
      row["userResponse"], ImagePath(sound), sound, species)
  }

  /** One kept row to one entry, failing on the first missing column in the order the literal reads them. */
  function ToItem(row: DictRow): (r: Result<Item, LoadError>)
    requires HasKeys(row)
    ensures r.Success? <==> Complete(row)
    ensures r.Failure? ==> r.error == MissingColumn(
      if "classificationProbability" !in row then "classificationProbability" else "userResponse")
  {
    if "classificationProbability" !in row then Failure(MissingColumn("classificationProbability"))
    else if "userResponse" !in row then Failure(MissingColumn("userResponse"))
    else Success(MakeItem(row))
  }

  /** The loop on lines 73-87 over the parsed rows. */
  function LoadRows(rows: seq<DictRow>): (r: Result<seq<Item>, LoadError>)
    ensures r.Success? <==> forall i :: 0 <= i < |rows| && HasKeys(rows[i]) ==> Complete(rows[i])
    ensures r.Success? ==> |r.value| == |Kept(rows)|
    ensures r.Success? ==>
      forall i :: 0 <= i < |r.value| ==> Complete(Kept(rows)[i]) && r.value[i] == MakeItem(Kept(rows)[i])
    ensures r.Failure? ==>
      exists i :: 0 <= i < |rows| && HasKeys(rows[i]) && !Complete(rows[i]) &&
        r == Failure(ToItem(rows[i]).error) &&
        forall j :: 0 <= j < i && HasKeys(rows[j]) ==> Complete(rows[j])
    decreases |rows|
  {
    if rows == [] then Success([])
    else
      var n := |rows| - 1;
      assert rows == rows[..n] + [rows[n]];
      Step(LoadRows(rows[..n]), rows[n])
  }

  /** One iteration of the loader loop: keep the failure, skip a filtered row, or append its entry. */
  function Step(acc: Result<seq<Item>, LoadError>, row: DictRow): Result<seq<Item>, LoadError> {
    match acc
    case Failure(e) => Failure(e)
    case Success(done) =>
      if !HasKeys(row) then Success(done)
      else match ToItem(row)
        case Failure(e) => Failure(e)
        case Success(it) => Success(done + [it])
  }

  /** Loading one more row is one more `Step`. */
  lemma LoadRowsStep(rows: seq<DictRow>, i: nat)
    requires i < |rows|
    ensures LoadRows(rows[..i + 1]) == Step(LoadRows(rows[..i]), rows[i])
  {
    assert rows[..i + 1][..i] == rows[..i];
  }

  /** `load_data_from_csv`: a missing file (`None`) gives an empty store. */
  function Load(source: Option<seq<DictRow>>): (r: Result<seq<Item>, LoadError>)
    ensures source.None? ==> r == Success([])
    ensures r.Success? ==> forall i :: 0 <= i < |r.value| ==> WellFormed(r.value[i])
  {
    match source
    case None => Success([])
    case Some(rows) => LoadRows(rows)
  }

  /** Once a prefix of the rows fails to load, so does every extension of it, with the same error. */
  lemma {:induction false} FailureSticks(a: seq<DictRow>, b: seq<DictRow>)
    requires LoadRows(a).Failure?
    ensures LoadRows(a + b) == LoadRows(a)
    decreases |b|
  {
    if b == [] {
      assert a + b == a;
    } else {
      var n := |b| - 1;
      assert (a + b)[..|a + b| - 1] == a + b[..n];
      FailureSticks(a, b[..n]);
    }
  }

  /** `load_data_from_csv`, as the loop the source runs. */
  method LoadDataFromCsv(source: Option<seq<DictRow>>) returns (r: Result<seq<Item>, LoadError>)
    ensures r == Load(source)
  {
    if source.None? {
      return Success([]);
    }
    var rows := source.value;
    var data: seq<Item> := [];
    for i := 0 to |rows|
      invariant LoadRows(rows[..i]) == Success(data)
    {
      var row := rows[i];
      LoadRowsStep(rows, i);
      if "observationID" in row && "scientificName" in row && "segmentsFilePath" in row {
        if "classificationProbability" !in row || "userResponse" !in row {
          r := Failure(ToItem(row).error);
          FailureSticks(rows[..i + 1], rows[i + 1..]);
          assert rows[..i + 1] + rows[i + 1..] == rows;
          return;
        }
        var sound := row["segmentsFilePath"];
        var image := ImagePath(sound);
        var species := row["scientificName"];
        data := data + [Item(row["observationID"], row["classificationProbability"], sound, species,
          row["userResponse"], image, sound, species)];
      }
    }
    assert rows[..|rows|] == rows;
    r := Success(data);
  }

  /** `DictReader` on a line written under the five-column header recovers the row's five fields. */
  lemma ReadBackRow(r: Row)
    ensures DictRowOf(Columns, Cells(r)) == map[
      "observationID" := r.observationID,
      "classificationProbability" := r.classificationProbability,
      "segmentsFilePath" := r.segmentsFilePath,
      "scientificName" := r.scientificName,
      "userResponse" := r.userResponse]
  {
    var cells := Cells(r);
    assert Columns[..5] == Columns && cells[..5] == cells;
    var m := Zip(Columns, cells);
    assert DictRowOf(Columns, cells) == m;
    ZipLookup(Columns, cells, 0);
    ZipLookup(Columns, cells, 1);
    ZipLookup(Columns, cells, 2);
    ZipLookup(Columns, cells, 3);
    ZipLookup(Columns, cells, 4);
    forall k | k in m ensures k in Columns {
      ZipKeys(Columns, cells, k);
    }
  }

  /** The line written for a consistent entry loads back as that entry. */
  lemma ReloadEntry(it: Item)
    requires WellFormed(it)
    ensures HasKeys(DictRowOf(Columns, Cells(Project(it))))
    ensures Complete(DictRowOf(Columns, Cells(Project(it))))
    ensures MakeItem(DictRowOf(Columns, Cells(Project(it)))) == it
  {
    ReadBackRow(Project(it));
  }

  /**
   * Write-through completeness: loading the snapshot the session writes gives
   * back the store, entry for entry and in order.
   */
  lemma {:induction false} ReloadSnapshot(items: seq<Item>)
    requires forall i :: 0 <= i < |items| ==> WellFormed(items[i])
    ensures Load(Some(ReadRows(Snapshot(items)))) == Success(items)
  {
    var f := Snapshot(items);
    var rows := ReadRows(f);
    SnapshotRows(items);
    forall i | 0 <= i < |rows|
      ensures HasKeys(rows[i]) && Complete(rows[i]) && MakeItem(rows[i]) == items[i]
    {
      assert rows[i] == DictRowOf(Columns, f.rows[i]);
      ProjectionAt(items, i);
      LinesAt(Projection(items), i);
      ReloadEntry(items[i]);
    }
    KeptAll(rows);
    var r := LoadRows(rows);
    assert r.Success?;
    assert |r.value| == |items|;
    forall i | 0 <= i < |items| ensures r.value[i] == items[i] {
      assert r.value[i] == MakeItem(Kept(rows)[i]);
    }
    assert r.value == items;
    assert Load(Some(rows)) == r;
  }

  /** The two columns `load_existing_annotations` reads from every line. */
  predicate Annotatable(row: DictRow) {
    "userResponse" in row && "segmentsFilePath" in row
  }

  /**
   * The `KeyError` of line 102 for a line lacking a column: the response is
   * looked up first, since Python evaluates the right-hand side of an
   * assignment before its subscript target.
   */
  function AnnotationError(row: DictRow): (e: LoadError)
    requires !Annotatable(row)
    ensures e.column !in row
  {
    if "userResponse" !in row then MissingColumn("userResponse") else MissingColumn("segmentsFilePath")
  }

  /** One iteration of lines 101-102: keep the failure, or record the line's response under its path. */
  function AnnotateStep(acc: Result<map<string, string>, LoadError>, row: DictRow): Result<map<string, string>, LoadError> {
    match acc
    case Failure(e) => Failure(e)
    case Success(m) =>
      if Annotatable(row) then Success(m[row["segmentsFilePath"] := row["userResponse"]])
      else Failure(AnnotationError(row))
  }

  /**
   * Lines 100-102 over the parsed lines: it succeeds exactly when every line
   * has both columns, and otherwise fails on the first line that lacks one.
   */
  function AnnotateRows(rows: seq<DictRow>): (r: Result<map<string, string>, LoadError>)
    ensures r.Success? <==> forall i :: 0 <= i < |rows| ==> Annotatable(rows[i])
    ensures r.Failure? ==>
      exists i :: 0 <= i < |rows| && !Annotatable(rows[i]) && r.error == AnnotationError(rows[i]) &&
        forall j :: 0 <= j < i ==> Annotatable(rows[j])
    decreases |rows|
  {
    if rows == [] then Success(map[])
    else
      var n := |rows| - 1;
      assert rows == rows[..n] + [rows[n]];
      AnnotateStep(AnnotateRows(rows[..n]), rows[n])
  }

  /** Annotating one more line is one more `AnnotateStep`. */
  lemma AnnotateRowsStep(rows: seq<DictRow>, i: nat)
    requires i < |rows|
    ensures AnnotateRows(rows[..i + 1]) == AnnotateStep(AnnotateRows(rows[..i]), rows[i])
  {
    assert rows[..i + 1][..i] == rows[..i];
  }

  /** `load_existing_annotations`: a missing file gives no annotations. */
  function Annotations(source: Option<seq<DictRow>>): (r: Result<map<string, string>, LoadError>)
    ensures source.None? ==> r == Success(map[])
    ensures source.Some? ==> (r.Success? <==> forall i :: 0 <= i < |source.value| ==> Annotatable(source.value[i]))
  {
    match source
    case None => Success(map[])
    case Some(rows) => AnnotateRows(rows)
  }

  /**
   * Each path maps to the response of its last line: when no later line has
   * the same path, line `i`'s response is the one recorded.
   */
  lemma {:induction false} AnnotateLookup(rows: seq<DictRow>, i: nat)
    requires forall j :: 0 <= j < |rows| ==> Annotatable(rows[j])
    requires i < |rows| && Annotatable(rows[i])
    requires forall j :: i < j < |rows| ==>
      Annotatable(rows[j]) && rows[j]["segmentsFilePath"] != rows[i]["segmentsFilePath"]
    ensures AnnotateRows(rows).Success?
    ensures rows[i]["segmentsFilePath"] in AnnotateRows(rows).value
    ensures AnnotateRows(rows).value[rows[i]["segmentsFilePath"]] == rows[i]["userResponse"]
    decreases |rows|
  {
    var n := |rows| - 1;
    if i < n {
      AnnotateLookup(rows[..n], i);
    }
  }

  /** `load_existing_annotations`, as the loop the source runs. */
  method LoadExistingAnnotations(source: Option<seq<DictRow>>) returns (r: Result<map<string, string>, LoadError>)
    ensures r == Annotations(source)
  {
    if source.None? {
      return Success(map[]);
    }
    var rows := source.value;
    var annotations: map<string, string> := map[];
    for i := 0 to |rows|
      invariant AnnotateRows(rows[..i]) == Success(annotations)
    {
      var row := rows[i];
      AnnotateRowsStep(rows, i);
      if "userResponse" !in row || "segmentsFilePath" !in row {
        r := Failure(AnnotationError(row));
        AnnotateFailureSticks(rows[..i + 1], rows[i + 1..]);
        assert rows[..i + 1] + rows[i + 1..] == rows;
        return;
      }
      annotations := annotations[row["segmentsFilePath"] := row["userResponse"]];
    }
    assert rows[..|rows|] == rows;
    r := Success(annotations);
  }

  /** Once a prefix of the lines fails to annotate, so does every extension of it, with the same error. */
  lemma {:induction false} AnnotateFailureSticks(a: seq<DictRow>, b: seq<DictRow>)
    requires AnnotateRows(a).Failure?
    ensures AnnotateRows(a + b) == AnnotateRows(a)
    decreases |b|
  {
    if b == [] {
      assert a + b == a;
    } else {
      var n := |b| - 1;
      assert (a + b)[..|a + b| - 1] == a + b[..n];
      AnnotateFailureSticks(a, b[..n]);
    }
  }

  /** Every line of the snapshot the session writes has a path and a response, so reading it back never fails. */
  lemma SnapshotAnnotatable(items: seq<Item>)
    ensures Annotations(Some(ReadRows(Snapshot(items)))).Success?
  {
    var rows := ReadRows(Snapshot(items));
    SnapshotRows(items);
    forall j | 0 <= j < |rows| ensures Annotatable(rows[j]) {
      SnapshotLine(items, j);
      ReadBackRow(Project(items[j]));
    }
  }

  /** In the snapshot's annotations each entry's path maps to the response of the last entry with that path. */
  lemma SnapshotAnnotations(items: seq<Item>, i: nat)
    requires i < |items|
    requires forall j :: i < j < |items| ==> items[j].segmentsFilePath != items[i].segmentsFilePath
    ensures Annotations(Some(ReadRows(Snapshot(items)))).Success?
    ensures items[i].segmentsFilePath in Annotations(Some(ReadRows(Snapshot(items)))).value
    ensures Annotations(Some(ReadRows(Snapshot(items)))).value[items[i].segmentsFilePath] == items[i].userResponse
  {
    var f := Snapshot(items);
    var rows := ReadRows(f);
    SnapshotRows(items);
    forall j | 0 <= j < |rows|
      ensures Annotatable(rows[j])
      ensures rows[j]["segmentsFilePath"] == items[j].segmentsFilePath
      ensures rows[j]["userResponse"] == items[j].userResponse
    {
      assert rows[j] == DictRowOf(Columns, f.rows[j]);
      SnapshotLine(items, j);
      assert f.rows[j] == Cells(Project(items[j]));
      ReadBackRow(Project(items[j]));
    }
    assert forall j :: i < j < |rows| ==>
      Annotatable(rows[j]) && rows[j]["segmentsFilePath"] != rows[i]["segmentsFilePath"];
    AnnotateLookup(rows, i);
  }

  /**
   * A file whose header lacks `segmentsFilePath` loads as an empty store, since
   * the filter drops every line, but reading its annotations raises `KeyError`.
   */
  lemma MissingPathAbortsAnnotations()
    ensures var f := CsvFile(["observationID", "classificationProbability", "scientificName", "userResponse"],
        [["1", "0.9", "Homo sapiens", ""]]);
      Load(Some(ReadRows(f))) == Success([]) &&
      Annotations(Some(ReadRows(f))) == Failure(MissingColumn("segmentsFilePath"))
  {
    var f := CsvFile(["observationID", "classificationProbability", "scientificName", "userResponse"],
      [["1", "0.9", "Homo sapiens", ""]]);
    var header, cells := f.header, f.rows[0];
    var row := DictRowOf(header, cells);
    assert header[..4] == header && cells[..4] == cells;
    ZipKeys(header, cells, "segmentsFilePath");
    ZipLookup(header, cells, 3);
    var rows := ReadRows(f);
    assert rows == [row];
    assert !HasKeys(row) && !Annotatable(row);
    assert [row][..0] == [];
    assert LoadRows([row]) == Step(LoadRows([]), row);
    assert AnnotateRows([row]) == AnnotateStep(AnnotateRows([]), row);
  }
}
