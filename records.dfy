/**
 * The records of an annotation session and the persisted table
 * `segments_revised.csv` they are written to.
 */
module Records {

  /** The five persisted columns, in file order. */
  const Columns: seq<string> :=
    ["observationID", "classificationProbability", "segmentsFilePath", "scientificName", "userResponse"]

  /** One row of the persisted table, one field per column of `Columns`. */
  datatype Row = Row(
    observationID: string,
    classificationProbability: string,
    segmentsFilePath: string,
    scientificName: string,
    userResponse: string)

  /**
   * One entry of the in-memory store: the five persisted fields plus the
   * derived `image`, `sound` and `species` entries the loader adds.
   */
  datatype Item = Item(
    observationID: string,
    classificationProbability: string,
    segmentsFilePath: string,
    scientificName: string,
    userResponse: string,
    image: string,
    sound: string,
    species: string)

  /** A CSV file: its header line and its data lines, as cells. */
  datatype CsvFile = CsvFile(header: seq<string>, rows: seq<seq<string>>)

  /** An entry has been answered when its response is not the empty string. */
  predicate Annotated(it: Item) {
    it.userResponse != ""
  }

  /** The entry with its one mutable field blanked: what no session operation may change. */
  function Frozen(it: Item): Item {
    it.(userResponse := "")
  }

  /** Answering entry `c` changes that entry's response only: every other entry and every frozen part stays. */
  lemma AnswerKeepsRest(items: seq<Item>, c: nat, response: string)
    requires c < |items|
    ensures |items[c := items[c].(userResponse := response)]| == |items|
    ensures forall i :: 0 <= i < |items| && i != c ==> items[c := items[c].(userResponse := response)][i] == items[i]
    ensures forall i :: 0 <= i < |items| ==> Frozen(items[c := items[c].(userResponse := response)][i]) == Frozen(items[i])
  {
  }

  /** The dictionary handed to `writerow`: the five persisted fields of an entry. */
  function Project(it: Item): (r: Row)
    ensures r.userResponse == it.userResponse && r.segmentsFilePath == it.segmentsFilePath
  {
    Row(it.observationID, it.classificationProbability, it.segmentsFilePath, it.scientificName, it.userResponse)
  }

  /** The cells of a row in `Columns` order. */
  function Cells(r: Row): (c: seq<string>)
    ensures |c| == |Columns|
  {
    [r.observationID, r.classificationProbability, r.segmentsFilePath, r.scientificName, r.userResponse]
  }

  /** The data lines of a table holding `rows`, one line per row, in order. */
  function Lines(rows: seq<Row>): (ls: seq<seq<string>>)
    ensures |ls| == |rows|
    decreases |rows|
  {
    if rows == [] then [] else Lines(rows[..|rows| - 1]) + [Cells(rows[|rows| - 1])]
  }

  /** Line `i` holds the cells of row `i`. */
  lemma {:induction false} LinesAt(rows: seq<Row>, i: nat)
    requires i < |rows|
    ensures Lines(rows)[i] == Cells(rows[i])
    decreases |rows|
  {
    var n := |rows| - 1;
    if i < n {
      LinesAt(rows[..n], i);
    }
  }

  /** The projection of every entry, in store order. */
  function Projection(items: seq<Item>): (rs: seq<Row>)
    ensures |rs| == |items|
    decreases |items|
  {
    if items == [] then [] else Projection(items[..|items| - 1]) + [Project(items[|items| - 1])]
  }

  /** Row `i` of the projection is the projection of entry `i`. */
  lemma {:induction false} ProjectionAt(items: seq<Item>, i: nat)
    requires i < |items|
    ensures Projection(items)[i] == Project(items[i])
    decreases |items|
  {
    var n := |items| - 1;
    if i < n {
      ProjectionAt(items[..n], i);
    }
  }

  /** A table with the five-column header followed by `rows`. */
  function Table(rows: seq<Row>): (f: CsvFile)
    ensures f.header == Columns && |f.rows| == |rows|
  {
    CsvFile(Columns, Lines(rows))
  }

  /**
   * What every rewrite of the persisted file produces from the store:
   * the header, then one five-cell line per entry, in store order.
   */
  function Snapshot(items: seq<Item>): (f: CsvFile)
    ensures f.header == Columns && |f.rows| == |items|
  {
    Table(Projection(items))
  }

  /** Line `i` of the snapshot holds the five persisted fields of entry `i`, in column order. */
  lemma SnapshotLine(items: seq<Item>, i: nat)
    requires i < |items|
    ensures Snapshot(items).rows[i] == [items[i].observationID, items[i].classificationProbability,
      items[i].segmentsFilePath, items[i].scientificName, items[i].userResponse]
  {
    ProjectionAt(items, i);
    LinesAt(Projection(items), i);
  }

  /**
   * The rewrite loop `for item in data: writer.writerow(...)`, preceded by
   * `writeheader()`.
   */
  method WriteAll(items: seq<Item>) returns (f: CsvFile)
    ensures f == Snapshot(items)
  {
    var lines: seq<seq<string>> := [];
    for i := 0 to |items|
      invariant lines == Lines(Projection(items[..i]))
    {
      assert items[..i + 1][..i] == items[..i];
      lines := lines + [Cells(Project(items[i]))];
    }
    assert items[..|items|] == items;
    f := CsvFile(Columns, lines);
  }
}
