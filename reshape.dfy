/**
 * `make_annotation_file.py`: the one-shot transform of `segments.csv` into
 * the initial annotation table. Each line is reshaped on its own; the
 * script keeps every line and its order.
 */
module Reshape {
  import opened Wrappers
  import opened Records
  import opened Strings
  import opened Loader
  import opened Navigation
  import opened Paths

  /** A line of `segments.csv`: the four columns the script reads plus any others, which it drops. */
  datatype SegmentRow = SegmentRow(
    observationID: string,
    classificationProbability: string,
    segmentsFilePath: string,
    scientificName: string,
    others: map<string, string>)

  const SegmentsDir: string := "../segments/"

  /** Line 12: spaces in the species name become underscores. */
  function Underscored(name: string): (u: string)
    ensures |u| == |name| && ' ' !in u
    ensures forall k :: 0 <= k < |u| ==> u[k] == if name[k] == ' ' then '_' else name[k]
  {
    Replace(name, ' ', '_')
  }

  /** Line 15: the file path relative to the output folder, under the species folder. */
  function RelativePath(name: string, file: string): string {
    SegmentsDir + name + "/" + file
  }

  /** Lines 12-21 for one line: rename, relocate, blank the response, keep five columns. */
  function ReshapeRow(row: SegmentRow): (out: Row)
    ensures out.observationID == row.observationID
    ensures out.classificationProbability == row.classificationProbability
    ensures |out.scientificName| == |row.scientificName| && ' ' !in out.scientificName
    ensures var dir := SegmentsDir + out.scientificName + "/";
      |out.segmentsFilePath| == |dir| + |row.segmentsFilePath| &&
      out.segmentsFilePath[..|dir|] == dir && out.segmentsFilePath[|dir|..] == row.segmentsFilePath
    ensures out.userResponse == ""
  {
    var name := Underscored(row.scientificName);
    var path := RelativePath(name, row.segmentsFilePath);
    assert path == (SegmentsDir + name + "/") + row.segmentsFilePath;
    Row(row.observationID, row.classificationProbability, path, name, "")
  }

  /**
   * The spectrogram the session derives for a reshaped line lies in the same
   * species folder as the sound: `../segments/<new name>/` followed by the
   * image path of the original file path.
   */
  lemma ImageInSpeciesFolder(row: SegmentRow)
    ensures var out := ReshapeRow(row);
      ImagePath(out.segmentsFilePath) == RelativePath(out.scientificName, ImagePath(row.segmentsFilePath))
  {
    var name := Underscored(row.scientificName);
    var dir := SegmentsDir + name + "/";
    assert RelativePath(name, row.segmentsFilePath) == dir + row.segmentsFilePath;
    assert RelativePath(name, ImagePath(row.segmentsFilePath)) == dir + ImagePath(row.segmentsFilePath);
    ImagePathUnderDirectory(dir, row.segmentsFilePath);
  }

  /** The whole table, line by line in order. */
  function ReshapeAll(rows: seq<SegmentRow>): (out: seq<Row>)
    ensures |out| == |rows|
    ensures forall i :: 0 <= i < |rows| ==> out[i] == ReshapeRow(rows[i])
    decreases |rows|
  {
    if rows == [] then [] else ReshapeAll(rows[..|rows| - 1]) + [ReshapeRow(rows[|rows| - 1])]
  }

  /** The file the script writes: the five-column header, then the reshaped lines. */
  function Output(rows: seq<SegmentRow>): CsvFile {
    Table(ReshapeAll(rows))
  }

  /**
   * What each output line holds: the identifier and probability unchanged,
   * the name with every space turned into an underscore and nothing else
   * changed, the path `../segments/<new name>/<old path>`, an empty response.
   */
  lemma {:induction false} ReshapeLine(rows: seq<SegmentRow>, i: nat)
    requires i < |rows|
    ensures var out := ReshapeAll(rows)[i];
      out.observationID == rows[i].observationID &&
      out.classificationProbability == rows[i].classificationProbability &&
      |out.scientificName| == |rows[i].scientificName| &&
      ' ' !in out.scientificName &&
      (forall k :: 0 <= k < |out.scientificName| ==>
        out.scientificName[k] == if rows[i].scientificName[k] == ' ' then '_' else rows[i].scientificName[k]) &&
      out.segmentsFilePath == SegmentsDir + out.scientificName + "/" + rows[i].segmentsFilePath &&
      out.userResponse == ""
  {
    assert ReshapeAll(rows)[i] == ReshapeRow(rows[i]);
  }

  /** Every line of the written file has the five output columns, in header order. */
  lemma {:induction false} OutputLines(rows: seq<SegmentRow>, i: nat)
    requires i < |rows|
    ensures Output(rows).header == Columns && |Output(rows).rows| == |rows|
    ensures var r := ReshapeRow(rows[i]);
      Output(rows).rows[i] == [rows[i].observationID, rows[i].classificationProbability,
        r.segmentsFilePath, r.scientificName, ""]
  {
    assert ReshapeAll(rows)[i] == ReshapeRow(rows[i]);
    LinesAt(ReshapeAll(rows), i);
  }

  /** A name without underscores reads back unchanged on the session's species label. */
  lemma LabelRestoresName(name: string)
    requires '_' !in name
    ensures Replace(Underscored(name), '_', ' ') == name
  {
    ReplaceUndone(name, ' ', '_');
  }

  /**
   * The script's output opens a fresh session: the loader keeps every line,
   * in order, every entry is unanswered, so resuming starts at index 0.
   */
  lemma {:induction false} OutputLoadsUnanswered(rows: seq<SegmentRow>)
    ensures Load(Some(ReadRows(Output(rows)))).Success?
    ensures |Load(Some(ReadRows(Output(rows)))).value| == |rows|
    ensures forall i :: 0 <= i < |rows| ==> !Annotated(Load(Some(ReadRows(Output(rows)))).value[i])
    ensures FirstUnannotated(Load(Some(ReadRows(Output(rows)))).value) == 0
  {
    var f := Output(rows);
    var lines := ReadRows(f);
    forall i | 0 <= i < |f.rows| ensures f.rows[i] != [] {
      OutputLines(rows, i);
    }
    ReadRowsNoBlank(f);
    forall i | 0 <= i < |lines|
      ensures HasKeys(lines[i]) && Complete(lines[i]) && lines[i]["userResponse"] == ""
    {
      OutputLines(rows, i);
      var r := ReshapeRow(rows[i]);
      assert f.rows[i] == Cells(r);
      ReadBackRow(r);
    }
    KeptAll(lines);
    var loaded := LoadRows(lines);
    forall i | 0 <= i < |rows| ensures !Annotated(loaded.value[i]) {
      assert loaded.value[i] == MakeItem(lines[i]);
    }
    ClearedResumesAtStart(loaded.value);
  }
}
