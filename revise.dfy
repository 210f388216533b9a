/**
 * The annotation session of `revise_segments.py`: the store `data`, the
 * cursor `current_index`, the persisted table, and the navigation and
 * answering operations, with the widget toolkit reduced to the state the
 * operations read or write (species label, text field, quit flag, playback
 * requests).
 */
module Revise {
  import opened Wrappers
  import opened Records
  import opened Strings
  import opened Loader
  import opened Navigation
  import opened Keys

  /** The species label text shown by `update_image`: underscores as spaces. */
  function DisplayName(species: string): (s: string)
    ensures '_' !in s && |s| == |species|
    ensures forall i :: 0 <= i < |s| ==> s[i] == if species[i] == '_' then ' ' else species[i]
  {
    Replace(species, '_', ' ')
  }

  /** `initialize_csv`: create a header-only file when none exists, never overwrite one. */
  function Initialized(stored: Option<CsvFile>): (f: CsvFile)
    ensures stored.Some? ==> f == stored.value
    ensures stored.None? ==> f.header == Columns && f.rows == []
  {
    match stored
    case None => Snapshot([])
    case Some(existing) => existing
  }

  /** The parsed lines of the file, or `None` when it does not exist. */
  function Reread(stored: Option<CsvFile>): (rows: Option<seq<DictRow>>)
    ensures rows.None? <==> stored.None?
  {
    match stored
    case None => None
    case Some(f) => Some(ReadRows(f))
  }

  class Session {
    /** The store, in file order; only `userResponse` fields ever change. */
    var data: seq<Item>
    /** `current_index`; `len(data)` (or one past it) means finished. */
    var cursor: nat
    /** The persisted table `segments_revised.csv`. */
    var file: CsvFile
    /** `root.quit()` has been called. */
    var quit: bool
    /** The sound paths handed to the playback thread, in request order. */
    var plays: seq<string>
    /** The text of the species label. */
    var speciesText: string
    /** The contents of the text field (`actual_value_var`). */
    var field: string
    /** The image paths `Image.open` succeeds on. */
    const readable: set<string>

    /**
     * The cursor never leaves `0..len(data)+1`, and every entry keeps the
     * sound, species and image paths the loader derived.
     */
    ghost predicate Valid()
      reads this
    {
      cursor <= |data| + 1 && forall i :: 0 <= i < |data| ==> WellFormed(data[i])
    }

    /**
     * The display state after a navigation step. When the cursor rests on an
     * entry, that entry is presented: its speciesText and text field are shown, the
     * text-field write has rewritten the file, and its sound was requested.
     * Otherwise nothing was presented and `root.quit()` was called.
     */
    ghost predicate Presented(plays0: seq<string>, file0: CsvFile, speciesText0: string, field0: string, quit0: bool)
      reads this
    {
      if cursor < |data| then
        file == Snapshot(data) && speciesText == DisplayName(data[cursor].species) &&
        field == data[cursor].userResponse && plays == plays0 + [data[cursor].sound] && quit == quit0
      else
        file == file0 && speciesText == speciesText0 && field == field0 && plays == plays0 && quit
    }

    /**
     * Start-up (lines 91, 267-269 and 324-328): take the loaded store, make
     * sure the file exists, resume at the first unanswered entry and present
     * it, or quit when there is none.
     */
    constructor (items: seq<Item>, stored: Option<CsvFile>, readable: set<string>)
      requires forall i :: 0 <= i < |items| ==> WellFormed(items[i])
      ensures Valid() && data == items && this.readable == readable
      ensures cursor == if FirstUnannotated(items) < |items| then Settle(items, readable, FirstUnannotated(items))
                        else FirstUnannotated(items)
      ensures Presented([], Initialized(stored), "", "", false)
    {
      data := items;
      file := Initialized(stored);
      cursor := 0;
      quit := false;
      plays := [];
      speciesText := "";
      field := "";
      this.readable := readable;
      new;
      Start();
    }

    /**
     * Lines 268 and 324-328: resume at the first unanswered entry and present
     * it, or quit when every entry is answered.
     */
    method Start()
      requires Valid()
      modifies this
      ensures Valid() && data == old(data)
      ensures cursor == if FirstUnannotated(data) < |data| then Settle(data, readable, FirstUnannotated(data))
                        else FirstUnannotated(data)
      ensures Presented(old(plays), old(file), old(speciesText), old(field), old(quit))
    {
      var k := FindFirstUnannotated();
      cursor := k;
      if k < |data| {
        UpdateImage();
      } else {
        quit := true;
      }
    }

    /** `find_first_unannotated`: the least index with an empty response, or `len(data)`. */
    method FindFirstUnannotated() returns (k: nat)
      ensures k <= |data|
      ensures k < |data| ==> data[k].userResponse == ""
      ensures forall i :: 0 <= i < k ==> data[i].userResponse != ""
      ensures k == FirstUnannotated(data)
    {
      for i := 0 to |data|
        invariant forall j :: 0 <= j < i ==> data[j].userResponse != ""
      {
        if data[i].userResponse == "" {
          ResumeUnique(data, i);
          return i;
        }
      }
      ResumeUnique(data, |data|);
      return |data|;
    }

    /** The whole-file rewrite: header, then one line per entry in store order. */
    method RewriteAll()
      modifies this`file
      ensures file == Snapshot(data)
    {
      file := WriteAll(data);
    }

    /** `play_sound`: request playback of the current entry's sound; out of range it fails. */
    method PlaySound() returns (ok: bool)
      modifies this`plays
      ensures ok == (cursor < |data|)
      ensures plays == if ok then old(plays) + [data[cursor].sound] else old(plays)
    {
      ok := cursor < |data|;
      if ok {
        plays := plays + [data[cursor].sound];
      }
    }

    /**
     * `update_actual_value`: store the text field as the current response and
     * rewrite the file; out of range the index fails and nothing changes.
     */
    method UpdateActualValue() returns (ok: bool)
      modifies this`data, this`file
      ensures ok == (cursor < |old(data)|)
      ensures ok ==> data == old(data)[cursor := old(data)[cursor].(userResponse := field)]
      ensures ok ==> file == Snapshot(data)
      ensures !ok ==> data == old(data) && file == old(file)
    {
      ok := cursor < |data|;
      if ok {
        data := data[cursor := data[cursor].(userResponse := field)];
        RewriteAll();
      }
    }

    /**
     * `update_image`: present the current entry when its image opens,
     * otherwise fall back to `skip_sample`.
     */
    method UpdateImage()
      requires cursor <= |data|
      modifies this
      decreases |data| - cursor, 2
      ensures data == old(data) && cursor <= |data| + 1
      ensures cursor == Settle(data, readable, old(cursor))
      ensures Presented(old(plays), old(file), old(speciesText), old(field), old(quit))
    {
      if cursor < |data| && data[cursor].image in readable {
        assert Settle(data, readable, cursor) == cursor;
        speciesText := DisplayName(data[cursor].species);
        field := data[cursor].userResponse;
        ghost var before := data;
        assert before[cursor].(userResponse := field) == before[cursor];
        var _ := UpdateActualValue();
        assert data == before;
        var _ := PlaySound();
      } else {
        assert Settle(data, readable, cursor) == Advance(data, readable, cursor);
        SkipSample();
      }
    }

    /** `skip_sample`: move on exactly as `next_sample` does, recording nothing. */
    method SkipSample()
      requires cursor <= |data|
      modifies this
      decreases |data| - cursor, 1
      ensures data == old(data) && cursor <= |data| + 1
      ensures cursor == Advance(data, readable, old(cursor))
      ensures Presented(old(plays), old(file), old(speciesText), old(field), old(quit))
    {
      NextSample();
    }

    /**
     * `next_sample`: step past the cursor, skip answered entries, then present
     * the entry reached or quit at the end.
     */
    method NextSample()
      requires cursor <= |data|
      modifies this
      decreases |data| - cursor, 0
      ensures data == old(data) && cursor <= |data| + 1
      ensures cursor == Advance(data, readable, old(cursor))
      ensures Presented(old(plays), old(file), old(speciesText), old(field), old(quit))
    {
      var k := cursor + 1;
      while k < |data| && data[k].userResponse != ""
        invariant cursor < k <= |data| + 1
        invariant Scan(data, k) == Scan(data, cursor + 1)
        decreases |data| - k
      {
        k := k + 1;
      }
      cursor := k;
      if cursor < |data| {
        UpdateImage();
      } else {
        quit := true;
      }
    }

    /**
     * `record_response`: set the current response, rewrite the file, and
     * move on with `next_sample`. Out of range the index fails and nothing changes.
     */
    method RecordResponse(response: string) returns (ok: bool)
      requires Valid()
      modifies this
      ensures Valid()
      ensures ok == (old(cursor) < |old(data)|)
      ensures !ok ==> unchanged(this)
      ensures ok ==> data == old(data)[old(cursor) := old(data)[old(cursor)].(userResponse := response)]
      ensures ok ==> cursor == Advance(data, readable, old(cursor))
      ensures ok ==> Presented(old(plays), Snapshot(data), old(speciesText), old(field), old(quit))
    {
      ok := cursor < |data|;
      if ok {
        data := data[cursor := data[cursor].(userResponse := response)];
        RewriteAll();
        NextSample();
      }
    }

    /** `previous_sample`: one step back and present it; a no-op at index 0. */
    method PreviousSample()
      requires Valid()
      modifies this
      ensures Valid() && data == old(data)
      ensures old(cursor) == 0 ==> unchanged(this)
      ensures old(cursor) > 0 ==> cursor == Settle(data, readable, old(cursor) - 1)
      ensures old(cursor) > 0 ==> Presented(old(plays), old(file), old(speciesText), old(field), old(quit))
    {
      if cursor > 0 {
        cursor := cursor - 1;
        UpdateImage();
      }
    }

    /**
     * `next_sample_no_record`: one step forward without skipping or recording,
     * only while the cursor is before the last index; otherwise a no-op.
     */
    method NextSampleNoRecord()
      requires Valid()
      modifies this
      ensures Valid() && data == old(data)
      ensures old(cursor) >= |data| - 1 ==> unchanged(this)
      ensures old(cursor) < |data| - 1 ==> cursor == Settle(data, readable, old(cursor) + 1)
      ensures old(cursor) < |data| - 1 ==> Presented(old(plays), old(file), old(speciesText), old(field), old(quit))
    {
      if cursor < |data| - 1 {
        cursor := cursor + 1;
        UpdateImage();
      }
    }

    /** The user edits the text field: its write trace runs `update_actual_value`. */
    method EditField(value: string) returns (ok: bool)
      modifies this`data, this`file, this`field
      ensures field == value
      ensures ok == (cursor < |old(data)|)
      ensures ok ==> data == old(data)[cursor := old(data)[cursor].(userResponse := value)]
      ensures ok ==> file == Snapshot(data)
      ensures !ok ==> data == old(data) && file == old(file)
    {
      field := value;
      ok := UpdateActualValue();
    }

    /** The reset loop of `clear_all_responses`: every response becomes empty, nothing else changes. */
    method BlankResponses()
      requires Valid()
      modifies this`data
      ensures Valid()
      ensures |data| == |old(data)|
      ensures forall i :: 0 <= i < |data| ==> data[i] == old(data)[i].(userResponse := "")
    {
      for i := 0 to |data|
        invariant |data| == |old(data)|
        invariant forall j :: 0 <= j < i ==> data[j] == old(data)[j].(userResponse := "")
        invariant forall j :: i <= j < |data| ==> data[j] == old(data)[j]
      {
        data := data[i := data[i].(userResponse := "")];
      }
    }

    /** Lines 219-232 of `clear_all_responses`: blank every response and save the file. */
    method ResetStore()
      requires Valid()
      modifies this`data, this`file
      ensures Valid()
      ensures |data| == |old(data)|
      ensures forall i :: 0 <= i < |data| ==> data[i] == old(data)[i].(userResponse := "")
      ensures file == Snapshot(data)
      ensures FirstUnannotated(data) == 0
    {
      BlankResponses();
      RewriteAll();
      ClearedResumesAtStart(data);
    }

    /**
     * `clear_all_responses`: behind the yes/no prompt, blank every response,
     * rewrite the file, resume at the first unanswered entry and present it.
     */
    method ClearAllResponses(confirmed: bool)
      requires Valid()
      modifies this
      ensures Valid()
      ensures !confirmed ==> unchanged(this)
      ensures confirmed ==> |data| == |old(data)|
      ensures confirmed ==> forall i :: 0 <= i < |data| ==> data[i] == old(data)[i].(userResponse := "")
      ensures confirmed ==> FirstUnannotated(data) == 0
      ensures confirmed ==> cursor == Settle(data, readable, 0)
      ensures confirmed ==> Presented(old(plays), Snapshot(data), old(speciesText), old(field), old(quit))
    {
      if confirmed {
        ResetStore();
        ghost var cleared, written := data, file;
        ghost var plays0, speciesText0, field0, quit0 := plays, speciesText, field, quit;
        cursor := FindFirstUnannotated();
        UpdateImage();
        assert Presented(plays0, written, speciesText0, field0, quit0);
        assert data == cleared && written == Snapshot(data);
      }
    }

    /** `on_key_press` (with replay on space): dispatch one key to its operation. */
    method HandleKey(keysym: string)
      requires Valid()
      modifies this
      ensures Valid()
      ensures |data| == |old(data)|
      ensures forall i :: 0 <= i < |data| && i != old(cursor) ==> data[i] == old(data)[i]
      ensures forall i :: 0 <= i < |data| ==> Frozen(data[i]) == Frozen(old(data)[i])
      ensures data != old(data) ==> file == Snapshot(data)
      ensures KeyAction(keysym) == None ==> unchanged(this)
      ensures keysym == "Right" && old(cursor) < |old(data)| ==> data[old(cursor)].userResponse == "TRUE"
      ensures keysym == "Left" && old(cursor) < |old(data)| ==> data[old(cursor)].userResponse == "FALSE"
    {
      match KeyAction(keysym)
      case None =>
      case Some(RecordTrue) =>
        if cursor < |data| {
          AnswerKeepsRest(data, cursor, "TRUE");
        }
        var _ := RecordResponse("TRUE");
      case Some(RecordFalse) =>
        if cursor < |data| {
          AnswerKeepsRest(data, cursor, "FALSE");
        }
        var _ := RecordResponse("FALSE");
      case Some(Replay) =>
        var _ := PlaySound();
      case Some(Previous) =>
        PreviousSample();
      case Some(NextNoRecord) =>
        NextSampleNoRecord();
    }
  }

  /**
   * A file the session wrote passes both checks at the next start: the store
   * loads back unchanged and the annotations read without a `KeyError`.
   */
  lemma RestartAfterSave(items: seq<Item>)
    requires forall i :: 0 <= i < |items| ==> WellFormed(items[i])
    ensures Load(Reread(Some(Snapshot(items)))) == Success(items)
    ensures Annotations(Reread(Some(Initialized(Some(Snapshot(items)))))).Success?
  {
    ReloadSnapshot(items);
    SnapshotAnnotatable(items);
  }

  /**
   * Once a session has written its store, that file restarts it: the next
   * start loads the same store and reads its annotations without error.
   */
  lemma SessionRestarts(s: Session)
    requires s.Valid() && s.file == Snapshot(s.data)
    ensures Load(Reread(Some(s.file))) == Success(s.data)
    ensures Annotations(Reread(Some(Initialized(Some(s.file))))).Success?
  {
    RestartAfterSave(s.data);
  }

  /**
   * The script's start: load the store (a `KeyError` aborts it), create the
   * file if missing, read the existing annotations (a `KeyError` there aborts
   * it too; the annotations themselves are never used), then open the
   * session on the loaded store.
   */
  method Launch(stored: Option<CsvFile>, readable: set<string>) returns (r: Result<Session, LoadError>)
    ensures var loaded, annotated := Load(Reread(stored)), Annotations(Reread(Some(Initialized(stored))));
      (r.Failure? <==> loaded.Failure? || annotated.Failure?) &&
      (r.Failure? ==> r.error == if loaded.Failure? then loaded.error else annotated.error)
    ensures r.Success? ==> fresh(r.value) && r.value.Valid() && r.value.data == Load(Reread(stored)).value
    ensures r.Success? ==> (r.value.quit <==> r.value.cursor >= |r.value.data|)
  {
    var loaded := LoadDataFromCsv(Reread(stored));
    match loaded
    case Failure(e) =>
      r := Failure(e);
    case Success(items) =>
      var annotated := LoadExistingAnnotations(Reread(Some(Initialized(stored))));
      if annotated.Failure? {
        r := Failure(annotated.error);
      } else {
        var s := new Session(items, stored, readable);
        r := Success(s);
      }
  }
}
