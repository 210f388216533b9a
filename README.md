# Annotation session engine of audita, modelled in Dafny

audita walks one annotator through an ordered list of audio segments. Each
segment has a spectrogram image and a classifier label, and the annotator
records TRUE, FALSE or free text for it. This project models two parts of
the tool. The first is the session engine of `revise_segments.py`: the
in-memory store, the cursor `current_index` and its navigation rules, and
the rewrite of `segments_revised.csv` that follows every change. The second
is the one-shot reshaping script `make_annotation_file.py`, which produces
the first version of that file.

Modules, one per component:

- `Records`: the five persisted columns, a store entry (`Item`), a persisted
  row (`Row`), the CSV file as header plus cell lines (`CsvFile`), and the
  whole-file rewrite (`Snapshot`, computed by the loop `WriteAll`).
- `Strings`, `Paths`: single-character `str.replace`, `rfind`, and POSIX
  `os.path.splitext`, which give the derived image path.
- `Loader`: `load_data_from_csv`, meaning the row filter, the derived
  fields, the `KeyError` path and the missing-file case;
  `load_existing_annotations` and its own `KeyError` path; also a model of
  `csv.DictReader` and the proof that reloading a written snapshot gives
  back the store.
- `Navigation`: pure functions that say where the cursor lands. `Scan` is
  the skip-answered loop. `FirstUnannotated` is the resume scan. `Settle` and
  `Advance` are `update_image` and `next_sample`, including the fall-back to
  `skip_sample` when an image does not open.
- `Revise`: the class `Session`, with `data`, `cursor`, the persisted
  `file`, the quit flag, the playback request log and the two displayed
  texts. Its methods mirror the source functions. `NextSample`,
  `SkipSample` and `UpdateImage` call each other recursively, as in the
  source. Each method is proved against the `Navigation` functions.
- `Keys`: `on_key_press` and the key bindings.
- `Reshape`: the per-line transform of `make_annotation_file.py`.

Inputs from outside the program are parameters:

- `readable` is the set of image paths that `Image.open` can open.
- `confirmed` is the answer to the yes/no prompt.
- `stored` is the CSV file, or `None` when it does not exist.

In these places the code behaves in ways a reader might not expect, and the
model follows the code:

- `update_image` calls `actual_value_var.set(...)`, and that fires the
  variable's write trace, `update_actual_value` (line 281). So every
  successful presentation rewrites the file, with unchanged data.
  `Session.Presented` states this.
- `previous_sample` and `next_sample_no_record` present the new entry
  through `update_image`. If its image does not open, the cursor falls
  forward through `skip_sample`. This can reach the end and quit, so "one
  step back" and "never reaches the end" hold only when that image opens
  (`Navigation.Settle`).
- A confirmed clear on an empty store calls `update_image` at index 0. That
  fails with an `IndexError`, which is caught, and `next_sample` then sets
  the cursor to 1. So the store invariant is `cursor <= len(data) + 1`, not
  `cursor <= len(data)`.
- The loader checks only three columns. A kept row that lacks
  `classificationProbability` or `userResponse` raises `KeyError` and the
  load fails (`Loader.LoadError`). Such rows are not skipped.
- An operation that indexes `data[current_index]` with the cursor at the end
  raises `IndexError` before it changes anything. The model returns
  `ok == false` and leaves the state unchanged.

## Model

| member | source | states |
|---|---|---|
| `Navigation.FirstUnannotated` | src/revise_segments.py:113-117 | the least index whose response is empty, or `len(data)` if none, always within `0..len(data)` |
| `Navigation.ResumeUnique` | src/revise_segments.py:113-117 | resume determinism: any index that is unanswered and has only answered entries before it equals the resume position |
| `Revise.Session.FindFirstUnannotated` | src/revise_segments.py:113-117 | the enumerate loop returns the least unanswered index, or `len(data)`, and this equals `FirstUnannotated` |
| `Navigation.Scan` | src/revise_segments.py:153-155 | the skip loop stops at an unanswered entry or at the end, and every index it passes is answered |
| `Navigation.Advance` | src/revise_segments.py:151-160 | `next_sample` moves strictly forward; every index it passes is answered or has an unreadable image; it lands on an unanswered entry whose image opens, or on the end |
| `Navigation.AdvanceIsScan` | src/revise_segments.py:151-160 | when every image opens, `next_sample` is the plain scan: answered entries only are skipped |
| `Navigation.Settle` | src/revise_segments.py:181-196 | `update_image` stays at `k` exactly when entry `k` exists and its image opens; otherwise it skips forward as `next_sample` does |
| `Navigation.ClearedResumesAtStart` | src/revise_segments.py:219-233 | once every response is blank the resume position is 0 |
| `Navigation.ScenarioSkipsAnswered` | src/revise_segments.py:126-160 | on [A "", B "TRUE", C ""] resume is 0, and answering A moves to 2, skipping B |
| `Revise.Session.NextSample` | src/revise_segments.py:151-160 | the cursor becomes `Advance` of the old cursor; the store is unchanged; the entry reached is presented, or `quit` is set at the end |
| `Revise.Session.SkipSample` | src/revise_segments.py:147-148 | the same move as `next_sample`, with no write of the store |
| `Revise.Session.UpdateImage` | src/revise_segments.py:181-196 | presents the current entry (label, text field, file rewrite, one playback request) when its image opens; otherwise the cursor becomes `Settle` of the old cursor |
| `Revise.Session.PreviousSample` | src/revise_segments.py:163-167 | at index 0 nothing changes; otherwise the cursor becomes `Settle(cursor - 1)`, which is exactly one step back when that image opens |
| `Revise.Session.NextSampleNoRecord` | src/revise_segments.py:170-174 | only before the last index it moves to `Settle(cursor + 1)`; at or past the last index nothing changes, so repeated calls there are no-ops |
| `Revise.Session.RecordResponse` | src/revise_segments.py:126-144 | only the current entry's response changes, to the given value; length, order and all other fields stay; the file equals the snapshot of the new store; the cursor then moves as `next_sample` does |
| `Revise.Session.UpdateActualValue` | src/revise_segments.py:199-213 | stores the text field as the current response, changing nothing else, and rewrites the file as the snapshot of the new store; at the end it changes nothing |
| `Revise.Session.EditField` | src/revise_segments.py:279-281 | an edit of the text field runs the write trace: the current response becomes the typed text and the file is rewritten |
| `Revise.Session.ClearAllResponses` | src/revise_segments.py:216-234 | when not confirmed nothing changes; when confirmed every response is blank and nothing else changes, the file is the snapshot, the resume position is 0, and the cursor is `Settle` of it |
| `Revise.Session.ResetStore` | src/revise_segments.py:219-232 | every response becomes empty and nothing else changes; the file is the snapshot of the cleared store; the resume position is 0; every entry stays well formed |
| `Revise.Session.BlankResponses` | src/revise_segments.py:219-220 | every response becomes empty; no other field, no order and no length changes |
| `Revise.Session.RewriteAll` | src/revise_segments.py:131-141 | the persisted file becomes the snapshot of the store |
| `Revise.Session.PlaySound` | src/revise_segments.py:120-123 | exactly one playback request with the current entry's sound path is logged; at the end none is logged |
| `Revise.Session.HandleKey` | src/revise_segments.py:237-249 | a key changes at most the current entry's response, never a frozen field; Right records TRUE and Left records FALSE; any change is written through; unbound keys change nothing |
| `Revise.Session.constructor` | src/revise_segments.py:266-328 | start-up keeps the loaded store, makes sure the file exists, resumes at the first unanswered entry and presents it, or sets `quit` when every entry is answered |
| `Revise.Session.Start` | src/revise_segments.py:268-328 | start-up resumes at `Settle` of the first unanswered entry and presents it, or sets `quit` when every entry is answered; the store is unchanged |
| `Revise.Initialized` | src/revise_segments.py:106-110 | a missing file becomes a header-only file; an existing file is never overwritten |
| `Revise.Reread` | src/revise_segments.py:68-72 | the file is parsed only when it exists |
| `Revise.DisplayName` | src/revise_segments.py:190 | the species label is the stored name with each `_` turned into a space and every other character kept |
| `Revise.Launch` | src/revise_segments.py:91-103 | start-up fails exactly when the loader or the annotation reader raises `KeyError`, with the loader's error first; otherwise the session opens on the loaded store |
| `Revise.SessionRestarts` | src/revise_segments.py:131-141 | a session whose file holds its store (the state after every rewrite) restarts on the same store, and the annotations read without error |
| `Revise.RestartAfterSave` | src/revise_segments.py:266-268 | a file the session wrote passes the next start-up: the store loads back unchanged and the annotations read without error |
| `Records.AnswerKeepsRest` | src/revise_segments.py:128 | answering one entry changes only that entry's response: every other entry and every frozen field stays |
| `Records.Snapshot` | src/revise_segments.py:131-141 | the rewrite has the five-column header and one line per entry |
| `Records.SnapshotLine` | src/revise_segments.py:134-141 | line `i` holds entry `i`'s five persisted fields in column order |
| `Records.WriteAll` | src/revise_segments.py:131-141 | the `writeheader`/`writerow` loop produces exactly the snapshot |
| `Records.Lines` | src/revise_segments.py:134-141 | one written line per row |
| `Records.LinesAt` | src/revise_segments.py:134-141 | line `i` holds the cells of row `i`, so the line order is the row order |
| `Records.Project` | src/revise_segments.py:135-141 | the dictionary handed to `writerow` carries the entry's response and sound path; `Records.SnapshotLine` gives all five fields in column order |
| `Records.Projection` | src/revise_segments.py:135-141 | one five-column row per entry |
| `Records.ProjectionAt` | src/revise_segments.py:135-141 | row `i` holds the five persisted fields of entry `i` |
| `Loader.Load` | src/revise_segments.py:66-69 | a missing file gives an empty store; every loaded entry has its sound path as stored and its image path derived from it |
| `Loader.LoadRows` | src/revise_segments.py:73-87 | loading succeeds exactly when every kept row has the two unchecked columns; it then yields one entry per kept row, in order; otherwise it fails on the first such row with the column it lacks |
| `Loader.LoadRowsStep` | src/revise_segments.py:73-87 | loading one more row is one more iteration of the loader loop |
| `Loader.LoadDataFromCsv` | src/revise_segments.py:66-88 | the loader loop computes `Load` |
| `Loader.Kept` | src/revise_segments.py:74 | the filter keeps exactly the rows with `observationID`, `scientificName` and `segmentsFilePath` |
| `Loader.KeptAppend` | src/revise_segments.py:73-74 | filtering distributes over concatenation, so kept rows keep their relative order |
| `Loader.KeptAll` | src/revise_segments.py:74 | when every row has the three keys none is dropped |
| `Loader.FailureSticks` | src/revise_segments.py:78-83 | once a row raises `KeyError` later rows do not change the outcome |
| `Loader.ToItem` | src/revise_segments.py:78-87 | a kept row becomes an entry exactly when it has both unchecked columns; otherwise the error names `classificationProbability` first |
| `Loader.MakeItem` | src/revise_segments.py:75-87 | the entry copies the five columns, sets `sound` to the stored path and `species` to the stored name, and derives `image` from the sound path |
| `Loader.Zip` | src/revise_segments.py:72 | pairs header names with cells; its lookups and keys are given by `Loader.ZipLookup` and `Loader.ZipKeys` |
| `Loader.DictRowOf` | src/revise_segments.py:72 | the dictionary `DictReader` yields for one line, with the properties of `Loader.ZipLookup` and `Loader.ZipKeys` on the cells that have a header name |
| `Loader.Step` | src/revise_segments.py:74-87 | one iteration of the loader loop; `Loader.LoadRowsStep` ties it to `LoadRows` and `Loader.FailureSticks` shows a failure is final |
| `Loader.ZipLookup` | src/revise_segments.py:72 | a parsed line maps each header name to its cell, with a later duplicate name winning |
| `Loader.ZipKeys` | src/revise_segments.py:72 | a parsed line has no keys other than header names |
| `Loader.DataLines` | src/revise_segments.py:72 | `DictReader` skips exactly the lines with no cells, keeps the others, and keeps a file without blank lines whole |
| `Loader.DataLinesAppend` | src/revise_segments.py:72 | skipping blank lines distributes over concatenation, so the lines kept stay in file order with every copy |
| `Loader.ParseLines` | src/revise_segments.py:72-73 | one parsed dictionary per line, in order |
| `Loader.ReadRows` | src/revise_segments.py:72-73 | one parsed dictionary per non-blank data line, in file order |
| `Loader.ReadRowsNoBlank` | src/revise_segments.py:72-73 | a file without blank lines is parsed line for line |
| `Loader.BlankLineSkipped` | src/revise_segments.py:72-73 | a header followed by a blank line loads as an empty store and reads as no annotations |
| `Loader.SnapshotRows` | src/revise_segments.py:131-141 | the written file has no blank line, so it parses back line for line |
| `Loader.ReadBackRow` | src/revise_segments.py:72 | a line written under the five-column header parses back to its five fields |
| `Loader.ReloadEntry` | src/revise_segments.py:74-87 | the written line of a consistent entry loads back as that entry |
| `Loader.ReloadSnapshot` | src/revise_segments.py:131-141 | write-through completeness: loading the rewritten file gives back the store, entry for entry and in order |
| `Loader.AnnotationError` | src/revise_segments.py:102 | the `KeyError` names a column the line lacks, `userResponse` before `segmentsFilePath` |
| `Loader.AnnotateStep` | src/revise_segments.py:101-102 | one iteration of the annotation loop; `Loader.AnnotateRowsStep` ties it to `AnnotateRows` |
| `Loader.AnnotateRows` | src/revise_segments.py:100-102 | reading the annotations succeeds exactly when every line has a path and a response; otherwise it fails on the first line lacking one, with that line's error |
| `Loader.AnnotateRowsStep` | src/revise_segments.py:101-102 | reading one more line is one more iteration of the annotation loop |
| `Loader.Annotations` | src/revise_segments.py:94-103 | a missing file gives no annotations; an existing one reads without error exactly when every line has both columns |
| `Loader.AnnotateLookup` | src/revise_segments.py:102 | each path maps to the response of its last line |
| `Loader.AnnotateFailureSticks` | src/revise_segments.py:101-102 | once a line raises `KeyError` later lines do not change the outcome |
| `Loader.LoadExistingAnnotations` | src/revise_segments.py:94-103 | the annotation loop computes `Annotations` |
| `Loader.SnapshotAnnotatable` | src/revise_segments.py:131-141 | the file the session writes always reads back as annotations without error |
| `Loader.SnapshotAnnotations` | src/revise_segments.py:100-102 | in the written file's annotations each entry's path maps to the response of the last entry with that path |
| `Loader.MissingPathAbortsAnnotations` | src/revise_segments.py:74 | a header without `segmentsFilePath` loads as an empty store but the annotation reader raises `KeyError` on it |
| `Paths.SplitExt` | src/revise_segments.py:76 | `splitext` returns a root and an extension that concatenate to the path; a non-empty extension starts with a dot and holds no slash |
| `Paths.SplitExtParts` | src/revise_segments.py:76 | the extension is non-empty exactly when the last component has a proper extension, and then it is one dot followed by no dot or slash |
| `Paths.ImagePath` | src/revise_segments.py:76 | the image path is a prefix of the sound path followed by `.png` |
| `Paths.ImagePathShape` | src/revise_segments.py:76 | the image path is the sound path with its extension (the last dot, with no slash and no further dot after it), if any, replaced by `.png` |
| `Paths.SplitExtUnderDirectory` | src/revise_segments.py:76 | `splitext` of a path under a directory keeps the directory in the root and leaves the extension unchanged |
| `Paths.ImagePathUnderDirectory` | src/revise_segments.py:76 | the image path of a file under a directory is that directory plus the file's image path |
| `Paths.ImagePathReplacesExtension` | src/revise_segments.py:76 | `../segments/Homo_sapiens/a.wav` gives `../segments/Homo_sapiens/a.png` |
| `Paths.ImagePathDirectoryDot` | src/revise_segments.py:76 | a dot only in a directory name is not an extension, so `.png` is appended |
| `Paths.ImagePathLeadingDot` | src/revise_segments.py:76 | a leading dot of the file name is not an extension, so `.png` is appended |
| `Strings.Replace` | src/make_annotation_file.py:12 | every occurrence of one character becomes the other, nothing else changes, and the first no longer occurs |
| `Strings.ReplaceUndone` | src/revise_segments.py:190 | replacing back undoes a replacement whose target character was absent |
| `Strings.LastIndex` | src/revise_segments.py:76 | `rfind`: the last index holding the character, or -1 |
| `Strings.LastIndexAppend` | src/revise_segments.py:76 | `rfind` on a concatenation: a hit in the tail wins, offset by the head's length |
| `Reshape.Underscored` | src/make_annotation_file.py:12 | the new name has no space, the same length, and each space turned into an underscore with every other character kept |
| `Reshape.RelativePath` | src/make_annotation_file.py:15 | the path `../segments/<name>/<file>`; `Reshape.ReshapeRow` and `Reshape.ImageInSpeciesFolder` state what it gives |
| `Reshape.ReshapeRow` | src/make_annotation_file.py:12-21 | identifier and probability copied; the name has no space and the same length; the path is the old path under `../segments/<new name>/`; the response is empty |
| `Reshape.ImageInSpeciesFolder` | src/make_annotation_file.py:15 | the spectrogram the session derives for a reshaped line lies in the same species folder as its sound |
| `Reshape.ReshapeAll` | src/make_annotation_file.py:12-21 | one output row per input row, in order, each the reshaped input row |
| `Reshape.ReshapeLine` | src/make_annotation_file.py:12-18 | identifier and probability copied; spaces in the name become underscores and nothing else changes; the path is `../segments/<new name>/<old path>`; the response is empty |
| `Reshape.Output` | src/make_annotation_file.py:21 | the file `to_csv` writes; `Reshape.OutputLines` gives its header and lines |
| `Reshape.OutputLines` | src/make_annotation_file.py:21 | the written file has the five columns in order and one line per input row |
| `Reshape.LabelRestoresName` | src/revise_segments.py:190 | a name without underscores reads back unchanged on the session's species label |
| `Reshape.OutputLoadsUnanswered` | src/make_annotation_file.py:21 | the script's output loads with no row dropped, every entry unanswered, so a session on it resumes at index 0 |
| `Keys.OnKeyPress` | src/revise_segments.py:237-249 | as written: Right means TRUE, Left means FALSE, `r` replays, Up steps back, Down and Return step forward, in both directions |
| `Keys.Delivered` | src/revise_segments.py:237-249 | as written, no key press replays the sound, and space does nothing |
| `Keys.OnKeyPressFixed` | src/revise_segments.py:237-249 | the corrected handler: space replays, every other keysym acts as `on_key_press` is written |
| `Keys.KeyAction` | src/revise_segments.py:316-321 | corrected dispatch: Right means TRUE, Left means FALSE, space replays, Up steps back, Down and Return step forward, and unbound keys do nothing, in both directions |
| `Keys.FixOnlyAffectsSpace` | src/revise_segments.py:242-243 | the correction changes the space key only |

## Findings

| source | as written | input that shows it | evidently intended | confidence | as-written member | corrected member |
|---|---|---|---|---|---|---|
| src/revise_segments.py:242 | `on_key_press` replays on keysym `r`, but `r` is never bound, and the key bound for replay at line 318 has keysym `space`, which matches no branch | pressing the space bar: the event's keysym is `space` and nothing happens | space replays the sound, as the module docstring (line 4) and the comment at line 318 say | high; not executed | `Keys.Delivered` | `Keys.KeyAction` |

`Revise.Session.HandleKey` dispatches through the corrected `Keys.KeyAction`.
The PLAY button (line 299) calls `play_sound` directly and works as written;
`Revise.Session.PlaySound` models it.

## Left out

- Tkinter widgets, styling, layout, image resizing and the progress label (lines 177-178, 251-331) are not modelled. The only displayed state kept is the species label text and the text-field contents.
- The console messages `Error loading image: ...` (line 195) and `All samples are annotated. Exiting.` (line 327) are not modelled. They change no state.
- `playsound`, `subprocess` and the daemon thread (lines 27-63, 120-123) are reduced to a log of requested sound paths. Playback runs concurrently with the session and cannot change its state.
- `messagebox.askyesno` is the `confirmed` parameter. `root.quit` is the `quit` flag. The model does not stop accepting operations after `quit` is set, because the host decides that.
- The buttons (lines 297-302) are not modelled as widgets. Each calls one session method directly: TRUE and FALSE call `RecordResponse`, PLAY calls `PlaySound`, BACK calls `PreviousSample`, NEXT calls `NextSampleNoRecord`, and Clear All calls `ClearAllResponses`. Clear All is reachable only from its button. As written, PLAY is the only way to replay, because no delivered key reaches `play_sound`.
- The map `load_existing_annotations` returns is never used. Only its `KeyError` matters: `Revise.Launch` fails on it.
- `make_annotation_file.py` raises `KeyError` at lines 12, 15 or 21 when `segments.csv` lacks one of the four columns it reads. `Reshape.SegmentRow` always holds all four, so this failure is not modelled.
- `Navigation.Advance`: Python's recursion limit is not modelled. `update_image`, `skip_sample` and `next_sample` call each other once per unreadable image. With the default limit of 1000 frames, a run of about 330 consecutive unanswered entries whose images do not open raises `RecursionError`. When the limit is hit inside the `try` of the deepest `update_image` (in `normpath` or `Image.open`), its `except Exception` catches the `RecursionError` as if the image had failed to open. So near the limit an entry whose image does open can be skipped. The error escapes only when a `skip_sample` or `next_sample` call overflows outside any `try`. At start-up (line 325) the script then stops. From a key press the cursor stays partway through the store with `quit` unset. The model reaches the end instead, and never skips a readable entry.
- `os.path.normpath` is the identity. Line 81 stores the normalised path as `segmentsFilePath`, so the source persists the normalised path at every rewrite, where the model persists the path as loaded. `os.path.splitext` is modelled with POSIX rules only: one separator `/` and no drive letters.
- CSV text encoding, quoting and line splitting are not modelled. A file is a header plus lines of cells. `csv.DictReader` is modelled for lines with no missing or surplus cells, and like it the model skips a line with no cells at all. A short line that is not blank gives a dictionary without the missing names, where Python would bind them to `None`. Surplus cells are dropped, where Python keeps them under the key `None`.
- Failures to write the file, and exceptions other than a missing image or an index at the end, are not modelled. The file is assumed writable.
- `Reshape.ReshapeAll`: pandas type inference is not modelled. Every cell is kept as a string, so reformatted numbers and `NaN` for empty cells are not captured.
- `Revise.Session.HandleKey`: its contract says how the store and the file may change. It does not say where the cursor lands for each key. Those facts are in the contracts of the methods it calls.
