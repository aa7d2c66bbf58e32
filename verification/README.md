# Video downloader queue and remux pipeline, in Dafny

A verified model of the in-memory logic of `video_downloader_V4_HDR.py`, a
Tk front end around a media resolver/fetcher and ffmpeg. The model covers:

- **Stream selection and dynamic-range label** (`streams.dfy`, module
  `Streams`): the resolver's answer is an `Info` record with optional keys and
  a list of `Format`s. The best video format is the first whose `vcodec` is
  not the string `"none"`; a missing `vcodec` counts as video. The label is
  the item-level `dynamic_range` when truthy. Otherwise it is the selected
  format's own label, which may be absent. It is `"非HDR"` when no format
  carries video, or when the selected format is an empty dictionary.
- **Playlist expansion** (`playlist.dfy`, module `Playlist`): the flat
  resolver answer becomes one `https://www.youtube.com/watch?v=<id>` locator
  per entry with a non-empty id, in resolver order.
- **Task list** (`task_store.dfy`, module `TaskStore`): records
  `(index, url, title, uploader, hdr)` with add, edit, delete-with-renumbering
  and clear, and the invariant that indices are exactly 1..N in display order
  after any sequence of operations.
- **Remux naming and replace protocol** (`remux.dfy`, module `Remux`): merged
  and temporary names, the ffmpeg argv, and delete-then-rename on an abstract
  file system `map<string, Bytes>`, with the ffmpeg run as a success or
  failure outcome supplied from outside.
- **As-written task mutation** (`findings.dfy`, module `AsWritten`): what
  the source's edit and renumbering actually do; see Findings.

Foreign calls are inputs, not computations: the resolver's answer is a
`Result<Info>` (failure = it raised), `prepare_filename`'s result is the
`filename` string, ffmpeg's run is a `RemuxRun`, and the file system passed
to the merge step is the state after the fetch wrote its files.

Dictionary keys are modelled with the distinctions the code draws. A
`formats` or `entries` key may be absent (read as an empty list), null
(iterating it raises TypeError), or present. A `title` or `uploader` key
may be absent (read as its default), null (kept as None, which the task
then stores) or present. For the value of `vcodec`, `dynamic_range` and an
entry's `id` the code treats null and absent alike, and so does the model.
An empty format dictionary is selectable as video but falsy; a dictionary
holding only a null-valued key is not empty.

The model follows the code, including where its behaviour may surprise:

- An edit whose index no task carries is a silent no-op (lines 313-318).
- A selected video format without its own `dynamic_range` yields an
  absent label (line 140), not the sentinel. Only an empty format dictionary
  or the lack of any video format gives `"非HDR"`.
- A `formats` key holding null makes add and edit leave the list unchanged
  (lines 287 and 290-292). It makes `download_and_merge` return
  `(None, None)` (lines 138-139 and 159-161). A null `entries` key makes
  playlist expansion raise (lines 40-41).
- A failed remux does not clean up the temporary file (lines 150 and
  159-161). If ffmpeg wrote a partial output before failing, it remains at the
  temporary path. Every other path, including the merged path, is untouched.
- Python tuples cannot be updated in place (lines 295, 315-318, 342). The
  model states the evident intent as functional record updates. The literal
  behaviour is recorded under Findings.
- Edit is keyed by the task index. The source compares it with
  `int(item_id)` of the Treeview selection handle (lines 222, 240, 314).

## Model

| member | source | states |
|---|---|---|
| Streams.FirstVideo | video_downloader_V4_HDR.py:139 | the position returned is the first format whose vcodec is not "none" (a missing vcodec counts as video); no position exactly when no format carries video |
| Streams.SelectBestVideo | video_downloader_V4_HDR.py:288 | the selected format is the one at the first video position; none exactly when no format carries video |
| Streams.SelectConcat | video_downloader_V4_HDR.py:307 | selection stops at the first video format: on a + b it answers from a when a has video, else from b |
| Streams.DynamicRangeLabel | video_downloader_V4_HDR.py:140 | label is the truthy item-level value; else, for the first video format, "非HDR" if it is an empty dictionary and its own (possibly absent) value otherwise; else "非HDR" when no format carries video |
| Streams.LabelAbsentOnlyFromVideo | video_downloader_V4_HDR.py:289 | the label is absent iff the item-level value is falsy and the first video format is a non-empty dictionary with no label of its own |
| Streams.EmptyFormatGetsSentinel | video_downloader_V4_HDR.py:308 | a selected format that is an empty dictionary is falsy, so the label falls to "非HDR" |
| Streams.NullTitleKeptScenario | video_downloader_V4_HDR.py:285-286 | an answer whose title holds null and whose uploader is absent reads as title None and uploader "Unknown uploader" |
| Streams.Inspect | video_downloader_V4_HDR.py:284-289 | reading an answer fails exactly when formats holds null; title and uploader take their defaults when absent, are None when null and are kept when present; an absent formats list gives the item label or "非HDR"; a present one gives the dynamic-range rule |
| Playlist.ExpandEntries | video_downloader_V4_HDR.py:40-41 | output no longer than the entries; every locator is the watch URL of an entry with a non-empty id, and every such entry's URL appears |
| Playlist.ExpandSingle | video_downloader_V4_HDR.py:41 | one entry expands to its watch URL when its id is non-empty, else to nothing |
| Playlist.ExpandConcat | video_downloader_V4_HDR.py:41 | expansion keeps resolver order: it distributes over concatenation of entry runs |
| Playlist.VideoIdRoundTrip | video_downloader_V4_HDR.py:41 | stripping the watch prefix from a built locator gives back the id |
| Playlist.ExpandedLocatorsCarryIds | video_downloader_V4_HDR.py:41 | every produced locator is the watch prefix followed by a non-empty id |
| Playlist.PlaylistLinks | video_downloader_V4_HDR.py:40-42 | an absent entries key gives no locators, a null one raises, a present list is expanded |
| Playlist.TwoEntryPlaylistScenario | video_downloader_V4_HDR.py:36-42 | entries "a1", (no id), "a2" expand to the two locators for a1 and a2, in order |
| TaskStore.AddTask | video_downloader_V4_HDR.py:280-297 | empty url, resolver error or unreadable answer leaves the list unchanged; otherwise exactly one record is appended with index old length + 1 and the answer's title, uploader and label, earlier records untouched; indices 1..N preserved |
| TaskStore.AddHdrItemScenario | video_downloader_V4_HDR.py:280-297 | adding an item titled "Clip" by "Alice" with no item-level label and an "HDR10" video stream yields the single task (1, url, "Clip", "Alice", "HDR10") |
| TaskStore.AddAll | video_downloader_V4_HDR.py:207-211 | adding a batch keeps the existing prefix, grows by the number of accepted urls, and preserves indices 1..N |
| TaskStore.AddAllSingle | video_downloader_V4_HDR.py:210-211 | a batch of one is one add |
| TaskStore.AddAllConcat | video_downloader_V4_HDR.py:242-243 | a batch is added in order: adding a + b is adding a, then b |
| TaskStore.EditTask | video_downloader_V4_HDR.py:299-320 | a rejected submission changes nothing; otherwise only url/title/uploader/hdr of the tasks with the given index change; length, order, indices and other tasks unchanged |
| TaskStore.EditAtPosition | video_downloader_V4_HDR.py:313-318 | on a well-indexed list an accepted edit replaces exactly position index - 1, and is a no-op for an index outside 1..N |
| TaskStore.Clear | video_downloader_V4_HDR.py:327-329 | clearing yields the empty list |
| TaskStore.Keep | video_downloader_V4_HDR.py:335 | the survivors are exactly the tasks whose index is not selected |
| TaskStore.KeepNothing | video_downloader_V4_HDR.py:333-335 | with no row selected, the filter keeps every task |
| TaskStore.KeepConcat | video_downloader_V4_HDR.py:335 | filtering keeps relative order: it distributes over concatenation |
| TaskStore.KeepTwice | video_downloader_V4_HDR.py:333-335 | filtering once per selected row equals filtering once by the union of the rows' indices |
| TaskStore.Renumber | video_downloader_V4_HDR.py:340-342 | renumbering keeps every record's payload and position and makes indices exactly 1..N |
| TaskStore.RenumberIdentity | video_downloader_V4_HDR.py:341-342 | renumbering a well-indexed list changes nothing |
| TaskStore.UpdateTaskIndices | video_downloader_V4_HDR.py:340-342 | the renumbering loop computes the reference renumbering and leaves indices 1..N |
| TaskStore.DeleteSelected | video_downloader_V4_HDR.py:331-342 | after delete, indices are 1..N and the records are the survivors in their original order |
| TaskStore.OnDelete | video_downloader_V4_HDR.py:331-338 | the row-by-row delete loop followed by renumbering equals deleting the set of selected indices at once |
| TaskStore.DeleteMiddleScenario | video_downloader_V4_HDR.py:331-342 | removing index 2 of three leaves the first and third records, numbered 1 and 2 |
| TaskStore.ReplayKeepsIndices | video_downloader_V4_HDR.py:294-342 | any sequence of add, edit, delete and clear keeps indices exactly 1..N in display order |
| Remux.LastDot | video_downloader_V4_HDR.py:144 | finds the last '.' of the name, or reports there is none |
| Remux.MergedName | video_downloader_V4_HDR.py:144 | the last '.'-suffix is replaced by ".mkv", or ".mkv" is appended when the name has no '.' |
| Remux.MergedNameOfExtension | video_downloader_V4_HDR.py:144 | stem + "." + dot-free extension merges to stem + ".mkv" |
| Remux.MergedNameIdempotent | video_downloader_V4_HDR.py:144 | naming a merged name again gives the same name |
| Remux.TempName | video_downloader_V4_HDR.py:145 | the temporary name extends the merged name, so it is never equal to it |
| Remux.TempNeverInput | video_downloader_V4_HDR.py:144-148 | the temporary output path never equals the fetched input path |
| Remux.RemuxArgv | video_downloader_V4_HDR.py:147-149 | seven arguments: ffmpeg -y -i, the input, -c copy, the output; only the two paths vary |
| Remux.RemuxCommandShape | video_downloader_V4_HDR.py:147-149 | the argv for a fetched file reads that file and writes a temp path that differs from both the input and the merged name |
| Remux.RunRemux | video_downloader_V4_HDR.py:150 | ffmpeg touches only the temp path: it holds the output on success, a partial output if one was written, and nothing changes otherwise |
| Remux.RemoveFile | video_downloader_V4_HDR.py:153 | removal succeeds exactly when the path exists, deletes it and touches nothing else |
| Remux.RenameFile | video_downloader_V4_HDR.py:155 | rename succeeds exactly when the source exists and the destination does not; it moves the contents and touches nothing else |
| Remux.ReplaceMerged | video_downloader_V4_HDR.py:152-155 | with the temporary file present, delete-then-rename always succeeds: merged holds the temporary contents, temp is gone, nothing else changes |
| Remux.RenameFailureAfterDelete | video_downloader_V4_HDR.py:152-155 | a rename that fails after the delete leaves the merged path absent, the state the source's except clause is left with |
| Remux.MergeAndReplace | video_downloader_V4_HDR.py:144-155 | the command run reads the fetched file and writes the temp name of the merged name; failed remux: no merged path and every path but temp untouched; success: merged holds the remux output, temp absent, no other path changes |
| Remux.DownloadAndMerge | video_downloader_V4_HDR.py:135-161 | fetch failure or unreadable formats changes nothing and yields no result; remux failure yields no result; success yields the merged path with the fetch-time label and the replace postcondition |
| Remux.StaleMergedFileScenario | video_downloader_V4_HDR.py:144-155 | remuxing clip.mp4 over a stale clip.mkv leaves clip.mp4 and the new clip.mkv and no temporary file |
| Remux.InputAlreadyMergedScenario | video_downloader_V4_HDR.py:144-155 | when the fetched file is already clip.mkv, the delete removes the input itself and the remuxed copy replaces it, with no temporary file left |
| AsWritten.UpdateTaskIndicesAsWritten | video_downloader_V4_HDR.py:340-342 | as written, renumbering raises on any non-empty list and changes nothing |
| AsWritten.OnDeleteAsWritten | video_downloader_V4_HDR.py:331-342 | as written, delete filters the selected rows, then raises whenever a task survives, leaving old indices |
| AsWritten.IntOf | video_downloader_V4_HDR.py:314 | int() of a text succeeds exactly for a non-empty string of decimal digits |
| AsWritten.TreeviewHandleIsNotInt | video_downloader_V4_HDR.py:297 | a Treeview handle such as "I001" never reads as an integer |
| AsWritten.UpdateTaskAsWritten | video_downloader_V4_HDR.py:299-318 | as written, edit never changes the list: an accepted submission on a non-empty list raises ValueError for a non-numeric handle, and TypeError when a numeric handle matches a task |
| AsWritten.DeleteThenAddDuplicatesIndex | video_downloader_V4_HDR.py:294-342 | as written, deleting index 1 of three and adding gives two tasks with index 3; the corrected delete then add stays 1..N |
| AsWritten.EditHasNoEffect | video_downloader_V4_HDR.py:313-318 | as written, editing the only task via row "I001" raises ValueError and keeps the old url; the corrected edit stores the new one |

Selection and labelling are functions, so they are deterministic and
stateless by construction.

## Left out

- Configuration load/save and the history of download paths (lines 18-34 and 169-176): JSON file I/O on module globals.
- All Tk widgets, dialogs, Treeview rendering, the log box, the clipboard and the directory picker (lines 44-121, 195-278, 322-325): presentation only. Treeview item handles appear only in the as-written edit.
- The queue runner `download_videos` (lines 181-193): it is driven by `root.after` scheduling and Treeview state. It never removes anything from the task list, and on success it calls `update_task_hdr_format`, which does not exist.
- The per-uploader subfolder and `os.makedirs` (lines 124-126), and the output template (line 128): `os.path.join` is platform path syntax, and directory creation does not affect the merge protocol.
- The resolver, the fetch and ffmpeg themselves (lines 37-39, 136-137, 141, 150): foreign calls. Their results are inputs.
- A resolver failure during playlist expansion (line 39): the source lets the exception propagate to the Tk callback. Only the comprehension is modelled.
- The edit and playlist prompts index `urls[0]` and `get_playlist_video_links(text)[0]` on possibly empty input (lines 240 and 266): that is an IndexError in the UI callback.
- AsWritten.IntOf: accepts only plain decimal digit strings; Python's `int` also takes a sign, surrounding whitespace, underscores and non-ASCII decimal digits (such as Arabic-Indic digits), none of which a Treeview handle has.
- Remux.RemoveFile, Remux.RenameFile: fail only for a missing source or an existing destination. Other OS errors, such as a PermissionError when the old merged file is held open, are caught by the source (lines 159-161) but are not modelled. Neither is an interruption between the delete and the rename, which would leave the merged path absent with the output still at the temporary path. ReplaceMerged does return the state where a failing step stopped.
- Remux.RenameFile: models the Windows rename, which refuses an existing destination. On POSIX, rename overwrites; the protocol's outcome is the same either way.

## Findings

| source | as written | input that shows it | evidently intended | confidence | as-written member | corrected member |
|---|---|---|---|---|---|---|
| video_downloader_V4_HDR.py:342 | tasks are tuples, so assigning the new index to item 0 raises TypeError; after a delete the survivors keep their old indices | three tasks, delete index 1, then add a url: indices become 2, 3, 3 | survivors renumbered 1..N, so the next add gets N + 1 | high (not executed) | AsWritten.DeleteThenAddDuplicatesIndex | TaskStore.DeleteSelected |
| video_downloader_V4_HDR.py:314-318 | the loop compares each index with `int(item_id)` of the Treeview handle ("I001"), which raises ValueError on the first task; were the handle numeric, assigning to a tuple item would raise TypeError; either way an edit never takes effect | one task with index 1, selected as row "I001", edited to a new url: the old url stays | the matching task's url, title, uploader and label are replaced | high (not executed) | AsWritten.EditHasNoEffect | TaskStore.EditTask |
