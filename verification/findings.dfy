/** The task-list edits as the source writes them. Tasks are created as
    tuples (video_downloader_V4_HDR.py line 295), so every item assignment to
    a task (lines 315-318 and 342) raises TypeError. The corrected behaviour
    is module TaskStore; the lemmas here exhibit inputs on which the two
    differ. */
module AsWritten {
  import opened Wrappers
  import opened Streams
  import opened TaskStore

  /** The task list after a call, and the exception it raised, if any. */
  datatype Step = Step(tasks: seq<Task>, raised: Option<string>)

  /** `update_task_indices` as written: the first assignment to a tuple
      item raises, so nothing is renumbered. */
  function UpdateTaskIndicesAsWritten(tasks: seq<Task>): (r: Step)
    ensures r.tasks == tasks
    ensures r.raised.Some? <==> |tasks| > 0
  {
    if |tasks| == 0 then Step(tasks, None) else Step(tasks, Some("TypeError"))
  }

  /** `on_delete` as written: the selected rows are filtered out, then the
      renumbering raises whenever a task survives, leaving the old indices. */
  function OnDeleteAsWritten(tasks: seq<Task>, items: seq<int>): (r: Step)
    ensures r.tasks == Keep(tasks, IndexSet(items))
    ensures r.raised.Some? <==> |Keep(tasks, IndexSet(items))| > 0
  {
    UpdateTaskIndicesAsWritten(Keep(tasks, IndexSet(items)))
  }

  /** True when some task carries `index`. */
  predicate HasIndex(tasks: seq<Task>, index: int) {
    exists i :: 0 <= i < |tasks| && tasks[i].index == index
  }

  predicate IsDigit(c: char) {
    '0' <= c <= '9'
  }

  /** The value of a string of decimal digits. */
  function DigitsValue(s: string): nat
    requires forall k :: 0 <= k < |s| ==> IsDigit(s[k])
  {
    if |s| == 0 then 0
    else
      assert IsDigit(s[|s| - 1]);
      assert forall k :: 0 <= k < |s| - 1 ==> s[..|s| - 1][k] == s[k];
      DigitsValue(s[..|s| - 1]) * 10 + (s[|s| - 1] as int - '0' as int)
  }

  /** Python's `int(text)` for plain decimal digit strings; anything else
      raises ValueError, shown here as `None`. */
  function IntOf(s: string): (r: Option<nat>)
    ensures r.Some? <==> |s| > 0 && forall k :: 0 <= k < |s| ==> IsDigit(s[k])
  {
    if |s| > 0 && forall k :: 0 <= k < |s| ==> IsDigit(s[k]) then Some(DigitsValue(s)) else None
  }

  /** Rows are inserted without an explicit id (lines 297 and 325), so the
      Treeview names them "I" followed by hexadecimal digits; no such handle
      reads as an integer. */
  lemma TreeviewHandleIsNotInt(handle: string)
    requires |handle| > 0 && handle[0] == 'I'
    ensures IntOf(handle).None?
  {
    assert !IsDigit(handle[0]);
  }

  /** `update_task` as written, given the selected row's Treeview handle:
      on an accepted submission the loop over a non-empty list first runs
      `int(item_id)`, which raises ValueError for a handle that is not a
      digit string; for one that is, the first matching task's item
      assignment raises TypeError before any field changes. Either way the
      list is unchanged. */
  function UpdateTaskAsWritten(tasks: seq<Task>, itemId: string, url: string, answer: Result<Info>): (r: Step)
    ensures r.tasks == tasks
    ensures r.raised == Some("ValueError") <==>
      Accepts(url, answer) && |tasks| > 0 && IntOf(itemId).None?
    ensures r.raised == Some("TypeError") <==>
      Accepts(url, answer) && IntOf(itemId).Some? && HasIndex(tasks, IntOf(itemId).value)
  {
    if !Accepts(url, answer) || |tasks| == 0 then Step(tasks, None)
    else match IntOf(itemId)
      case None => Step(tasks, Some("ValueError"))
      case Some(n) => if HasIndex(tasks, n) then Step(tasks, Some("TypeError")) else Step(tasks, None)
  }

  /** Deleting index 1 from three tasks leaves indices 2, 3; the next add
      then assigns index 3 a second time. The corrected delete followed by
      the same add keeps indices 1..3. */
  lemma DeleteThenAddDuplicatesIndex(a: Task, b: Task, c: Task, info: Info)
    requires WellIndexed([a, b, c]) && !info.formats.Null?
    ensures var left := OnDeleteAsWritten([a, b, c], [1]);
      && left.raised == Some("TypeError")
      && !WellIndexed(left.tasks)
      && var added := AddTask(left.tasks, "u", Success(info));
         |added| == 3 && added[1].index == 3 && added[2].index == 3
    ensures WellIndexed(AddTask(DeleteSelected([a, b, c], IndexSet([1])), "u", Success(info)))
  {
    assert IndexSet([1]) == {1};
    assert [a, b, c] == [a] + [b] + [c];
    KeepConcat([a] + [b], [c], {1});
    KeepConcat([a], [b], {1});
    assert Keep([a], {1}) == [] by { assert [a][1..] == []; }
    assert Keep([b], {1}) == [b] by { assert [b][1..] == []; }
    assert Keep([c], {1}) == [c] by { assert [c][1..] == []; }
    assert Keep([a, b, c], {1}) == [b, c];
  }

  /** Editing the only task, selected as row "I001", to a new url: the
      source raises ValueError and keeps the old url, while the corrected
      edit of index 1 stores the new one. */
  lemma EditHasNoEffect(t: Task, info: Info)
    requires WellIndexed([t]) && t.url != "new" && !info.formats.Null?
    ensures UpdateTaskAsWritten([t], "I001", "new", Success(info)) == Step([t], Some("ValueError"))
    ensures EditTask([t], 1, "new", Success(info))[0].url == "new"
  {
    TreeviewHandleIsNotInt("I001");
    assert [t][0].index == 1;
  }
}
