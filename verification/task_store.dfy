/** The download queue held by the window: an ordered list of task records
    whose indices are always exactly 1..N in display order
    (video_downloader_V4_HDR.py lines 280-342).

    The source creates each task as a Python tuple (line 295) and later assigns
    to tuple items (lines 315-318 and 342), which raises TypeError. This model
    follows the evident intent: a task is an immutable record and every change
    builds an updated record. The as-written behaviour is modelled separately
    in module AsWritten.

    Edit is keyed by the task index. The source compares `task[0]` with
    `int(item_id)` where `item_id` is the Treeview selection handle
    (lines 222 and 314); the model takes the index of the selected row. */
module TaskStore {
  import opened Wrappers
  import opened Streams

  /** `(index, url, title, uploader, hdr)`, with the three fields derived
      from the resolver answer grouped as `Details`. */
  datatype Task = Task(index: int, url: string, details: Details)

  /** The store invariant: position i holds index i + 1. */
  predicate WellIndexed(tasks: seq<Task>) {
    forall i :: 0 <= i < |tasks| ==> tasks[i].index == i + 1
  }

  /** Two records agree on everything but the index. */
  predicate SameRecord(a: Task, b: Task) {
    a.url == b.url && a.details == b.details
  }

  /** `add_task` and `update_task` get as far as touching the list only for a
      non-empty url whose resolver answer was returned and could be read;
      otherwise they log the error and return (lines 281, 290-292, 300 and
      309-311). */
  predicate Accepts(url: string, answer: Result<Info>) {
    url != "" && answer.Success? && Inspect(answer.value).Success?
  }

  /** `add_task`: a rejected submission leaves the list alone; otherwise one
      record is appended with the next index. `answer` is what the resolver
      returns for `url`. */
  function AddTask(tasks: seq<Task>, url: string, answer: Result<Info>): (r: seq<Task>)
    ensures !Accepts(url, answer) ==> r == tasks
    ensures Accepts(url, answer) ==>
      && |r| == |tasks| + 1
      && r[..|tasks|] == tasks
      && r[|tasks|] == Task(|tasks| + 1, url, Inspect(answer.value).value)
    ensures WellIndexed(tasks) ==> WellIndexed(r)
  {
    if url == "" then tasks
    else match answer
      case Failure(_) => tasks
      case Success(info) =>
        match Inspect(info)
        case Failure(_) => tasks
        case Success(details) => tasks + [Task(|tasks| + 1, url, details)]
  }

  /** Number of submissions in `batch` that `AddTask` accepts. */
  function Accepted(batch: seq<(string, Result<Info>)>): nat {
    if |batch| == 0 then 0
    else (if Accepts(batch[0].0, batch[0].1) then 1 else 0) + Accepted(batch[1..])
  }

  /** The loops at lines 210-211, 242-243 and 269-270 that add each url of a
      pasted or expanded batch in turn; each pair holds a url and the
      resolver's answer for it. */
  function AddAll(tasks: seq<Task>, batch: seq<(string, Result<Info>)>): (r: seq<Task>)
    ensures |r| == |tasks| + Accepted(batch)
    ensures r[..|tasks|] == tasks
    ensures WellIndexed(tasks) ==> WellIndexed(r)
    decreases |batch|
  {
    if |batch| == 0 then tasks
    else
      var next := AddTask(tasks, batch[0].0, batch[0].1);
      var r := AddAll(next, batch[1..]);
      assert r[..|tasks|] == r[..|next|][..|tasks|];
      r
  }

  /** Adding a batch of one is one `add_task`. */
  lemma AddAllSingle(tasks: seq<Task>, p: (string, Result<Info>))
    ensures AddAll(tasks, [p]) == AddTask(tasks, p.0, p.1)
  {
    assert [p][1..] == [];
  }

  /** A batch is added in order: adding `a + b` is adding `a`, then `b`. */
  lemma {:induction false} AddAllConcat(tasks: seq<Task>, a: seq<(string, Result<Info>)>, b: seq<(string, Result<Info>)>)
    ensures AddAll(tasks, a + b) == AddAll(AddAll(tasks, a), b)
    decreases |a|
  {
    if |a| == 0 {
      assert a + b == b;
    } else {
      assert (a + b)[0] == a[0];
      assert (a + b)[1..] == a[1..] + b;
      AddAllConcat(AddTask(tasks, a[0].0, a[0].1), a[1..], b);
    }
  }

  /** `update_task`: the url, title, uploader and label of every task with
      the given index are replaced from the resolver's answer; a rejected
      submission changes nothing. An index that no task carries is silently
      ignored. */
  function EditTask(tasks: seq<Task>, index: int, url: string, answer: Result<Info>): (r: seq<Task>)
    ensures !Accepts(url, answer) ==> r == tasks
    ensures |r| == |tasks|
    ensures forall i :: 0 <= i < |tasks| ==> r[i].index == tasks[i].index
    ensures forall i :: 0 <= i < |tasks| && tasks[i].index != index ==> r[i] == tasks[i]
    ensures Accepts(url, answer) ==>
      forall i :: 0 <= i < |tasks| && tasks[i].index == index ==>
        r[i] == Task(index, url, Inspect(answer.value).value)
    ensures WellIndexed(tasks) ==> WellIndexed(r)
  {
    if url == "" then tasks
    else match answer
      case Failure(_) => tasks
      case Success(info) =>
        match Inspect(info)
        case Failure(_) => tasks
        case Success(details) =>
          seq(|tasks|, i requires 0 <= i < |tasks| =>
            if tasks[i].index == index then Task(index, url, details) else tasks[i])
  }

  /** `clear_list`. */
  function Clear(tasks: seq<Task>): (r: seq<Task>)
    ensures |r| == 0 && WellIndexed(r)
  {
    []
  }

  /** The tasks whose index is not in `selected`, in their original order:
      the comprehension at line 335, applied for a whole set of indices. */
  function Keep(tasks: seq<Task>, selected: set<int>): (r: seq<Task>)
    ensures |r| <= |tasks|
    ensures forall t :: t in r <==> t in tasks && t.index !in selected
  {
    if |tasks| == 0 then []
    else
      var rest := Keep(tasks[1..], selected);
      assert forall t :: t in tasks <==> t == tasks[0] || t in tasks[1..];
      if tasks[0].index in selected then rest else [tasks[0]] + rest
  }

  /** `update_task_indices`: every record gets its display position. */
  function Renumber(tasks: seq<Task>): (r: seq<Task>)
    ensures |r| == |tasks| && WellIndexed(r)
    ensures forall i :: 0 <= i < |tasks| ==> SameRecord(r[i], tasks[i])
  {
    seq(|tasks|, i requires 0 <= i < |tasks| => tasks[i].(index := i + 1))
  }

  /** Removing a set of indices: survivors keep their relative order and
      are renumbered 1..N. */
  function DeleteSelected(tasks: seq<Task>, selected: set<int>): (r: seq<Task>)
    ensures WellIndexed(r)
    ensures |r| == |Keep(tasks, selected)|
    ensures forall i :: 0 <= i < |r| ==> SameRecord(r[i], Keep(tasks, selected)[i])
  {
    Renumber(Keep(tasks, selected))
  }

  /** The set of the indices listed in `items`. */
  function IndexSet(items: seq<int>): set<int> {
    set x | x in items
  }

  /** `on_delete` followed by `update_task_indices`, loop by loop: one filter
      per selected row, then one renumbering pass. `items` holds the index
      shown in each selected row. */
  method OnDelete(tasks: seq<Task>, items: seq<int>) returns (r: seq<Task>)
    ensures r == DeleteSelected(tasks, IndexSet(items))
    ensures WellIndexed(r)
  {
    var remaining := tasks;
    KeepNothing(tasks);
    assert IndexSet(items[..0]) == {};
    for k := 0 to |items|
      invariant remaining == Keep(tasks, IndexSet(items[..k]))
    {
      KeepTwice(tasks, IndexSet(items[..k]), {items[k]});
      assert IndexSet(items[..k + 1]) == IndexSet(items[..k]) + {items[k]} by {
        assert items[..k + 1] == items[..k] + [items[k]];
      }
      remaining := Keep(remaining, {items[k]});
    }
    assert items[..|items|] == items;
    r := UpdateTaskIndices(remaining);
  }

  /** `update_task_indices` as the loop at lines 341-342: each record in turn
      gets its 1-based position. */
  method UpdateTaskIndices(tasks: seq<Task>) returns (r: seq<Task>)
    ensures r == Renumber(tasks)
    ensures WellIndexed(r)
  {
    r := [];
    for k := 0 to |tasks|
      invariant |r| == k
      invariant forall j :: 0 <= j < k ==> r[j] == tasks[j].(index := j + 1)
    {
      r := r + [tasks[k].(index := k + 1)];
    }
  }

  /** Filtering twice is filtering once by the union. */
  lemma {:induction false} KeepTwice(tasks: seq<Task>, a: set<int>, b: set<int>)
    ensures Keep(Keep(tasks, a), b) == Keep(tasks, a + b)
  {
    if |tasks| > 0 {
      KeepTwice(tasks[1..], a, b);
      if tasks[0].index !in a {
        assert Keep(tasks, a) == [tasks[0]] + Keep(tasks[1..], a);
        assert ([tasks[0]] + Keep(tasks[1..], a))[1..] == Keep(tasks[1..], a);
      }
    }
  }

  /** Filtering by the empty set keeps everything. */
  lemma {:induction false} KeepNothing(tasks: seq<Task>)
    ensures Keep(tasks, {}) == tasks
  {
    if |tasks| > 0 {
      KeepNothing(tasks[1..]);
    }
  }

  /** Filtering respects order: it distributes over concatenation. */
  lemma {:induction false} KeepConcat(a: seq<Task>, b: seq<Task>, selected: set<int>)
    ensures Keep(a + b, selected) == Keep(a, selected) + Keep(b, selected)
  {
    if |a| == 0 {
      assert a + b == b;
    } else {
      assert (a + b)[0] == a[0];
      assert (a + b)[1..] == a[1..] + b;
      KeepConcat(a[1..], b, selected);
    }
  }

  /** Renumbering an already well-indexed list changes nothing. */
  lemma RenumberIdentity(tasks: seq<Task>)
    requires WellIndexed(tasks)
    ensures Renumber(tasks) == tasks
  {
  }

  /** On a well-indexed list, an edit touches exactly the record at position
      `index - 1`, and is a no-op when no record has that index. */
  lemma EditAtPosition(tasks: seq<Task>, index: int, url: string, answer: Result<Info>)
    requires WellIndexed(tasks) && Accepts(url, answer)
    ensures 1 <= index <= |tasks| ==>
      EditTask(tasks, index, url, answer)
        == tasks[index - 1 := Task(index, url, Inspect(answer.value).value)]
    ensures !(1 <= index <= |tasks|) ==> EditTask(tasks, index, url, answer) == tasks
  {
  }

  /** Adding an item without an item-level label whose video stream is
      labelled "HDR10" appends task 1 with its title, uploader and "HDR10". */
  lemma AddHdrItemScenario()
    ensures AddTask([], "X", Success(Info(Present("Clip"), Present("Alice"), None,
              Present([Format(Some("none"), None, true), Format(Some("vp9"), Some("HDR10"), true)]))))
         == [Task(1, "X", Details(Some("Clip"), Some("Alice"), Some("HDR10")))]
  {
    var fs := [Format(Some("none"), None, true), Format(Some("vp9"), Some("HDR10"), true)];
    assert IsFirstVideo(fs, 1);
  }

  /** Deleting index 2 from a three-task list keeps the first and third
      records, renumbered 1 and 2. */
  lemma DeleteMiddleScenario(a: Task, b: Task, c: Task)
    requires WellIndexed([a, b, c])
    ensures DeleteSelected([a, b, c], {2}) == [a, c.(index := 2)]
  {
    assert [a, b, c] == [a] + [b] + [c];
    KeepConcat([a] + [b], [c], {2});
    KeepConcat([a], [b], {2});
    assert Keep([a], {2}) == [a] by { assert [a][1..] == []; }
    assert Keep([b], {2}) == [] by { assert [b][1..] == []; }
    assert Keep([c], {2}) == [c] by { assert [c][1..] == []; }
  }

  /** The operations a user can perform on the list. */
  datatype Op =
    | Add(url: string, answer: Result<Info>)
    | Edit(index: int, newUrl: string, editAnswer: Result<Info>)
    | Delete(items: seq<int>)
    | ClearAll

  function Apply(tasks: seq<Task>, op: Op): seq<Task> {
    match op
    case Add(url, answer) => AddTask(tasks, url, answer)
    case Edit(index, url, answer) => EditTask(tasks, index, url, answer)
    case Delete(items) => DeleteSelected(tasks, IndexSet(items))
    case ClearAll => Clear(tasks)
  }

  function Replay(tasks: seq<Task>, ops: seq<Op>): seq<Task>
    decreases |ops|
  {
    if |ops| == 0 then tasks else Replay(Apply(tasks, ops[0]), ops[1..])
  }

  /** The indexing invariant: after any sequence of operations from a
      well-indexed list (in particular the empty one), indices are exactly
      1..N in display order. */
  lemma {:induction false} ReplayKeepsIndices(tasks: seq<Task>, ops: seq<Op>)
    requires WellIndexed(tasks)
    ensures WellIndexed(Replay(tasks, ops))
    decreases |ops|
  {
    if |ops| > 0 {
      ReplayKeepsIndices(Apply(tasks, ops[0]), ops[1..]);
    }
  }
}
