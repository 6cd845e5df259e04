/** The task collection of the Python sample: a `Task` record and a
    `TaskManager` holding an ordered, capacity-checked sequence of tasks.
    Every operation is a pure function; the one that changes the manager
    (`add_task`) returns the manager afterwards together with its outcome. */
module TaskManagement {
  import opened Wrappers

  /** `TaskManager.MAX_TASKS`: `add_task` refuses to grow a manager past it. */
  const MAX_TASKS: nat := 100

  /** Default threshold of `get_high_priority`. */
  const DEFAULT_THRESHOLD: int := 5

  /** Bounds of the advisory priority range checked by `validate_priority`. */
  const MIN_PRIORITY: int := 0
  const MAX_PRIORITY: int := 10

  /** Message of the `ValueError` raised by `add_task` on a full manager. */
  const LIMIT_MESSAGE: string := "Maximum task limit reached"

  /** The `Task` dataclass, with its field defaults. */
  datatype Task = Task(id: int, title: string, priority: int := 0, completed: bool := false)

  datatype TaskManager = TaskManager(name: string, tasks: seq<Task>)

  /** Python's `ValueError`, as raised by `add_task`. */
  datatype ValueError = ValueError(message: string)

  /** What one `add_task` call leaves behind: the manager afterwards, and
      either the returned `True` or the raised error. */
  datatype Added = Added(manager: TaskManager, result: Result<bool, ValueError>)

  /** `TaskManager(name, tasks=None)`: neither the name nor the length or
      priorities of the initial list are checked. */
  function NewManager(name: string, initial: Option<seq<Task>> := None): (m: TaskManager)
    ensures m.name == name
    ensures initial.Some? ==> m.tasks == initial.value
    ensures initial.None? ==> m.tasks == []
  {
    TaskManager(name, if initial.Some? then initial.value else [])
  }

  /** `validate_priority`: an advisory check that nothing calls automatically. */
  function ValidatePriority(priority: int): (ok: bool)
    ensures ok <==> MIN_PRIORITY <= priority <= MAX_PRIORITY
  {
    0 <= priority <= 10
  }

  /** `add_task`: appends when there is room, otherwise raises and leaves the
      manager as it was. The priority of the task is not looked at. */
  function AddTask(m: TaskManager, task: Task): (r: Added)
    ensures r.manager.name == m.name
    ensures |m.tasks| < MAX_TASKS ==> r.result == Success(true) && r.manager.tasks == m.tasks + [task]
    ensures |m.tasks| >= MAX_TASKS ==> r.result == Failure(ValueError(LIMIT_MESSAGE)) && r.manager == m
  {
    if |m.tasks| >= MAX_TASKS then Added(m, Failure(ValueError(LIMIT_MESSAGE)))
    else Added(m.(tasks := m.tasks + [task]), Success(true))
  }

  /** A successful `add_task` keeps every earlier task at its position and
      puts the new one last. */
  lemma AddTaskKeepsEarlierTasks(m: TaskManager, task: Task)
    requires |m.tasks| < MAX_TASKS
    ensures |AddTask(m, task).manager.tasks| == |m.tasks| + 1
    ensures forall i :: 0 <= i < |m.tasks| ==> AddTask(m, task).manager.tasks[i] == m.tasks[i]
    ensures AddTask(m, task).manager.tasks[|m.tasks|] == task
  {
  }

  /** `add_task` accepts a task whose priority `validate_priority` rejects. */
  lemma AddTaskIgnoresPriority(m: TaskManager, task: Task)
    requires |m.tasks| < MAX_TASKS
    requires !ValidatePriority(task.priority)
    ensures AddTask(m, task).result == Success(true)
    ensures task in AddTask(m, task).manager.tasks
  {
  }

  /** How many more tasks `add_task` will accept. A manager built with an
      over-long initial list has no room at all. */
  function Room(m: TaskManager): nat {
    if |m.tasks| >= MAX_TASKS then 0 else MAX_TASKS - |m.tasks|
  }

  /** A caller loop `for t in ts: manager.add_task(t)` that keeps going after
      an error: the final manager and the outcome of every call, in order. */
  function AddAll(m: TaskManager, ts: seq<Task>): (r: (TaskManager, seq<Result<bool, ValueError>>))
    ensures |r.1| == |ts|
    decreases |ts|
  {
    if |ts| == 0 then (m, [])
    else
      var first := AddTask(m, ts[0]);
      var rest := AddAll(first.manager, ts[1..]);
      (rest.0, [first.result] + rest.1)
  }

  /** Any run of `add_task` calls: exactly the first `min(|ts|, Room(m))`
      calls succeed and their tasks are appended in call order; every later
      call raises and changes nothing; the name is never changed. */
  lemma {:induction false} AddAllOutcome(m: TaskManager, ts: seq<Task>)
    ensures var k := if |ts| < Room(m) then |ts| else Room(m);
      && AddAll(m, ts).0.tasks == m.tasks + ts[..k]
      && AddAll(m, ts).0.name == m.name
      && (forall i :: 0 <= i < k ==> AddAll(m, ts).1[i] == Success(true))
      && (forall i :: k <= i < |ts| ==> AddAll(m, ts).1[i] == Failure(ValueError(LIMIT_MESSAGE)))
    decreases |ts|
  {
    if |ts| > 0 {
      var first := AddTask(m, ts[0]);
      AddAllOutcome(first.manager, ts[1..]);
      var k := if |ts| < Room(m) then |ts| else Room(m);
      var k' := if |ts| - 1 < Room(first.manager) then |ts| - 1 else Room(first.manager);
      if |m.tasks| < MAX_TASKS {
        assert k' == k - 1;
        assert [ts[0]] + ts[1..][..k'] == ts[..k];
        assert m.tasks + [ts[0]] + ts[1..][..k'] == m.tasks + ts[..k];
      } else {
        assert k == 0 && k' == 0;
      }
      var r := AddAll(m, ts);
      assert forall i :: 1 <= i < |ts| ==> r.1[i] == AddAll(first.manager, ts[1..]).1[i - 1];
    }
  }

  /** The capacity invariant: a manager that starts with at most `MAX_TASKS`
      tasks never holds more, however many tasks are added. */
  lemma AddAllKeepsCapacity(m: TaskManager, ts: seq<Task>)
    requires |m.tasks| <= MAX_TASKS
    ensures |AddAll(m, ts).0.tasks| <= MAX_TASKS
  {
    AddAllOutcome(m, ts);
  }

  /** A manager constructed with more than `MAX_TASKS` tasks refuses every
      addition and keeps its initial tasks. */
  lemma OverfullManagerRejectsAll(m: TaskManager, ts: seq<Task>)
    requires |m.tasks| > MAX_TASKS
    ensures AddAll(m, ts).0 == m
    ensures forall i :: 0 <= i < |ts| ==> AddAll(m, ts).1[i].Failure?
  {
    AddAllOutcome(m, ts);
  }

  /** Order-preserving filter behind `get_high_priority`: keeps the tasks
      whose priority reaches the (inclusive) threshold. */
  function FilterAtLeast(ts: seq<Task>, threshold: int): (r: seq<Task>)
    ensures |r| <= |ts|
    ensures forall k :: 0 <= k < |r| ==> r[k].priority >= threshold
    ensures forall t :: multiset(r)[t] == if t.priority >= threshold then multiset(ts)[t] else 0
    decreases |ts|
  {
    if |ts| == 0 then []
    else
      assert ts == [ts[0]] + ts[1..];
      (if ts[0].priority >= threshold then [ts[0]] else []) + FilterAtLeast(ts[1..], threshold)
  }

  /** `get_high_priority(threshold=5)`; the manager itself is a value and so
      cannot change. */
  function GetHighPriority(m: TaskManager, threshold: int := DEFAULT_THRESHOLD): (r: seq<Task>)
    ensures forall t :: t in r <==> t in m.tasks && t.priority >= threshold
  {
    var r := FilterAtLeast(m.tasks, threshold);
    assert forall t :: t in r <==> multiset(r)[t] > 0;
    r
  }

  /** `s` can be obtained from `ts` by deleting elements. */
  predicate IsSubsequence<T(==)>(s: seq<T>, ts: seq<T>)
    decreases |ts|
  {
    if |s| == 0 then true
    else if |ts| == 0 then false
    else (s[0] == ts[0] && IsSubsequence(s[1..], ts[1..])) || IsSubsequence(s, ts[1..])
  }

  predicate AllAtLeast(s: seq<Task>, threshold: int) {
    forall k :: 0 <= k < |s| ==> s[k].priority >= threshold
  }

  lemma {:induction false} FilterIsSubsequence(ts: seq<Task>, threshold: int)
    ensures IsSubsequence(FilterAtLeast(ts, threshold), ts)
    decreases |ts|
  {
    if |ts| > 0 {
      FilterIsSubsequence(ts[1..], threshold);
      var r := FilterAtLeast(ts, threshold);
      var rest := FilterAtLeast(ts[1..], threshold);
      if ts[0].priority >= threshold {
        assert r == [ts[0]] + rest;
        assert r[0] == ts[0] && r[1..] == rest;
      } else {
        assert r == rest;
      }
    }
  }

  /** Every subsequence of `ts` that only holds qualifying tasks is a
      subsequence of the filtered sequence. */
  lemma {:induction false} FilterIsLargest(s: seq<Task>, ts: seq<Task>, threshold: int)
    requires IsSubsequence(s, ts)
    requires AllAtLeast(s, threshold)
    ensures IsSubsequence(s, FilterAtLeast(ts, threshold))
    decreases |ts|
  {
    if |s| > 0 {
      var f := FilterAtLeast(ts, threshold);
      var rest := FilterAtLeast(ts[1..], threshold);
      assert |ts| > 0;
      if s[0] == ts[0] && IsSubsequence(s[1..], ts[1..]) {
        assert AllAtLeast(s[1..], threshold) by {
          forall k | 0 <= k < |s[1..]| ensures s[1..][k].priority >= threshold {
            assert s[1..][k] == s[k + 1];
          }
        }
        FilterIsLargest(s[1..], ts[1..], threshold);
        assert ts[0].priority >= threshold by { assert s[0].priority >= threshold; }
        assert f == [ts[0]] + rest;
        assert f[0] == s[0] && f[1..] == rest;
      } else {
        assert IsSubsequence(s, ts[1..]);
        FilterIsLargest(s, ts[1..], threshold);
        if ts[0].priority >= threshold {
          assert f == [ts[0]] + rest;
          assert f[1..] == rest;
        } else {
          assert f == rest;
        }
      }
    }
  }

  lemma {:induction false} SubsequenceNoLonger<T>(s: seq<T>, ts: seq<T>)
    requires IsSubsequence(s, ts)
    ensures |s| <= |ts|
    decreases |ts|
  {
    if |s| > 0 {
      if s[0] == ts[0] && IsSubsequence(s[1..], ts[1..]) {
        SubsequenceNoLonger(s[1..], ts[1..]);
      } else {
        SubsequenceNoLonger(s, ts[1..]);
      }
    }
  }

  /** `get_high_priority(t)` is exactly the tasks with priority at least `t`,
      in stored order: it is such a subsequence of the stored tasks, and
      every other such subsequence is contained in it and no longer. */
  lemma HighPriorityIsExactSelection(m: TaskManager, threshold: int, s: seq<Task>)
    ensures IsSubsequence(GetHighPriority(m, threshold), m.tasks)
    ensures AllAtLeast(GetHighPriority(m, threshold), threshold)
    ensures IsSubsequence(s, m.tasks) && AllAtLeast(s, threshold) ==>
      IsSubsequence(s, GetHighPriority(m, threshold)) && |s| <= |GetHighPriority(m, threshold)|
  {
    FilterIsSubsequence(m.tasks, threshold);
    if IsSubsequence(s, m.tasks) && AllAtLeast(s, threshold) {
      FilterIsLargest(s, m.tasks, threshold);
      SubsequenceNoLonger(s, GetHighPriority(m, threshold));
    }
  }

  /** Titles of the tasks that are not completed. */
  function OpenTitles(ts: seq<Task>): set<string> {
    set i | 0 <= i < |ts| && !ts[i].completed :: ts[i].title
  }

  /** `task_summary`: the dict comprehension walks the tasks in order and
      writes `title -> priority` for each incomplete one, so a later task
      overwrites an earlier one with the same title. */
  function Summary(ts: seq<Task>): (r: map<string, int>)
    ensures r.Keys == OpenTitles(ts)
    decreases |ts|
  {
    if |ts| == 0 then map[]
    else
      var init := ts[..|ts| - 1];
      var last := ts[|ts| - 1];
      var acc := Summary(init);
      assert OpenTitles(ts) == OpenTitles(init) + (if last.completed then {} else {last.title}) by {
        forall i | 0 <= i < |init| ensures init[i] == ts[i] { }
      }
      if last.completed then acc else acc[last.title := last.priority]
  }

  function TaskSummary(m: TaskManager): (r: map<string, int>)
    ensures forall title :: title in r <==> exists t :: t in m.tasks && !t.completed && t.title == title
  {
    var r := Summary(m.tasks);
    assert forall title :: title in r <==> exists i :: 0 <= i < |m.tasks| && !m.tasks[i].completed && m.tasks[i].title == title;
    r
  }

  /** Last write wins: the summary maps the title of an incomplete task to
      its priority when no later incomplete task has the same title. */
  lemma {:induction false} SummaryLastWriteWins(ts: seq<Task>, i: nat)
    requires i < |ts| && !ts[i].completed
    requires forall j :: i < j < |ts| ==> ts[j].title != ts[i].title || ts[j].completed
    ensures ts[i].title in Summary(ts) && Summary(ts)[ts[i].title] == ts[i].priority
    decreases |ts|
  {
    if i < |ts| - 1 {
      var init := ts[..|ts| - 1];
      assert init[i] == ts[i];
      SummaryLastWriteWins(init, i);
    }
  }

  /** The sample's entry point: manager "Development" with two tasks. */
  lemma DevelopmentScenario()
    ensures var t1 := Task(1, "Fix critical bug", priority := 9);
      var t2 := Task(2, "Update documentation", priority := 3);
      var m := AddTask(AddTask(NewManager("Development"), t1).manager, t2).manager;
      && m.name == "Development"
      && TaskSummary(m) == map["Fix critical bug" := 9, "Update documentation" := 3]
      && GetHighPriority(m) == [t1]
  {
    var t1 := Task(1, "Fix critical bug", priority := 9);
    var t2 := Task(2, "Update documentation", priority := 3);
    var m := AddTask(AddTask(NewManager("Development"), t1).manager, t2).manager;
    assert m.tasks == [t1, t2];
    assert m.tasks[..1] == [t1];
    assert [t1][..0] == [];
    assert m.tasks[1..] == [t2];
    assert m.tasks[1..][1..] == [];
  }
}
