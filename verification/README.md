# Task manager and configuration samples, modelled in Dafny

This project models the two pieces of real logic in the theme-preview samples:

- `samples/demo.py`: the `Task` dataclass and the `TaskManager`. A manager holds an ordered list of tasks capped at `MAX_TASKS = 100`. `add_task` appends while there is room and raises `ValueError("Maximum task limit reached")` once the manager is full. `get_high_priority(threshold=5)` is an order-preserving filter with an inclusive threshold. `task_summary` builds a `title -> priority` dict over the incomplete tasks, so a later duplicate title overwrites an earlier one. `validate_priority` is an advisory `0 <= p <= 10` check that nothing calls.
- `samples/demo.rs`: `Config`, which holds a name, a `HashMap<String, String>` and a `max_size` of 100. `set` has `HashMap::insert` semantics and `get` is a lookup. `validate` checks the empty name first and the size bound second, and `is_valid` means "`validate` is Ok". `process_result` is a case split over `Option<i32>`.

Everything is modelled with immutable values and pure functions. The operations that change state in the source (`add_task`, `set`) return the new state together with the call's outcome. A Python exception is a `Failure` value. Rust's `{}` formatting of integers inside `format!` is modelled by `Decimal.NatToString`, which is proved reversible by `Decimal.ParseNat`.

Files:
- `wrappers.dfy`: `Option` and `Result`.
- `decimal.dfy`: decimal rendering and parsing of naturals.
- `task_manager.dfy`: module `TaskManagement` (the Python sample).
- `config.dfy`: module `Configuration` (the Rust sample).

## Model

| member | source | states |
|---|---|---|
| TaskManagement.NewManager | samples/demo.py:40-42 | The manager keeps the given name. Its tasks are the given list, or empty when none is given. Neither the name nor the list is checked. |
| TaskManagement.ValidatePriority | samples/demo.py:55-58 | True exactly when the priority lies in the inclusive range 0..10. |
| TaskManagement.AddTask | samples/demo.py:60-66 | With fewer than 100 tasks: returns `True` and appends the task last. With 100 or more: fails with `ValueError("Maximum task limit reached")` and leaves the manager unchanged. The name never changes. |
| TaskManagement.AddTaskKeepsEarlierTasks | samples/demo.py:63-65 | A successful add grows the list by one. Every earlier task keeps its index, and the new task sits at the old length. |
| TaskManagement.AddTaskIgnoresPriority | samples/demo.py:56-66 | A task whose priority `validate_priority` rejects is still accepted when there is room. |
| TaskManagement.AddAllOutcome | samples/demo.py:61-66 | In any run of adds, exactly the first min(n, room) calls succeed, and their tasks are appended in call order. Every later call raises. The name is unchanged. |
| TaskManagement.AddAllKeepsCapacity | samples/demo.py:63-65 | A manager starting with at most 100 tasks never holds more than 100, whatever is added. |
| TaskManagement.OverfullManagerRejectsAll | samples/demo.py:40-42 | The constructor does not bound the initial list. A manager built with more than 100 tasks refuses every add and keeps its tasks. |
| TaskManagement.FilterAtLeast | samples/demo.py:68-70 | Every kept task has priority >= threshold. Each task value occurs in the result as often as in the input when it qualifies, and otherwise not at all. |
| TaskManagement.GetHighPriority | samples/demo.py:68-70 | A task is in the result iff it is stored and its priority is >= threshold. The default threshold is 5. |
| TaskManagement.HighPriorityIsExactSelection | samples/demo.py:70 | The result is a subsequence of the stored tasks (original order) and all of its tasks qualify. Every other all-qualifying subsequence is contained in it, so it is the unique longest one. |
| TaskManagement.Summary | samples/demo.py:74-78 | The keys are exactly the titles of the incomplete tasks. |
| TaskManagement.TaskSummary | samples/demo.py:72-78 | A title is a key iff some stored task with that title is not completed. Completed tasks add no key. |
| TaskManagement.SummaryLastWriteWins | samples/demo.py:74-78 | Take an incomplete task with no later incomplete task of the same title. The summary maps its title to its priority. |
| TaskManagement.DevelopmentScenario | samples/demo.py:102-108 | The "Development" manager with tasks of priority 9 and 3 has summary {"Fix critical bug": 9, "Update documentation": 3}. Its high-priority list is the first task only. |
| Decimal.NatToString | samples/demo.rs:62 | The `{}` rendering of a natural is non-empty and all digits. It has no leading zero except for 0 itself. |
| Decimal.ParseNatToString | samples/demo.rs:77 | Parsing the decimal rendering of n gives back n. |
| Decimal.NatToStringInjective | samples/demo.rs:62 | Distinct numbers render as distinct strings. |
| Configuration.New | samples/demo.rs:30-36 | `Config::new(n)` has name n, an empty map and `max_size` 100. |
| Configuration.Default | samples/demo.rs:10-15 | The derived default has an empty name, an empty map and `max_size` 0. |
| Configuration.Get | samples/demo.rs:44-46 | `Some` exactly when the key is present, carrying its value. |
| Configuration.Set | samples/demo.rs:39-41 | Returns the previous value of the key, or None. Afterwards the key reads the new value and every other key reads as before. Name and `max_size` are untouched. The map grows by one iff the key was new, and the bound is not checked. |
| Configuration.SetTwiceReturnsFirstValue | samples/demo.rs:39-41 | A second set of the same key hands back the first value, and the key then reads the second. |
| Configuration.SetAllFreshKeys | samples/demo.rs:39-41 | Setting n distinct fresh keys grows the map by exactly n entries. |
| Configuration.SetCanExceedMaxSize | samples/demo.rs:39-41 | 101 sets of distinct keys on a new named config give 101 values. This exceeds `max_size`, and `validate` reports "Too many values: 101 > 100". |
| Configuration.Validate | samples/demo.rs:57-65 | Err iff the name is empty or the map has more than `max_size` entries. An empty name reports "Name cannot be empty" even when the size is also over. Otherwise the error is "Too many values: {len} > {max_size}". |
| Configuration.ValidateErrorsDistinct | samples/demo.rs:58-62 | The empty-name error is reported iff the name is empty. Otherwise the error starts with "Too many values: ". |
| Configuration.IsValid | samples/demo.rs:23-25 | True iff `validate` is Ok, that is iff the name is non-empty and the size is within `max_size`. |
| Configuration.NewConfigValidIffNamed | samples/demo.rs:110-113 | A fresh config is valid iff its name is non-empty. The derived default config is invalid. |
| Configuration.ProcessResult | samples/demo.rs:75-82 | `Some(n>0)` gives Ok "Positive: n". `Some(0)` gives Ok "Zero". `Some(n<0)` gives Err "Negative values not allowed". `None` gives Err "No value provided". |
| Configuration.ProcessResultClassifies | samples/demo.rs:76-81 | The four outcomes are pairwise distinct, so the result determines which case the input fell into. |
| Configuration.ProcessResultPositiveRoundTrip | samples/demo.rs:77 | For n > 0 the number after "Positive: " parses back to n. |

## Left out

- `timing_decorator` and its "Calling"/"Completed" prints (samples/demo.py:15-23): console logging only. `AddTask` models the undecorated method.
- `fetch_tasks` (samples/demo.py:81-99): an asyncio sleep, a print and a re-raise. Past the delay it returns exactly `GetHighPriority(m)` with the default threshold.
- `__str__`, `__repr__` and `fmt::Display`: string formatting with no contract.
- Aliasing of the caller's initial list by `tasks or []` (samples/demo.py:42): tasks are immutable values here, so a later mutation of the caller's list is not modelled.
- Iteration order of the dict returned by `task_summary`: a Dafny `map` is unordered. Only keys and values are modelled.
- `TaskManager.MAX_TASKS` is modelled as a constant. Overriding the class attribute on an instance is not modelled.
- `process_advanced` (samples/demo.rs:49-53): feature-gated, refers to an undefined type, and does nothing.
- The `main` functions of both samples: demo entry points that print. The Python scenario is restated as `TaskManagement.DevelopmentScenario`.
- `Config`'s `usize` fields: lengths and `max_size` are unbounded naturals, since a map cannot reach `usize::MAX` entries.
- `samples/demo.tsx` and `samples/demo.go`: a UI component, a network fetch and goroutine/channel code. They are not part of this model.
