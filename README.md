# Shutdown-hook registry

This project models the shutdown-hook registry of the `shutdown` package of
cobra-starter, and proves properties of the model.

The registry is a process-wide list of hooks. Each hook has:
- a unique id;
- an action;
- a `complete` flag;
- an `int64` priority.

`Add` and `AddP` append a hook and return its fresh id. `Remove` deletes the hook with an id.

`Shutdown` does three things, in the blocking mode:
1. It sorts the list by priority.
2. It groups the hooks into one wave per distinct priority.
3. It runs the waves in ascending priority, one hook after another.

`runHook` starts a hook's action unless the hook is complete. It logs the error if the action fails, and marks the hook complete whenever the action returns, with an error or without. So a later pass skips every hook an earlier pass ran.

Files:
- `hooks.dfy` (module `Hooks`): the value side of the model.
  - The `Hook` record and the `Less`/`Swap` methods of the sort interface.
  - Specification functions:
    - `Wave`: the group of one priority;
    - `Visit`: the entries that running a list of waves visits;
    - `Mark`: the registry after runHook has run on some entries;
    - `Started`: the hooks whose action those runHook calls start;
    - `Pending`: the hooks a pass over a registry starts;
    - `Events`, `Runs`, `Errors`: the log of a pass and its projections.
  - Lemmas about these functions.
- `shutdown.dfy` (module `Shutdown`): the imperative side.
  - The class `Registry`. Its `hooks` field is the Go slice, and `nextId` is the fresh-id source.
  - The ghost field `log` records every action started (`Ran`) and every error logged (`ErrorLogged`).
  - The methods `Add`, `AddP`, `Remove`, `SortHooks`, `RunHook`, `RunWave` and `Shutdown`.
  - The grouping loop `Group` and the insertion round `InsertLast`.
  - The loop invariants of these methods, and the step lemmas for them.
- `scenarios.dfy` (module `ShutdownScenarios`): the test programs of `shutdown/shutdown_test.go` as client methods, with the lemmas that discharge what they check.

How the model stands for the Go code:
- A Go `*hook` pointer is the index of its entry in the registry. A wave is a sequence of indices into the sorted registry. When runHook runs on a wave entry, it updates that entry of the registry, as the shared pointer does in Go.
- The whole effect of a pass is stated in `Shutdown`'s contract:
  - the registry is some sorted arrangement of the old hooks, each marked complete;
  - the log grows by the events of `Pending` of that arrangement.

## Model

| member | source | states |
|---|---|---|
| Hooks.Swap | shutdown/shutdown.go:37-39 | exchanges exactly entries i and j, keeps every other entry, keeps the multiset of hooks and keeps ids distinct |
| Shutdown.Registry.constructor | shutdown/shutdown.go:25 | the registry starts empty, with an empty log and the id invariant |
| Shutdown.Registry.Add | shutdown/shutdown.go:50-52 | appends one incomplete hook with priority math.MaxInt32 and returns a fresh id that no registered hook has. The older entries and the log are unchanged |
| Shutdown.Registry.AddP | shutdown/shutdown.go:54-67 | appends exactly one incomplete hook with the given priority and returns a fresh id that no registered hook has. The older entries and the log are unchanged |
| Shutdown.Registry.Remove | shutdown/shutdown.go:69-79 | when a hook has the id, deletes the first one and keeps the others in order; otherwise the registry is unchanged; afterwards no hook has that id |
| Hooks.RemovedNeverRuns | shutdown/shutdown.go:69-79 | a pass over any arrangement of a registry without a given id starts nothing with that id |
| Shutdown.InsertLast | shutdown/shutdown.go:113 | one round of the insertion sort that stands for sort.Sort, built from the Less and Swap of lines 33-39: given a sorted prefix of length i, the first i + 1 hooks come out sorted, as a permutation with the same tail and distinct ids kept |
| Shutdown.Registry.SortHooks | shutdown/shutdown.go:113 | sort.Sort: the hooks become sorted by priority, as a permutation of the old ones. The ids stay valid and the log is unchanged |
| Hooks.SortedPermutationUnique | shutdown/shutdown.go:113 | when no two hooks share a priority, there is only one sorted permutation, so whatever sort.Sort does, the order is determined |
| Shutdown.Group | shutdown/shutdown.go:115-125 | the map's keys are exactly the listed priorities, which are the hooks' priorities, each listed once, and ascend on sorted hooks. Each key maps to its wave, the ascending indices of the hooks with that priority |
| Shutdown.GroupOne | shutdown/shutdown.go:118-125 | one step of the grouping loop keeps the grouping invariant and lists a priority exactly when it is met for the first time |
| Hooks.WaveMembers | shutdown/shutdown.go:118-125 | a wave holds exactly the indices of the hooks with its priority, in ascending order, so every hook is in the wave of its own priority and in no other |
| Hooks.VisitCoversAll | shutdown/shutdown.go:127-147 | on sorted hooks, visiting the waves of the ascending priority list visits every entry exactly once, in registry order |
| Shutdown.WaveStep | shutdown/shutdown.go:127-146 | running the next wave after the earlier ones marks and starts what visiting the priorities up to it does; the wave is in range, ascending, and disjoint from what ran before |
| Shutdown.Registry.RunHook | shutdown/shutdown.go:150-161 | an incomplete hook is started, its error is logged when it fails, and it is marked complete. Only its entry changes; a complete hook is left as is and logs nothing |
| Shutdown.Registry.RunWave | shutdown/shutdown.go:143-145 | runHook on each entry of a wave in turn marks those entries and logs the events of the hooks among them that were incomplete |
| Shutdown.Registry.Shutdown | shutdown/shutdown.go:105-147 | a blocking pass: the registry becomes a sorted permutation of the old hooks, all marked complete. The log grows by the events of the hooks that were pending, in sorted order. Ids stay valid |
| Hooks.StartedInOrder | shutdown/shutdown.go:127-147 | running runHook on every entry in registry order starts exactly the pending hooks in registry order |
| Hooks.PendingSorted | shutdown/shutdown.go:113-147 | the hooks a pass over a sorted registry starts are started in ascending priority |
| Hooks.PendingDistinct | shutdown/shutdown.go:150-161 | the hooks a pass starts have distinct ids |
| Hooks.StartsEachPendingHookOnce | shutdown/shutdown.go:150-161 | a pass starts a registered hook exactly when it is not complete, starts no id that is not registered, and starts no id twice |
| Hooks.StartsInPriorityOrder | shutdown/shutdown.go:113-147 | of two pending hooks, the one with the smaller priority is started before the other, whatever the registration order |
| Hooks.AllCompleteStartsNothing | shutdown/shutdown.go:150-153 | a pass over a registry whose hooks are all complete starts nothing |
| Hooks.NoneCompletePendsAll | shutdown/shutdown.go:150-153 | a pass over a registry with no complete hook starts every hook |
| Hooks.FreshPassStartsAll | shutdown/shutdown.go:150-161 | the first pass over fresh hooks starts every hook, in registry order, whatever fails |
| Hooks.EventsRuns | shutdown/shutdown.go:155-158 | which actions a pass starts, and in what order, does not depend on which of them fail: an error never aborts the pass |
| Hooks.EventsErrors | shutdown/shutdown.go:155-158 | an error is logged for a hook id exactly when that hook was started and its action failed |
| Hooks.MarkRange | shutdown/shutdown.go:160 | after runHook on every entry, each entry is its old hook marked complete and nothing else about it changes |
| ShutdownScenarios.PriorityOrder | shutdown/shutdown_test.go:69-113 | the hooks of the priority test, with priorities MaxInt32, 1, 2 and 0 in that order of registration, have one ascending arrangement: it starts them as the 0, 1, 2 and MaxInt32 hooks |
| ShutdownScenarios.TwoArrangements | shutdown/shutdown_test.go:11-37 | two different hooks of the same priority have two arrangements, and each starts both hooks once |
| ShutdownScenarios.SingleArrangement | shutdown/shutdown_test.go:39-67 | after the remove test's Add, Remove and Add, the single remaining hook is the one the pass starts |
| ShutdownScenarios.AscendingTwo | shutdown/shutdown.go:113 | of two hooks with different priorities, the sorted arrangement puts the smaller one first |
| ShutdownScenarios.FreshPass | shutdown/shutdown.go:150-161 | a first pass on a fresh log starts every hook in sorted order and logs an error for exactly the failing ones |
| ShutdownScenarios.SecondPass | shutdown/shutdown.go:150-153 | after a pass, a second pass adds nothing to the log, whatever its sort does and whatever fails |

## Left out

- `Watch` is left out: it is signal registration, a blocking channel receive and `os.Exit`.
- The `sigc <- os.Interrupt` send in `Shutdown` is left out: it is a channel side effect meant for the watcher.
- The mutex `mux` is left out. Every operation is treated as one atomic step.
- The non-blocking branch of `Shutdown` is left out: goroutines with a `sync.WaitGroup`.
- `WithNonBlockingPriorityHooks` and `WithoutNonBlockingPriorityHooks` are left out: only the blocking mode is modelled.
- `ulid.Make` is replaced by a counter. The ids it hands out are fresh and pairwise distinct, which is all the package relies on.
- The hook action `fn` is opaque. Running it appends a `Ran` event to the ghost log.
- Whether an action fails is given from outside, by the `failing` set of ids that `Shutdown` takes.
- The logger call is represented by an `ErrorLogged` event. The message text and the error value are not represented. The hook id that the event carries is a tag the model adds: the Go log line names only the message and the error.
- `Hooks.Len` has no member of its own: it is `|hooks|` on the sequence.
- Shutdown.Registry.SortHooks: `sort.Sort` is modelled by an insertion sort built from Less and Swap. The contract promises only what `sort.Sort` promises: a permutation, sorted by priority, and no order among equal priorities. So the test programs' expectation that two default-priority hooks start in registration order is stated only as "both start, once each", in ShutdownScenarios.TwoArrangements.
- Hooks.Mark and Hooks.Started ignore indices beyond the registry. Every wave index is below the registry length (proved in Shutdown.WaveStep), so they are never reached.
- The test programs share one process-wide registry, so hooks from an earlier test are already complete when a later test runs its pass. Each scenario here starts from a fresh registry instead. The effect of a second pass over complete hooks is covered by ShutdownScenarios.SecondPass.
- cmd/, logging/ and main.go are left out: they are command-line, configuration and logging glue.
- Passes that never finish are left out. The model assumes three things:
  - every hook action returns, with or without an error, rather than panicking;
  - no action calls back into `Add`, `Remove` or `Shutdown`;
  - the `sigc` send at the start of `Shutdown` does not block.
- Without those assumptions a Go pass can stop part-way or hang:
  - A panicking action stops the pass at `h.fn()`. That hook stays incomplete, the later hooks never start, and the panic escapes `Shutdown`. The error branch panics the same way when it runs before `logging.Init`, because `logging.Logger()` is still nil.
  - An action that calls back into the package blocks forever on `mux`, which `Shutdown` holds and which is not reentrant.
  - With `sendSignal` set, the send into the one-slot `sigc` channel blocks on a repeated `Shutdown` when no watcher receives.
- Hooks.EventsRuns, Shutdown.Registry.Shutdown and ShutdownScenarios.SecondPass hold only under those assumptions. In particular "an error never aborts the pass" covers an action that returns an error, not one that panics.
- Hooks.LessIsStrictWeakOrder states the strict weak order that sort.Sort asks of Less. Nothing else uses it, so it has no row.
