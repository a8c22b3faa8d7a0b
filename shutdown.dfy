/** The shutdown-hook registry and its shutdown pass, in the blocking mode: hooks
    are added and removed by id, and a pass sorts them by priority, groups them
    into one wave per distinct priority, and runs the waves in ascending order,
    marking every hook it runs complete so that no later pass runs it again. */
module Shutdown {
  import opened Hooks

  /** The grouping loop of a pass: the distinct priorities of hs in order of first
      appearance, and for each of them its wave, the positions in hs of the hooks
      with that priority. Positions stand for the Go code's shared *hook pointers:
      running a wave entry updates that entry of the registry. */
  method Group(hs: seq<Hook>) returns (priorities: seq<Int64>, waves: map<Int64, seq<nat>>)
    ensures forall p :: p in waves <==> p in priorities
    ensures ListsPriorities(hs, priorities, |hs|)
    ensures forall a, b :: 0 <= a < b < |priorities| ==> priorities[a] != priorities[b]
    ensures SortedByPriority(hs) ==> StrictlyAscending(priorities)
    ensures forall p :: p in waves ==> waves[p] == Wave(hs, p, |hs|)
  {
    priorities := [];
    waves := map[];
    var k: nat := 0;
    while k < |hs|
      invariant 0 <= k <= |hs| && Grouped(hs, priorities, waves, k)
    {
      priorities, waves := GroupOne(hs, priorities, waves, k);
      k := k + 1;
    }
    GroupedMeans(hs, priorities, waves);
  }

  /** The body of the grouping loop for hook k: lists its priority when it is
      met for the first time and appends k to the group of that priority. */
  method GroupOne(hs: seq<Hook>, ps: seq<Int64>, ws: map<Int64, seq<nat>>, k: nat)
    returns (ps': seq<Int64>, ws': map<Int64, seq<nat>>)
    requires k < |hs| && Grouped(hs, ps, ws, k)
    ensures Grouped(hs, ps', ws', k + 1)
    ensures ps' == if hs[k].priority in ws then ps else ps + [hs[k].priority]
  {
    var p := hs[k].priority;
    ps', ws' := ps, ws;
    if p !in ws' {
      FirstOfPriority(hs, ps', ws', k);
      ps' := ps' + [p];
      ws' := ws'[p := []];
    } else {
      RepeatOfPriority(hs, ps', ws', k);
    }
    AppendToWave(hs, ps', ws', k);
    ws' := ws'[p := ws'[p] + [k]];
  }

  /** When every hook has been scanned, the list holds each priority of the hooks
      exactly once and the map gives each of them its whole group. */
  lemma GroupedMeans(hs: seq<Hook>, ps: seq<Int64>, ws: map<Int64, seq<nat>>)
    requires Grouped(hs, ps, ws, |hs|)
    ensures forall p :: p in ws <==> p in ps
    ensures ListsPriorities(hs, ps, |hs|)
    ensures forall a, b :: 0 <= a < b < |ps| ==> ps[a] != ps[b]
    ensures SortedByPriority(hs) ==> StrictlyAscending(ps)
    ensures forall p :: p in ws ==> ws[p] == Wave(hs, p, |hs|)
  {
  }

  /** What the grouping loop has built after scanning the first k hooks: the
      distinct priorities among them in order of first appearance (ascending when
      the hooks are sorted, the last one being that of hook k - 1), and for each
      of them its group so far. */
  ghost predicate Grouped(hs: seq<Hook>, ps: seq<Int64>, ws: map<Int64, seq<nat>>, k: nat)
    requires k <= |hs|
  {
    && ws.Keys == Elements(ps)
    && PrioritySet(hs, k) == Elements(ps)
    && (forall a, b :: 0 <= a < b < |ps| ==> ps[a] != ps[b])
    && (forall p :: p in ws ==> ws[p] == Wave(hs, p, k))
    && (SortedByPriority(hs) ==> StrictlyAscending(ps))
    && (SortedByPriority(hs) && k > 0 ==> ps != [] && ps[|ps| - 1] == hs[k - 1].priority)
  }

  /** The state in the middle of the step for hook k: its priority is listed and
      has a group, which does not hold k yet. */
  ghost predicate ReadyFor(hs: seq<Hook>, ps: seq<Int64>, ws: map<Int64, seq<nat>>, k: nat)
    requires k < |hs|
  {
    && ws.Keys == Elements(ps)
    && PrioritySet(hs, k + 1) == Elements(ps)
    && (forall a, b :: 0 <= a < b < |ps| ==> ps[a] != ps[b])
    && (forall p :: p in ws ==> ws[p] == Wave(hs, p, k))
    && (SortedByPriority(hs) ==> StrictlyAscending(ps))
    && (SortedByPriority(hs) ==> ps != [] && ps[|ps| - 1] == hs[k].priority)
  }

  /** A priority met for the first time is appended to the list, with an empty
      group; on sorted hooks it is larger than every one listed before. */
  lemma FirstOfPriority(hs: seq<Hook>, ps: seq<Int64>, ws: map<Int64, seq<nat>>, k: nat)
    requires k < |hs| && Grouped(hs, ps, ws, k) && hs[k].priority !in ws
    ensures ReadyFor(hs, ps + [hs[k].priority], ws[hs[k].priority := []], k)
  {
    var p := hs[k].priority;
    var ps' := ps + [p];
    assert forall x :: x in ps' <==> x in ps || x == p;
    assert Elements(ps') == Elements(ps) + {p};
    WaveEmpty(hs, p, k);
    forall a, b | 0 <= a < b < |ps'|
      ensures ps'[a] != ps'[b]
    {
      if b == |ps| {
        assert ps'[a] in ps;
      }
    }
    if SortedByPriority(hs) {
      ElementsOfNonEmpty(ps);
      if k > 0 {
        assert hs[k - 1].priority <= p;
        forall a | 0 <= a < |ps|
          ensures ps'[a] < p
        {
          assert ps[a] != p;
          if a < |ps| - 1 {
            assert ps[a] < ps[|ps| - 1];
          }
        }
      }
    }
  }

  /** A priority met again already has its group; on sorted hooks it is the
      last one listed. */
  lemma RepeatOfPriority(hs: seq<Hook>, ps: seq<Int64>, ws: map<Int64, seq<nat>>, k: nat)
    requires k < |hs| && Grouped(hs, ps, ws, k) && hs[k].priority in ws
    ensures ReadyFor(hs, ps, ws, k)
  {
    var p := hs[k].priority;
    assert PrioritySet(hs, k + 1) == PrioritySet(hs, k) + {p};
    assert p in Elements(ps);
    ElementsOfNonEmpty(ps);
    if SortedByPriority(hs) && k > 0 {
      var j :| 0 <= j < |ps| && ps[j] == p;
      assert hs[k - 1].priority <= p;
    }
  }

  /** Appending hook k to the group of its priority completes the step. */
  lemma AppendToWave(hs: seq<Hook>, ps: seq<Int64>, ws: map<Int64, seq<nat>>, k: nat)
    requires k < |hs| && ReadyFor(hs, ps, ws, k)
    ensures hs[k].priority in ws
    ensures Grouped(hs, ps, ws[hs[k].priority := ws[hs[k].priority] + [k]], k + 1)
  {
    var p := hs[k].priority;
    assert p in Elements(ps);
    var ws' := ws[p := ws[p] + [k]];
    forall q | q in ws'
      ensures ws'[q] == Wave(hs, q, k + 1)
    {
      if q != p {
        assert Wave(hs, q, k + 1) == Wave(hs, q, k) + [];
      }
    }
  }

  /** Marking hooks complete changes no id. */
  lemma DoneKeepsIds(hs: seq<Hook>, done: seq<Hook>, bound: nat)
    requires |done| == |hs| && forall k :: 0 <= k < |hs| ==> done[k] == Done(hs[k])
    requires DistinctIds(hs) && forall k :: 0 <= k < |hs| ==> hs[k].id < bound
    ensures DistinctIds(done) && forall k :: 0 <= k < |done| ==> done[k].id < bound
  {
  }

  /** The priorities before w, then priority w, are the priorities up to w, and
      the distinct priorities before w do not contain priority w. */
  lemma PrefixStep(ps: seq<Int64>, w: nat)
    requires w < |ps|
    requires forall a, b :: 0 <= a < b < |ps| ==> ps[a] != ps[b]
    ensures ps[..w + 1] == ps[..w] + [ps[w]]
    ensures ps[w] !in ps[..w]
  {
  }

  /** What running wave w of a pass adds, once the waves before it have run:
      the wave is ascending, in range and disjoint from what ran before, so
      running it marks and starts what visiting the priorities up to w does. */
  lemma WaveStep(hs: seq<Hook>, ps: seq<Int64>, ws: map<Int64, seq<nat>>, w: nat,
                 visited: seq<nat>, l: seq<Event>, failing: set<HookId>)
    requires w < |ps| && forall p :: p in ws <==> p in ps
    requires forall a, b :: 0 <= a < b < |ps| ==> ps[a] != ps[b]
    requires forall p :: p in ws ==> ws[p] == Wave(hs, p, |hs|)
    requires visited == Visit(hs, ps[..w], |hs|)
    ensures ps[w] in ws && Indices(ws[ps[w]], |hs|)
    ensures forall a, b :: 0 <= a < b < |ws[ps[w]]| ==> ws[ps[w]][a] < ws[ps[w]][b]
    ensures visited + ws[ps[w]] == Visit(hs, ps[..w + 1], |hs|)
    ensures Mark(Mark(hs, visited), ws[ps[w]]) == Mark(hs, visited + ws[ps[w]])
    ensures l + Events(Started(hs, visited), failing) + Events(Started(Mark(hs, visited), ws[ps[w]]), failing)
            == l + Events(Started(hs, visited + ws[ps[w]]), failing)
  {
    var n, p := |hs|, ps[w];
    var wave := ws[p];
    PrefixStep(ps, w);
    VisitAppend(hs, ps[..w], p, n);
    WaveMembers(hs, p, n);
    forall k | 0 <= k < |wave|
      ensures wave[k] < n && wave[k] !in visited
    {
      assert wave[k] in wave;
      NotVisited(hs, ps[..w], n, wave[k]);
    }
    var m := Mark(hs, visited);
    RunAfter(hs, visited, wave);
    EventsAppend(Started(hs, visited), Started(m, wave), failing);
    AppendAssoc(l, Events(Started(hs, visited), failing), Events(Started(m, wave), failing));
    MarkAfter(hs, visited, wave);
  }

  /** One round of the insertion sort: moves hooks[i] down, swapping it with
      its left neighbour while Less says it belongs before it, so that the first
      i + 1 hooks are sorted when the first i were. */
  method InsertLast(hs: seq<Hook>, i: nat) returns (r: seq<Hook>)
    requires i < |hs|
    requires forall a, b :: 0 <= a < b < i ==> hs[a].priority <= hs[b].priority
    ensures |r| == |hs| && r[i + 1..] == hs[i + 1..]
    ensures forall a, b :: 0 <= a < b <= i ==> r[a].priority <= r[b].priority
    ensures multiset(r) == multiset(hs)
    ensures DistinctIds(hs) ==> DistinctIds(r)
  {
    r := hs;
    var j: nat := i;
    while j > 0 && Less(r, j, j - 1)
      invariant j <= i && Inserting(hs, r, i, j)
    {
      SwapDown(hs, r, i, j);
      r := Swap(r, j, j - 1);
      j := j - 1;
    }
    Inserted(hs, r, i, j);
  }

  /** The state of an insertion round: hooks[i] has moved down to j, the hooks
      before and after it are in order, and no hook has been lost. */
  ghost predicate Inserting(hs: seq<Hook>, r: seq<Hook>, i: nat, j: nat)
  {
    && j <= i < |r| == |hs| && r[i + 1..] == hs[i + 1..]
    && (forall a, b :: 0 <= a < b <= i && a != j && b != j ==> r[a].priority <= r[b].priority)
    && (forall b :: j < b <= i ==> r[j].priority < r[b].priority)
    && multiset(r) == multiset(hs)
    && (DistinctIds(hs) ==> DistinctIds(r))
  }

  /** Swapping the moving hook with a larger left neighbour keeps the round's state. */
  lemma SwapDown(hs: seq<Hook>, r: seq<Hook>, i: nat, j: nat)
    requires Inserting(hs, r, i, j) && 0 < j && Less(r, j, j - 1)
    ensures Inserting(hs, Swap(r, j, j - 1), i, j - 1)
  {
    var r' := Swap(r, j, j - 1);
    assert r'[i + 1..] == r[i + 1..];
  }

  /** When the moving hook stops, the first i + 1 hooks are in order. */
  lemma Inserted(hs: seq<Hook>, r: seq<Hook>, i: nat, j: nat)
    requires Inserting(hs, r, i, j) && (j == 0 || !Less(r, j, j - 1))
    ensures forall a, b :: 0 <= a < b <= i ==> r[a].priority <= r[b].priority
  {
    forall a | 0 <= a < j
      ensures r[a].priority <= r[j].priority
    {
      if a < j - 1 {
        assert r[a].priority <= r[j - 1].priority;
      }
    }
  }

  /** The process-wide hook list, as an object. */
  class Registry {
    /** The registered hooks, in the order the last pass or registration left them. */
    var hooks: seq<Hook>
    /** Source of fresh ids, standing for ulid.Make. */
    var nextId: nat
    /** What the passes so far did: the actions started and the errors logged. */
    ghost var log: seq<Event>

    /** Ids are unique and none of them is fresh any more. */
    ghost predicate Valid()
      reads this
    {
      && DistinctIds(hooks)
      && forall k :: 0 <= k < |hooks| ==> hooks[k].id < nextId
    }

    constructor ()
      ensures Valid() && hooks == [] && log == []
    {
      hooks := [];
      nextId := 0;
      log := [];
    }

    /** Registers a hook with the default priority, so that it runs after every
        hook with a smaller priority. */
    method Add() returns (id: HookId)
      requires Valid()
      modifies this
      ensures Valid()
      ensures hooks == old(hooks) + [Hook(id, DefaultPriority, false)]
      ensures forall k :: 0 <= k < |old(hooks)| ==> old(hooks)[k].id != id
      ensures old(nextId) <= id < nextId
      ensures log == old(log)
    {
      id := AddP(DefaultPriority);
    }

    /** Registers a hook with the given priority and returns its new id. */
    method AddP(priority: Int64) returns (id: HookId)
      requires Valid()
      modifies this
      ensures Valid()
      ensures hooks == old(hooks) + [Hook(id, priority, false)]
      ensures forall k :: 0 <= k < |old(hooks)| ==> old(hooks)[k].id != id
      ensures old(nextId) <= id < nextId
      ensures log == old(log)
    {
      id := nextId;
      nextId := nextId + 1;
      hooks := hooks + [Hook(id, priority, false)];
    }

    /** Removes the hook with that id, keeping the others in order; does nothing
        when there is none. */
    method Remove(id: HookId)
      requires Valid()
      modifies this
      ensures Valid()
      ensures (forall k :: 0 <= k < |old(hooks)| ==> old(hooks)[k].id != id) ==> hooks == old(hooks)
      ensures forall i :: 0 <= i < |old(hooks)| && old(hooks)[i].id == id ==>
                hooks == old(hooks)[..i] + old(hooks)[i + 1..]
      ensures forall k :: 0 <= k < |hooks| ==> hooks[k].id != id
      ensures nextId == old(nextId) && log == old(log)
    {
      var i := 0;
      while i < |hooks|
        invariant 0 <= i <= |hooks|
        invariant forall k :: 0 <= k < i ==> hooks[k].id != id
        invariant hooks == old(hooks) && nextId == old(nextId)
        invariant log == old(log)
      {
        if hooks[i].id == id {
          hooks := hooks[..i] + hooks[i + 1..];
          return;
        }
        i := i + 1;
      }
    }

    /** sort.Sort(hooks): rearranges the hooks into ascending priority using the
        Less and Swap of Hooks, by insertion. The order among equal priorities is
        not promised. */
    method SortHooks()
      requires Valid()
      modifies this
      ensures Valid()
      ensures SortedByPriority(hooks)
      ensures multiset(hooks) == multiset(old(hooks))
      ensures nextId == old(nextId) && log == old(log)
    {
      var hs := hooks;
      var i := 0;
      while i < |hs|
        invariant 0 <= i <= |hs|
        invariant forall a, b :: 0 <= a < b < i ==> hs[a].priority <= hs[b].priority
        invariant multiset(hs) == multiset(hooks)
        invariant DistinctIds(hs)
        invariant hooks == old(hooks) && nextId == old(nextId) && log == old(log)
      {
        hs := InsertLast(hs, i);
        i := i + 1;
      }
      forall k | 0 <= k < |hs|
        ensures hs[k].id < nextId
      {
        assert hs[k] in multiset(hooks);
      }
      hooks := hs;
    }

    /** runHook: starts the action of entry i unless it is already complete, logs
        its error when it fails, and marks it complete whether it failed or not. */
    method RunHook(i: nat, fails: bool)
      requires i < |hooks|
      modifies this
      ensures hooks == old(hooks)[i := Done(old(hooks)[i])]
      ensures log == old(log) + (if old(hooks)[i].complete then [] else
                                   [Ran(old(hooks)[i].id)] + (if fails then [ErrorLogged(old(hooks)[i].id)] else []))
      ensures nextId == old(nextId)
    {
      if hooks[i].complete {
        assert hooks[i := Done(hooks[i])] == hooks;
        return;
      }
      log := log + [Ran(hooks[i].id)];
      if fails {
        log := log + [ErrorLogged(hooks[i].id)];
      }
      hooks := hooks[i := hooks[i].(complete := true)];
    }

    /** The inner loop of a pass: runHook on the entries of one wave, in order. */
    method RunWave(wave: seq<nat>, failing: set<HookId>)
      requires Indices(wave, |hooks|)
      requires forall a, b :: 0 <= a < b < |wave| ==> wave[a] < wave[b]
      modifies this
      ensures hooks == Mark(old(hooks), wave)
      ensures log == old(log) + Events(Started(old(hooks), wave), failing)
      ensures nextId == old(nextId)
    {
      ghost var hs, l := hooks, log;
      ghost var done: seq<nat> := [];
      var k := 0;
      while k < |wave|
        invariant 0 <= k <= |wave| && done == wave[..k]
        invariant hooks == Mark(hs, done)
        invariant log == l + Events(Started(hs, done), failing)
        invariant nextId == old(nextId)
      {
        var i := wave[k];
        assert i !in done;
        RunOne(hs, done, i, failing);
        AppendAssoc(l, Events(Started(hs, done), failing), if hs[i].complete then [] else RunEvents(hs[i], failing));
        RunHook(i, hooks[i].id in failing);
        done := done + [i];
        k := k + 1;
      }
      assert done == wave;
    }

    /** One shutdown pass in the blocking mode. The actions of the hooks whose id
        is in failing return an error; that is logged and changes nothing else.
        sorted is the arrangement that sorting left the hooks in. */
    method Shutdown(failing: set<HookId>) returns (ghost sorted: seq<Hook>)
      requires Valid()
      modifies this
      ensures Valid()
      ensures SortedByPriority(sorted) && multiset(sorted) == multiset(old(hooks))
      ensures |hooks| == |sorted| && forall k :: 0 <= k < |sorted| ==> hooks[k] == Done(sorted[k])
      ensures log == old(log) + Events(Pending(sorted), failing)
      ensures nextId == old(nextId)
    {
      SortHooks();
      sorted := hooks;
      ghost var n := |sorted|;
      ghost var l := log;
      var priorities, waves := Group(hooks);
      var w := 0;
      ghost var visited: seq<nat> := [];
      VisitNothing(sorted, []);
      while w < |priorities|
        invariant 0 <= w <= |priorities| && |hooks| == n
        invariant visited == Visit(sorted, priorities[..w], n)
        invariant hooks == Mark(sorted, visited)
        invariant log == l + Events(Started(sorted, visited), failing)
        invariant nextId == old(nextId)
      {
        var priority := priorities[w];
        var wave := waves[priority];
        WaveStep(sorted, priorities, waves, w, visited, l, failing);
        RunWave(wave, failing);
        visited := visited + wave;
        w := w + 1;
      }
      assert priorities[..|priorities|] == priorities;
      VisitCoversAll(sorted, priorities, n);
      MarkRange(sorted, n);
      StartedInOrder(sorted, n);
      assert sorted[..n] == sorted;
      DoneKeepsIds(sorted, hooks, nextId);
    }
  }
}
