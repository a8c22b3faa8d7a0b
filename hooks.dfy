/** Hook records of the shutdown registry, the priority ordering that a shutdown
    pass sorts them by, the per-priority groups ("waves") it builds, and what a
    pass that runs those waves in order starts. */
module Hooks {

  /** Go's int64, the type of a hook priority. */
  type Int64 = x: int | -0x8000_0000_0000_0000 <= x < 0x8000_0000_0000_0000

  /** math.MaxInt32, the priority that `Add` gives a hook. */
  const DefaultPriority: Int64 := 0x7fff_ffff

  /** Stands for ulid.ULID: all that matters about an id is that it is unique. */
  type HookId = nat

  /** A registered hook. Its action is not represented: running it is recorded by
      the registry, and whether it fails is supplied from outside. */
  datatype Hook = Hook(id: HookId, priority: Int64, complete: bool)

  /** The record after runHook has marked it complete. */
  function Done(h: Hook): (r: Hook)
  {
    h.(complete := true)
  }

  // ---------------------------------------------------------------------------
  // The sort.Interface of Hooks (Len is |hs|)
  // ---------------------------------------------------------------------------

  /** Hooks.Less: a hook sorts before another when its priority is smaller. */
  predicate Less(hs: seq<Hook>, i: nat, j: nat)
    requires i < |hs| && j < |hs|
  {
    hs[i].priority < hs[j].priority
  }

  /** Less is the strict weak ordering that sort.Sort asks of its argument:
      irreflexive, transitive, and with transitive incomparability. */
  lemma LessIsStrictWeakOrder(hs: seq<Hook>, i: nat, j: nat, k: nat)
    requires i < |hs| && j < |hs| && k < |hs|
    ensures !Less(hs, i, i)
    ensures Less(hs, i, j) && Less(hs, j, k) ==> Less(hs, i, k)
    ensures !Less(hs, i, j) && !Less(hs, j, i) && !Less(hs, j, k) && !Less(hs, k, j) ==>
              !Less(hs, i, k) && !Less(hs, k, i)
  {
  }

  /** Hooks.Swap: exchanges two entries and keeps the same hooks. */
  function Swap(hs: seq<Hook>, i: nat, j: nat): (r: seq<Hook>)
    requires i < |hs| && j < |hs|
    ensures |r| == |hs| && r[i] == hs[j] && r[j] == hs[i]
    ensures forall k :: 0 <= k < |hs| && k != i && k != j ==> r[k] == hs[k]
    ensures multiset(r) == multiset(hs)
    ensures DistinctIds(hs) ==> DistinctIds(r)
  {
    hs[i := hs[j]][j := hs[i]]
  }

  /** Ascending by priority, as sort.Sort leaves the registry. */
  ghost predicate SortedByPriority(hs: seq<Hook>)
  {
    forall a, b :: 0 <= a < b < |hs| ==> hs[a].priority <= hs[b].priority
  }

  /** No two entries share an id. */
  ghost predicate DistinctIds(hs: seq<Hook>)
  {
    forall a, b :: 0 <= a < |hs| && 0 <= b < |hs| && a != b ==> hs[a].id != hs[b].id
  }

  /** No two entries share a priority. */
  ghost predicate DistinctPriorities(hs: seq<Hook>)
  {
    forall a, b :: 0 <= a < |hs| && 0 <= b < |hs| && a != b ==> hs[a].priority != hs[b].priority
  }

  ghost predicate StrictlyAscending(ps: seq<Int64>)
  {
    forall a, b :: 0 <= a < b < |ps| ==> ps[a] < ps[b]
  }

  /** When no two hooks share a priority, the sorted order is unique: sort.Sort
      not being stable makes no difference, and the whole pass order is fixed. */
  lemma {:induction false} SortedPermutationUnique(a: seq<Hook>, b: seq<Hook>)
    requires SortedByPriority(a) && SortedByPriority(b)
    requires multiset(a) == multiset(b)
    requires DistinctPriorities(a)
    ensures a == b
    decreases |a|
  {
    if a != [] {
      SortedPermutationStep(a, b);
      var n := |a|;
      SortedPermutationUnique(a[..n - 1], b[..n - 1]);
      assert a == a[..n - 1] + [a[n - 1]];
      assert b == b[..n - 1] + [b[n - 1]];
    } else {
      assert |b| == |multiset(b)| == |multiset(a)| == 0;
    }
  }

  /** Dropping the last hook of both arrangements leaves a smaller instance of
      the same problem, and the dropped hooks agree. */
  lemma SortedPermutationStep(a: seq<Hook>, b: seq<Hook>)
    requires SortedByPriority(a) && SortedByPriority(b)
    requires multiset(a) == multiset(b)
    requires DistinctPriorities(a)
    requires a != []
    ensures |a| == |b| && a[|a| - 1] == b[|b| - 1]
    ensures SortedByPriority(a[..|a| - 1]) && SortedByPriority(b[..|b| - 1])
    ensures DistinctPriorities(a[..|a| - 1])
    ensures multiset(a[..|a| - 1]) == multiset(b[..|b| - 1])
  {
    assert |a| == |multiset(a)| == |multiset(b)| == |b|;
    SortedPermutationSameLast(a, b);
    DropLast(a);
    DropLast(b);
    PrefixKeepsOrder(a, |a| - 1);
    PrefixKeepsOrder(b, |b| - 1);
  }

  /** Two sorted arrangements of the same hooks with distinct priorities end in
      the same hook, the one with the largest priority. */
  lemma SortedPermutationSameLast(a: seq<Hook>, b: seq<Hook>)
    requires SortedByPriority(a) && SortedByPriority(b)
    requires multiset(a) == multiset(b) && DistinctPriorities(a)
    requires |a| == |b| > 0
    ensures a[|a| - 1] == b[|b| - 1]
  {
    var n := |a|;
    var x, y := a[n - 1], b[n - 1];
    assert y in multiset(a) by { assert y in multiset(b); }
    var k :| 0 <= k < n && a[k] == y;
    assert x in multiset(b) by { assert x in multiset(a); }
    var m :| 0 <= m < n && b[m] == x;
    assert y.priority <= x.priority;
    assert x.priority <= y.priority;
  }

  lemma PrefixKeepsOrder(s: seq<Hook>, n: nat)
    requires n <= |s|
    ensures SortedByPriority(s) ==> SortedByPriority(s[..n])
    ensures DistinctPriorities(s) ==> DistinctPriorities(s[..n])
  {
  }

  lemma DropLast(s: seq<Hook>)
    requires s != []
    ensures multiset(s[..|s| - 1]) == multiset(s) - multiset{s[|s| - 1]}
  {
    assert s == s[..|s| - 1] + [s[|s| - 1]];
  }

  // ---------------------------------------------------------------------------
  // The waves: the group of each priority, and the order a pass visits them in
  // ---------------------------------------------------------------------------

  /** The indices below n of the hooks with priority p, ascending: the group that
      the grouping loop has built for p after scanning the first n hooks. */
  function Wave(hs: seq<Hook>, p: Int64, n: nat): (r: seq<nat>)
    requires n <= |hs|
  {
    if n == 0 then [] else Wave(hs, p, n - 1) + (if hs[n - 1].priority == p then [n - 1] else [])
  }

  /** The group of p holds exactly the indices below n of the hooks with
      priority p, each once, in ascending order. */
  lemma WaveMembers(hs: seq<Hook>, p: Int64, n: nat)
    requires n <= |hs|
    ensures forall x :: x in Wave(hs, p, n) ==> x < n && hs[x].priority == p
    ensures forall i: nat :: i < n && hs[i].priority == p ==> i in Wave(hs, p, n)
    ensures forall a, b :: 0 <= a < b < |Wave(hs, p, n)| ==> Wave(hs, p, n)[a] < Wave(hs, p, n)[b]
  {
    WaveSound(hs, p, n);
    WaveComplete(hs, p, n);
    WaveAscending(hs, p, n);
  }

  lemma {:induction false} WaveSound(hs: seq<Hook>, p: Int64, n: nat)
    requires n <= |hs|
    ensures forall x :: x in Wave(hs, p, n) ==> x < n && hs[x].priority == p
    decreases n
  {
    if n > 0 {
      WaveSound(hs, p, n - 1);
    }
  }

  lemma {:induction false} WaveComplete(hs: seq<Hook>, p: Int64, n: nat)
    requires n <= |hs|
    ensures forall i: nat :: i < n && hs[i].priority == p ==> i in Wave(hs, p, n)
    decreases n
  {
    if n > 0 {
      WaveComplete(hs, p, n - 1);
    }
  }

  lemma {:induction false} WaveAscending(hs: seq<Hook>, p: Int64, n: nat)
    requires n <= |hs|
    ensures forall a, b :: 0 <= a < b < |Wave(hs, p, n)| ==> Wave(hs, p, n)[a] < Wave(hs, p, n)[b]
    decreases n
  {
    if n > 0 {
      WaveAscending(hs, p, n - 1);
      WaveSound(hs, p, n - 1);
      var w := Wave(hs, p, n - 1);
      if hs[n - 1].priority == p {
        var w2 := w + [n - 1];
        forall a, b | 0 <= a < b < |w2|
          ensures w2[a] < w2[b]
        {
          if b == |w| {
            assert w[a] in w;
          }
        }
      } else {
        assert Wave(hs, p, n) == w;
      }
    }
  }

  /** The indices a pass visits when it runs, for each priority of ps in turn,
      the group of that priority among the first n hooks. */
  function Visit(hs: seq<Hook>, ps: seq<Int64>, n: nat): (r: seq<nat>)
    requires n <= |hs|
  {
    if ps == [] then [] else Visit(hs, ps[..|ps| - 1], n) + Wave(hs, ps[|ps| - 1], n)
  }

  /** 0, 1, ..., n - 1. */
  function Range(n: nat): (r: seq<nat>)
    ensures |r| == n
  {
    if n == 0 then [] else Range(n - 1) + [n - 1]
  }

  lemma {:induction false} VisitNothing(hs: seq<Hook>, ps: seq<Int64>)
    ensures Visit(hs, ps, 0) == []
    decreases |ps|
  {
    if ps != [] {
      VisitNothing(hs, ps[..|ps| - 1]);
    }
  }

  /** A hook whose priority is not among ps is not visited. */
  lemma {:induction false} VisitSkips(hs: seq<Hook>, ps: seq<Int64>, n: nat)
    requires 0 < n <= |hs| && hs[n - 1].priority !in ps
    ensures Visit(hs, ps, n) == Visit(hs, ps, n - 1)
    decreases |ps|
  {
    if ps != [] {
      VisitSkips(hs, ps[..|ps| - 1], n);
    }
  }

  /** When the last listed priority is that of hook n - 1 and no other listed
      priority is, visiting the first n hooks visits the first n - 1 and then n - 1. */
  lemma VisitLastStep(hs: seq<Hook>, ps: seq<Int64>, n: nat)
    requires 0 < n <= |hs| && ps != [] && StrictlyAscending(ps)
    requires ps[|ps| - 1] == hs[n - 1].priority
    ensures Visit(hs, ps, n) == Visit(hs, ps[..|ps| - 1], n - 1) + Wave(hs, ps[|ps| - 1], n - 1) + [n - 1]
  {
    var init := ps[..|ps| - 1];
    assert hs[n - 1].priority !in init;
    VisitSkips(hs, init, n);
  }

  /** The priorities of the first n hooks. */
  function PrioritySet(hs: seq<Hook>, n: nat): (r: set<Int64>)
    requires n <= |hs|
  {
    if n == 0 then {} else PrioritySet(hs, n - 1) + {hs[n - 1].priority}
  }

  /** A priority belongs to the set exactly when one of the first n hooks has it. */
  lemma {:induction false} PrioritySetMembers(hs: seq<Hook>, n: nat)
    requires n <= |hs|
    ensures forall i :: 0 <= i < n ==> hs[i].priority in PrioritySet(hs, n)
    ensures forall p :: p in PrioritySet(hs, n) ==> exists i :: 0 <= i < n && hs[i].priority == p
    decreases n
  {
    if n > 0 {
      PrioritySetMembers(hs, n - 1);
      assert hs[n - 1].priority == hs[n - 1].priority;
    }
  }

  /** ps lists the priorities of the first n hooks, and nothing else. */
  ghost predicate ListsPriorities(hs: seq<Hook>, ps: seq<Int64>, n: nat)
    requires n <= |hs|
  {
    PrioritySet(hs, n) == Elements(ps)
  }

  ghost function Elements(ps: seq<Int64>): set<Int64>
  {
    set p | p in ps
  }

  lemma ElementsOfNonEmpty(ps: seq<Int64>)
    ensures ps != [] ==> ps[0] in Elements(ps)
  {
  }

  /** A priority that no hook below n has has an empty group. */
  lemma {:induction false} WaveEmpty(hs: seq<Hook>, p: Int64, n: nat)
    requires n <= |hs| && p !in PrioritySet(hs, n)
    ensures Wave(hs, p, n) == []
    decreases n
  {
    if n > 0 {
      WaveEmpty(hs, p, n - 1);
    }
  }

  /** On a registry sorted by priority, running the groups of the distinct
      priorities in ascending order visits every hook exactly once, in index
      order: the waves partition the sorted registry into consecutive runs. */
  lemma {:induction false} VisitCoversAll(hs: seq<Hook>, ps: seq<Int64>, n: nat)
    requires n <= |hs| && SortedByPriority(hs) && StrictlyAscending(ps)
    requires ListsPriorities(hs, ps, n)
    ensures Visit(hs, ps, n) == Range(n)
    decreases n
  {
    if n == 0 {
      VisitNothing(hs, ps);
    } else {
      LastListedIsLast(hs, ps, n);
      var q := ps[|ps| - 1];
      var init := ps[..|ps| - 1];
      VisitLastStep(hs, ps, n);
      if q in PrioritySet(hs, n - 1) {
        assert PrioritySet(hs, n) == PrioritySet(hs, n - 1);
        VisitCoversAll(hs, ps, n - 1);
        CoverOldPriority(hs, ps, n);
      } else {
        DropLastPriority(ps);
        assert PrioritySet(hs, n - 1) == PrioritySet(hs, n) - {q};
        VisitCoversAll(hs, init, n - 1);
        CoverNewPriority(hs, ps, n);
      }
    }
  }

  /** Step of VisitCoversAll when hook n - 1 shares the priority of an earlier hook. */
  lemma CoverOldPriority(hs: seq<Hook>, ps: seq<Int64>, n: nat)
    requires 0 < n <= |hs| && ps != [] && StrictlyAscending(ps)
    requires ps[|ps| - 1] == hs[n - 1].priority
    requires Visit(hs, ps, n - 1) == Range(n - 1)
    ensures Visit(hs, ps, n) == Range(n)
  {
    VisitLastStep(hs, ps, n);
    assert Visit(hs, ps, n) == Visit(hs, ps, n - 1) + [n - 1];
  }

  /** Step of VisitCoversAll when hook n - 1 is the first of its priority. */
  lemma CoverNewPriority(hs: seq<Hook>, ps: seq<Int64>, n: nat)
    requires 0 < n <= |hs| && ps != [] && StrictlyAscending(ps)
    requires ps[|ps| - 1] == hs[n - 1].priority
    requires hs[n - 1].priority !in PrioritySet(hs, n - 1)
    requires Visit(hs, ps[..|ps| - 1], n - 1) == Range(n - 1)
    ensures Visit(hs, ps, n) == Range(n)
  {
    var q := hs[n - 1].priority;
    VisitLastStep(hs, ps, n);
    WaveEmpty(hs, q, n - 1);
    assert Wave(hs, q, n - 1) == [];
    assert Visit(hs, ps, n) == Range(n - 1) + [] + [n - 1];
    assert Range(n - 1) + [] == Range(n - 1);
  }

  /** The largest listed priority is that of the last of the first n sorted hooks. */
  lemma LastListedIsLast(hs: seq<Hook>, ps: seq<Int64>, n: nat)
    requires 0 < n <= |hs| && SortedByPriority(hs) && StrictlyAscending(ps)
    requires ListsPriorities(hs, ps, n)
    ensures ps != [] && ps[|ps| - 1] == hs[n - 1].priority
  {
    var h := hs[n - 1];
    assert h.priority in PrioritySet(hs, n);
    assert h.priority in ps;
    var j :| 0 <= j < |ps| && ps[j] == h.priority;
    var q := ps[|ps| - 1];
    assert h.priority <= q;
    assert q in PrioritySet(hs, n);
    PrioritySetMembers(hs, n);
    var i0 :| 0 <= i0 < n && hs[i0].priority == q;
    assert q <= h.priority;
  }

  /** Without its last element, a strictly ascending list lists the others. */
  lemma DropLastPriority(ps: seq<Int64>)
    requires ps != [] && StrictlyAscending(ps)
    ensures Elements(ps[..|ps| - 1]) == Elements(ps) - {ps[|ps| - 1]}
  {
    var init := ps[..|ps| - 1];
    assert ps == init + [ps[|ps| - 1]];
    assert ps[|ps| - 1] !in init;
  }

  /** Visiting the priorities ps and then p visits the indices of ps, then the
      group of p. */
  lemma VisitAppend(hs: seq<Hook>, ps: seq<Int64>, p: Int64, n: nat)
    requires n <= |hs|
    ensures Visit(hs, ps + [p], n) == Visit(hs, ps, n) + Wave(hs, p, n)
  {
    assert (ps + [p])[..|ps|] == ps;
  }

  /** A hook whose priority is not among ps is never visited. */
  lemma {:induction false} NotVisited(hs: seq<Hook>, ps: seq<Int64>, n: nat, i: nat)
    requires n <= |hs| && i < |hs| && hs[i].priority !in ps
    ensures i !in Visit(hs, ps, n)
    decreases |ps|
  {
    if ps != [] {
      var init := ps[..|ps| - 1];
      NotVisited(hs, init, n, i);
      WaveMembers(hs, ps[|ps| - 1], n);
    }
  }

  ghost predicate Indices(idx: seq<nat>, n: nat)
  {
    forall k :: 0 <= k < |idx| ==> idx[k] < n
  }

  /** The registry after runHook has marked the entries idx complete, one by one
      (an index past the end marks nothing; a pass never has one). */
  function Mark(hs: seq<Hook>, idx: seq<nat>): (r: seq<Hook>)
    ensures |r| == |hs|
  {
    if idx == [] then hs
    else
      var i := idx[|idx| - 1];
      var m := Mark(hs, idx[..|idx| - 1]);
      if i < |m| then m[i := Done(m[i])] else m
  }

  lemma MarkStep(hs: seq<Hook>, idx: seq<nat>, i: nat)
    requires i < |hs|
    ensures Mark(hs, idx + [i]) == Mark(hs, idx)[i := Done(Mark(hs, idx)[i])]
  {
    assert (idx + [i])[..|idx|] == idx;
  }

  /** An entry that has not been marked is as it was. */
  lemma {:induction false} MarkUnvisited(hs: seq<Hook>, idx: seq<nat>, i: nat)
    requires i < |hs| && i !in idx
    ensures Mark(hs, idx)[i] == hs[i]
    decreases |idx|
  {
    if idx != [] {
      var init := idx[..|idx| - 1];
      assert i != idx[|idx| - 1];
      assert i !in init;
      MarkUnvisited(hs, init, i);
    }
  }

  /** Marking 0, 1, ..., n - 1 marks exactly the first n entries. */
  lemma {:induction false} MarkRange(hs: seq<Hook>, n: nat)
    requires n <= |hs|
    ensures forall k :: 0 <= k < |hs| ==> Mark(hs, Range(n))[k] == if k < n then Done(hs[k]) else hs[k]
    decreases n
  {
    if n > 0 {
      MarkRange(hs, n - 1);
      MarkStep(hs, Range(n - 1), n - 1);
    }
  }

  // ---------------------------------------------------------------------------
  // What a pass starts
  // ---------------------------------------------------------------------------

  /** The hooks that runHook starts when it is applied to the entries idx in that
      order: those not already complete (an index past the end starts nothing). */
  function Started(hs: seq<Hook>, idx: seq<nat>): (r: seq<Hook>)
  {
    if idx == [] then []
    else
      var i := idx[|idx| - 1];
      Started(hs, idx[..|idx| - 1]) + (if i < |hs| && !hs[i].complete then [hs[i]] else [])
  }

  /** The hooks of hs that are not complete, in order. */
  function Pending(hs: seq<Hook>): (r: seq<Hook>)
    ensures |r| <= |hs|
  {
    if hs == [] then []
    else
      var h := hs[|hs| - 1];
      Pending(hs[..|hs| - 1]) + (if h.complete then [] else [h])
  }

  /** The pending hooks are exactly the hooks not yet complete. */
  lemma {:induction false} PendingMembers(hs: seq<Hook>)
    ensures forall h :: h in Pending(hs) <==> h in hs && !h.complete
    decreases |hs|
  {
    if hs != [] {
      PendingMembers(hs[..|hs| - 1]);
      assert hs == hs[..|hs| - 1] + [hs[|hs| - 1]];
    }
  }

  /** On a registry where no hook is complete yet, a pass starts every hook. */
  lemma {:induction false} NoneCompletePendsAll(hs: seq<Hook>)
    requires forall k :: 0 <= k < |hs| ==> !hs[k].complete
    ensures Pending(hs) == hs
    decreases |hs|
  {
    if hs != [] {
      NoneCompletePendsAll(hs[..|hs| - 1]);
      assert hs == hs[..|hs| - 1] + [hs[|hs| - 1]];
    }
  }

  /** A pass over a registry where no hook is complete starts every hook, in
      registry order. */
  lemma FreshPassStartsAll(hs: seq<Hook>, failing: set<HookId>)
    requires forall k :: 0 <= k < |hs| ==> !hs[k].complete
    ensures Runs(Events(Pending(hs), failing)) == Ids(hs)
  {
    NoneCompletePendsAll(hs);
    EventsRuns(hs, failing);
  }

  /** The ids of hs, in order. */
  function Ids(hs: seq<Hook>): (r: seq<HookId>)
    ensures |r| == |hs|
  {
    if hs == [] then [] else Ids(hs[..|hs| - 1]) + [hs[|hs| - 1].id]
  }

  /** The ids of hs are ids when they agree entry by entry. */
  lemma IdsOf(hs: seq<Hook>, ids: seq<HookId>)
    requires |ids| == |hs| && forall k :: 0 <= k < |hs| ==> hs[k].id == ids[k]
    ensures Ids(hs) == ids
  {
    IdsAt(hs);
  }

  /** Entry k of the ids is the id of hook k. */
  lemma {:induction false} IdsAt(hs: seq<Hook>)
    ensures forall k :: 0 <= k < |hs| ==> Ids(hs)[k] == hs[k].id
    decreases |hs|
  {
    if hs != [] {
      IdsAt(hs[..|hs| - 1]);
    }
  }

  /** What a pass leaves in the log: runHook starting a hook's action, and the
      error logger reporting that the action failed. The id in an error event is
      a tag of the model's own: the logged line carries only the message and the
      error, not the hook. */
  datatype Event = Ran(id: HookId) | ErrorLogged(id: HookId)

  /** The events of running the started hooks hs in order when exactly the
      actions of the hooks whose id is in failing return an error: each start
      is followed by its error report, if any, before the next hook starts. */
  function Events(hs: seq<Hook>, failing: set<HookId>): (r: seq<Event>)
  {
    if hs == [] then []
    else Events(hs[..|hs| - 1], failing) + RunEvents(hs[|hs| - 1], failing)
  }

  function RunEvents(h: Hook, failing: set<HookId>): (r: seq<Event>)
  {
    [Ran(h.id)] + (if h.id in failing then [ErrorLogged(h.id)] else [])
  }

  /** The ids whose action started, in order. */
  function Runs(log: seq<Event>): (r: seq<HookId>)
  {
    if log == [] then []
    else Runs(log[..|log| - 1]) + (if log[|log| - 1].Ran? then [log[|log| - 1].id] else [])
  }

  /** The ids whose error was logged, in order. */
  function Errors(log: seq<Event>): (r: seq<HookId>)
  {
    if log == [] then []
    else Errors(log[..|log| - 1]) + (if log[|log| - 1].ErrorLogged? then [log[|log| - 1].id] else [])
  }

  lemma AppendAssoc<T>(a: seq<T>, b: seq<T>, c: seq<T>)
    ensures a + (b + c) == (a + b) + c
  {
  }

  /** The events of two runs one after the other are the events of each in turn. */
  lemma {:induction false} EventsAppend(a: seq<Hook>, b: seq<Hook>, failing: set<HookId>)
    ensures Events(a + b, failing) == Events(a, failing) + Events(b, failing)
    decreases |b|
  {
    if b == [] {
      assert a + b == a;
    } else {
      var init, h := b[..|b| - 1], b[|b| - 1];
      EventsAppend(a, init, failing);
      assert (a + b)[..|a + b| - 1] == a + init;
      AppendAssoc(Events(a, failing), Events(init, failing), RunEvents(h, failing));
    }
  }

  lemma {:induction false} RunsAppend(a: seq<Event>, b: seq<Event>)
    ensures Runs(a + b) == Runs(a) + Runs(b)
    decreases |b|
  {
    if b == [] {
      assert a + b == a;
    } else {
      var init, x := b[..|b| - 1], b[|b| - 1];
      RunsAppend(a, init);
      assert (a + b)[..|a + b| - 1] == a + init;
      AppendAssoc(Runs(a), Runs(init), if x.Ran? then [x.id] else []);
    }
  }

  lemma {:induction false} ErrorsAppend(a: seq<Event>, b: seq<Event>)
    ensures Errors(a + b) == Errors(a) + Errors(b)
    decreases |b|
  {
    if b == [] {
      assert a + b == a;
    } else {
      var init, x := b[..|b| - 1], b[|b| - 1];
      ErrorsAppend(a, init);
      assert (a + b)[..|a + b| - 1] == a + init;
      AppendAssoc(Errors(a), Errors(init), if x.ErrorLogged? then [x.id] else []);
    }
  }

  /** The started actions in the log of a run are exactly those of the hooks
      run, in order: a failing action does not stop the run. */
  lemma {:induction false} EventsRuns(hs: seq<Hook>, failing: set<HookId>)
    ensures Runs(Events(hs, failing)) == Ids(hs)
    decreases |hs|
  {
    if hs != [] {
      var init, h := hs[..|hs| - 1], hs[|hs| - 1];
      EventsRuns(init, failing);
      RunsAppend(Events(init, failing), RunEvents(h, failing));
      RunsAppend([Ran(h.id)], if h.id in failing then [ErrorLogged(h.id)] else []);
      assert Runs([Ran(h.id)]) == [h.id] by {
        assert [Ran(h.id)][..0] == [];
      }
      if h.id in failing {
        assert Runs([ErrorLogged(h.id)]) == [] by {
          assert [ErrorLogged(h.id)][..0] == [];
        }
      }
    }
  }

  /** The errors in the log of a run are exactly those of the hooks run whose
      action fails, in order. */
  lemma {:induction false} EventsErrors(hs: seq<Hook>, failing: set<HookId>)
    ensures forall x :: x in Errors(Events(hs, failing)) <==> x in failing && x in Ids(hs)
    decreases |hs|
  {
    if hs != [] {
      var init, h := hs[..|hs| - 1], hs[|hs| - 1];
      EventsErrors(init, failing);
      ErrorsAppend(Events(init, failing), RunEvents(h, failing));
      ErrorsAppend([Ran(h.id)], if h.id in failing then [ErrorLogged(h.id)] else []);
      assert Errors([Ran(h.id)]) == [] by {
        assert [Ran(h.id)][..0] == [];
      }
      if h.id in failing {
        assert Errors([ErrorLogged(h.id)]) == [h.id] by {
          assert [ErrorLogged(h.id)][..0] == [];
        }
      }
      assert Ids(hs) == Ids(init) + [h.id];
    }
  }

  /** Running one more entry i starts it exactly when it is not yet complete. */
  lemma StartedStep(hs: seq<Hook>, idx: seq<nat>, i: nat)
    requires i < |hs|
    ensures Started(hs, idx + [i]) == Started(hs, idx) + (if hs[i].complete then [] else [hs[i]])
  {
    assert (idx + [i])[..|idx|] == idx;
  }

  /** One step of a wave: running entry i, not run before, finds it as it was,
      marks it, and starts it, with its events, exactly when it was not complete. */
  lemma RunOne(hs: seq<Hook>, done: seq<nat>, i: nat, failing: set<HookId>)
    requires i < |hs| && i !in done
    ensures Mark(hs, done)[i] == hs[i]
    ensures Mark(hs, done + [i]) == Mark(hs, done)[i := Done(hs[i])]
    ensures Events(Started(hs, done + [i]), failing) ==
              Events(Started(hs, done), failing) + (if hs[i].complete then [] else RunEvents(hs[i], failing))
  {
    MarkUnvisited(hs, done, i);
    MarkStep(hs, done, i);
    var m := Mark(hs, done);
    assert m[i := Done(m[i])] == m[i := Done(hs[i])];
    StartedStep(hs, done, i);
    if !hs[i].complete {
      var s := Started(hs, done);
      assert (s + [hs[i]])[..|s|] == s;
      assert Events(s + [hs[i]], failing) == Events(s, failing) + RunEvents(hs[i], failing);
    } else {
      assert Started(hs, done + [i]) == Started(hs, done);
    }
  }

  /** Marking the entries w after the entries v is marking v + w. */
  lemma {:induction false} MarkAfter(hs: seq<Hook>, v: seq<nat>, w: seq<nat>)
    requires Indices(w, |hs|)
    ensures Mark(Mark(hs, v), w) == Mark(hs, v + w)
    decreases |w|
  {
    if w == [] {
      assert v + w == v;
    } else {
      var init, i := w[..|w| - 1], w[|w| - 1];
      assert w == init + [i];
      assert v + w == (v + init) + [i];
      MarkAfter(hs, v, init);
      MarkStep(Mark(hs, v), init, i);
      MarkStep(hs, v + init, i);
    }
  }

  /** Running the entries w after the entries v, on the registry that running v
      left, starts what running v + w does, when no entry of w is among v. */
  lemma {:induction false} RunAfter(hs: seq<Hook>, v: seq<nat>, w: seq<nat>)
    requires Indices(w, |hs|)
    requires forall k :: 0 <= k < |w| ==> w[k] !in v
    ensures Started(hs, v) + Started(Mark(hs, v), w) == Started(hs, v + w)
    decreases |w|
  {
    if w == [] {
      assert v + w == v;
    } else {
      var init, i := w[..|w| - 1], w[|w| - 1];
      assert w == init + [i];
      assert v + w == (v + init) + [i];
      var m := Mark(hs, v);
      RunAfter(hs, v, init);
      MarkUnvisited(hs, v, i);
      StartedStep(hs, v + init, i);
      StartedStep(m, init, i);
      AppendAssoc(Started(hs, v), Started(m, init), if hs[i].complete then [] else [hs[i]]);
    }
  }

  /** Visiting every index in order starts exactly the pending hooks, in order. */
  lemma {:induction false} StartedInOrder(hs: seq<Hook>, n: nat)
    requires n <= |hs|
    ensures Started(hs, Range(n)) == Pending(hs[..n])
    decreases n
  {
    if n > 0 {
      StartedInOrder(hs, n - 1);
      StartedRangeStep(hs, n);
      PendingPrefixStep(hs, n);
    }
  }

  lemma StartedRangeStep(hs: seq<Hook>, n: nat)
    requires 0 < n <= |hs|
    ensures Started(hs, Range(n)) == Started(hs, Range(n - 1)) + (if hs[n - 1].complete then [] else [hs[n - 1]])
  {
    assert Range(n)[..n - 1] == Range(n - 1);
  }

  lemma PendingPrefixStep(hs: seq<Hook>, n: nat)
    requires 0 < n <= |hs|
    ensures Pending(hs[..n]) == Pending(hs[..n - 1]) + (if hs[n - 1].complete then [] else [hs[n - 1]])
  {
    assert hs[..n][..n - 1] == hs[..n - 1];
  }

  /** The hooks started in a pass over a sorted registry are in priority order. */
  lemma {:induction false} PendingSorted(hs: seq<Hook>)
    requires SortedByPriority(hs)
    ensures SortedByPriority(Pending(hs))
    decreases |hs|
  {
    if hs != [] {
      var n := |hs|;
      var init, h := hs[..n - 1], hs[n - 1];
      PendingSorted(init);
      PendingMembers(init);
      var pi := Pending(init);
      forall x | x in pi
        ensures x.priority <= h.priority
      {
        var k :| 0 <= k < n - 1 && init[k] == x;
      }
      if !h.complete {
        assert Pending(hs) == pi + [h];
        forall a, b | 0 <= a < b < |pi| + 1
          ensures (pi + [h])[a].priority <= (pi + [h])[b].priority
        {
          if b == |pi| {
            assert (pi + [h])[a] in pi;
          }
        }
      }
    }
  }

  /** Ids stay distinct among the hooks a pass starts, so no id is started twice. */
  lemma {:induction false} PendingDistinct(hs: seq<Hook>)
    requires DistinctIds(hs)
    ensures DistinctIds(Pending(hs))
    decreases |hs|
  {
    if hs != [] {
      var n := |hs|;
      var init, h := hs[..n - 1], hs[n - 1];
      PendingDistinct(init);
      PendingMembers(init);
      var pi := Pending(init);
      forall x | x in pi
        ensures x.id != h.id
      {
        var k :| 0 <= k < n - 1 && init[k] == x;
        assert hs[k] == x;
      }
      if !h.complete {
        assert Pending(hs) == pi + [h];
        forall a, b | 0 <= a < |pi| + 1 && 0 <= b < |pi| + 1 && a != b
          ensures (pi + [h])[a].id != (pi + [h])[b].id
        {
          if b == |pi| {
            assert (pi + [h])[a] in pi;
          } else if a == |pi| {
            assert (pi + [h])[b] in pi;
          }
        }
      }
    }
  }

  /** A pass starts every hook that is not yet complete exactly once, and starts
      none that is already complete or not registered. */
  lemma StartsEachPendingHookOnce(hs: seq<Hook>)
    requires DistinctIds(hs)
    ensures forall i :: 0 <= i < |hs| ==> (hs[i].id in Ids(Pending(hs)) <==> !hs[i].complete)
    ensures forall x :: x in Ids(Pending(hs)) ==> exists i :: 0 <= i < |hs| && hs[i].id == x
    ensures forall a, b :: 0 <= a < b < |Pending(hs)| ==> Ids(Pending(hs))[a] != Ids(Pending(hs))[b]
  {
    var p := Pending(hs);
    var t := Ids(p);
    PendingDistinct(hs);
    forall i | 0 <= i < |hs|
      ensures hs[i].id in t <==> !hs[i].complete
    {
      StartsPendingHook(hs, i);
    }
    PendingMembers(hs);
    IdsAt(p);
    forall x | x in t
      ensures exists i :: 0 <= i < |hs| && hs[i].id == x
    {
      var k :| 0 <= k < |t| && t[k] == x;
      assert p[k] in hs;
      var m :| 0 <= m < |hs| && hs[m] == p[k];
    }
  }

  /** A pass over any arrangement of a registry that holds no hook with a given
      id starts nothing with that id: a removed hook never runs. */
  lemma RemovedNeverRuns(hs: seq<Hook>, sorted: seq<Hook>, id: HookId, failing: set<HookId>)
    requires forall k :: 0 <= k < |hs| ==> hs[k].id != id
    requires multiset(sorted) == multiset(hs)
    ensures id !in Runs(Events(Pending(sorted), failing))
  {
    var p := Pending(sorted);
    EventsRuns(p, failing);
    PendingMembers(sorted);
    IdsAt(p);
    forall k | 0 <= k < |p|
      ensures p[k].id != id
    {
      assert p[k] in multiset(sorted);
    }
  }

  /** One registered hook's id is among those a pass starts exactly when the
      hook is not yet complete. */
  lemma StartsPendingHook(hs: seq<Hook>, i: nat)
    requires DistinctIds(hs) && i < |hs|
    ensures hs[i].id in Ids(Pending(hs)) <==> !hs[i].complete
  {
    var p := Pending(hs);
    var t := Ids(p);
    PendingMembers(hs);
    IdsAt(p);
    if !hs[i].complete {
      assert hs[i] in p;
      var k :| 0 <= k < |p| && p[k] == hs[i];
      assert t[k] == hs[i].id;
    }
    if hs[i].id in t {
      var k :| 0 <= k < |t| && t[k] == hs[i].id;
      assert p[k] in hs;
      var m :| 0 <= m < |hs| && hs[m] == p[k];
      assert m == i;
    }
  }

  /** In a pass over a sorted registry, of two pending hooks the one with the
      smaller priority is started first, whatever order they were added in. */
  lemma StartsInPriorityOrder(hs: seq<Hook>, i: nat, j: nat)
    requires SortedByPriority(hs) && DistinctIds(hs)
    requires i < |hs| && j < |hs| && !hs[i].complete && !hs[j].complete
    requires hs[i].priority < hs[j].priority
    ensures hs[i].id in Ids(Pending(hs)) && hs[j].id in Ids(Pending(hs))
    ensures forall a, b ::
              (0 <= a < |Pending(hs)| && 0 <= b < |Pending(hs)| &&
               Ids(Pending(hs))[a] == hs[i].id && Ids(Pending(hs))[b] == hs[j].id) ==> a < b
  {
    var p := Pending(hs);
    var t := Ids(p);
    StartsPendingHook(hs, i);
    StartsPendingHook(hs, j);
    PendingSorted(hs);
    forall a, b | 0 <= a < |p| && 0 <= b < |p| && t[a] == hs[i].id && t[b] == hs[j].id
      ensures a < b
    {
      PendingEntry(hs, a, i);
      PendingEntry(hs, b, j);
    }
  }

  /** With distinct ids, the started entry carrying a hook's id is that hook. */
  lemma PendingEntry(hs: seq<Hook>, a: nat, i: nat)
    requires DistinctIds(hs) && a < |Pending(hs)| && i < |hs|
    requires Ids(Pending(hs))[a] == hs[i].id
    ensures Pending(hs)[a] == hs[i]
  {
    var p := Pending(hs);
    PendingMembers(hs);
    IdsAt(p);
    assert p[a] in hs;
    var m :| 0 <= m < |hs| && hs[m] == p[a];
    assert m == i;
  }

  /** A pass over a registry whose hooks are all complete starts nothing, so a
      second pass after a first one is a no-op. */
  lemma AllCompleteStartsNothing(hs: seq<Hook>)
    requires forall k :: 0 <= k < |hs| ==> hs[k].complete
    ensures Pending(hs) == []
  {
    PendingMembers(hs);
  }
}
