/** The package's own test programs, replayed on the model: each builds a fresh
    registry, registers hooks, runs a pass, and checks which actions started and
    in what order. */
module ShutdownScenarios {
  import opened Hooks
  import opened Shutdown

  /** Four hooks with distinct priorities start in ascending priority, whatever
      the order they were added in. */
  method PriorityScenario() {
    var r := new Registry();
    var a := r.Add();
    var b := r.AddP(1);
    var c := r.AddP(2);
    var d := r.AddP(0);
    ghost var hs := r.hooks;
    assert hs == [Hook(a, DefaultPriority, false), Hook(b, 1, false), Hook(c, 2, false), Hook(d, 0, false)];
    ghost var l := r.log;
    ghost var sorted := r.Shutdown({});
    PriorityOrder(a, b, c, d, hs, sorted);
    FreshPass(sorted, {}, l, r.log);
    assert Runs(r.log) == [d, b, c, a];
  }

  /** Any arrangement of the priority test program's hooks with ascending
      priorities starts them as d, b, c, a. */
  lemma PriorityOrder(a: HookId, b: HookId, c: HookId, d: HookId, hs: seq<Hook>, sorted: seq<Hook>)
    requires hs == [Hook(a, DefaultPriority, false), Hook(b, 1, false), Hook(c, 2, false), Hook(d, 0, false)]
    requires SortedByPriority(sorted) && multiset(sorted) == multiset(hs)
    ensures forall h :: h in sorted ==> !h.complete
    ensures Ids(sorted) == [d, b, c, a]
  {
    PriorityArrangement(a, b, c, d, hs, sorted);
    IdsOf(sorted, [d, b, c, a]);
  }

  /** The only arrangement of the priority test program's hooks with ascending
      priorities. */
  lemma PriorityArrangement(a: HookId, b: HookId, c: HookId, d: HookId, hs: seq<Hook>, sorted: seq<Hook>)
    requires hs == [Hook(a, DefaultPriority, false), Hook(b, 1, false), Hook(c, 2, false), Hook(d, 0, false)]
    requires SortedByPriority(sorted) && multiset(sorted) == multiset(hs)
    ensures sorted == [Hook(d, 0, false), Hook(b, 1, false), Hook(c, 2, false), Hook(a, DefaultPriority, false)]
  {
    var e := [Hook(d, 0, false), Hook(b, 1, false), Hook(c, 2, false), Hook(a, DefaultPriority, false)];
    Ascending4(e);
    assert multiset(e) == multiset(hs);
    SortedPermutationUnique(e, sorted);
  }

  /** Four hooks with strictly ascending priorities are sorted and share no priority. */
  lemma Ascending4(e: seq<Hook>)
    requires |e| == 4 && e[0].priority < e[1].priority < e[2].priority < e[3].priority
    ensures SortedByPriority(e) && DistinctPriorities(e)
  {
  }

  /** The first pass on a fresh log starts every hook in the order sorting left
      them, and logs the errors of exactly those that fail. */
  lemma FreshPass(sorted: seq<Hook>, failing: set<HookId>, l: seq<Event>, log: seq<Event>)
    requires forall h :: h in sorted ==> !h.complete
    requires l == [] && log == l + Events(Pending(sorted), failing)
    ensures Runs(log) == Ids(sorted)
    ensures forall x :: x in Errors(log) <==> x in failing && x in Ids(sorted)
  {
    forall k | 0 <= k < |sorted|
      ensures !sorted[k].complete
    {
      assert sorted[k] in sorted;
    }
    FreshPassStartsAll(sorted, failing);
    NoneCompletePendsAll(sorted);
    EventsErrors(sorted, failing);
    assert log == Events(Pending(sorted), failing);
  }

  /** Two hooks with the default priority both start, each once. The order
      between them is whichever order sorting left them in. */
  method OrderScenario() {
    var r := new Registry();
    var a := r.Add();
    var b := r.Add();
    ghost var hs := r.hooks;
    ghost var l := r.log;
    ghost var sorted := r.Shutdown({});
    TwoArrangements(hs[0], hs[1], sorted);
    FreshPass(sorted, {}, l, r.log);
    assert Runs(r.log) == [a, b] || Runs(r.log) == [b, a];
  }

  /** The only arrangements of two different fresh hooks, and the ids they start. */
  lemma TwoArrangements(x: Hook, y: Hook, s: seq<Hook>)
    requires x.id != y.id && !x.complete && !y.complete
    requires multiset(s) == multiset([x, y])
    ensures forall h :: h in s ==> !h.complete
    ensures Ids(s) == [x.id, y.id] || Ids(s) == [y.id, x.id]
  {
    assert |s| == |multiset(s)| == 2;
    assert s[0] in multiset(s) && s[1] in multiset(s);
    assert multiset(s)[s[0]] == 1;
    IdsOf(s, [s[0].id, s[1].id]);
  }

  /** A hook removed before the pass does not start; the one added after it does. */
  method RemoveScenario() {
    var r := new Registry();
    var a := r.Add();
    ghost var before := r.hooks;
    r.Remove(a);
    assert before[0].id == a && r.hooks == before[..0] + before[1..];
    var b := r.Add();
    ghost var hs := r.hooks;
    assert hs == [Hook(b, DefaultPriority, false)];
    ghost var l := r.log;
    ghost var sorted := r.Shutdown({});
    SingleArrangement(hs[0], sorted);
    FreshPass(sorted, {}, l, r.log);
    assert Runs(r.log) == [b] && a !in Runs(r.log);
  }

  /** The only arrangement of a single fresh hook, and the id it starts. */
  lemma SingleArrangement(h: Hook, s: seq<Hook>)
    requires !h.complete && multiset(s) == multiset([h])
    ensures s == [h] && Ids(s) == [h.id]
  {
    assert |s| == |multiset(s)| == 1;
    assert s[0] in multiset(s);
    IdsOf(s, [h.id]);
  }

  /** A failing action is logged and does not stop the hooks after it; a second
      pass starts nothing and logs nothing. */
  method FailureScenario() {
    var r := new Registry();
    var a := r.AddP(1);
    var b := r.AddP(2);
    ghost var hs := r.hooks;
    ghost var l := r.log;
    ghost var sorted := r.Shutdown({a});
    TwoArrangements(hs[0], hs[1], sorted);
    AscendingTwo(hs[0], hs[1], sorted);
    FreshPass(sorted, {a}, l, r.log);
    assert Runs(r.log) == [a, b];
    assert a in Errors(r.log) && b !in Errors(r.log);
    ghost var l2 := r.log;
    ghost var done := r.hooks;
    ghost var again := r.Shutdown({a, b});
    SecondPass(sorted, done, again, {a, b}, l2, r.log);
    assert r.log == l2;
  }

  /** Of the two arrangements of two hooks with different priorities, sorting
      leaves the ascending one. */
  lemma AscendingTwo(x: Hook, y: Hook, s: seq<Hook>)
    requires x.priority < y.priority && multiset(s) == multiset([x, y]) && SortedByPriority(s)
    ensures Ids(s) == [x.id, y.id]
  {
    assert |s| == |multiset(s)| == 2;
    assert s[0] in multiset(s) && s[1] in multiset(s);
    assert s[0] == x;
    IdsOf(s, [x.id, y.id]);
  }

  /** After a pass every hook is complete, so the next pass, whatever order its
      sort leaves them in, adds nothing to the log. */
  lemma SecondPass(sorted: seq<Hook>, done: seq<Hook>, again: seq<Hook>, failing: set<HookId>,
                   l: seq<Event>, log: seq<Event>)
    requires |done| == |sorted| && forall k :: 0 <= k < |sorted| ==> done[k] == Done(sorted[k])
    requires multiset(again) == multiset(done)
    requires log == l + Events(Pending(again), failing)
    ensures log == l
  {
    forall k | 0 <= k < |again|
      ensures again[k].complete
    {
      assert again[k] in multiset(done);
    }
    AllCompleteStartsNothing(again);
    assert log == l + [];
  }
}
