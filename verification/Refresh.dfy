/** The protocol between background refreshes and shutdown.

    A stale request marks its key active, adds one to the wait group and starts a goroutine.  The
    goroutine works on the caches for a while, then unmarks its key, then takes one off the wait
    group.  Shutdown waits for the count to be zero before it tears the caches down.  Every action
    under a lock is one step here, taken in any order by any number of goroutines. */
module Refresh {
  import opened Sets

  datatype Phase = Working | Unmarked | Done

  datatype Refresher = Refresher(key: string, phase: Phase)

  datatype State = State(active: set<string>, count: int, refreshers: map<nat, Refresher>, waited: bool)

  datatype Step =
    | Trigger(key: string, id: nat)   // a request serves stale; `id` is new if it starts a refresh
    | UseCaches(id: nat)              // some access of the refresh to the caches
    | Unmark(id: nat)
    | Finish(id: nat)
    | WaitReturns                     // shutdown goes on to tear the caches down

  const INITIAL := State({}, 0, map[], false)

  predicate Enabled(s: State, step: Step) {
    match step
    case Trigger(key, id) => key in s.active || id !in s.refreshers
    case UseCaches(id) => id in s.refreshers && s.refreshers[id].phase == Working
    case Unmark(id) => id in s.refreshers && s.refreshers[id].phase == Working
    case Finish(id) => id in s.refreshers && s.refreshers[id].phase == Unmarked
    case WaitReturns => s.count == 0
  }

  function Apply(s: State, step: Step): State
    requires Enabled(s, step)
  {
    match step
    case Trigger(key, id) =>
      if key in s.active then s
      else
        s.(active := s.active + {key}, count := s.count + 1,
           refreshers := s.refreshers[id := Refresher(key, Working)])
    case UseCaches(_) => s
    case Unmark(id) =>
      s.(active := s.active - {s.refreshers[id].key},
         refreshers := s.refreshers[id := s.refreshers[id].(phase := Unmarked)])
    case Finish(id) =>
      s.(count := s.count - 1, refreshers := s.refreshers[id := s.refreshers[id].(phase := Done)])
    case WaitReturns => s.(waited := true)
  }

  ghost predicate IsRun(states: seq<State>, steps: seq<Step>) {
    && |states| == |steps| + 1
    && states[0] == INITIAL
    && forall i :: 0 <= i < |steps| ==> Enabled(states[i], steps[i]) && states[i + 1] == Apply(states[i], steps[i])
  }

  type Refreshers = map<nat, Refresher>

  ghost function Unfinished(rs: Refreshers): set<nat> {
    set id | id in rs && rs[id].phase != Done
  }

  predicate AtWork(rs: Refreshers, id: nat) {
    id in rs && rs[id].phase == Working
  }

  ghost predicate OnePerKey(rs: Refreshers) {
    forall a, b :: AtWork(rs, a) && AtWork(rs, b) && rs[a].key == rs[b].key ==> a == b
  }

  ghost predicate Inv(s: State) {
    && s.count == |Unfinished(s.refreshers)|
    // the active keys are those of the refreshes at work, one each
    && Marked(s)
    && Held(s)
    && OnePerKey(s.refreshers)
  }

  lemma OneLess(a: set<nat>, x: nat)
    requires x in a
    ensures |a - {x}| == |a| - 1
  {
  }

  lemma OneStarted(rs: Refreshers, id: nat, r: Refresher)
    requires id !in rs && r.phase != Done
    ensures |Unfinished(rs[id := r])| == |Unfinished(rs)| + 1
  {
    assert Unfinished(rs[id := r]) == Unfinished(rs) + {id};
  }

  lemma OneChanged(rs: Refreshers, id: nat, r: Refresher)
    requires id in rs && rs[id].phase != Done
    ensures |Unfinished(rs[id := r])| == if r.phase == Done then |Unfinished(rs)| - 1 else |Unfinished(rs)|
  {
    if r.phase == Done {
      assert Unfinished(rs[id := r]) == Unfinished(rs) - {id};
      OneLess(Unfinished(rs), id);
    } else {
      assert Unfinished(rs[id := r]) == Unfinished(rs);
    }
  }

  lemma CountKept(s: State, step: Step)
    requires Inv(s) && Enabled(s, step)
    ensures Apply(s, step).count == |Unfinished(Apply(s, step).refreshers)|
  {
    hide Unfinished, OnePerKey;
    match step
    case Trigger(key, id) =>
      if key !in s.active { OneStarted(s.refreshers, id, Refresher(key, Working)); }
    case UseCaches(_) =>
    case Unmark(id) => OneChanged(s.refreshers, id, s.refreshers[id].(phase := Unmarked));
    case Finish(id) => OneChanged(s.refreshers, id, s.refreshers[id].(phase := Done));
    case WaitReturns =>
  }

  /** Every refresh at work has its key marked. */
  ghost predicate Marked(s: State) {
    forall id :: AtWork(s.refreshers, id) ==> s.refreshers[id].key in s.active
  }

  /** Every mark belongs to a refresh at work. */
  ghost predicate Held(s: State) {
    forall key :: key in s.active ==> exists id :: AtWork(s.refreshers, id) && s.refreshers[id].key == key
  }

  lemma MarkedKept(s: State, step: Step)
    requires Marked(s) && OnePerKey(s.refreshers) && Enabled(s, step)
    ensures Marked(Apply(s, step)) && OnePerKey(Apply(s, step).refreshers)
  {
    var rs, t := s.refreshers, Apply(s, step);
    forall id | AtWork(t.refreshers, id)
      ensures t.refreshers[id].key in t.active
      ensures !AtWork(rs, id) ==> t.refreshers[id].key !in s.active
    {
      if AtWork(rs, id) { assert rs[id].key in s.active; }
      if step.Unmark? { assert AtWork(rs, step.id) && AtWork(rs, id); }
    }
  }

  lemma HeldKept(s: State, step: Step)
    requires Held(s) && Enabled(s, step)
    ensures Held(Apply(s, step))
  {
    var rs, t := s.refreshers, Apply(s, step);
    forall key | key in t.active
      ensures exists id :: AtWork(t.refreshers, id) && t.refreshers[id].key == key
    {
      if key in s.active {
        var id :| AtWork(rs, id) && rs[id].key == key;
        assert AtWork(t.refreshers, id);
      } else {
        assert AtWork(t.refreshers, step.id);
      }
    }
  }

  lemma StepKeepsInv(s: State, step: Step)
    requires Inv(s) && Enabled(s, step)
    ensures Inv(Apply(s, step))
  {
    CountKept(s, step);
    MarkedKept(s, step);
    HeldKept(s, step);
    hide Unfinished, OnePerKey, Marked, Held, Apply;
  }

  lemma {:induction false} RunKeepsInv(states: seq<State>, steps: seq<Step>, n: nat)
    requires IsRun(states, steps) && n < |states|
    ensures Inv(states[n])
  {
    if n == 0 {
      assert Unfinished(INITIAL.refreshers) == {};
    } else {
      RunKeepsInv(states, steps, n - 1);
      StepKeepsInv(states[n - 1], steps[n - 1]);
    }
  }

  lemma {:induction false} ActiveAtMostWorking(keys: set<string>, ids: set<nat>, refreshers: map<nat, Refresher>)
    requires forall key :: key in keys ==> exists id :: id in ids && id in refreshers && refreshers[id].key == key
    ensures |keys| <= |ids|
    decreases |keys|
  {
    if |keys| > 0 {
      ghost var _ := Element(keys);
      var key :| key in keys;
      var id :| id in ids && id in refreshers && refreshers[id].key == key;
      forall k | k in keys - {key}
        ensures exists i :: i in ids - {id} && i in refreshers && refreshers[i].key == k
      {
        var i :| i in ids && i in refreshers && refreshers[i].key == k;
        assert i in ids - {id};
      }
      ActiveAtMostWorking(keys - {key}, ids - {id}, refreshers);
    }
  }

  /** In every interleaving at most one refresh of a key is between its mark and its unmark, the
      count is the number of unfinished refreshes, and it is no less than the number of marks. */
  lemma OneRefreshPerKey(states: seq<State>, steps: seq<Step>, n: nat)
    requires IsRun(states, steps) && n < |states|
    ensures var s := states[n];
            forall a, b :: AtWork(s.refreshers, a) && AtWork(s.refreshers, b) ==>
              s.refreshers[a].key == s.refreshers[b].key ==> a == b
    ensures states[n].count == |Unfinished(states[n].refreshers)| && |states[n].active| <= states[n].count
  {
    RunKeepsInv(states, steps, n);
    var s := states[n];
    forall key | key in s.active
      ensures exists id :: id in Unfinished(s.refreshers) && id in s.refreshers && s.refreshers[id].key == key
    {
      var id :| AtWork(s.refreshers, id) && s.refreshers[id].key == key;
      assert id in Unfinished(s.refreshers);
    }
    ActiveAtMostWorking(s.active, Unfinished(s.refreshers), s.refreshers);
  }

  /** When the count is zero no refresh is left that could still use the caches. */
  lemma ZeroMeansQuiet(states: seq<State>, steps: seq<Step>, n: nat)
    requires IsRun(states, steps) && n < |states| && states[n].count == 0
    ensures forall id :: id in states[n].refreshers ==> states[n].refreshers[id].phase == Done
    ensures states[n].active == {}
  {
    OneRefreshPerKey(states, steps, n);
    assert Unfinished(states[n].refreshers) == {};
    assert forall id :: id in states[n].refreshers ==> id !in Unfinished(states[n].refreshers);
    assert |states[n].active| == 0;
  }

  /** A refresh that can use the caches some time after a quiet moment was started after it. */
  lemma {:induction false} OnlyTriggeredLater(states: seq<State>, steps: seq<Step>, w: nat, n: nat, id: nat)
    returns (i: nat)
    requires IsRun(states, steps) && w <= n < |states|
    requires forall x :: x in states[w].refreshers ==> states[w].refreshers[x].phase == Done
    requires Enabled(states[n], UseCaches(id))
    ensures w <= i < n && steps[i].Trigger? && steps[i].id == id && steps[i].key !in states[i].active
    decreases n
  {
    assert n > w;
    var s, step := states[n - 1], steps[n - 1];
    if Enabled(s, UseCaches(id)) {
      i := OnlyTriggeredLater(states, steps, w, n - 1, id);
    } else {
      i := n - 1;
    }
  }

  /** Some refresh can use the caches after step `w`. */
  ghost predicate CachesUsedAfter(states: seq<State>, w: nat) {
    exists n, id :: w < n < |states| && Enabled(states[n], UseCaches(id))
  }

  /** Some request starts a refresh after step `w`. */
  ghost predicate RefreshStartedAfter(states: seq<State>, steps: seq<Step>, w: nat) {
    exists i :: w < i < |steps| && i < |states| && steps[i].Trigger? && steps[i].key !in states[i].active
  }

  /** Once shutdown's wait has returned, a refresh can still reach the caches it tears down exactly
      if a request starts a refresh after that. */
  lemma TornDownCachesReachedIffTriggered(states: seq<State>, steps: seq<Step>, w: nat)
    requires IsRun(states, steps) && w < |steps| && steps[w] == WaitReturns
    ensures CachesUsedAfter(states, w) <==> RefreshStartedAfter(states, steps, w)
  {
    assert states[w + 1] == Apply(states[w], steps[w]) && states[w + 1].count == 0;
    ZeroMeansQuiet(states, steps, w + 1);
    if CachesUsedAfter(states, w) {
      var n, id :| w < n < |states| && Enabled(states[n], UseCaches(id));
      var i := OnlyTriggeredLater(states, steps, w + 1, n, id);
      assert RefreshStartedAfter(states, steps, w);
    }
    if RefreshStartedAfter(states, steps, w) {
      var i :| w < i < |steps| && i < |states| && steps[i].Trigger? && steps[i].key !in states[i].active;
      assert states[i + 1] == Apply(states[i], steps[i]);
      assert Enabled(states[i + 1], UseCaches(steps[i].id));
    }
  }

  /** And such a request is not ruled out: the wait does not stop new refreshes. */
  lemma LateTriggerIsPossible(key: string)
    ensures var steps := [WaitReturns, Trigger(key, 0), UseCaches(0)];
            var s1 := INITIAL.(waited := true);
            var s2 := State({key}, 1, map[0 := Refresher(key, Working)], true);
            IsRun([INITIAL, s1, s2, s2], steps)
  {
    var steps := [WaitReturns, Trigger(key, 0), UseCaches(0)];
    var s1 := INITIAL.(waited := true);
    var s2 := State({key}, 1, map[0 := Refresher(key, Working)], true);
    var states := [INITIAL, s1, s2, s2];
    assert Apply(s1, steps[1]) == s2;
    forall i | 0 <= i < |steps|
      ensures Enabled(states[i], steps[i]) && states[i + 1] == Apply(states[i], steps[i])
    {
      if i == 0 {} else if i == 1 {} else {}
    }
  }
}
