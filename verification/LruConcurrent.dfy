/** Any number of goroutines opening files through one cache at once.

    `Open` holds the lock twice, around the lookup and around the insertion, and reads the base
    file system in between without it.  Each of the three is one step here, taken by any opener
    at any time. */
module LruConcurrent {
  import opened LruSpec
  import opened LruCacheFs

  datatype Opener =
    | Starting(name: string)
    | Missed(name: string)                   // lookup found nothing, lock released
    | Loaded(name: string, file: FileData)   // base read, not yet inserted
    | Finished(name: string, result: OpenResult, faulted: bool)

  /** `log` records, in the order of each opener's last critical section, who opened what. */
  datatype State = State(cache: Cache, openers: map<nat, Opener>, log: seq<(nat, string)>)

  datatype Step =
    | Begin(id: nat, name: string)
    | LookupStep(id: nat)
    | ReadStep(id: nat)
    | ReadFault(id: nat, error: string)      // the unlocked read fails for reasons of its own
    | InsertStep(id: nat)

  const INITIAL := State(EMPTY_CACHE, map[], [])

  predicate Enabled(s: State, step: Step) {
    match step
    case Begin(id, _) => id !in s.openers
    case LookupStep(id) => id in s.openers && s.openers[id].Starting?
    case ReadStep(id) => id in s.openers && s.openers[id].Missed?
    case ReadFault(id, _) => id in s.openers && s.openers[id].Missed?
    case InsertStep(id) => id in s.openers && s.openers[id].Loaded?
  }

  /** What the lookup section finds: the cached file, or nothing. */
  function AfterLookup(s: State, name: string): Opener {
    if name in s.cache.data then Finished(name, OpenedFile(s.cache.data[name]), false) else Missed(name)
  }

  /** What the unlocked read leads to: only a file within the budget goes on to be inserted. */
  function AfterRead(base: Base, max: int, name: string): Opener {
    match base(name)
    case Regular(file) => if |file.bytes| > max then Finished(name, OpenedFile(file), false) else Loaded(name, file)
    case _ => Finished(name, Uncached(base, name), false)
  }

  function Apply(base: Base, max: int, s: State, step: Step): State
    requires Enabled(s, step)
  {
    match step
    case Begin(id, name) => s.(openers := s.openers[id := Starting(name)])
    case LookupStep(id) =>
      var name := s.openers[id].name;
      var opener := AfterLookup(s, name);
      State(Lookup(s.cache, name), s.openers[id := opener],
            // a hit is the opener's last critical section; so is a miss it will not follow up
            if opener.Finished? || !Cacheable(CatalogOf(base), max, name) then s.log + [(id, name)] else s.log)
    case ReadStep(id) =>
      s.(openers := s.openers[id := AfterRead(base, max, s.openers[id].name)])
    case ReadFault(id, error) =>
      s.(openers := s.openers[id := Finished(s.openers[id].name, OpenError(error), true)])
    case InsertStep(id) =>
      var name, file := s.openers[id].name, s.openers[id].file;
      // the second lookup may find the entry of another opener, and then serves that one
      var shown := if name in s.cache.data then s.cache.data[name] else file;
      State(Insert(base, max, s.cache, name, file),
            s.openers[id := Finished(name, OpenedFile(shown), false)],
            s.log + [(id, name)])
  }

  ghost predicate IsRun(base: Base, max: int, states: seq<State>, steps: seq<Step>) {
    && |states| == |steps| + 1
    && states[0] == INITIAL
    && forall i :: 0 <= i < |steps| ==>
            Enabled(states[i], steps[i]) && states[i + 1] == Apply(base, max, states[i], steps[i])
  }

  function NamesOf(log: seq<(nat, string)>): (r: seq<string>)
    ensures |r| == |log|
  {
    if log == [] then [] else NamesOf(log[..|log| - 1]) + [log[|log| - 1].1]
  }

  /** The cache after opening the names one after another, each without interruption. */
  function Sequentially(base: Base, max: int, names: seq<string>): Cache {
    if names == [] then EMPTY_CACHE
    else OpenAtomic(base, max, Sequentially(base, max, names[..|names| - 1]), names[|names| - 1])
  }

  lemma {:induction false} SequentialRefinesLru(base: Base, max: int, names: seq<string>)
    ensures WellFormed(base, max, Sequentially(base, max, names))
    ensures Sequentially(base, max, names).order == Run(CatalogOf(base), max, names)
  {
    if names != [] {
      SequentialRefinesLru(base, max, names[..|names| - 1]);
      OpenAtomicWellFormed(base, max, Sequentially(base, max, names[..|names| - 1]), names[|names| - 1]);
      OpenAtomicRefinesOpen(base, max, Sequentially(base, max, names[..|names| - 1]), names[|names| - 1]);
    }
  }

  /** Has this opener gone through its last critical section? */
  ghost predicate Logged(base: Base, max: int, o: Opener) {
    match o
    case Starting(_) => false
    case Missed(name) => !Cacheable(CatalogOf(base), max, name)
    case Loaded(_, _) => false
    case Finished(_, _, faulted) => !faulted
  }

  /** What openers hold between their steps is what the base holds. */
  ghost predicate OpenersInv(base: Base, max: int, s: State) {
    && (forall id :: id in s.openers && s.openers[id].Loaded? ==>
          var o := s.openers[id]; base(o.name) == Regular(o.file) && |o.file.bytes| <= max)
    && (forall id :: id in s.openers && s.openers[id].Finished? ==>
          var o := s.openers[id]; !o.faulted ==> o.result == Uncached(base, o.name))
  }

  /** Each opener is logged at most once, under its own name, and not before its last section. */
  ghost predicate LogInv(base: Base, max: int, s: State) {
    && (forall e :: e in s.log ==> e.0 in s.openers && s.openers[e.0].name == e.1)
    && (forall e :: e in s.log ==> s.openers[e.0].Finished? || Logged(base, max, s.openers[e.0]))
    && (forall i, j :: 0 <= i < j < |s.log| ==> s.log[i].0 != s.log[j].0)
    && (forall id :: id in s.openers && Logged(base, max, s.openers[id]) ==> (id, s.openers[id].name) in s.log)
  }

  ghost predicate Inv(base: Base, max: int, s: State) {
    && s.cache == Sequentially(base, max, NamesOf(s.log))
    && OpenersInv(base, max, s)
    && LogInv(base, max, s)
  }

  lemma LogOne(base: Base, max: int, log: seq<(nat, string)>, entry: (nat, string))
    ensures Sequentially(base, max, NamesOf(log + [entry]))
            == OpenAtomic(base, max, Sequentially(base, max, NamesOf(log)), entry.1)
  {
    assert (log + [entry])[..|log|] == log;
    var names := NamesOf(log + [entry]);
    assert names == NamesOf(log) + [entry.1];
    assert names[..|names| - 1] == NamesOf(log);
  }

  /** A lookup that is the opener's last section does what a whole open does; any other finds
      nothing and changes nothing. */
  lemma LookupIsOpen(base: Base, max: int, c: Cache, name: string)
    ensures name in c.data || !Cacheable(CatalogOf(base), max, name) ==>
              Lookup(c, name) == OpenAtomic(base, max, c, name)
    ensures name !in c.data ==> Lookup(c, name) == c
  {
    hide Remove, Insert, Cacheable;
  }

  /** So does an insertion. */
  lemma InsertIsOpen(base: Base, max: int, c: Cache, name: string, file: FileData)
    requires base(name) == Regular(file) && |file.bytes| <= max
    ensures Insert(base, max, c, name, file) == OpenAtomic(base, max, c, name)
  {
    hide Fit, Remove;
  }

  lemma StepKeepsCache(base: Base, max: int, s: State, step: Step)
    requires s.cache == Sequentially(base, max, NamesOf(s.log)) && OpenersInv(base, max, s) && Enabled(s, step)
    ensures var s' := Apply(base, max, s, step); s'.cache == Sequentially(base, max, NamesOf(s'.log))
  {
    hide Sequentially, NamesOf, OpenAtomic, Lookup, Insert, Cacheable, AfterRead;
    if step.LookupStep? || step.InsertStep? {
      var name := s.openers[step.id].name;
      LogOne(base, max, s.log, (step.id, name));
      LookupIsOpen(base, max, s.cache, name);
      if step.InsertStep? {
        InsertIsOpen(base, max, s.cache, name, s.openers[step.id].file);
      }
    }
  }

  lemma {:induction false} StepKeepsOpeners(base: Base, max: int, s: State, step: Step)
    requires OpenersInv(base, max, s) && WellFormed(base, max, s.cache) && Enabled(s, step)
    ensures OpenersInv(base, max, Apply(base, max, s, step))
  {
    hide Lookup, Insert;
  }

  /** A step that is not an opener's last section changes neither the log nor who is logged. */
  lemma Unlogged(base: Base, max: int, s: State, t: State, id: nat, o: Opener)
    requires LogInv(base, max, s) && t.log == s.log && t.openers == s.openers[id := o]
    requires id in s.openers ==> o.name == s.openers[id].name && !s.openers[id].Finished?
    requires Logged(base, max, o) ==> id in s.openers && Logged(base, max, s.openers[id])
    requires id in s.openers && Logged(base, max, s.openers[id]) ==> o.Finished? || Logged(base, max, o)
    ensures LogInv(base, max, t)
  {
    hide Logged;
  }

  /** One that is appends the opener, who was not in the log before. */
  lemma Appended(base: Base, max: int, s: State, t: State, id: nat, o: Opener)
    requires LogInv(base, max, s) && id in s.openers && o.name == s.openers[id].name
    requires !s.openers[id].Finished? && !Logged(base, max, s.openers[id]) && Logged(base, max, o)
    requires t.openers == s.openers[id := o] && t.log == s.log + [(id, o.name)]
    ensures LogInv(base, max, t)
  {
    hide Logged;
    assert forall e :: e in s.log ==> e.0 != id;
    assert forall e :: e in t.log <==> e in s.log || e == (id, o.name);
  }

  lemma StepKeepsLog(base: Base, max: int, s: State, step: Step)
    requires LogInv(base, max, s) && OpenersInv(base, max, s) && Enabled(s, step)
    ensures LogInv(base, max, Apply(base, max, s, step))
  {
    var t := Apply(base, max, s, step);
    var o := t.openers[step.id];
    if t.log == s.log {
      assert step.LookupStep? ==> !Logged(base, max, o);
      assert step.ReadStep? ==> (Logged(base, max, o) <==> Logged(base, max, s.openers[step.id]));
      hide Lookup, Insert, LogInv, AfterRead, AfterLookup;
      Unlogged(base, max, s, t, step.id, o);
    } else {
      hide Lookup, Insert, LogInv;
      Appended(base, max, s, t, step.id, o);
    }
  }

  lemma {:induction false} StepKeepsInv(base: Base, max: int, s: State, step: Step)
    requires Inv(base, max, s) && Enabled(s, step)
    ensures Inv(base, max, Apply(base, max, s, step))
  {
    SequentialRefinesLru(base, max, NamesOf(s.log));
    StepKeepsCache(base, max, s, step);
    StepKeepsOpeners(base, max, s, step);
    StepKeepsLog(base, max, s, step);
  }

  lemma {:induction false} RunKeepsInv(base: Base, max: int, states: seq<State>, steps: seq<Step>, n: nat)
    requires IsRun(base, max, states, steps) && n < |states|
    ensures Inv(base, max, states[n])
  {
    if n > 0 {
      RunKeepsInv(base, max, states, steps, n - 1);
      StepKeepsInv(base, max, states[n - 1], steps[n - 1]);
    }
  }

  /** Whatever the interleaving, the cache is well formed and within budget, and it is the cache
      that opening the logged names one by one, with nothing in between, would have left: the
      longest prefix of their recency stack that fits. */
  lemma Linearizable(base: Base, max: int, states: seq<State>, steps: seq<Step>, n: nat)
    requires IsRun(base, max, states, steps) && n < |states|
    ensures WellFormed(base, max, states[n].cache)
    ensures states[n].cache == Sequentially(base, max, NamesOf(states[n].log))
    ensures max >= 0 ==> var names := NamesOf(states[n].log);
              LongestFitting(CatalogOf(base), Stack(CatalogOf(base), max, names), max, states[n].cache.order)
  {
    RunKeepsInv(base, max, states, steps, n);
    SequentialRefinesLru(base, max, NamesOf(states[n].log));
    if max >= 0 {
      CacheIsLongestFittingPrefix(CatalogOf(base), max, NamesOf(states[n].log));
    }
  }

  lemma OnePlaceEach(base: Base, max: int, s: State, i: nat, j: nat)
    requires Inv(base, max, s) && i < |s.log| && j < |s.log| && s.log[i].0 == s.log[j].0
    ensures i == j
  {
  }

  /** Every opener that was not failed by its own read gets exactly what the base holds, and has
      exactly one place in the log, under the name it opened. */
  lemma OpenersSeeTheBase(base: Base, max: int, states: seq<State>, steps: seq<Step>, n: nat, id: nat)
    requires IsRun(base, max, states, steps) && n < |states|
    requires id in states[n].openers && states[n].openers[id].Finished?
    requires !states[n].openers[id].faulted
    ensures states[n].openers[id].result == Uncached(base, states[n].openers[id].name)
    ensures exists i :: 0 <= i < |states[n].log| && states[n].log[i] == (id, states[n].openers[id].name)
                        && forall j :: 0 <= j < |states[n].log| && states[n].log[j].0 == id ==> j == i
  {
    RunKeepsInv(base, max, states, steps, n);
    var log := states[n].log;
    assert Logged(base, max, states[n].openers[id]);
    assert LogInv(base, max, states[n]);
    hide IsRun, Inv, OpenersInv;
    var i :| 0 <= i < |log| && log[i] == (id, states[n].openers[id].name);
    forall j | 0 <= j < |log| && log[j].0 == id
      ensures j == i
    {
      OnePlaceEach(base, max, states[n], i, j);
    }
  }

  /** And one that was failed by its own read gets the error of that read. */
  lemma {:induction false} FaultsAreReported(base: Base, max: int, states: seq<State>, steps: seq<Step>, n: nat,
                                             id: nat)
    returns (i: nat)
    requires IsRun(base, max, states, steps) && n < |states|
    requires id in states[n].openers && states[n].openers[id].Finished? && states[n].openers[id].faulted
    ensures i < n && steps[i].ReadFault? && steps[i].id == id
    ensures states[n].openers[id].result == OpenError(steps[i].error)
  {
    var s, step := states[n - 1], steps[n - 1];
    assert Enabled(s, step) && states[n] == Apply(base, max, s, step);
    hide Lookup, Insert, Cacheable;
    if id in s.openers && s.openers[id].Finished? {
      i := FaultsAreReported(base, max, states, steps, n - 1, id);
    } else {
      i := n - 1;
    }
  }

  /** The log only grows, so the order of two openers in it respects real time: one that finished
      before another began comes first. */
  lemma {:induction false} LogGrows(base: Base, max: int, states: seq<State>, steps: seq<Step>, m: nat, n: nat)
    requires IsRun(base, max, states, steps) && m <= n < |states|
    ensures states[m].log <= states[n].log
    ensures forall id :: id in states[m].openers ==> id in states[n].openers
    decreases n
  {
    if m < n {
      LogGrows(base, max, states, steps, m, n - 1);
      var s := states[n - 1];
      assert s.log <= states[n].log;
    }
  }

  lemma LogRespectsRealTime(base: Base, max: int, states: seq<State>, steps: seq<Step>, m: nat, n: nat,
                            i: nat, j: nat)
    requires IsRun(base, max, states, steps) && m <= n < |states|
    requires i < |states[n].log| && j < |states[n].log|
    // log[i]'s opener had finished by state m, log[j]'s had not begun
    requires states[n].log[i].0 in states[m].openers
    requires states[m].openers[states[n].log[i].0].Finished? && !states[m].openers[states[n].log[i].0].faulted
    requires states[n].log[j].0 !in states[m].openers
    ensures i < j
  {
    LogGrows(base, max, states, steps, m, n);
    RunKeepsInv(base, max, states, steps, m);
    RunKeepsInv(base, max, states, steps, n);
    OpenersSeeTheBase(base, max, states, steps, m, states[n].log[i].0);
    hide IsRun, OpenersInv, Sequentially, NamesOf;
    EarlierInLog(base, max, states[m], states[n], i, j);
  }

  lemma EarlierInLog(base: Base, max: int, s: State, t: State, i: nat, j: nat)
    requires LogInv(base, max, s) && LogInv(base, max, t) && s.log <= t.log && i < |t.log| && j < |t.log|
    requires exists k :: 0 <= k < |s.log| && s.log[k].0 == t.log[i].0
    requires t.log[j].0 !in s.openers
    ensures i < j
  {
    var k :| 0 <= k < |s.log| && s.log[k].0 == t.log[i].0;
    assert t.log[k] == s.log[k];
    assert k == i;
    assert forall x :: 0 <= x < |s.log| ==> t.log[x] == s.log[x] && s.log[x] in s.log;
    hide Logged;
  }
}
