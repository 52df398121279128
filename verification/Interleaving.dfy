/** Downloads of one artifact that overlap.

    Two keys may resolve to the same artifact at the same time, and a background refresh may run
    beside a request for its own key.  Each resolution looks into the artifact cache, downloads what
    it misses without holding a lock, and stores it.  Each of these is one step here, taken by any
    resolution at any time, between evictions. */
module Interleaving {
  import opened ByteSize
  import opened Archive
  import opened Caches
  import opened PreviewRuns

  datatype Limits = Limits(format: Format, maxArtifacts: int, maxArtifactSize: int)

  datatype Job =
    | Missed(id: int)                               // not cached, to be downloaded
    | Fetched(id: int, handle: Handle, size: int)   // downloaded and open, not yet stored
    | Done

  datatype State = State(art: Caches.Artifacts, jobs: map<nat, Job>, disk: Disk)

  datatype Step =
    | Look(job: nat, id: int, now: int)
    | Fetch(job: nat, response: Response, digest: string)
    | Store(job: nat, now: int, victims: set<int>)
    | EvictOne(id: int)

  const INITIAL := State(map[], map[], Disk(map[], multiset{}, 0))

  ghost predicate Enabled(l: Limits, s: State, step: Step) {
    match step
    case Look(job, _, _) => job !in s.jobs
    case Fetch(job, _, _) => job in s.jobs && s.jobs[job].Missed?
    case Store(job, _, victims) =>
      job in s.jobs && s.jobs[job].Fetched? && Victims(s.art, l.maxArtifacts, victims)
    case EvictOne(_) => true
  }

  ghost function Apply(l: Limits, s: State, step: Step): State
    requires Enabled(l, s, step)
  {
    match step
    case Look(job, id, now) =>
      if id in s.art then s.(art := Touch(s.art, id, now), jobs := s.jobs[job := Done])
      else s.(jobs := s.jobs[job := Missed(id)])
    case Fetch(job, response, digest) =>
      var id := s.jobs[job].id;
      (match DownloadArtifact(l.format, s.disk, id, response, l.maxArtifactSize, digest)
       case (d, Rejected) => State(s.art, s.jobs[job := Done], d)
       case (d, Opened(handle, size)) => State(s.art, s.jobs[job := Fetched(id, handle, size)], d))
    case Store(job, now, victims) =>
      var Fetched(id, handle, size) := s.jobs[job];
      State((s.art - victims)[id := ArtifactEntry(handle, size, now, Cleanup(handle, id))],
            s.jobs[job := Done],
            CleanAll(s.disk, s.art, victims))
    case EvictOne(id) => s.(art := s.art - {id}, disk := CleanAll(s.disk, s.art, {id}))
  }

  ghost predicate IsRun(l: Limits, states: seq<State>, steps: seq<Step>) {
    && l.maxArtifacts >= 1
    && |states| == |steps| + 1
    && states[0] == INITIAL
    && forall i :: 0 <= i < |steps| ==>
            Enabled(l, states[i], steps[i]) && states[i + 1] == Apply(l, states[i], steps[i])
  }

  // ----- where a handle can be

  /** Some resolution has opened the handle and not stored it yet. */
  ghost predicate InFlight(jobs: map<nat, Job>, h: Handle) {
    exists j :: j in jobs && jobs[j].Fetched? && jobs[j].handle == h
  }

  /** The handle was opened, and nobody has it any more, though it was not cleaned up. */
  ghost predicate Lost(s: State, h: Handle) {
    h < s.disk.next && !Resident(s.art, h) && !InFlight(s.jobs, h) && s.disk.cleaned[h] == 0
  }

  /** This step stores an artifact over a cached copy of it, which is not among those evicted to make
      room, and which had this handle. */
  ghost predicate Overwrites(s: State, step: Step, h: Handle) {
    && step.Store? && step.job in s.jobs && s.jobs[step.job].Fetched?
    && var id := s.jobs[step.job].id;
       id in s.art && id !in step.victims && s.art[id].fs == h
  }

  ghost predicate CacheInv(art: Caches.Artifacts, next: Handle) {
    && (forall id :: id in art ==> art[id].cleanup == Cleanup(art[id].fs, id) && art[id].fs < next)
    && (forall a, b :: a in art && b in art && a != b ==> art[a].fs != art[b].fs)
  }

  ghost predicate JobsInv(jobs: map<nat, Job>, next: Handle) {
    && (forall j :: j in jobs && jobs[j].Fetched? ==> jobs[j].handle < next)
    && (forall i, j :: i in jobs && j in jobs && i != j && jobs[i].Fetched? && jobs[j].Fetched? ==>
          jobs[i].handle != jobs[j].handle)
  }

  /** A handle is in at most one place, and is cleaned up at most once. */
  ghost predicate Apart(s: State, h: Handle) {
    && !(Resident(s.art, h) && InFlight(s.jobs, h))
    && s.disk.cleaned[h] <= 1
    && (s.disk.cleaned[h] == 1 ==> h < s.disk.next && !Resident(s.art, h) && !InFlight(s.jobs, h))
  }

  ghost predicate Inv(s: State) {
    CacheInv(s.art, s.disk.next) && JobsInv(s.jobs, s.disk.next) && forall h: Handle :: Apart(s, h)
  }

  /** What a step does to one handle: it stays in one place at most, and is lost only by being
      overwritten. */
  ghost predicate Follows(s: State, step: Step, t: State, h: Handle) {
    Apart(t, h) && (Lost(t, h) <==> Lost(s, h) || Overwrites(s, step, h))
  }

  // ----- jobs

  lemma SettledJob(jobs: map<nat, Job>, job: nat, o: Job, h: Handle)
    requires !o.Fetched? && (job in jobs ==> !jobs[job].Fetched?)
    ensures InFlight(jobs[job := o], h) <==> InFlight(jobs, h)
  {
    if InFlight(jobs, h) {
      var j :| j in jobs && jobs[j].Fetched? && jobs[j].handle == h;
      assert j in jobs[job := o] && jobs[job := o][j] == jobs[j];
    }
  }

  lemma OpenedJob(jobs: map<nat, Job>, job: nat, id: int, handle: Handle, size: int, h: Handle)
    requires job in jobs ==> !jobs[job].Fetched?
    ensures InFlight(jobs[job := Fetched(id, handle, size)], h) <==> InFlight(jobs, h) || h == handle
  {
    var jobs' := jobs[job := Fetched(id, handle, size)];
    assert job in jobs' && jobs'[job].handle == handle;
    if InFlight(jobs, h) {
      var j :| j in jobs && jobs[j].Fetched? && jobs[j].handle == h;
      assert j in jobs' && jobs'[j] == jobs[j];
    }
  }

  lemma StoredJob(jobs: map<nat, Job>, job: nat, next: Handle, h: Handle)
    requires JobsInv(jobs, next) && job in jobs && jobs[job].Fetched?
    ensures InFlight(jobs[job := Done], h) <==> InFlight(jobs, h) && h != jobs[job].handle
  {
    if InFlight(jobs, h) && h != jobs[job].handle {
      var j :| j in jobs && jobs[j].Fetched? && jobs[j].handle == h;
      assert j in jobs[job := Done] && jobs[job := Done][j] == jobs[j];
    }
  }

  // ----- the cache

  /** What evicting does to one handle. */
  lemma EvictedHandle(art: Caches.Artifacts, next: Handle, d: Disk, ids: set<int>, h: Handle)
    requires CacheInv(art, next)
    ensures var gone := exists id :: id in ids && id in art && art[id].fs == h;
            && (Resident(art - ids, h) <==> Resident(art, h) && !gone)
            && CleanAll(d, art, ids).cleaned[h] == d.cleaned[h] + (if gone then 1 else 0)
            && CleanAll(d, art, ids).next == d.next
  {
    var hs := set id | id in ids && id in art :: art[id].cleanup.handle;
    var left := art - ids;
    assert CleanAll(d, art, ids).cleaned[h] == d.cleaned[h] + (if h in hs then 1 else 0);
    if Resident(art, h) {
      var id :| id in art && art[id].fs == h;
      if id in ids {
        assert art[id].cleanup.handle in hs;
      } else {
        assert id in left && left[id].fs == h;
      }
    }
  }

  /** What storing does to one handle, once the victims are gone. */
  lemma StoredHandle(art: Caches.Artifacts, next: Handle, id: int, e: ArtifactEntry, h: Handle)
    requires CacheInv(art, next)
    ensures Resident(art[id := e], h) <==> h == e.fs || (Resident(art, h) && !(id in art && art[id].fs == h))
  {
    var art' := art[id := e];
    assert id in art' && art'[id].fs == e.fs;
    if Resident(art, h) && !(id in art && art[id].fs == h) {
      var i :| i in art && art[i].fs == h;
      assert i in art' && art'[i].fs == h;
    }
  }

  lemma TouchedHandle(art: Caches.Artifacts, id: int, now: int, h: Handle)
    ensures Resident(Touch(art, id, now), h) <==> Resident(art, h)
  {
    var art' := Touch(art, id, now);
    if Resident(art, h) {
      var i :| i in art && art[i].fs == h;
      assert i in art' && art'[i].fs == h;
    }
  }

  // ----- each step

  lemma LookFollows(l: Limits, s: State, step: Step, h: Handle)
    requires Inv(s) && Enabled(l, s, step) && step.Look?
    ensures Follows(s, step, Apply(l, s, step), h)
  {
    TouchedHandle(s.art, step.id, step.now, h);
    SettledJob(s.jobs, step.job, Done, h);
    SettledJob(s.jobs, step.job, Missed(step.id), h);
    assert Apart(s, h);
    hide Resident, InFlight, CacheInv, JobsInv, Touch;
  }

  lemma NewHandle(s: State)
    requires Inv(s)
    ensures !Resident(s.art, s.disk.next) && !InFlight(s.jobs, s.disk.next) && s.disk.cleaned[s.disk.next] == 0
  {
    assert Apart(s, s.disk.next);
  }

  lemma FetchFollows(l: Limits, s: State, step: Step, h: Handle)
    requires Inv(s) && Enabled(l, s, step) && step.Fetch?
    ensures Follows(s, step, Apply(l, s, step), h)
  {
    var id := s.jobs[step.job].id;
    var (d, r) := DownloadArtifact(l.format, s.disk, id, step.response, l.maxArtifactSize, step.digest);
    RejectedIsCleaned(l.format, s.disk, id, step.response, l.maxArtifactSize, step.digest);
    OpenedAddsOneFile(l.format, s.disk, id, step.response, l.maxArtifactSize, step.digest);
    SettledJob(s.jobs, step.job, Done, h);
    if r.Opened? { OpenedJob(s.jobs, step.job, id, r.handle, r.size, h); }
    NewHandle(s);
    assert Apart(s, h);
    hide Resident, InFlight, CacheInv, JobsInv, DownloadArtifact, Inv;
  }

  lemma StoreFollows(l: Limits, s: State, step: Step, h: Handle)
    requires Inv(s) && Enabled(l, s, step) && step.Store?
    ensures Follows(s, step, Apply(l, s, step), h)
  {
    var Fetched(id, handle, size) := s.jobs[step.job];
    var left := s.art - step.victims;
    assert CacheInv(left, s.disk.next);
    EvictedHandle(s.art, s.disk.next, s.disk, step.victims, h);
    StoredHandle(left, s.disk.next, id, ArtifactEntry(handle, size, step.now, Cleanup(handle, id)), h);
    StoredJob(s.jobs, step.job, s.disk.next, h);
    InFlightNow(s.jobs, step.job);
    assert Apart(s, h) && handle < s.disk.next;
    OverwrittenWasCached(s, step, h);
    hide InFlight, JobsInv, CleanAll, Victims, Inv;
  }

  lemma InFlightNow(jobs: map<nat, Job>, job: nat)
    requires job in jobs && jobs[job].Fetched?
    ensures InFlight(jobs, jobs[job].handle)
  {
  }

  lemma OverwrittenWasCached(s: State, step: Step, h: Handle)
    requires Inv(s) && step.Store?
    ensures Overwrites(s, step, h) ==> Resident(s.art, h)
  {
  }

  lemma EvictFollows(l: Limits, s: State, step: Step, h: Handle)
    requires Inv(s) && step.EvictOne?
    ensures Follows(s, step, Apply(l, s, step), h)
  {
    EvictedHandle(s.art, s.disk.next, s.disk, {step.id}, h);
    assert Apart(s, h);
    hide InFlight, JobsInv, CleanAll, Inv;
  }

  lemma StepFollows(l: Limits, s: State, step: Step, h: Handle)
    requires Inv(s) && Enabled(l, s, step)
    ensures Follows(s, step, Apply(l, s, step), h)
  {
    hide Inv, Enabled, Apply, Follows;
    match step
    case Look(_, _, _) => LookFollows(l, s, step, h);
    case Fetch(_, _, _) => FetchFollows(l, s, step, h);
    case Store(_, _, _) => StoreFollows(l, s, step, h);
    case EvictOne(_) => EvictFollows(l, s, step, h);
  }

  /** Fewer entries, or the same with other access times. */
  lemma SubCache(art: Caches.Artifacts, art': Caches.Artifacts, next: Handle, next': Handle)
    requires CacheInv(art, next) && next <= next'
    requires forall id :: id in art' ==> id in art && art'[id].fs == art[id].fs && art'[id].cleanup == art[id].cleanup
    ensures CacheInv(art', next')
  {
  }

  lemma CacheWith(art: Caches.Artifacts, next: Handle, id: int, e: ArtifactEntry)
    requires CacheInv(art, next) && e.cleanup == Cleanup(e.fs, id) && e.fs < next && !Resident(art, e.fs)
    ensures CacheInv(art[id := e], next)
  {
  }

  lemma StoreKeepsCache(l: Limits, s: State, step: Step)
    requires Inv(s) && Enabled(l, s, step) && step.Store?
    ensures CacheInv(Apply(l, s, step).art, s.disk.next)
  {
    var Fetched(id, handle, size) := s.jobs[step.job];
    InFlightNow(s.jobs, step.job);
    assert Apart(s, handle) && handle < s.disk.next;
    SubCache(s.art, s.art - step.victims, s.disk.next, s.disk.next);
    assert !Resident(s.art - step.victims, handle);
    hide CleanAll, Victims, CacheInv, InFlight, Resident;
    CacheWith(s.art - step.victims, s.disk.next, id, ArtifactEntry(handle, size, step.now, Cleanup(handle, id)));
  }

  lemma StepKeepsCache(l: Limits, s: State, step: Step)
    requires Inv(s) && Enabled(l, s, step)
    ensures CacheInv(Apply(l, s, step).art, Apply(l, s, step).disk.next)
  {
    hide Victims, CacheInv, JobsInv, Apart, DownloadArtifact;
    match step
    case Look(job, id, now) => SubCache(s.art, Touch(s.art, id, now), s.disk.next, s.disk.next);
    case Fetch(job, response, digest) =>
      FetchedNext(l, s, step);
      SubCache(s.art, s.art, s.disk.next, Apply(l, s, step).disk.next);
    case Store(job, now, victims) => StoreKeepsCache(l, s, step);
    case EvictOne(id) => SubCache(s.art, s.art - {id}, s.disk.next, s.disk.next);
  }

  lemma FetchedNext(l: Limits, s: State, step: Step)
    requires Enabled(l, s, step) && step.Fetch?
    ensures var (d, r) := DownloadArtifact(l.format, s.disk, s.jobs[step.job].id, step.response, l.maxArtifactSize,
                                           step.digest);
            s.disk.next <= d.next && (r.Opened? ==> r.handle == s.disk.next < d.next)
  {
    RejectedIsCleaned(l.format, s.disk, s.jobs[step.job].id, step.response, l.maxArtifactSize, step.digest);
    OpenedAddsOneFile(l.format, s.disk, s.jobs[step.job].id, step.response, l.maxArtifactSize, step.digest);
    hide DownloadArtifact;
  }

  lemma JobsWith(jobs: map<nat, Job>, job: nat, o: Job, next: Handle, next': Handle)
    requires JobsInv(jobs, next) && next <= next' && (o.Fetched? ==> o.handle == next < next')
    ensures JobsInv(jobs[job := o], next')
  {
  }

  lemma StepKeepsJobs(l: Limits, s: State, step: Step)
    requires JobsInv(s.jobs, s.disk.next) && Enabled(l, s, step)
    ensures JobsInv(Apply(l, s, step).jobs, Apply(l, s, step).disk.next)
  {
    var t := Apply(l, s, step);
    hide JobsInv, DownloadArtifact, Victims, Touch;
    if step.Fetch? { FetchedNext(l, s, step); }
    if !step.EvictOne? {
      JobsWith(s.jobs, step.job, t.jobs[step.job], s.disk.next, t.disk.next);
    }
  }

  lemma StepKeepsInv(l: Limits, s: State, step: Step)
    requires Inv(s) && Enabled(l, s, step)
    ensures Inv(Apply(l, s, step))
  {
    StepKeepsCache(l, s, step);
    StepKeepsJobs(l, s, step);
    forall h: Handle
      ensures Apart(Apply(l, s, step), h)
    {
      StepFollows(l, s, step, h);
    }
    hide Apply, CacheInv, JobsInv, Apart;
  }

  lemma {:induction false} RunKeepsInv(l: Limits, states: seq<State>, steps: seq<Step>, n: nat)
    requires IsRun(l, states, steps) && n < |states|
    ensures Inv(states[n])
  {
    if n > 0 {
      RunKeepsInv(l, states, steps, n - 1);
      StepKeepsInv(l, states[n - 1], steps[n - 1]);
      hide Inv, Enabled, Apply;
    }
  }

  // ----- the ledger of a run

  ghost predicate Overwritten(states: seq<State>, steps: seq<Step>, n: nat, h: Handle)
    requires |states| == |steps| + 1 && n <= |steps|
  {
    exists i :: 0 <= i < n && Overwrites(states[i], steps[i], h)
  }

  lemma OverwrittenNext(states: seq<State>, steps: seq<Step>, n: nat, h: Handle)
    requires |states| == |steps| + 1 && n < |steps|
    ensures Overwritten(states, steps, n + 1, h)
            <==> Overwritten(states, steps, n, h) || Overwrites(states[n], steps[n], h)
  {
    hide Overwrites;
  }

  lemma {:induction false} LostIffOverwritten(l: Limits, states: seq<State>, steps: seq<Step>, n: nat, h: Handle)
    requires IsRun(l, states, steps) && n < |states|
    ensures Lost(states[n], h) <==> Overwritten(states, steps, n, h)
  {
    if n > 0 {
      LostIffOverwritten(l, states, steps, n - 1, h);
      RunKeepsInv(l, states, steps, n - 1);
      StepFollows(l, states[n - 1], steps[n - 1], h);
      hide Inv, Enabled, Apply, Overwrites, Lost, Apart, Overwritten;
      OverwrittenNext(states, steps, n - 1, h);
    }
  }

  /** In every interleaving each handle ever opened is in exactly one of four places: on its way from
      a download to the cache, in the cache, cleaned up once, or lost for good; and it is lost if and
      only if its artifact was stored once more while it was cached. */
  lemma EveryHandleIsSomewhere(l: Limits, states: seq<State>, steps: seq<Step>, n: nat, h: Handle)
    requires IsRun(l, states, steps) && n < |states| && h < states[n].disk.next
    ensures var s := states[n];
            var (flying, cached, cleaned) := (InFlight(s.jobs, h), Resident(s.art, h), s.disk.cleaned[h]);
            && cleaned <= 1 && !(flying && cached) && (cleaned == 1 ==> !flying && !cached)
            && (!flying && !cached && cleaned == 0 <==> Overwritten(states, steps, n, h))
  {
    RunKeepsInv(l, states, steps, n);
    LostIffOverwritten(l, states, steps, n, h);
    assert Apart(states[n], h);
    hide IsRun, CacheInv, JobsInv, InFlight, Resident, Overwritten;
  }

  // ----- when that happens

  /** A resolution at work looked for its artifact earlier and missed it. */
  lemma {:induction false} LookedBefore(l: Limits, states: seq<State>, steps: seq<Step>, n: nat, job: nat)
    returns (a: nat)
    requires IsRun(l, states, steps) && n < |states|
    requires job in states[n].jobs && !states[n].jobs[job].Done?
    ensures a < n && steps[a].Look? && steps[a].job == job && steps[a].id == states[n].jobs[job].id
    ensures steps[a].id !in states[a].art && states[a + 1].art == states[a].art
  {
    var s, step := states[n - 1], steps[n - 1];
    assert states[n] == Apply(l, s, step);
    hide DownloadArtifact, CleanAll, Victims, Touch;
    if job in s.jobs {
      assert s.jobs[job] == states[n].jobs[job] || (step.Fetch? && step.job == job);
      a := LookedBefore(l, states, steps, n - 1, job);
    } else {
      a := n - 1;
    }
  }

  /** This step stores the artifact. */
  ghost predicate Stores(s: State, step: Step, id: int) {
    step.Store? && step.job in s.jobs && s.jobs[step.job].Fetched? && s.jobs[step.job].id == id
  }

  lemma NewIsStored(l: Limits, s: State, step: Step, id: int)
    requires Enabled(l, s, step) && id !in s.art && id in Apply(l, s, step).art
    ensures Stores(s, step, id)
  {
    hide DownloadArtifact, CleanAll, Victims;
  }

  /** An artifact that was not cached, and is, has been stored. */
  lemma {:induction false} StoredSince(l: Limits, states: seq<State>, steps: seq<Step>, a: nat, n: nat, id: int)
    returns (b: nat)
    requires IsRun(l, states, steps) && a <= n < |states|
    requires id !in states[a].art && id in states[n].art
    ensures a <= b < n && Stores(states[b], steps[b], id)
    decreases n
  {
    hide Enabled, Apply, Stores;
    if id in states[n - 1].art {
      b := StoredSince(l, states, steps, a, n - 1, id);
    } else {
      NewIsStored(l, states[n - 1], steps[n - 1], id);
      b := n - 1;
    }
  }

  lemma {:induction false} DoneStaysDone(l: Limits, states: seq<State>, steps: seq<Step>, b: nat, n: nat, job: nat)
    requires IsRun(l, states, steps) && b <= n < |states|
    requires job in states[b].jobs && states[b].jobs[job].Done?
    ensures job in states[n].jobs && states[n].jobs[job].Done?
    decreases n
  {
    if b < n {
      DoneStaysDone(l, states, steps, b, n - 1, job);
      assert states[n] == Apply(l, states[n - 1], steps[n - 1]);
      hide DownloadArtifact, CleanAll, Victims, Touch;
    }
  }

  /** A handle is overwritten only by a resolution that another one of the same artifact overtook: it
      had missed the artifact, and the other stored it before this one did. */
  lemma OverwritesOnlyIfOvertaken(l: Limits, states: seq<State>, steps: seq<Step>, n: nat, h: Handle)
    returns (a: nat, b: nat)
    requires IsRun(l, states, steps) && n < |steps| && Overwrites(states[n], steps[n], h)
    ensures a < b < n && steps[a].Look? && steps[a].job == steps[n].job && steps[a].id !in states[a].art
    ensures Stores(states[b], steps[b], steps[a].id) && steps[b].job != steps[n].job
  {
    var job := steps[n].job;
    a := LookedBefore(l, states, steps, n, job);
    b := StoredSince(l, states, steps, a + 1, n, steps[a].id);
    if steps[b].job == job {
      assert states[b + 1] == Apply(l, states[b], steps[b]);
      DoneStaysDone(l, states, steps, b + 1, n, job);
      assert false;
    }
  }

  /** Two resolutions miss an artifact, both download it, and both store it. */
  function TwoOfOne(id: int, zip: Bytes): seq<Step> {
    [ Look(0, id, 0), Look(1, id, 0), Fetch(0, Delivered(zip), ""), Fetch(1, Delivered(zip), ""),
      Store(0, 0, {}), Store(1, 0, {})]
  }

  function CopyOf(id: int, zip: Bytes, h: Handle): ArtifactEntry {
    ArtifactEntry(h, |zip|, 0, Cleanup(h, id))
  }

  function TwoStates(id: int, zip: Bytes): seq<State> {
    var a, b := Fetched(id, 0, |zip|), Fetched(id, 1, |zip|);
    var disk := Disk(map[id := zip], multiset{}, 2);
    [ INITIAL,
      State(map[], map[0 := Missed(id)], INITIAL.disk),
      State(map[], map[0 := Missed(id), 1 := Missed(id)], INITIAL.disk),
      State(map[], map[0 := a, 1 := Missed(id)], Disk(map[id := zip], multiset{}, 1)),
      State(map[], map[0 := a, 1 := b], disk),
      State(map[id := CopyOf(id, zip, 0)], map[0 := Done, 1 := b], disk),
      State(map[id := CopyOf(id, zip, 1)], map[0 := Done, 1 := Done], disk)]
  }

  ghost predicate Possible(l: Limits, s: State, step: Step, t: State) {
    Enabled(l, s, step) && Apply(l, s, step) == t
  }

  lemma FetchDelivered(l: Limits, s: State, job: nat, zip: Bytes)
    requires job in s.jobs && s.jobs[job].Missed?
    requires l.format.isZip(zip) && |zip| <= l.maxArtifactSize < MAX_INT64
    ensures var (id, step) := (s.jobs[job].id, Fetch(job, Delivered(zip), ""));
            Possible(l, s, step, State(s.art, s.jobs[job := Fetched(id, s.disk.next, |zip|)],
                                       Disk(s.disk.files[id := zip], s.disk.cleaned, s.disk.next + 1)))
  {
    DeliveredIsStored(l.format, s.disk, s.jobs[job].id, zip, l.maxArtifactSize);
    hide DownloadArtifact, Delivered;
  }

  lemma StoreWithRoom(l: Limits, s: State, job: nat)
    requires job in s.jobs && s.jobs[job].Fetched? && |s.art| < l.maxArtifacts
    ensures var Fetched(id, h, size) := s.jobs[job];
            Possible(l, s, Store(job, 0, {}),
                     State(s.art[id := ArtifactEntry(h, size, 0, Cleanup(h, id))], s.jobs[job := Done], s.disk))
  {
    CleanNone(s.disk, s.art);
    hide CleanAll;
    assert s.art - {} == s.art;
  }

  lemma LooksPossible(l: Limits, id: int, zip: Bytes)
    ensures Possible(l, TwoStates(id, zip)[0], TwoOfOne(id, zip)[0], TwoStates(id, zip)[1])
    ensures Possible(l, TwoStates(id, zip)[1], TwoOfOne(id, zip)[1], TwoStates(id, zip)[2])
  {
    hide Delivered;
  }

  lemma FetchesPossible(l: Limits, id: int, zip: Bytes)
    requires l.format.isZip(zip) && |zip| <= l.maxArtifactSize < MAX_INT64
    ensures Possible(l, TwoStates(id, zip)[2], TwoOfOne(id, zip)[2], TwoStates(id, zip)[3])
    ensures Possible(l, TwoStates(id, zip)[3], TwoOfOne(id, zip)[3], TwoStates(id, zip)[4])
  {
    hide Possible, Delivered;
    FetchDelivered(l, TwoStates(id, zip)[2], 0, zip);
    FetchDelivered(l, TwoStates(id, zip)[3], 1, zip);
    assert map[id := zip][id := zip] == map[id := zip];
    assert map[0 := Missed(id), 1 := Missed(id)][0 := Fetched(id, 0, |zip|)]
           == map[0 := Fetched(id, 0, |zip|), 1 := Missed(id)];
    assert map[0 := Fetched(id, 0, |zip|), 1 := Missed(id)][1 := Fetched(id, 1, |zip|)]
           == map[0 := Fetched(id, 0, |zip|), 1 := Fetched(id, 1, |zip|)];
  }

  lemma StoresPossible(l: Limits, id: int, zip: Bytes)
    requires l.maxArtifacts >= 2
    ensures Possible(l, TwoStates(id, zip)[4], TwoOfOne(id, zip)[4], TwoStates(id, zip)[5])
    ensures Possible(l, TwoStates(id, zip)[5], TwoOfOne(id, zip)[5], TwoStates(id, zip)[6])
  {
    hide Possible, Delivered;
    var b := Fetched(id, 1, |zip|);
    StoreWithRoom(l, TwoStates(id, zip)[4], 0);
    StoreWithRoom(l, TwoStates(id, zip)[5], 1);
    assert map[id := CopyOf(id, zip, 0)][id := CopyOf(id, zip, 1)] == map[id := CopyOf(id, zip, 1)];
    assert map[0 := Fetched(id, 0, |zip|), 1 := b][0 := Done] == map[0 := Done, 1 := b];
    assert map[0 := Done, 1 := b][1 := Done] == map[0 := Done, 1 := Done];
  }

  lemma TwoRun(l: Limits, id: int, zip: Bytes)
    requires l.maxArtifacts >= 2 && l.format.isZip(zip) && |zip| <= l.maxArtifactSize < MAX_INT64
    ensures IsRun(l, TwoStates(id, zip), TwoOfOne(id, zip))
  {
    LooksPossible(l, id, zip);
    FetchesPossible(l, id, zip);
    StoresPossible(l, id, zip);
    var states, steps := TwoStates(id, zip), TwoOfOne(id, zip);
    assert |steps| == 6 && |states| == 7 && states[0] == INITIAL;
    hide Enabled, Apply, TwoStates, TwoOfOne;
    forall i | 0 <= i < |steps|
      ensures Enabled(l, states[i], steps[i]) && states[i + 1] == Apply(l, states[i], steps[i])
    {
      assert Possible(l, states[i], steps[i], states[i + 1]);
    }
  }

  /** For every zip and every handler that takes it and has room for two artifacts: this is possible,
      and the handle of the first copy stays open for good. */
  lemma OverlapLosesAHandle(l: Limits, id: int, zip: Bytes)
    requires l.maxArtifacts >= 2 && l.format.isZip(zip) && |zip| <= l.maxArtifactSize < MAX_INT64
    ensures IsRun(l, TwoStates(id, zip), TwoOfOne(id, zip))
    ensures Lost(TwoStates(id, zip)[6], 0)
  {
    TwoRun(l, id, zip);
    hide IsRun;
  }
}
