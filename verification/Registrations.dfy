/** Which file system a key is registered on.

    A key's registration is renewed when the key is resolved or its artifact downloaded for it, but
    not when a request is answered from the caches.  The handle it was given is cleaned up when its
    artifact is evicted; a copy that is stored later gets a new handle, and only the key it was
    stored for is registered on that. */
module Registrations {
  import opened Wrappers
  import opened Archive
  import opened Caches
  import opened PreviewSpec
  import opened PreviewRuns
  import opened PreviewTheorems

  // ----- one request

  /** What a successful request hands out: the handle the cache holds for the key's artifact, which
      has not been cleaned up, and whose zip is on disk. */
  ghost predicate ServesLive(s: State, key: string) {
    && key in s.meta && s.meta[key].artifactID in s.art && s.meta[key].artifactID in s.disk.files
    && key in s.reg && s.reg[key] == s.art[s.meta[key].artifactID].fs
    && s.disk.cleaned[s.reg[key]] == 0
  }

  lemma ResolvedIsServed(cfg: Config, s: State, key: string, env: Env)
    ensures var (s', ok) := FullResolve(cfg, s, key, env);
            ok ==> IsServed(s', key) && key in s'.reg && s'.reg[key] == s'.art[s'.meta[key].artifactID].fs
  {
    hide DownloadArtifact, CleanAll;
  }

  lemma AccountedFor(cfg: Config, s: State, id: int)
    requires Inv(cfg, s, s.clock) && id in s.art
    ensures id in s.disk.files && s.disk.cleaned[s.art[id].fs] == 0
  {
    assert Resident(s.art, s.art[id].fs);
    assert Ledger(s);
  }

  /** Is this request answered from the caches alone? */
  predicate HitsCache(cfg: Config, s: State, key: string, now: int) {
    !NeedsResolve(cfg, s, key, now) && IsServed(s, key)
  }

  /** A request that goes past the caches and succeeds leaves its key on the cached handle; one that
      is answered from the caches leaves the registration, the artifact and its handle alone. */
  lemma RequestedIsServed(cfg: Config, s: State, key: string, env: Env)
    ensures var (t, ok) := Request(cfg, s, key, env);
            && (HitsCache(cfg, s, key, env.now) ==>
                  ok && t.meta == s.meta && t.reg == s.reg && IsServed(t, key)
                  && t.art[t.meta[key].artifactID].fs == s.art[s.meta[key].artifactID].fs)
            && (!HitsCache(cfg, s, key, env.now) && ok ==>
                  IsServed(t, key) && key in t.reg && t.reg[key] == t.art[t.meta[key].artifactID].fs)
  {
    ResolvedIsServed(cfg, s, key, env);
    hide FullResolve, DownloadArtifact, CleanAll;
  }

  /** A successful request leaves its key on a live handle if and only if it goes past the caches,
      or its key was on the handle of the cached artifact before. */
  lemma ServesLiveIffRegistered(cfg: Config, s: State, key: string, env: Env)
    requires cfg.maxArtifacts >= 1 && Inv(cfg, s, s.clock) && Enabled(cfg, s, RequestStep(key, env))
    requires Request(cfg, s, key, env).1
    ensures ServesLive(Apply(cfg, s, RequestStep(key, env)), key) <==>
              (HitsCache(cfg, s, key, env.now) ==>
                 key in s.reg && s.reg[key] == s.art[s.meta[key].artifactID].fs)
  {
    StepKeepsInv(cfg, s, RequestStep(key, env));
    RequestedIsServed(cfg, s, key, env);
    var t := Apply(cfg, s, RequestStep(key, env));
    assert t == Request(cfg, s, key, env).0.(clock := env.now);
    hide Request, Inv, Apply, Enabled, NeedsResolve;
    AccountedFor(cfg, t, t.meta[key].artifactID);
  }

  // ----- over whole runs

  /** This step gives the key a registration, or renews the one it has. */
  ghost predicate Registers(cfg: Config, s: State, step: Step, key: string) {
    match step
    case RequestStep(k, env) => k == key && Request(cfg, s, k, env).1 && !HitsCache(cfg, s, k, env.now)
    case ResolveStep(k, env) => k == key && FullResolve(cfg, s, k, env).1
    case _ => false
  }

  /** This step stores a copy of the artifact, for some other key. */
  ghost predicate StoresForOther(cfg: Config, s: State, step: Step, key: string, id: int) {
    (step.RequestStep? || step.ResolveStep?) && step.key != key && Stored(cfg, s, step) == Some(id)
  }

  /** Before the nth state a copy of the artifact was stored for another key, and the key's own
      registration has not been renewed since. */
  ghost predicate Superseded(cfg: Config, states: seq<State>, steps: seq<Step>, n: nat, key: string, id: int)
    requires |states| == |steps| + 1 && n <= |steps|
  {
    exists i :: 0 <= i < n && StoresForOther(cfg, states[i], steps[i], key, id)
                && forall j :: i < j < n ==> !Registers(cfg, states[j], steps[j], key)
  }

  lemma RegisteredIsCurrent(cfg: Config, s: State, step: Step, key: string)
    requires Registers(cfg, s, step, key)
    ensures var t := Apply(cfg, s, step);
            IsServed(t, key) && key in t.reg && t.reg[key] == t.art[t.meta[key].artifactID].fs
  {
    RequestedIsServed(cfg, s, key, step.env);
    ResolvedIsServed(cfg, s, key, step.env);
    hide Request, FullResolve;
  }

  /** What a key has, as far as its registration goes, is what it had before. */
  ghost predicate Keeps(s: State, t: State, key: string) {
    key in t.meta ==>
      && key in s.meta && t.meta[key].artifactID == s.meta[key].artifactID
      && key in s.reg && key in t.reg && t.reg[key] == s.reg[key]
  }

  lemma FailedKeeps(cfg: Config, s: State, key: string, env: Env)
    requires s.meta.Keys == s.reg.Keys
    ensures !FullResolve(cfg, s, key, env).1 ==> Keeps(s, FullResolve(cfg, s, key, env).0, key)
    ensures !Request(cfg, s, key, env).1 ==> Keeps(s, Request(cfg, s, key, env).0, key)
  {
    hide DownloadArtifact, CleanAll;
  }

  lemma ForgettingKeeps(cfg: Config, s: State, step: Step, key: string)
    requires s.meta.Keys == s.reg.Keys && (step.EvictStep? || step.PruneStep?)
    ensures Keeps(s, Apply(cfg, s, step), key)
  {
    hide CleanAll, ClosedKeys, IdsOf, KeysOf, Aged;
  }

  lemma OthersKeep(cfg: Config, s: State, step: Step, key: string)
    requires s.meta.Keys == s.reg.Keys && !Registers(cfg, s, step, key)
    ensures Keeps(s, Apply(cfg, s, step), key)
  {
    match step
    case RequestStep(k, env) =>
      if k == key {
        RequestedIsServed(cfg, s, key, env);
        FailedKeeps(cfg, s, key, env);
      } else {
        RequestLeavesOtherKeys(cfg, s, k, env, key);
      }
      hide Request, HitsCache;
    case ResolveStep(k, env) =>
      if k == key {
        FailedKeeps(cfg, s, key, env);
      } else {
        ResolveLeavesOtherKeys(cfg, s, k, env, key);
      }
      hide FullResolve;
    case EvictStep(k, now) => ForgettingKeeps(cfg, s, step, key);
    case PruneStep(answers, now) => ForgettingKeeps(cfg, s, step, key);
  }

  /** The artifact, if cached afterwards, is a new copy or the one cached before. */
  ghost predicate NewOrSame(s: State, t: State, id: int, stored: Option<int>) {
    id in t.art ==>
      if stored == Some(id) then t.art[id].fs == s.disk.next
      else id in s.art && t.art[id].fs == s.art[id].fs
  }

  lemma DownloadedIsNew(cfg: Config, s: State, key: string, id: int, digest: string, headSHA: string, env: Env, x: int)
    ensures var (t, ok) := DownloadAndCache(cfg, s, key, id, digest, headSHA, env);
            && ok == DownloadArtifact(cfg.format, s.disk, id, env.response, cfg.maxArtifactSize, digest).1.Opened?
            && NewOrSame(s, t, x, if ok then Some(id) else None)
  {
    var file := DownloadStores(cfg, s, key, id, digest, headSHA, env);
    hide DownloadArtifact, CleanAll;
  }

  lemma ResolvedIsNewOrSame(cfg: Config, s: State, key: string, env: Env, x: int)
    ensures NewOrSame(s, FullResolve(cfg, s, key, env).0, x, Stored(cfg, s, ResolveStep(key, env)))
    ensures Stored(cfg, s, ResolveStep(key, env)).Some? ==> FullResolve(cfg, s, key, env).1
  {
    if env.answer.Found? {
      DownloadedIsNew(cfg, s, key, env.answer.artifactID, env.answer.digest, env.answer.headSHA, env, x);
    }
    hide DownloadAndCache, DownloadArtifact, CleanAll;
  }

  lemma RequestedIsNewOrSame(cfg: Config, s: State, key: string, env: Env, x: int)
    ensures NewOrSame(s, Request(cfg, s, key, env).0, x, Stored(cfg, s, RequestStep(key, env)))
    ensures Stored(cfg, s, RequestStep(key, env)).Some? ==>
              Request(cfg, s, key, env).1 && !HitsCache(cfg, s, key, env.now)
  {
    ResolvedIsNewOrSame(cfg, s, key, env, x);
    if key in s.meta {
      DownloadedIsNew(cfg, s, key, s.meta[key].artifactID, "", s.meta[key].headSHA, env, x);
    }
    hide FullResolve, DownloadAndCache, DownloadArtifact;
  }

  /** After any step a cached artifact is the copy that was cached before, or one that the step
      stored; storing a copy registers the key it was stored for. */
  lemma CachedIsNewOrSame(cfg: Config, s: State, step: Step, x: int)
    ensures NewOrSame(s, Apply(cfg, s, step), x, Stored(cfg, s, step))
    ensures Stored(cfg, s, step).Some? ==> Registers(cfg, s, step, step.key)
  {
    match step
    case RequestStep(k, env) =>
      RequestedIsNewOrSame(cfg, s, k, env, x);
      hide Request, HitsCache, Stored;
    case ResolveStep(k, env) =>
      ResolvedIsNewOrSame(cfg, s, k, env, x);
      hide FullResolve, Stored;
    case EvictStep(k, now) => hide CleanAll;
    case PruneStep(answers, now) => hide CleanAll, Aged, IdsOf, ClosedKeys;
  }

  /** What holds of a key's registration: its handle was opened for the key's artifact, and it is
      the cached one unless it has been superseded, and then it is an earlier one. */
  ghost predicate Tracked(s: State, key: string, superseded: bool) {
    && key in s.meta && key in s.reg
    && var (id, h) := (s.meta[key].artifactID, s.reg[key]);
       && (forall x :: x in s.art && s.art[x].fs == h ==> x == id)
       && (id in s.art ==> if superseded then h < s.art[id].fs else h == s.art[id].fs)
  }

  lemma RenewedIsTracked(cfg: Config, s: State, step: Step, key: string)
    requires Registers(cfg, s, step, key) && Owned(Apply(cfg, s, step))
    ensures Tracked(Apply(cfg, s, step), key, false)
  {
    RegisteredIsCurrent(cfg, s, step, key);
    hide Apply, Registers;
  }

  lemma TrackedAcross(s: State, t: State, key: string, before: bool, stored: Option<int>)
    requires Keeps(s, t, key) && key in t.meta && Tracked(s, key, before) && s.reg[key] < s.disk.next
    requires forall x :: NewOrSame(s, t, x, stored)
    ensures Tracked(t, key, before || stored == Some(s.meta[key].artifactID))
  {
    var id, h := s.meta[key].artifactID, s.reg[key];
    assert NewOrSame(s, t, id, stored);
    forall x | x in t.art && t.art[x].fs == h
      ensures x == id
    {
      assert NewOrSame(s, t, x, stored);
    }
  }

  lemma KeptIsTracked(cfg: Config, s: State, step: Step, key: string, before: bool)
    requires TablesAgree(s) && Issued(s) && !Registers(cfg, s, step, key) && key in Apply(cfg, s, step).meta
    requires key in s.meta ==> Tracked(s, key, before)
    ensures key in s.meta && Apply(cfg, s, step).meta[key].artifactID == s.meta[key].artifactID
    ensures Tracked(Apply(cfg, s, step), key,
              before || StoresForOther(cfg, s, step, key, s.meta[key].artifactID))
  {
    OthersKeep(cfg, s, step, key);
    var t, stored := Apply(cfg, s, step), Stored(cfg, s, step);
    forall x
      ensures NewOrSame(s, t, x, stored)
      ensures stored.Some? ==> step.key != key && (step.RequestStep? || step.ResolveStep?)
    {
      CachedIsNewOrSame(cfg, s, step, x);
    }
    hide Apply, Registers, Stored, Tracked, NewOrSame;
    TrackedAcross(s, t, key, before, stored);
  }

  lemma SupersededUnlessRenewed(cfg: Config, states: seq<State>, steps: seq<Step>, n: nat, key: string, id: int)
    requires |states| == |steps| + 1 && n < |steps|
    ensures Superseded(cfg, states, steps, n + 1, key, id) <==>
              || StoresForOther(cfg, states[n], steps[n], key, id)
              || (Superseded(cfg, states, steps, n, key, id) && !Registers(cfg, states[n], steps[n], key))
  {
    hide Registers, StoresForOther;
    if Superseded(cfg, states, steps, n, key, id) && !Registers(cfg, states[n], steps[n], key) {
      var i :| 0 <= i < n && StoresForOther(cfg, states[i], steps[i], key, id)
               && forall j :: i < j < n ==> !Registers(cfg, states[j], steps[j], key);
      assert forall j :: i < j < n + 1 ==> !Registers(cfg, states[j], steps[j], key);
    }
  }

  lemma StepTracks(cfg: Config, s: State, step: Step, key: string, before: bool)
    requires TablesAgree(s) && Issued(s) && Owned(Apply(cfg, s, step)) && key in Apply(cfg, s, step).meta
    requires !Registers(cfg, s, step, key) && key in s.meta ==> Tracked(s, key, before)
    ensures var (t, id) := (Apply(cfg, s, step), Apply(cfg, s, step).meta[key].artifactID);
            Tracked(t, key, StoresForOther(cfg, s, step, key, id) || (before && !Registers(cfg, s, step, key)))
  {
    if Registers(cfg, s, step, key) {
      RenewedIsTracked(cfg, s, step, key);
      assert step.key == key;
    } else {
      KeptIsTracked(cfg, s, step, key, before);
    }
    hide Apply, Registers, Tracked, Owned, Stored;
  }

  /** What the invariant says about a state of a run, as far as it matters here. */
  lemma RunBasics(cfg: Config, states: seq<State>, steps: seq<Step>, n: nat)
    requires IsRun(cfg, states, steps) && n < |states|
    ensures TablesAgree(states[n]) && Issued(states[n]) && Owned(states[n])
    ensures |states| == |steps| + 1 && (n > 0 ==> states[n] == Apply(cfg, states[n - 1], steps[n - 1]))
    ensures states[0].meta == map[]
  {
    RunKeepsInv(cfg, states, steps, n);
    hide TablesAgree, Issued, Owned, Ledger, Apply, Enabled;
  }

  lemma {:induction false} RunTracks(cfg: Config, states: seq<State>, steps: seq<Step>, n: nat, key: string)
    requires IsRun(cfg, states, steps) && n < |states| && key in states[n].meta
    ensures Tracked(states[n], key, Superseded(cfg, states, steps, n, key, states[n].meta[key].artifactID))
  {
    RunBasics(cfg, states, steps, n);
    if n > 0 {
      RunBasics(cfg, states, steps, n - 1);
      hide IsRun, Apply, Registers, Superseded, Tracked, Owned, StoresForOther, Issued;
      var s, step, id := states[n - 1], steps[n - 1], states[n].meta[key].artifactID;
      SupersededUnlessRenewed(cfg, states, steps, n - 1, key, id);
      if !Registers(cfg, s, step, key) {
        OthersKeep(cfg, s, step, key);
        RunTracks(cfg, states, steps, n - 1, key);
      }
      StepTracks(cfg, s, step, key, Superseded(cfg, states, steps, n - 1, key, id));
    }
  }

  /** In every reachable state, and for every key: the handle it is registered on is live if and only
      if its artifact is cached and has not been superseded, that is, stored again for another key
      since the key was last registered.  Otherwise it has been cleaned up, once. */
  lemma RegistrationIsLiveIff(cfg: Config, states: seq<State>, steps: seq<Step>, n: nat, key: string)
    requires IsRun(cfg, states, steps) && n < |states| && key in states[n].meta
    ensures var (s, id) := (states[n], states[n].meta[key].artifactID);
            && key in s.reg
            && s.disk.cleaned[s.reg[key]]
               == if id in s.art && !Superseded(cfg, states, steps, n, key, id) then 0 else 1
  {
    RunKeepsInv(cfg, states, steps, n);
    RunTracks(cfg, states, steps, n, key);
    hide Superseded, Owned;
    var s := states[n];
    assert Ledger(s) && s.reg[key] < s.disk.next;
    assert Resident(s.art, s.reg[key])
           <==> s.meta[key].artifactID in s.art && s.art[s.meta[key].artifactID].fs == s.reg[key];
  }

  /** A successful request, at any point of any run, hands out a live handle if and only if it goes
      past the caches or its key has not been superseded. */
  lemma RequestServesLiveIff(cfg: Config, states: seq<State>, steps: seq<Step>, n: nat)
    requires IsRun(cfg, states, steps) && n < |steps|
    requires steps[n].RequestStep? && Request(cfg, states[n], steps[n].key, steps[n].env).1
    ensures ServesLive(states[n + 1], steps[n].key) <==>
              (HitsCache(cfg, states[n], steps[n].key, Now(steps[n])) ==>
                 !Superseded(cfg, states, steps, n, steps[n].key, states[n].meta[steps[n].key].artifactID))
  {
    var s, key := states[n], steps[n].key;
    RunKeepsInv(cfg, states, steps, n);
    ServesLiveIffRegistered(cfg, s, key, steps[n].env);
    if key in s.meta {
      RunTracks(cfg, states, steps, n, key);
    }
    hide Superseded, Request, Apply, Inv, ServesLive, Enabled;
  }

  // ----- runs without sharing

  /** A key whose artifact is cached is registered on that artifact's handle. */
  ghost predicate HandlesAgree(s: State) {
    forall k :: k in s.meta && s.meta[k].artifactID in s.art ==>
            k in s.reg && s.reg[k] == s.art[s.meta[k].artifactID].fs
  }

  /** No key but this one names the artifact. */
  ghost predicate OnlyNamedBy(s: State, key: string, id: int) {
    forall k :: k in s.meta && k != key ==> s.meta[k].artifactID != id
  }

  /** This step stores no artifact that another key names. */
  ghost predicate Unshared(cfg: Config, s: State, step: Step) {
    Stored(cfg, s, step).Some? ==> OnlyNamedBy(s, step.key, Stored(cfg, s, step).value)
  }

  lemma StoreAgreesIffUnshared(s: State, key: string, id: int, headSHA: string, file: Bytes, now: int,
      victims: set<int>)
    requires HandlesAgree(s) && TablesAgree(s) && Issued(s) && id !in s.art
    ensures HandlesAgree(Stores(s, key, id, headSHA, file, now, victims))
            <==> OnlyNamedBy(s, key, id)
  {
    var t := Stores(s, key, id, headSHA, file, now, victims);
    forall k | k in s.meta && k != key
      ensures s.meta[k].artifactID == id ==> t.meta[k].artifactID in t.art && t.reg[k] != t.art[t.meta[k].artifactID].fs
      ensures s.meta[k].artifactID != id && s.meta[k].artifactID in t.art ==> t.reg[k] == t.art[t.meta[k].artifactID].fs
    {
      assert t.meta[k] == s.meta[k];
      assert k in s.reg && t.reg[k] == s.reg[k];
    }
    if OnlyNamedBy(s, key, id) {
      assert HandlesAgree(t);
    }
  }

  lemma DownloadAgrees(cfg: Config, s: State, key: string, id: int, digest: string, headSHA: string, env: Env)
    requires HandlesAgree(s) && Inv(cfg, s, env.now) && id !in s.art
    ensures var (s', ok) := DownloadAndCache(cfg, s, key, id, digest, headSHA, env);
            && (HandlesAgree(s') <==> (ok ==> OnlyNamedBy(s, key, id)))
            && ok == DownloadArtifact(cfg.format, s.disk, id, env.response, cfg.maxArtifactSize, digest).1.Opened?
  {
    var file := DownloadStores(cfg, s, key, id, digest, headSHA, env);
    StoreAgreesIffUnshared(s, key, id, headSHA, file, env.now, env.victims);
    hide Stores, DownloadArtifact, OnlyNamedBy;
  }

  lemma ServeAgrees(s: State, key: string, id: int, headSHA: string, now: int)
    requires HandlesAgree(s) && id in s.art
    ensures HandlesAgree(ServeCached(s, key, id, headSHA, now))
  {
  }

  lemma TouchAgrees(s: State, id: int, now: int)
    requires HandlesAgree(s)
    ensures HandlesAgree(s.(art := Touch(s.art, id, now)))
  {
  }

  lemma EvictAgrees(s: State, ids: set<int>)
    requires HandlesAgree(s)
    ensures HandlesAgree(EvictArtifacts(s, ids))
  {
  }

  lemma ForgetAgrees(s: State, keys: set<string>)
    requires HandlesAgree(s)
    ensures HandlesAgree(Forget(s, keys))
  {
  }

  lemma EvictKeyAgrees(s: State, key: string)
    requires HandlesAgree(s)
    ensures HandlesAgree(EvictKey(s, key))
  {
    var ids := if key in s.meta then {s.meta[key].artifactID} else {};
    EvictAgrees(s, ids);
    ForgetAgrees(EvictArtifacts(s, ids), {key});
  }

  lemma ResolveAgrees(cfg: Config, s: State, key: string, env: Env)
    requires Inv(cfg, s, env.now) && HandlesAgree(s)
    ensures HandlesAgree(FullResolve(cfg, s, key, env).0) <==> Unshared(cfg, s, ResolveStep(key, env))
    ensures !FullResolve(cfg, s, key, env).1 ==> Stored(cfg, s, ResolveStep(key, env)).None?
  {
    hide HandlesAgree, Inv, OnlyNamedBy, DownloadAndCache, DownloadArtifact, EvictKey, ServeCached;
    match env.answer
    case Failed =>
    case NotOpen => EvictKeyAgrees(s, key);
    case Found(id, digest, headSHA, exactHead) =>
      if KeepsNewer(s, key, id, exactHead) {
        ServeAgrees(s, key, s.meta[key].artifactID, s.meta[key].headSHA, env.now);
      } else if id in s.art {
        ServeAgrees(s, key, id, headSHA, env.now);
      } else {
        DownloadAgrees(cfg, s, key, id, digest, headSHA, env);
      }
  }

  lemma RequestAgrees(cfg: Config, s: State, key: string, env: Env)
    requires Inv(cfg, s, env.now) && HandlesAgree(s)
    ensures HandlesAgree(Request(cfg, s, key, env).0) <==> Unshared(cfg, s, RequestStep(key, env))
  {
    hide HandlesAgree, Inv, OnlyNamedBy, FullResolve, DownloadAndCache, DownloadArtifact, ServeCached;
    if NeedsResolve(cfg, s, key, env.now) {
      ResolveAgrees(cfg, s, key, env);
      var (s', ok) := FullResolve(cfg, s, key, env);
      if !ok && IsServed(s', key) {
        ServeAgrees(s', key, s'.meta[key].artifactID, s'.meta[key].headSHA, env.now);
      }
    } else if IsServed(s, key) {
      TouchAgrees(s, s.meta[key].artifactID, env.now);
    } else {
      DownloadAgrees(cfg, s, key, s.meta[key].artifactID, "", s.meta[key].headSHA, env);
    }
  }

  lemma PruneAgrees(cfg: Config, s: State, answers: PRStates, now: int)
    requires HandlesAgree(s)
    ensures HandlesAgree(Prune(cfg, s, answers, now))
  {
    hide HandlesAgree;
    var closed := ClosedKeys(s, answers);
    EvictAgrees(s, IdsOf(s.meta, closed));
    ForgetAgrees(EvictArtifacts(s, IdsOf(s.meta, closed)), closed);
    var s1 := PruneClosed(s, answers);
    var aged := Aged(s1.art, cfg.maxArtifactAge, now);
    EvictAgrees(s1, aged);
    ForgetAgrees(EvictArtifacts(s1, aged), KeysOf(s.meta, aged));
  }

  /** Exactly the steps that store no artifact that another key names keep every key whose artifact
      is cached registered on the cached handle. */
  lemma AgreementKeptIffUnshared(cfg: Config, s: State, step: Step)
    requires cfg.maxArtifacts >= 1 && Inv(cfg, s, s.clock) && Enabled(cfg, s, step) && HandlesAgree(s)
    ensures HandlesAgree(Apply(cfg, s, step)) <==> Unshared(cfg, s, step)
  {
    LaterKeepsInv(cfg, s, s.clock, Now(step));
    hide Inv, Request, FullResolve, Prune, EvictKey, Stored, OnlyNamedBy;
    match step {
      case RequestStep(key, env) => RequestAgrees(cfg, s, key, env);
      case ResolveStep(key, env) => ResolveAgrees(cfg, s, key, env);
      case EvictStep(key, now) => EvictKeyAgrees(s, key); NothingStored(cfg, s, step);
      case PruneStep(answers, now) => PruneAgrees(cfg, s, answers, now); NothingStored(cfg, s, step);
    }
    SameUnderClock(Perform(cfg, s, step), Now(step));
    hide HandlesAgree;
  }

  lemma NothingStored(cfg: Config, s: State, step: Step)
    requires step.EvictStep? || step.PruneStep?
    ensures Stored(cfg, s, step).None?
  {
  }

  lemma SameUnderClock(p: State, now: int)
    ensures HandlesAgree(p.(clock := now)) <==> HandlesAgree(p)
  {
  }

  lemma {:induction false} RunKeepsAgreement(cfg: Config, states: seq<State>, steps: seq<Step>, n: nat)
    requires IsRun(cfg, states, steps) && n < |states|
    requires forall i :: 0 <= i < n ==> Unshared(cfg, states[i], steps[i])
    ensures HandlesAgree(states[n])
  {
    if n > 0 {
      RunKeepsAgreement(cfg, states, steps, n - 1);
      RunKeepsInv(cfg, states, steps, n - 1);
      AgreementKeptIffUnshared(cfg, states[n - 1], steps[n - 1]);
    }
  }

  /** In particular, in every run whose downloads are unshared, whenever a request succeeds, by whatever path,
      the key is registered on a live handle. */
  lemma RequestsServeLiveHandles(cfg: Config, states: seq<State>, steps: seq<Step>, n: nat)
    requires IsRun(cfg, states, steps) && n < |steps|
    requires forall i :: 0 <= i < n ==> Unshared(cfg, states[i], steps[i])
    requires steps[n].RequestStep? && Request(cfg, states[n], steps[n].key, steps[n].env).1
    ensures ServesLive(states[n + 1], steps[n].key)
  {
    RunKeepsAgreement(cfg, states, steps, n);
    RunKeepsInv(cfg, states, steps, n);
    ServesLiveIffRegistered(cfg, states[n], steps[n].key, steps[n].env);
    hide Request, Inv, Apply, ServesLive, Enabled;
  }
}
