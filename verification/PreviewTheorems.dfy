/** The promises of the preview handler, over whole runs. */
module PreviewTheorems {
  import opened Archive
  import opened Caches
  import opened PreviewSpec
  import opened PreviewRuns

  // ----- tables, disk and handles

  /** In every reachable state metadata and registrations have the same keys, the zips on disk are
      those of the cached artifacts, and there are no more of them than configured. */
  lemma TablesAndDiskAgree(cfg: Config, states: seq<State>, steps: seq<Step>, n: nat)
    requires IsRun(cfg, states, steps) && n < |states|
    ensures states[n].meta.Keys == states[n].reg.Keys
    ensures states[n].disk.files.Keys == states[n].art.Keys
    ensures |states[n].art| <= cfg.maxArtifacts
  {
    RunKeepsInv(cfg, states, steps, n);
  }

  /** Each handle ever opened is at all times either held by exactly one cached artifact and not
      cleaned up, or held by none and cleaned up exactly once. */
  lemma EveryHandleIsAccountedFor(cfg: Config, states: seq<State>, steps: seq<Step>, n: nat, h: Handle)
    requires IsRun(cfg, states, steps) && n < |states|
    ensures var s := states[n];
            if h >= s.disk.next then s.disk.cleaned[h] == 0
            else if exists id :: id in s.art && s.art[id].fs == h then
              && s.disk.cleaned[h] == 0
              && forall a, b :: a in s.art && b in s.art && s.art[a].fs == h && s.art[b].fs == h ==> a == b
            else s.disk.cleaned[h] == 1
  {
    RunKeepsInv(cfg, states, steps, n);
    assert Resident(states[n].art, h) <==> exists id :: id in states[n].art && states[n].art[id].fs == h;
    assert Ledger(states[n]);
  }

  /** After shutdown nothing is registered, nothing is on disk, and every handle that was ever
      opened has been cleaned up exactly once. */
  lemma ShutdownLeavesNothing(cfg: Config, states: seq<State>, steps: seq<Step>, n: nat)
    requires IsRun(cfg, states, steps) && n < |states|
    ensures var s := Shutdown(states[n]);
            && s.reg == map[] && s.disk.files == map[] && s.art == map[] && s.meta == states[n].meta
            && forall h: Handle :: s.disk.cleaned[h] == if h < states[n].disk.next then 1 else 0
  {
    RunKeepsInv(cfg, states, steps, n);
    ShutdownOf(cfg, states[n], states[n].clock);
    hide Inv, Shutdown;
  }

  lemma ShutdownOf(cfg: Config, s: State, now: int)
    requires Inv(cfg, s, now)
    ensures var t := Shutdown(s);
            && t.reg == map[] && t.disk.files == map[] && t.art == map[] && t.meta == s.meta
            && forall h: Handle :: t.disk.cleaned[h] == if h < s.disk.next then 1 else 0
  {
    var u := s.(reg := s.reg - s.meta.Keys);
    assert u.reg == map[];
    OwnedOf(s, u);
    LedgerOf(s, u);
    hide Inv, Stamped, Issued, Ledger, Owned, CleanAll;
    EvictAll(u);
  }

  lemma EvictAll(s: State)
    requires Owned(s) && Ledger(s) && s.disk.files.Keys == s.art.Keys
    ensures var t := EvictArtifacts(s, s.art.Keys);
            && t.reg == s.reg && t.meta == s.meta && t.art == map[] && t.disk.files == map[]
            && forall h: Handle :: t.disk.cleaned[h] == if h < s.disk.next then 1 else 0
  {
    EvictOwned(s, s.art.Keys);
    EvictLedger(s, s.art.Keys);
    var t := EvictArtifacts(s, s.art.Keys);
    assert t.reg == s.reg && t.meta == s.meta && t.art == map[] && t.disk.next == s.disk.next;
    hide Owned, Ledger, CleanAll, EvictArtifacts;
    assert t.disk.files.Keys == {};
    AllCleaned(t);
  }

  /** With nothing cached, the ledger says that every handle has been cleaned up. */
  lemma AllCleaned(t: State)
    requires Ledger(t) && t.art == map[]
    ensures forall h: Handle :: t.disk.cleaned[h] == if h < t.disk.next then 1 else 0
  {
    assert forall h: Handle :: !Resident(t.art, h);
  }

  ghost predicate FilesOk(cfg: Config, d: Disk) {
    forall id :: id in d.files ==> cfg.format.isZip(d.files[id]) && |d.files[id]| <= cfg.maxArtifactSize
  }

  lemma EvictFiles(cfg: Config, s: State, ids: set<int>)
    requires FilesOk(cfg, s.disk)
    ensures FilesOk(cfg, EvictArtifacts(s, ids).disk)
  {
  }

  lemma DownloadFiles(cfg: Config, s: State, key: string, id: int, digest: string, headSHA: string, env: Env)
    requires FilesOk(cfg, s.disk) && id !in s.disk.files
    ensures FilesOk(cfg, DownloadAndCache(cfg, s, key, id, digest, headSHA, env).0.disk)
  {
    var file := DownloadStores(cfg, s, key, id, digest, headSHA, env);
    RejectedLeavesNothing(cfg.format, s.disk, id, env.response, cfg.maxArtifactSize, digest);
    hide DownloadArtifact;
  }

  lemma StepKeepsFiles(cfg: Config, s: State, step: Step)
    requires TablesAgree(s) && FilesOk(cfg, s.disk)
    ensures FilesOk(cfg, Apply(cfg, s, step).disk)
  {
    hide FilesOk, DownloadAndCache, EvictArtifacts;
    if Wanted(cfg, s, step).Some? {
      var (id, digest) := Wanted(cfg, s, step).value;
      var headSHA := if step.env.answer.Found? then step.env.answer.headSHA else "";
      if step.RequestStep? && !NeedsResolve(cfg, s, step.key, step.env.now) {
        headSHA := s.meta[step.key].headSHA;
      }
      DownloadFiles(cfg, s, step.key, id, digest, headSHA, step.env);
    }
    match step
    case RequestStep(key, env) => EvictFiles(cfg, s, if key in s.meta then {s.meta[key].artifactID} else {});
    case ResolveStep(key, env) => EvictFiles(cfg, s, if key in s.meta then {s.meta[key].artifactID} else {});
    case EvictStep(key, now) => EvictFiles(cfg, s, if key in s.meta then {s.meta[key].artifactID} else {});
    case PruneStep(answers, now) =>
      EvictFiles(cfg, s, IdsOf(s.meta, ClosedKeys(s, answers)));
      var s1 := PruneClosed(s, answers);
      EvictFiles(cfg, s1, Aged(s1.art, cfg.maxArtifactAge, now));
  }

  /** Every file on disk is a zip within the configured size. */
  lemma {:induction false} FilesAreZipsWithinSize(cfg: Config, states: seq<State>, steps: seq<Step>, n: nat)
    requires IsRun(cfg, states, steps) && n < |states|
    ensures forall id :: id in states[n].disk.files ==>
              cfg.format.isZip(states[n].disk.files[id]) && |states[n].disk.files[id]| <= cfg.maxArtifactSize
  {
    if n > 0 {
      hide Apply, Enabled, Owned, Ledger, Stamped, Issued;
      FilesAreZipsWithinSize(cfg, states, steps, n - 1);
      RunKeepsInv(cfg, states, steps, n - 1);
      StepKeepsFiles(cfg, states[n - 1], steps[n - 1]);
    }
  }

  // ----- single requests

  /** A key that is being served goes on being served whatever GitHub answers, or fails to answer;
      the one exception is a pull request found to be closed when it comes to be resolved. */
  lemma ServedUnlessClosed(cfg: Config, s: State, key: string, env: Env)
    requires IsServed(s, key)
    ensures Request(cfg, s, key, env).1 <==> !(NeedsResolve(cfg, s, key, env.now) && env.answer.NotOpen?)
  {
    hide DownloadArtifact, CleanAll;
  }

  /** A successful request counts as an access to the artifact it serves. */
  lemma RequestRecordsAccess(cfg: Config, s: State, key: string, env: Env)
    requires Request(cfg, s, key, env).1
    ensures var t := Request(cfg, s, key, env).0;
            IsServed(t, key) && t.art[t.meta[key].artifactID].lastAccess == env.now
  {
    hide DownloadArtifact, CleanAll;
  }

  /** A key has the same metadata and the same registration in both states, or none in either. */
  ghost predicate SameFor(s: State, t: State, key: string) {
    && (key in t.meta <==> key in s.meta) && (key in s.meta ==> t.meta[key] == s.meta[key])
    && (key in t.reg <==> key in s.reg) && (key in s.reg ==> t.reg[key] == s.reg[key])
  }

  lemma DownloadLeavesOtherKeys(cfg: Config, s: State, key: string, id: int, digest: string, headSHA: string,
      env: Env, other: string)
    requires other != key
    ensures SameFor(s, DownloadAndCache(cfg, s, key, id, digest, headSHA, env).0, other)
  {
    hide DownloadArtifact, CleanAll;
  }

  lemma ResolveLeavesOtherKeys(cfg: Config, s: State, key: string, env: Env, other: string)
    requires other != key
    ensures SameFor(s, FullResolve(cfg, s, key, env).0, other)
  {
    if env.answer.Found? {
      DownloadLeavesOtherKeys(cfg, s, key, env.answer.artifactID, env.answer.digest, env.answer.headSHA, env, other);
    }
    hide DownloadAndCache, CleanAll;
  }

  /** A request changes neither the metadata nor the registration of any other key. */
  lemma RequestLeavesOtherKeys(cfg: Config, s: State, key: string, env: Env, other: string)
    requires other != key
    ensures SameFor(s, Request(cfg, s, key, env).0, other)
  {
    ResolveLeavesOtherKeys(cfg, s, key, env, other);
    if key in s.meta {
      DownloadLeavesOtherKeys(cfg, s, key, s.meta[key].artifactID, "", s.meta[key].headSHA, env, other);
    }
    hide FullResolve, DownloadAndCache;
  }

  /** What a refresh that outlives shutdown's wait can do: a download stored after the shutdown
      leaves its file on disk and its handle open, and no one is left to clean them up. */
  lemma LateRefreshLeavesAFile(cfg: Config, states: seq<State>, steps: seq<Step>, n: nat, key: string, env: Env)
    requires IsRun(cfg, states, steps) && n < |states|
    requires Stored(cfg, Shutdown(states[n]), ResolveStep(key, env)).Some? && env.victims == {}
    ensures var t := Apply(cfg, Shutdown(states[n]), ResolveStep(key, env));
            var id := Stored(cfg, Shutdown(states[n]), ResolveStep(key, env)).value;
            && t.disk.files.Keys == {id} && key in t.reg && t.reg[key] == states[n].disk.next
            && t.disk.cleaned[states[n].disk.next] == 0
  {
    ShutdownLeavesNothing(cfg, states, steps, n);
    var s := Shutdown(states[n]);
    var id := env.answer.artifactID;
    assert s.art == map[] && s.disk.next == states[n].disk.next;
    var file := DownloadStores(cfg, s, key, id, env.answer.digest, env.answer.headSHA, env);
    CleanNone(Disk(s.disk.files[id := file], s.disk.cleaned, s.disk.next + 1), s.art);
    hide Shutdown, DownloadArtifact, DownloadAndCache, CleanAll;
    assert s.disk.files[id := file].Keys == {id};
  }
}
