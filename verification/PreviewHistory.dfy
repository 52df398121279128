/** What a key goes through over time: which build it serves, and how often it is resolved. */
module PreviewHistory {
  import opened ByteSize
  import opened Archive
  import opened Caches
  import opened Github
  import opened PreviewSpec
  import opened PreviewRuns
  import opened PreviewTheorems

  // ----- which build a key serves

  /** This step resolves the key to an older artifact than the one it has, which can be served, and
      which is either for the head commit or replaces one that is no longer cached. */
  ghost predicate Regresses(cfg: Config, s: State, step: Step, key: string) {
    && (step.ResolveStep? || (step.RequestStep? && NeedsResolve(cfg, s, key, Now(step))))
    && step.key == key && key in s.meta
    && step.env.answer.Found?
    && var id := step.env.answer.artifactID;
       && id < s.meta[key].artifactID
       && (step.env.answer.exactHead || !IsServed(s, key))
       && (id in s.art || Stored(cfg, s, step).Some?)
  }

  /** The key is kept, with a lower artifact ID than before. */
  ghost predicate GoesDown(s: State, t: State, key: string) {
    key in s.meta && key in t.meta && t.meta[key].artifactID < s.meta[key].artifactID
  }

  lemma EvictKeyOnlyForgets(s: State, key: string)
    ensures var s' := EvictKey(s, key); key !in s'.meta && forall k :: k in s'.meta ==>
            k in s.meta && s'.meta[k] == s.meta[k]
  {
    hide CleanAll;
  }

  lemma PruneOnlyForgets(cfg: Config, s: State, answers: PRStates, now: int)
    ensures forall k :: k in Prune(cfg, s, answers, now).meta ==>
            k in s.meta && Prune(cfg, s, answers, now).meta[k] == s.meta[k]
  {
    hide CleanAll, ClosedKeys, IdsOf, KeysOf, Aged;
  }

  lemma ResolveRegresses(cfg: Config, s: State, key: string, env: Env)
    ensures GoesDown(s, FullResolve(cfg, s, key, env).0, key) <==> Regresses(cfg, s, ResolveStep(key, env), key)
    ensures var (s', ok) := FullResolve(cfg, s, key, env);
            !ok && key in s.meta && key in s'.meta ==> s'.meta[key] == s.meta[key]
  {
    hide DownloadArtifact, CleanAll;
  }

  lemma RequestRegresses(cfg: Config, s: State, key: string, env: Env)
    ensures GoesDown(s, Request(cfg, s, key, env).0, key) <==> Regresses(cfg, s, RequestStep(key, env), key)
  {
    ResolveRegresses(cfg, s, key, env);
    if NeedsResolve(cfg, s, key, env.now) {
      assert Stored(cfg, s, RequestStep(key, env)) == Stored(cfg, s, ResolveStep(key, env));
    }
    hide FullResolve, DownloadArtifact, CleanAll, Stored;
  }

  /** A key's artifact ID goes down in exactly these steps: the step resolved it to an artifact that
      is older and can be had, and either that was for the head commit or the newer one was no
      longer cached. */
  lemma RegressesExactly(cfg: Config, s: State, step: Step, key: string)
    ensures GoesDown(s, Apply(cfg, s, step), key) <==> Regresses(cfg, s, step, key)
  {
    match step
    case RequestStep(k, env) =>
      if k == key {
        RequestRegresses(cfg, s, key, env);
      } else {
        RequestLeavesOtherKeys(cfg, s, k, env, key);
      }
      hide Request, Stored;
    case ResolveStep(k, env) =>
      if k == key {
        ResolveRegresses(cfg, s, key, env);
      } else {
        ResolveLeavesOtherKeys(cfg, s, k, env, key);
      }
      hide FullResolve, Stored;
    case EvictStep(k, now) =>
      EvictKeyOnlyForgets(s, k);
      hide EvictKey;
    case PruneStep(answers, now) =>
      PruneOnlyForgets(cfg, s, answers, now);
      hide Prune;
  }

  /** While a key is kept, its artifact ID never goes down if and only if no step regresses it. */
  lemma ArtifactsOnlyGetNewer(cfg: Config, states: seq<State>, steps: seq<Step>, key: string, i: nat, j: nat)
    requires IsRun(cfg, states, steps) && i <= j < |states|
    requires forall m :: i <= m <= j ==> key in states[m].meta
    ensures (forall m, n :: i <= m <= n <= j ==> states[m].meta[key].artifactID <= states[n].meta[key].artifactID)
            <==> forall m :: i <= m < j ==> !Regresses(cfg, states[m], steps[m], key)
  {
    hide Apply, Regresses, Enabled;
    forall m | i <= m < j
      ensures Regresses(cfg, states[m], steps[m], key)
              <==> states[m + 1].meta[key].artifactID < states[m].meta[key].artifactID
    {
      RegressesExactly(cfg, states[m], steps[m], key);
    }
    if forall m :: i <= m < j ==> !Regresses(cfg, states[m], steps[m], key) {
      forall m, n | i <= m <= n <= j
        ensures states[m].meta[key].artifactID <= states[n].meta[key].artifactID
      {
        NeverDown(states, key, m, n);
      }
    } else {
      var m :| i <= m < j && Regresses(cfg, states[m], steps[m], key);
      var n := m + 1;
      assert i <= m <= n <= j && states[n].meta[key].artifactID < states[m].meta[key].artifactID;
    }
  }

  lemma {:induction false} NeverDown(states: seq<State>, key: string, m: nat, n: nat)
    requires m <= n < |states| && forall x :: m <= x <= n ==> key in states[x].meta
    requires forall x :: m <= x < n ==> states[x].meta[key].artifactID <= states[x + 1].meta[key].artifactID
    ensures states[m].meta[key].artifactID <= states[n].meta[key].artifactID
    decreases n
  {
    if m < n { NeverDown(states, key, m, n - 1); }
  }

  /** What the readme rules out: the branch listing found the build, and it replaced a newer one that
      was being served from the cache. */
  ghost predicate ListingReplacesNewer(cfg: Config, s: State, server: Server, key: string, env: Env) {
    && IsServed(s, key)
    && FoundByListing(server, cfg.artifactName, key)
    && GoesDown(s, FullResolve(cfg, s, key, env).0, key)
  }

  /** It happens exactly when the listed run claims the head commit, so that the build passes for one
      found by the head commit, and its older artifact can be had. */
  lemma ListingReplacesNewerExactly(cfg: Config, s: State, server: Server, key: string, env: Env)
    requires env.answer == ResolveKey(server, cfg.artifactName, key)
    ensures ListingReplacesNewer(cfg, s, server, key, env) <==>
              && IsServed(s, key)
              && FoundByListing(server, cfg.artifactName, key)
              && ClaimsHead(server, cfg.artifactName, key)
              && var id := Chosen(server, cfg.artifactName, key).value.1.id;
                 && id < s.meta[key].artifactID
                 && (id in s.art || Stored(cfg, s, ResolveStep(key, env)).Some?)
  {
    AnswerIsChosen(server, cfg.artifactName, key);
    ResolveRegresses(cfg, s, key, env);
    hide ResolveKey, Chosen, ClaimsHead, HeadPool, FullResolve, Stored;
  }

  /** A successful resolution of a branch, answered by `server`, serves the newest usable build of
      the branch's head commit or else of its listing (`Github.ChoosesNewest` says which one that
      is), unless a newer artifact is already being served and the build was not made from the
      head commit. */
  lemma BranchServesNewestBuild(cfg: Config, s: State, server: Server, branch: string, env: Env)
    requires env.answer == ResolveKey(server, cfg.artifactName, BRANCH_PREFIX + branch)
    requires FullResolve(cfg, s, BRANCH_PREFIX + branch, env).1
    ensures var key := BRANCH_PREFIX + branch;
            var s' := FullResolve(cfg, s, key, env).0;
            var head := server.branchHead(branch);
            var headSHA := if head.Some? then head.value else "";
            var choice := ResolveArtifactAt(server, cfg.artifactName, branch, headSHA);
            && choice.Some?
            && (s'.meta[key] == MetadataEntry(choice.value.1.id, choice.value.0.headSHA, env.now)
                || (&& key in s.meta && s.meta[key].artifactID in s.art
                    && s'.meta[key] == MetadataEntry(s.meta[key].artifactID, s.meta[key].headSHA, env.now)
                    && s.meta[key].artifactID > choice.value.1.id
                    && (headSHA == "" || choice.value.0.headSHA != headSHA)))
  {
    var key := BRANCH_PREFIX + branch;
    assert BRANCH_PREFIX <= key && key[|BRANCH_PREFIX|..] == branch;
    hide ResolveArtifactAt, DownloadArtifact, CleanAll, StrconvAtoi;
  }

  /** The same for a pull request: the search starts from its head commit and branch, and succeeds
      only while it is open. */
  lemma PullRequestServesNewestBuild(cfg: Config, s: State, server: Server, number: string, env: Env)
    requires env.answer == ResolveKey(server, cfg.artifactName, PR_PREFIX + number)
    requires FullResolve(cfg, s, PR_PREFIX + number, env).1
    ensures StrconvAtoi(number).Success? && server.pullRequest(StrconvAtoi(number).value).Some?
    ensures var key := PR_PREFIX + number;
            var s' := FullResolve(cfg, s, key, env).0;
            var pr := server.pullRequest(StrconvAtoi(number).value).value;
            var choice := ResolveArtifactAt(server, cfg.artifactName, pr.headRef, pr.headSHA);
            && pr.state == "open" && choice.Some?
            && (s'.meta[key] == MetadataEntry(choice.value.1.id, choice.value.0.headSHA, env.now)
                || (&& key in s.meta && s.meta[key].artifactID in s.art
                    && s'.meta[key] == MetadataEntry(s.meta[key].artifactID, s.meta[key].headSHA, env.now)
                    && s.meta[key].artifactID > choice.value.1.id
                    && (pr.headSHA == "" || choice.value.0.headSHA != pr.headSHA)))
  {
    var key := PR_PREFIX + number;
    assert PR_PREFIX <= key && key[|PR_PREFIX|..] == number;
    assert key[0] == 'p' && !(BRANCH_PREFIX <= key);
    hide ResolveArtifactAt, DownloadArtifact, CleanAll, StrconvAtoi;
  }

  // ----- how often a key is resolved

  ghost predicate ResolvesForRequest(cfg: Config, s: State, step: Step, key: string) {
    step.RequestStep? && step.key == key && NeedsResolve(cfg, s, key, step.env.now)
  }

  lemma ResolveStamps(cfg: Config, s: State, key: string, env: Env, k: string)
    requires Inv(cfg, s, env.now)
    ensures var s' := FullResolve(cfg, s, key, env).0;
            k in s.meta && k in s'.meta ==> s'.meta[k].resolvedAt >= s.meta[k].resolvedAt
    ensures var (s', ok) := FullResolve(cfg, s, key, env);
            && (ok ==> key in s'.meta && s'.meta[key].resolvedAt == env.now)
            && (!ok && key in s'.meta ==> s'.art == s.art)
  {
    hide DownloadArtifact, CleanAll, Owned, Ledger;
  }

  lemma FallBackStamps(s: State, key: string, now: int, k: string)
    requires forall x :: x in s.meta ==> s.meta[x].resolvedAt <= now
    ensures var s' := FallBack(s, key, now).0;
            k in s.meta ==> k in s'.meta && s'.meta[k].resolvedAt >= s.meta[k].resolvedAt
    ensures IsServed(s, key) ==> FallBack(s, key, now).0.meta[key].resolvedAt == now
    ensures !IsServed(s, key) ==> FallBack(s, key, now).0 == s
  {
  }

  /** A key's resolution time never goes back while the key is kept. */
  lemma StampsNeverGoBack(cfg: Config, s: State, step: Step, key: string)
    requires cfg.maxArtifacts >= 1 && Inv(cfg, s, s.clock) && Enabled(cfg, s, step)
    requires key in s.meta && key in Apply(cfg, s, step).meta
    ensures Apply(cfg, s, step).meta[key].resolvedAt >= s.meta[key].resolvedAt
  {
    LaterKeepsInv(cfg, s, s.clock, Now(step));
    match step
    case RequestStep(k, env) =>
      RequestStamps(cfg, s, k, env, key);
      hide Request, Inv;
    case ResolveStep(k, env) =>
      ResolveStamps(cfg, s, k, env, key);
      hide FullResolve, Inv;
    case EvictStep(k, now) =>
      EvictKeyOnlyForgets(s, k);
      hide EvictKey, Inv;
    case PruneStep(answers, now) =>
      PruneOnlyForgets(cfg, s, answers, now);
      hide Prune, Inv;
  }

  lemma RequestStamps(cfg: Config, s: State, key: string, env: Env, k: string)
    requires Inv(cfg, s, env.now)
    ensures var t := Request(cfg, s, key, env).0;
            k in s.meta && k in t.meta ==> t.meta[k].resolvedAt >= s.meta[k].resolvedAt
  {
    ResolveStamps(cfg, s, key, env, k);
    ResolveKeepsStamps(cfg, s, key, env);
    FallBackStamps(FullResolve(cfg, s, key, env).0, key, env.now, k);
    if k != key {
      RequestLeavesOtherKeys(cfg, s, key, env, k);
    }
    hide FullResolve, FallBack, Inv, DownloadArtifact, CleanAll;
  }

  lemma ResolveKeepsStamps(cfg: Config, s: State, key: string, env: Env)
    requires forall x :: x in s.meta ==> s.meta[x].resolvedAt <= env.now
    ensures forall x :: x in FullResolve(cfg, s, key, env).0.meta ==>
            FullResolve(cfg, s, key, env).0.meta[x].resolvedAt <= env.now
  {
    EvictKeyOnlyForgets(s, key);
    hide EvictKey, DownloadArtifact, CleanAll;
  }

  /** A request that resolved stamps its key with the present, whether GitHub answered or not, if
      afterwards the key is still served. */
  lemma ResolvingStampsNow(cfg: Config, s: State, step: Step, key: string)
    requires Inv(cfg, s, Now(step)) && ResolvesForRequest(cfg, s, step, key)
    requires IsServed(Apply(cfg, s, step), key)
    ensures Apply(cfg, s, step).meta[key].resolvedAt == Now(step)
  {
    var env := step.env;
    ResolveStamps(cfg, s, key, env, key);
    ResolveKeepsStamps(cfg, s, key, env);
    FallBackStamps(FullResolve(cfg, s, key, env).0, key, env.now, key);
    hide FullResolve, FallBack, Inv;
  }

  lemma {:induction false} StampedSince(cfg: Config, states: seq<State>, steps: seq<Step>, key: string, i: nat, j: nat)
    requires IsRun(cfg, states, steps) && i < j <= |steps|
    requires ResolvesForRequest(cfg, states[i], steps[i], key)
    requires forall m :: i < m <= j ==> IsServed(states[m], key)
    ensures key in states[j].meta && states[j].meta[key].resolvedAt >= Now(steps[i])
    decreases j
  {
    hide Apply, Inv, ResolvesForRequest;
    assert IsServed(states[j], key);
    if j == i + 1 {
      RunKeepsInv(cfg, states, steps, i);
      LaterKeepsInv(cfg, states[i], states[i].clock, Now(steps[i]));
      ResolvingStampsNow(cfg, states[i], steps[i], key);
    } else {
      StampedSince(cfg, states, steps, key, i, j - 1);
      assert states[j] == Apply(cfg, states[j - 1], steps[j - 1]);
      RunKeepsInv(cfg, states, steps, j - 1);
      StampsNeverGoBack(cfg, states[j - 1], steps[j - 1], key);
    }
  }

  /** While the key stays served, two resolutions that requests of the key wait for are more than the
      TTL apart, even if GitHub keeps failing.  (With stale-while-revalidate there are none.) */
  lemma ResolvesAreSpaced(cfg: Config, states: seq<State>, steps: seq<Step>, key: string, i: nat, j: nat)
    requires IsRun(cfg, states, steps) && i < j < |steps|
    requires ResolvesForRequest(cfg, states[i], steps[i], key) && ResolvesForRequest(cfg, states[j], steps[j], key)
    requires forall m :: i < m <= j ==> IsServed(states[m], key)
    ensures Now(steps[j]) - Now(steps[i]) > cfg.ttl
  {
    StampedSince(cfg, states, steps, key, i, j);
    assert IsServed(states[j], key);
  }

  lemma {:induction false} ResolvesSpread(cfg: Config, states: seq<State>, steps: seq<Step>, key: string, at: seq<nat>)
    requires IsRun(cfg, states, steps) && |at| > 0
    requires forall x, y :: 0 <= x < y < |at| ==> at[x] < at[y]
    requires forall x :: 0 <= x < |at| ==> at[x] < |steps| && ResolvesForRequest(cfg, states[at[x]], steps[at[x]], key)
    requires forall m :: at[0] < m <= at[|at| - 1] ==> IsServed(states[m], key)
    ensures Now(steps[at[|at| - 1]]) - Now(steps[at[0]]) >= (|at| - 1) * (cfg.ttl + 1)
  {
    if |at| > 1 {
      ResolvesSpread(cfg, states, steps, key, at[..|at| - 1]);
      ResolvesAreSpaced(cfg, states, steps, key, at[|at| - 2], at[|at| - 1]);
      assert (|at| - 1) * (cfg.ttl + 1) == (|at| - 2) * (cfg.ttl + 1) + (cfg.ttl + 1);
    }
  }

  /** So a window of length `window` holds at most window / TTL + 1 of them. */
  lemma ResolvesAreRare(cfg: Config, states: seq<State>, steps: seq<Step>, key: string, at: seq<nat>, window: nat)
    requires IsRun(cfg, states, steps) && |at| > 0 && cfg.ttl > 0
    requires forall x, y :: 0 <= x < y < |at| ==> at[x] < at[y]
    requires forall x :: 0 <= x < |at| ==> at[x] < |steps| && ResolvesForRequest(cfg, states[at[x]], steps[at[x]], key)
    requires forall m :: at[0] < m <= at[|at| - 1] ==> IsServed(states[m], key)
    requires Now(steps[at[|at| - 1]]) - Now(steps[at[0]]) <= window
    ensures |at| <= window / cfg.ttl + 1
  {
    ResolvesSpread(cfg, states, steps, key, at);
    Quotient(|at| - 1, cfg.ttl, window);
  }

  lemma Quotient(n: nat, ttl: int, window: nat)
    requires ttl > 0 && n * (ttl + 1) <= window
    ensures n <= window / ttl
  {
    var q := window / ttl;
    assert n * (ttl + 1) == n * ttl + n;
    assert (q + 1) * ttl == q * ttl + ttl;
    TimesGrows(q + 1, n, ttl);
  }

  lemma {:induction false} TimesGrows(a: nat, b: nat, c: nat)
    ensures a <= b ==> a * c <= b * c
  {
    if c > 0 {
      TimesGrows(a, b, c - 1);
      assert a * c == a * (c - 1) + a && b * c == b * (c - 1) + b;
    }
  }

  // ----- stale-while-revalidate

  /** This step resolves the key successfully without a request waiting for it, as a background
      refresh does. */
  ghost predicate Refreshes(cfg: Config, s: State, step: Step, key: string) {
    step.ResolveStep? && step.key == key && FullResolve(cfg, s, key, step.env).1
  }

  /** A stale key whose refresh has run is still served stale exactly if that failed, unless the pull
      request turned out to be closed: a failed refresh does not put off the next one. */
  lemma StaleAfterFailedRefresh(cfg: Config, s: State, key: string, env: Env)
    requires ServesStale(cfg, s, key, env.now)
    ensures ServesStale(cfg, FullResolve(cfg, s, key, env).0, key, env.now) <==>
              !env.answer.NotOpen? && (cfg.ttl < 0 || !FullResolve(cfg, s, key, env).1)
  {
    hide DownloadArtifact, CleanAll;
  }

  /** While a key is served stale, only a successful refresh stamps it. */
  lemma StampKept(cfg: Config, s: State, step: Step, key: string)
    requires cfg.staleWhileRevalidate && IsServed(s, key) && !Refreshes(cfg, s, step, key)
    requires key in Apply(cfg, s, step).meta
    ensures Apply(cfg, s, step).meta[key].resolvedAt == s.meta[key].resolvedAt
  {
    match step
    case RequestStep(k, env) =>
      if k != key { RequestLeavesOtherKeys(cfg, s, k, env, key); }
      hide FullResolve, DownloadAndCache;
    case ResolveStep(k, env) =>
      if k == key {
        ResolveRegresses(cfg, s, key, env);
      } else {
        ResolveLeavesOtherKeys(cfg, s, k, env, key);
      }
      hide FullResolve;
    case EvictStep(k, now) =>
      EvictKeyOnlyForgets(s, k);
      hide EvictKey;
    case PruneStep(answers, now) =>
      PruneOnlyForgets(cfg, s, answers, now);
      hide Prune;
  }

  ghost predicate RefreshedBetween(cfg: Config, states: seq<State>, steps: seq<Step>, key: string, i: nat, j: nat)
    requires |states| == |steps| + 1 && j <= |steps|
  {
    exists m :: i < m < j && Refreshes(cfg, states[m], steps[m], key)
  }

  lemma {:induction false} StampSinceStale(cfg: Config, states: seq<State>, steps: seq<Step>, key: string,
      i: nat, j: nat)
    requires IsRun(cfg, states, steps) && i < j <= |steps| && cfg.staleWhileRevalidate
    requires steps[i].RequestStep? && forall m :: i <= m <= j ==> IsServed(states[m], key)
    ensures IsServed(states[i], key) && IsServed(states[j], key)
    ensures var at := states[j].meta[key].resolvedAt;
            if RefreshedBetween(cfg, states, steps, key, i, j) then at >= Now(steps[i])
            else at == states[i].meta[key].resolvedAt
    decreases j
  {
    hide Apply, Inv, Refreshes;
    assert IsServed(states[i], key) && IsServed(states[j], key) && IsServed(states[j - 1], key);
    var s, step := states[j - 1], steps[j - 1];
    assert states[j] == Apply(cfg, s, step);
    if j == i + 1 {
      assert !Refreshes(cfg, s, step, key) by { NoRefresh(cfg, s, step, key); }
      StampKept(cfg, s, step, key);
    } else {
      StampSinceStale(cfg, states, steps, key, i, j - 1);
      if Refreshes(cfg, s, step, key) {
        RunKeepsInv(cfg, states, steps, j - 1);
        RefreshStampsNow(cfg, s, step, key);
        TimesIncrease(cfg, states, steps, i, j - 1);
      } else {
        StampKept(cfg, s, step, key);
      }
    }
  }

  lemma NoRefresh(cfg: Config, s: State, step: Step, key: string)
    requires step.RequestStep?
    ensures !Refreshes(cfg, s, step, key)
  {
  }

  lemma RefreshStampsNow(cfg: Config, s: State, step: Step, key: string)
    requires Inv(cfg, s, s.clock) && Enabled(cfg, s, step) && Refreshes(cfg, s, step, key)
    ensures key in Apply(cfg, s, step).meta && Apply(cfg, s, step).meta[key].resolvedAt == Now(step)
  {
    LaterKeepsInv(cfg, s, s.clock, Now(step));
    ResolveStamps(cfg, s, key, step.env, key);
    hide FullResolve, Inv, Stored;
  }

  lemma {:induction false} TimesIncrease(cfg: Config, states: seq<State>, steps: seq<Step>, i: nat, j: nat)
    requires IsRun(cfg, states, steps) && i <= j < |steps|
    ensures Now(steps[i]) <= Now(steps[j])
    decreases j
  {
    if i < j {
      TimesIncrease(cfg, states, steps, i, j - 1);
      assert states[j] == Apply(cfg, states[j - 1], steps[j - 1]) && Enabled(cfg, states[j], steps[j]);
    }
    hide Perform, Stored;
  }

  /** With stale-while-revalidate, of two requests no more than the TTL apart of which the first is
      served stale, the second is served stale as well, and so starts a refresh if none is running,
      if and only if no refresh of the key has succeeded in between. */
  lemma StaleUntilRefreshed(cfg: Config, states: seq<State>, steps: seq<Step>, key: string, i: nat, j: nat)
    requires IsRun(cfg, states, steps) && i < j < |steps|
    requires steps[i].RequestStep? && ServesStale(cfg, states[i], key, Now(steps[i]))
    requires Now(steps[j]) - Now(steps[i]) <= cfg.ttl
    requires forall m :: i <= m <= j ==> IsServed(states[m], key)
    ensures ServesStale(cfg, states[j], key, Now(steps[j])) <==> !RefreshedBetween(cfg, states, steps, key, i, j)
  {
    StampSinceStale(cfg, states, steps, key, i, j);
    TimesIncrease(cfg, states, steps, i, j);
    assert IsServed(states[j], key);
    hide IsRun, RefreshedBetween;
  }
}
