/** A failed background refresh that is repeated at once: a run of four steps.

    A stale key is served from the cache and refreshed in the background.  The refresh fails, which
    leaves the key as stale as it was, so the next request starts another refresh, however soon it
    comes. */
module RefreshRetries {
  import opened Archive
  import opened Caches
  import opened Github
  import opened PreviewSpec
  import opened PreviewRuns

  const BUILD := Found(7, "", "sha", true)

  /** GitHub cannot be reached. */
  function Down(now: int): Env {
    Env(now, Failed, Refused, {})
  }

  function Steps(key: string, ttl: nat, zip: Bytes): seq<Step> {
    [ RequestStep(key, Env(0, BUILD, Delivered(zip), {})), RequestStep(key, Down(ttl + 1)),
      ResolveStep(key, Down(ttl + 1)), RequestStep(key, Down(ttl + 1))]
  }

  /** The artifact is cached since the beginning, and was accessed last at this time. */
  function Cached(key: string, zip: Bytes, accessed: int): State {
    State(map[key := MetadataEntry(7, "sha", 0)],
          map[7 := ArtifactEntry(0, |zip|, accessed, Cleanup(0, 7))],
          map[key := 0],
          Disk(map[7 := zip], multiset{}, 1),
          accessed)
  }

  function States(key: string, ttl: nat, zip: Bytes): seq<State> {
    var stale := Cached(key, zip, ttl + 1);
    [INITIAL, Cached(key, zip, 0), stale, stale, stale]
  }

  ghost predicate Follows(cfg: Config, s: State, step: Step, t: State) {
    Enabled(cfg, s, step) && Apply(cfg, s, step) == t
  }

  lemma FirstRequest(cfg: Config, key: string, zip: Bytes)
    requires Takes(cfg, zip) && cfg.maxArtifacts >= 1
    ensures var step := RequestStep(key, Env(0, BUILD, Delivered(zip), {}));
            Follows(cfg, INITIAL, step, Cached(key, zip, 0))
  {
    var env := Env(0, BUILD, Delivered(zip), {});
    DeliveredIsAdded(cfg, INITIAL, key, 7, "sha", env, zip);
    hide DownloadAndCache, Delivered, Takes, Stored;
    assert FullResolve(cfg, INITIAL, key, env) == DownloadAndCache(cfg, INITIAL, key, 7, "", "sha", env);
  }

  /** A request of a stale key finds nothing to wait for, and leaves the key as stale. */
  lemma StaleRequest(cfg: Config, key: string, zip: Bytes, accessed: int)
    requires cfg.staleWhileRevalidate && cfg.ttl >= 0 && accessed <= cfg.ttl + 1
    ensures var (s, step) := (Cached(key, zip, accessed), RequestStep(key, Down(cfg.ttl + 1)));
            && Follows(cfg, s, step, Cached(key, zip, cfg.ttl + 1))
            && ServesStale(cfg, s, key, cfg.ttl + 1)
  {
  }

  lemma FailedRefresh(cfg: Config, key: string, zip: Bytes, now: int)
    ensures var (s, step) := (Cached(key, zip, now), ResolveStep(key, Down(now)));
            Follows(cfg, s, step, s) && !FullResolve(cfg, s, key, step.env).1
  {
  }

  lemma StepsFollow(cfg: Config, states: seq<State>, steps: seq<Step>)
    requires |states| == 5 && |steps| == 4 && states[0] == INITIAL && cfg.maxArtifacts >= 1
    requires Follows(cfg, states[0], steps[0], states[1]) && Follows(cfg, states[1], steps[1], states[2])
    requires Follows(cfg, states[2], steps[2], states[3]) && Follows(cfg, states[3], steps[3], states[4])
    ensures IsRun(cfg, states, steps)
  {
    hide Apply, Enabled;
    forall i | 0 <= i < |steps|
      ensures Enabled(cfg, states[i], steps[i]) && states[i + 1] == Apply(cfg, states[i], steps[i])
    {
      assert Follows(cfg, states[i], steps[i], states[i + 1]);
    }
  }

  lemma RunIsPossible(cfg: Config, key: string, zip: Bytes)
    requires Takes(cfg, zip) && cfg.maxArtifacts >= 1 && cfg.staleWhileRevalidate && cfg.ttl >= 0
    ensures IsRun(cfg, States(key, cfg.ttl, zip), Steps(key, cfg.ttl, zip))
  {
    hide Follows, ServesStale, FullResolve, Takes, IsRun;
    FirstRequest(cfg, key, zip);
    StaleRequest(cfg, key, zip, 0);
    FailedRefresh(cfg, key, zip, cfg.ttl + 1);
    StaleRequest(cfg, key, zip, cfg.ttl + 1);
    hide Cached, Down;
    StepsFollow(cfg, States(key, cfg.ttl, zip), Steps(key, cfg.ttl, zip));
  }

  /** For every zip and every handler that takes it and serves stale: the run is possible, its second
      request is served stale, the refresh fails, and a third request at the same time is served
      stale again. */
  lemma FailedRefreshIsRepeatedAtOnce(cfg: Config, key: string, zip: Bytes)
    requires Takes(cfg, zip) && cfg.maxArtifacts >= 1 && cfg.staleWhileRevalidate && cfg.ttl >= 0
    ensures var (states, steps) := (States(key, cfg.ttl, zip), Steps(key, cfg.ttl, zip));
            && IsRun(cfg, states, steps)
            && ServesStale(cfg, states[1], key, Now(steps[1]))
            && !FullResolve(cfg, states[2], key, steps[2].env).1
            && ServesStale(cfg, states[3], key, Now(steps[3])) && Now(steps[3]) == Now(steps[1])
  {
    RunIsPossible(cfg, key, zip);
    StaleRequest(cfg, key, zip, 0);
    FailedRefresh(cfg, key, zip, cfg.ttl + 1);
    StaleRequest(cfg, key, zip, cfg.ttl + 1);
    hide Follows, ServesStale, FullResolve, Cached, Takes, IsRun, Down, Delivered;
  }
}
