/** Two keys that share an artifact: a run that ends with a request answered from a file system
    that has been cleaned up.

    A pull request and the branch it was opened from resolve to the same build.  Evicting the pull
    request takes the artifact away from both; requesting it again downloads a new copy for the
    pull request alone.  The branch's metadata is still fresh and its artifact is cached again, so
    its next request succeeds at once, and the old handle stays registered. */
module SharedArtifact {
  import opened Archive
  import opened Caches
  import opened Github
  import opened PreviewSpec
  import opened PreviewRuns
  import opened Registrations

  const PR := "pr:42"
  const BRANCH := "branch:x"
  const BUILD := Found(7, "", "sha", true)

  function At(now: int, zip: Bytes): Env {
    Env(now, BUILD, Delivered(zip), {})
  }

  /** The artifact in its nth copy. */
  function Copy(n: nat, accessed: int, zip: Bytes): ArtifactEntry {
    ArtifactEntry(n, |zip|, accessed, Cleanup(n, 7))
  }

  function Entry(at: int): MetadataEntry {
    MetadataEntry(7, "sha", at)
  }

  function Steps(zip: Bytes): seq<Step> {
    [ RequestStep(PR, At(1, zip)), RequestStep(BRANCH, At(2, zip)), EvictStep(PR, 3), RequestStep(PR, At(4, zip)),
      RequestStep(BRANCH, At(5, zip))]
  }

  function States(zip: Bytes): seq<State> {
    [ INITIAL,
      State(map[PR := Entry(1)], map[7 := Copy(0, 1, zip)], map[PR := 0], Disk(map[7 := zip], multiset{}, 1), 1),
      State(map[PR := Entry(1), BRANCH := Entry(2)], map[7 := Copy(0, 2, zip)], map[PR := 0, BRANCH := 0],
            Disk(map[7 := zip], multiset{}, 1), 2),
      State(map[BRANCH := Entry(2)], map[], map[BRANCH := 0], Disk(map[], multiset{0}, 1), 3),
      State(map[PR := Entry(4), BRANCH := Entry(2)], map[7 := Copy(1, 4, zip)], map[PR := 1, BRANCH := 0],
            Disk(map[7 := zip], multiset{0}, 2), 4),
      State(map[PR := Entry(4), BRANCH := Entry(2)], map[7 := Copy(1, 5, zip)], map[PR := 1, BRANCH := 0],
            Disk(map[7 := zip], multiset{0}, 2), 5)]
  }

  /** The run is the same for every handler that keeps metadata fresh for three units of time. */
  predicate Suits(cfg: Config, zip: Bytes) {
    Takes(cfg, zip) && cfg.maxArtifacts >= 1 && cfg.ttl >= 3
  }

  ghost predicate Follows(cfg: Config, zip: Bytes, i: nat)
    requires i < 5
  {
    Enabled(cfg, States(zip)[i], Steps(zip)[i]) && Apply(cfg, States(zip)[i], Steps(zip)[i]) == States(zip)[i + 1]
  }

  lemma DownloadEnabled(cfg: Config, s: State, now: int, zip: Bytes)
    requires cfg.maxArtifacts >= 1 && s.art == map[] && now >= s.clock
    ensures Enabled(cfg, s, RequestStep(PR, At(now, zip)))
  {
    hide Stored;
  }

  /** A request for the pull request that finds nothing cached and downloads the artifact. */
  lemma Downloads(cfg: Config, s: State, now: int, zip: Bytes)
    requires Takes(cfg, zip) && s.art == map[] && PR !in s.meta
    ensures Request(cfg, s, PR, At(now, zip)).0 == Add(s, PR, 7, "sha", zip, now)
  {
    var env := At(now, zip);
    DeliveredIsAdded(cfg, s, PR, 7, "sha", env, zip);
    hide DownloadAndCache, Delivered, Takes, Add;
    assert FullResolve(cfg, s, PR, env) == DownloadAndCache(cfg, s, PR, 7, "", "sha", env);
  }

  lemma FirstDownload(cfg: Config, zip: Bytes)
    requires Suits(cfg, zip)
    ensures Follows(cfg, zip, 0)
  {
    DownloadEnabled(cfg, INITIAL, 1, zip);
    Downloads(cfg, INITIAL, 1, zip);
    hide Enabled, Request, Takes;
  }

  lemma ServedToBranch(cfg: Config, zip: Bytes)
    requires Suits(cfg, zip)
    ensures Follows(cfg, zip, 1)
  {
    hide DownloadArtifact, CleanAll, Delivered, Takes;
    assert PR != BRANCH;
  }

  lemma EvictedByPR(cfg: Config, zip: Bytes)
    ensures Follows(cfg, zip, 2)
  {
    hide DownloadArtifact, Delivered;
    assert PR != BRANCH;
    var s := States(zip)[2];
    CleanNone(s.disk, s.art);
    CleanOneMore(s.disk, s.art, {}, 7);
    assert {} + {7} == {7};
    assert CleanAll(s.disk, s.art, {7}) == Disk(map[], multiset{0}, 1);
    hide CleanAll;
    assert s.art - {7} == map[];
    assert s.meta - {PR} == map[BRANCH := Entry(2)] && s.reg - {PR} == map[BRANCH := 0];
  }

  lemma SecondCopy(zip: Bytes)
    ensures var s := States(zip)[3];
            && s.art == map[] && PR !in s.meta && s.clock <= 4
            && Add(s, PR, 7, "sha", zip, 4).(clock := 4) == States(zip)[4]
  {
    assert PR != BRANCH;
  }

  lemma SecondDownload(cfg: Config, zip: Bytes)
    requires Suits(cfg, zip)
    ensures Follows(cfg, zip, 3)
  {
    SecondCopy(zip);
    assert Steps(zip)[3] == RequestStep(PR, At(4, zip)) && |States(zip)| == 6;
    DownloadEnabled(cfg, States(zip)[3], 4, zip);
    Downloads(cfg, States(zip)[3], 4, zip);
    hide Enabled, Request, Takes, States, Steps, Add, At;
  }

  /** The step that goes wrong stores an artifact that the branch's key names too. */
  lemma SecondDownloadIsShared(cfg: Config, zip: Bytes)
    requires Suits(cfg, zip)
    ensures !Unshared(cfg, States(zip)[3], Steps(zip)[3])
  {
    var s := States(zip)[3];
    DeliveredIsStored(cfg.format, s.disk, 7, zip, cfg.maxArtifactSize);
    assert PR != BRANCH && BRANCH in s.meta;
    hide DownloadArtifact, Delivered;
  }

  lemma FreshHit(cfg: Config, zip: Bytes)
    requires Suits(cfg, zip)
    ensures Follows(cfg, zip, 4) && Request(cfg, States(zip)[4], BRANCH, At(5, zip)).1
  {
    hide DownloadArtifact, CleanAll, Delivered, Takes;
    assert PR != BRANCH;
  }

  lemma StepsRun(cfg: Config, zip: Bytes)
    requires Suits(cfg, zip)
    ensures IsRun(cfg, States(zip), Steps(zip))
  {
    FirstDownload(cfg, zip);
    ServedToBranch(cfg, zip);
    EvictedByPR(cfg, zip);
    SecondDownload(cfg, zip);
    FreshHit(cfg, zip);
    assert States(zip)[0] == INITIAL && |States(zip)| == 6 && |Steps(zip)| == 5 && cfg.maxArtifacts >= 1;
    hide Apply, Enabled, Request, States, Steps, Suits;
    forall i | 0 <= i < 5
      ensures Enabled(cfg, States(zip)[i], Steps(zip)[i])
              && States(zip)[i + 1] == Apply(cfg, States(zip)[i], Steps(zip)[i])
    {
      assert Follows(cfg, zip, i) by {
        if i == 0 {} else if i == 1 {} else if i == 2 {} else if i == 3 {} else {}
      }
    }
  }

  /** For any zip and any handler it suits: the run is possible, its last request succeeds, and what
      that hands out has been cleaned up while another copy of the artifact is cached.  What went
      wrong was the second download, of an artifact that the branch's key named. */
  lemma SharedArtifactServedDead(cfg: Config, zip: Bytes)
    requires Suits(cfg, zip)
    ensures var (states, steps) := (States(zip), Steps(zip));
            && IsRun(cfg, states, steps)
            && !Unshared(cfg, states[3], steps[3])
            && Request(cfg, states[4], BRANCH, At(5, zip)).1
            && states[5].disk.cleaned[states[5].reg[BRANCH]] == 1
            && states[5].art[states[5].meta[BRANCH].artifactID].fs != states[5].reg[BRANCH]
  {
    StepsRun(cfg, zip);
    SecondDownloadIsShared(cfg, zip);
    FreshHit(cfg, zip);
    hide Apply, Enabled, Request, IsRun, Unshared, Suits;
    assert PR != BRANCH;
  }
}
