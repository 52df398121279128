/** A branch listing that replaces a newer artifact: a run of two steps.

    The head commit of a branch has been built twice.  The first resolution finds the newer build by
    the head commit.  At the second the lookup by head commit fails, and the branch listing is stale
    and has only the older build, whose run names the same commit.  That makes it an exact head
    match, so the guard against stale listings lets it through, and the older artifact replaces the
    newer one, which is still cached. */
module StaleListing {
  import opened Wrappers
  import opened Archive
  import opened Caches
  import opened Github
  import opened PreviewSpec
  import opened PreviewRuns
  import opened PreviewHistory

  /** Two runs, and the artifact of each. */
  datatype Builds = Builds(older: Run, olderArtifact: int, newer: Run, newerArtifact: int)

  /** Both runs built the same commit of the same branch, one after the other. */
  predicate SameCommit(b: Builds) {
    && b.older.headBranch == b.newer.headBranch
    && b.older.headSHA == b.newer.headSHA != ""
    && b.older.id != b.newer.id && Newer(b.newer, b.older)
    && b.olderArtifact < b.newerArtifact
  }

  function Key(b: Builds): string {
    BRANCH_PREFIX + b.newer.headBranch
  }

  function OlderArtifact(b: Builds, name: string): Artifact {
    Artifact(b.olderArtifact, name, 1, false, "")
  }

  function NewerArtifact(b: Builds, name: string): Artifact {
    Artifact(b.newerArtifact, name, 1, false, "")
  }

  /** A server that knows the head of the branch and the artifacts, with these run listings. */
  function Answering(b: Builds, name: string, byHead: Option<seq<Run>>, byBranch: seq<Run>): Server {
    var artifacts := (id: int) => Some([if id == b.older.id then OlderArtifact(b, name) else NewerArtifact(b, name)]);
    Server((n: int) => None, (branch: string) => Some(b.newer.headSHA), (sha: string) => byHead,
           (branch: string) => Some(byBranch), artifacts, artifacts)
  }

  function First(b: Builds, name: string): Server {
    Answering(b, name, Some([b.newer, b.older]), [b.newer, b.older])
  }

  function Second(b: Builds, name: string): Server {
    Answering(b, name, None, [b.older])
  }

  lemma ListedInOrder(b: Builds)
    requires SameCommit(b)
    ensures Sorted([b.newer, b.older]) == [b.newer, b.older] && Sorted([b.older]) == [b.older]
    ensures ForBranch([b.newer, b.older], b.newer.headBranch) == [b.newer, b.older]
  {
    NewerIsTotal(b.newer, b.older);
    assert [b.newer, b.older][..1] == [b.newer];
    assert [b.newer][..0] == [] && [b.older][..0] == [];
    hide Newer;
    assert Sorted([b.newer]) == [b.newer];
    assert ForBranch([b.newer], b.newer.headBranch) == [b.newer];
  }

  /** What the two resolutions are answered. */
  lemma BothAreExact(b: Builds, name: string)
    requires SameCommit(b)
    ensures ResolveKey(First(b, name), name, Key(b)) == Found(b.newerArtifact, "", b.newer.headSHA, true)
    ensures ResolveKey(Second(b, name), name, Key(b)) == Found(b.olderArtifact, "", b.newer.headSHA, true)
    ensures FoundByListing(Second(b, name), name, Key(b))
  {
    var one, two, branch, sha := First(b, name), Second(b, name), b.newer.headBranch, b.newer.headSHA;
    assert Key(b)[|BRANCH_PREFIX|..] == branch;
    AnswerIsChosen(one, name, Key(b));
    AnswerIsChosen(two, name, Key(b));
    assert Sought(one, Key(b)) == Some((branch, sha)) && Sought(two, Key(b)) == Some((branch, sha));
    ListedInOrder(b);
    hide Sorted, ForBranch, Newer, ResolveKey, Sought;
    assert HeadRuns(one, branch, sha) == [b.newer, b.older] && HeadRuns(two, branch, sha) == [];
    assert Offer(one.artifactsAtHead, name, b.newer) == Some(NewerArtifact(b, name));
    assert Offer(two.artifactsOnBranch, name, b.older) == Some(OlderArtifact(b, name));
  }

  function At(now: int, found: Answer, zip: Bytes): Env {
    Env(now, found, Delivered(zip), {})
  }

  function Steps(b: Builds, name: string, zip: Bytes): seq<Step> {
    [ RequestStep(Key(b), At(1, ResolveKey(First(b, name), name, Key(b)), zip)),
      ResolveStep(Key(b), At(2, ResolveKey(Second(b, name), name, Key(b)), zip))]
  }

  function NewerCopy(b: Builds, zip: Bytes): ArtifactEntry {
    ArtifactEntry(0, |zip|, 1, Cleanup(0, b.newerArtifact))
  }

  function OlderCopy(b: Builds, zip: Bytes): ArtifactEntry {
    ArtifactEntry(1, |zip|, 2, Cleanup(1, b.olderArtifact))
  }

  function States(b: Builds, zip: Bytes): seq<State> {
    [ INITIAL,
      State(map[Key(b) := MetadataEntry(b.newerArtifact, b.newer.headSHA, 1)],
            map[b.newerArtifact := NewerCopy(b, zip)], map[Key(b) := 0],
            Disk(map[b.newerArtifact := zip], multiset{}, 1), 1),
      State(map[Key(b) := MetadataEntry(b.olderArtifact, b.newer.headSHA, 2)],
            map[b.newerArtifact := NewerCopy(b, zip), b.olderArtifact := OlderCopy(b, zip)], map[Key(b) := 1],
            Disk(map[b.newerArtifact := zip, b.olderArtifact := zip], multiset{}, 2), 2)]
  }

  lemma FirstEnabled(cfg: Config, b: Builds, zip: Bytes, env: Env)
    requires cfg.maxArtifacts >= 2 && env.victims == {} && env.now == 1
    ensures Enabled(cfg, INITIAL, RequestStep(Key(b), env))
  {
    hide Stored, Key;
  }

  lemma FirstRequest(cfg: Config, b: Builds, zip: Bytes, env: Env)
    requires Takes(cfg, zip) && env == At(1, Found(b.newerArtifact, "", b.newer.headSHA, true), zip)
    ensures Request(cfg, INITIAL, Key(b), env).0.(clock := 1) == States(b, zip)[1]
  {
    DeliveredIsAdded(cfg, INITIAL, Key(b), b.newerArtifact, b.newer.headSHA, env, zip);
    hide DownloadAndCache, Delivered, Key;
  }

  lemma FirstStep(cfg: Config, b: Builds, zip: Bytes)
    requires SameCommit(b) && Takes(cfg, zip) && cfg.maxArtifacts >= 2
    ensures var (s, step) := (INITIAL, Steps(b, cfg.artifactName, zip)[0]);
            Enabled(cfg, s, step) && Apply(cfg, s, step) == States(b, zip)[1]
  {
    BothAreExact(b, cfg.artifactName);
    var env := At(1, Found(b.newerArtifact, "", b.newer.headSHA, true), zip);
    assert Steps(b, cfg.artifactName, zip)[0] == RequestStep(Key(b), env);
    FirstEnabled(cfg, b, zip, env);
    FirstRequest(cfg, b, zip, env);
    hide Request, Enabled, Takes, ResolveKey, States, Key, Steps, SameCommit, Delivered;
  }

  /** What the second resolution does to a state. */
  lemma SecondResolve(cfg: Config, s: State, b: Builds, zip: Bytes, env: Env)
    requires Takes(cfg, zip) && b.olderArtifact !in s.art
    requires env == At(2, Found(b.olderArtifact, "", b.newer.headSHA, true), zip)
    ensures FullResolve(cfg, s, Key(b), env).0 == Add(s, Key(b), b.olderArtifact, b.newer.headSHA, zip, 2)
  {
    DeliveredIsAdded(cfg, s, Key(b), b.olderArtifact, b.newer.headSHA, env, zip);
    hide DownloadAndCache, Delivered, Key;
  }

  lemma SecondEnabled(cfg: Config, b: Builds, zip: Bytes, env: Env)
    requires cfg.maxArtifacts >= 2 && env.victims == {} && env.now == 2
    ensures Enabled(cfg, States(b, zip)[1], ResolveStep(Key(b), env))
  {
    hide Stored, Key;
  }

  lemma OlderAdded(b: Builds, zip: Bytes)
    ensures Add(States(b, zip)[1], Key(b), b.olderArtifact, b.newer.headSHA, zip, 2).(clock := 2)
         == States(b, zip)[2]
  {
    hide Key;
  }

  lemma SecondStep(cfg: Config, b: Builds, zip: Bytes)
    requires SameCommit(b) && Takes(cfg, zip) && cfg.maxArtifacts >= 2
    ensures var (s, step) := (States(b, zip)[1], Steps(b, cfg.artifactName, zip)[1]);
            && Enabled(cfg, s, step) && Apply(cfg, s, step) == States(b, zip)[2]
            && IsServed(s, Key(b)) && GoesDown(s, FullResolve(cfg, s, Key(b), step.env).0, Key(b))
  {
    BothAreExact(b, cfg.artifactName);
    var s, env := States(b, zip)[1], At(2, Found(b.olderArtifact, "", b.newer.headSHA, true), zip);
    assert Steps(b, cfg.artifactName, zip)[1] == ResolveStep(Key(b), env);
    assert IsServed(s, Key(b));
    assert b.olderArtifact < b.newerArtifact == s.meta[Key(b)].artifactID && b.olderArtifact !in s.art;
    SecondResolve(cfg, s, b, zip, env);
    SecondEnabled(cfg, b, zip, env);
    OlderAdded(b, zip);
    hide FullResolve, Enabled, Takes, ResolveKey, States, Key, Steps, SameCommit, Delivered;
  }

  lemma BothStepsRun(cfg: Config, b: Builds, zip: Bytes)
    requires SameCommit(b) && Takes(cfg, zip) && cfg.maxArtifacts >= 2
    ensures IsRun(cfg, States(b, zip), Steps(b, cfg.artifactName, zip))
  {
    FirstStep(cfg, b, zip);
    SecondStep(cfg, b, zip);
    var states, steps := States(b, zip), Steps(b, cfg.artifactName, zip);
    assert |states| == |steps| + 1 && |steps| == 2 && states[0] == INITIAL;
    hide Apply, Enabled, States, Steps, GoesDown, SameCommit, Takes, IsServed;
    forall i | 0 <= i < |steps|
      ensures Enabled(cfg, states[i], steps[i]) && states[i + 1] == Apply(cfg, states[i], steps[i])
    {
      if i == 0 {} else {}
    }
  }

  /** For any such builds, any zip and any handler that takes it and has room for two artifacts: the
      run is possible, its second step is answered from the branch listing alone, and puts the older
      artifact in the place of the newer one, which is still cached. */
  lemma ListingReplacedNewer(cfg: Config, b: Builds, zip: Bytes)
    requires SameCommit(b) && Takes(cfg, zip) && cfg.maxArtifacts >= 2
    ensures var (states, steps, key) := (States(b, zip), Steps(b, cfg.artifactName, zip), Key(b));
            && IsRun(cfg, states, steps)
            && ListingReplacesNewer(cfg, states[1], Second(b, cfg.artifactName), key, steps[1].env)
            && states[1].meta[key].artifactID == b.newerArtifact && states[2].meta[key].artifactID == b.olderArtifact
            && b.newerArtifact in states[2].art
  {
    BothAreExact(b, cfg.artifactName);
    BothStepsRun(cfg, b, zip);
    SecondStep(cfg, b, zip);
    hide Apply, Enabled, FullResolve, ResolveKey, FoundByListing, GoesDown, IsRun, Second, Key, SameCommit, Takes;
  }
}
