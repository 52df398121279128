/** The preview handler as a state machine on values.

    The state is the two caches, the table of registered file systems, the disk, and the time of
    the last step.  Each operation is a function of the state and of what the environment
    contributes: the time, GitHub's answers, the download, and which of equally old artifacts
    the map scan happens to evict. */
module PreviewSpec {
  import opened Wrappers
  import opened ByteSize
  import opened Archive
  import opened Caches
  import opened Github

  datatype Config = Config(
    ttl: int,
    maxArtifacts: int,
    maxArtifactSize: int,
    staleWhileRevalidate: bool,
    maxArtifactAge: int,
    artifactName: string,
    format: Format)

  datatype State = State(
    meta: Metadata,
    art: Caches.Artifacts,
    reg: map<string, Handle>,
    disk: Disk,
    clock: int)

  /** What the environment contributes to one resolution. */
  datatype Env = Env(now: int, answer: Answer, response: Response, victims: set<int>)

  const EMPTY_DISK := Disk(map[], multiset{}, 0)

  const INITIAL := State(map[], map[], map[], EMPTY_DISK, 0)

  // ----- single operations

  /** Evict artifacts and run their cleanups. */
  ghost function EvictArtifacts(s: State, ids: set<int>): State {
    s.(art := s.art - ids, disk := CleanAll(s.disk, s.art, ids))
  }

  function Forget(s: State, keys: set<string>): State {
    s.(meta := s.meta - keys, reg := s.reg - keys)
  }

  /** Drop a key: its artifact if it has one, its metadata, its registration. */
  ghost function EvictKey(s: State, key: string): State {
    Forget(EvictArtifacts(s, if key in s.meta then {s.meta[key].artifactID} else {}), {key})
  }

  /** Point a key at an artifact that is already cached, and record the access. */
  function ServeCached(s: State, key: string, id: int, headSHA: string, now: int): State
    requires id in s.art
  {
    s.(art := Touch(s.art, id, now),
       meta := s.meta[key := MetadataEntry(id, headSHA, now)],
       reg := s.reg[key := s.art[id].fs])
  }

  /** Download an artifact and put it in both caches and the table. */
  ghost function DownloadAndCache(cfg: Config, s: State, key: string, id: int, digest: string, headSHA: string,
                                  env: Env): (State, bool) {
    match DownloadArtifact(cfg.format, s.disk, id, env.response, cfg.maxArtifactSize, digest)
    case (disk, Rejected) => (s.(disk := disk), false)
    case (disk, Opened(handle, size)) =>
      var entry := ArtifactEntry(handle, size, env.now, Cleanup(handle, id));
      (s.(art := (s.art - env.victims)[id := entry],
          disk := CleanAll(disk, s.art, env.victims),
          meta := s.meta[key := MetadataEntry(id, headSHA, env.now)],
          reg := s.reg[key := handle]),
       true)
  }

  /** Is this answer an older build, to be ignored in favour of the one being served? */
  predicate KeepsNewer(s: State, key: string, id: int, exactHead: bool) {
    key in s.meta && !exactHead && id < s.meta[key].artifactID && s.meta[key].artifactID in s.art
  }

  /** Ask GitHub what a key stands for now, and serve that. */
  ghost function FullResolve(cfg: Config, s: State, key: string, env: Env): (State, bool) {
    match env.answer
    case Failed => (s, false)
    case NotOpen => (EvictKey(s, key), false)
    case Found(id, digest, headSHA, exactHead) =>
      if KeepsNewer(s, key, id, exactHead) then
        (ServeCached(s, key, s.meta[key].artifactID, s.meta[key].headSHA, env.now), true)
      else if id in s.art then
        (ServeCached(s, key, id, headSHA, env.now), true)
      else
        DownloadAndCache(cfg, s, key, id, digest, headSHA, env)
  }

  predicate IsFresh(cfg: Config, s: State, key: string, now: int) {
    key in s.meta && !IsStale(s.meta[key], cfg.ttl, now)
  }

  predicate IsServed(s: State, key: string) {
    key in s.meta && s.meta[key].artifactID in s.art
  }

  /** Is a request for this key answered with a stale artifact, to be refreshed in the background? */
  predicate ServesStale(cfg: Config, s: State, key: string, now: int) {
    !IsFresh(cfg, s, key, now) && cfg.staleWhileRevalidate && IsServed(s, key)
  }

  /** Does a request for this key go to GitHub to resolve it? */
  predicate NeedsResolve(cfg: Config, s: State, key: string, now: int) {
    !IsFresh(cfg, s, key, now) && !(cfg.staleWhileRevalidate && IsServed(s, key))
  }

  /** After a failed resolve, keep serving what is there, and do not ask again before the TTL. */
  function FallBack(s: State, key: string, now: int): (State, bool) {
    if IsServed(s, key) then
      (ServeCached(s, key, s.meta[key].artifactID, s.meta[key].headSHA, now), true)
    else (s, false)
  }

  /** A request: serve from the caches, re-download, or resolve. */
  ghost function Request(cfg: Config, s: State, key: string, env: Env): (State, bool) {
    if NeedsResolve(cfg, s, key, env.now) then
      var (s', ok) := FullResolve(cfg, s, key, env);
      if ok then (s', true) else FallBack(s', key, env.now)
    else if IsServed(s, key) then
      (s.(art := Touch(s.art, s.meta[key].artifactID, env.now)), true)
    else
      DownloadAndCache(cfg, s, key, s.meta[key].artifactID, "", s.meta[key].headSHA, env)
  }

  // ----- pruning

  type PRStates = int -> Option<string>

  /** A key of a pull request that GitHub answers is no longer open. */
  predicate Closed(states: PRStates, key: string) {
    && PR_PREFIX <= key
    && StrconvAtoi(key[|PR_PREFIX|..]).Success?
    && var answer := states(StrconvAtoi(key[|PR_PREFIX|..]).value);
       answer.Some? && answer.value != "open"
  }

  function ClosedKeys(s: State, states: PRStates): set<string> {
    set key | key in s.meta && Closed(states, key)
  }

  function IdsOf(meta: Metadata, keys: set<string>): set<int> {
    set key | key in keys && key in meta :: meta[key].artifactID
  }

  ghost function PruneClosed(s: State, states: PRStates): State {
    var closed := ClosedKeys(s, states);
    Forget(EvictArtifacts(s, IdsOf(s.meta, closed)), closed)
  }

  function Aged(art: Caches.Artifacts, maxAge: int, now: int): set<int> {
    set id | id in art && art[id].lastAccess < now - maxAge
  }

  function KeysOf(meta: Metadata, ids: set<int>): set<string> {
    set key | key in meta && meta[key].artifactID in ids
  }

  /** One pruning cycle: closed pull requests first, then artifacts not accessed for too long,
      with the keys that pointed at them when the cycle began. */
  ghost function Prune(cfg: Config, s: State, states: PRStates, now: int): State {
    var s1 := PruneClosed(s, states);
    if cfg.maxArtifactAge <= 0 then s1
    else
      var aged := Aged(s1.art, cfg.maxArtifactAge, now);
      Forget(EvictArtifacts(s1, aged), KeysOf(s.meta, aged))
  }

  /** Shutting down: take every key out of the table and clean up every artifact.  The metadata
      is left as it is. */
  ghost function Shutdown(s: State): State {
    EvictArtifacts(s.(reg := s.reg - s.meta.Keys), s.art.Keys)
  }

  // ----- runs

  datatype Step =
    | RequestStep(key: string, env: Env)
    | ResolveStep(key: string, env: Env)       // the API's refresh, or a background refresh
    | EvictStep(key: string, now: int)
    | PruneStep(states: PRStates, now: int)

  function Now(step: Step): int {
    match step
    case RequestStep(_, env) => env.now
    case ResolveStep(_, env) => env.now
    case EvictStep(_, now) => now
    case PruneStep(_, now) => now
  }

  ghost function Perform(cfg: Config, s: State, step: Step): State {
    match step
    case RequestStep(key, env) => Request(cfg, s, key, env).0
    case ResolveStep(key, env) => FullResolve(cfg, s, key, env).0
    case EvictStep(key, _) => EvictKey(s, key)
    case PruneStep(states, now) => Prune(cfg, s, states, now)
  }

  ghost function Apply(cfg: Config, s: State, step: Step): State {
    Perform(cfg, s, step).(clock := Now(step))
  }

  /** What this step would download: the artifact, and the digest asked for. */
  function WantedByResolve(s: State, env: Env, key: string): Option<(int, string)> {
    if env.answer.Found? && !KeepsNewer(s, key, env.answer.artifactID, env.answer.exactHead)
            && env.answer.artifactID !in s.art
    then Some((env.answer.artifactID, env.answer.digest)) else None
  }

  function Wanted(cfg: Config, s: State, step: Step): Option<(int, string)> {
    match step
    case RequestStep(key, env) =>
      if NeedsResolve(cfg, s, key, env.now) then WantedByResolve(s, env, key)
      else if IsServed(s, key) then None
      else Some((s.meta[key].artifactID, ""))
    case ResolveStep(key, env) => WantedByResolve(s, env, key)
    case _ => None
  }

  /** The artifact this step stores, if it downloads one successfully. */
  function Stored(cfg: Config, s: State, step: Step): Option<int> {
    match Wanted(cfg, s, step)
    case None => None
    case Some((id, digest)) =>
      if DownloadArtifact(cfg.format, s.disk, id, step.env.response, cfg.maxArtifactSize, digest).1.Opened?
      then Some(id) else None
  }

  /** Time does not run backwards, and whoever is evicted is among the least recently used. */
  ghost predicate Enabled(cfg: Config, s: State, step: Step) {
    && Now(step) >= s.clock
    && (Stored(cfg, s, step).Some? ==> Victims(s.art, cfg.maxArtifacts, step.env.victims))
  }

  ghost predicate IsRun(cfg: Config, states: seq<State>, steps: seq<Step>) {
    && cfg.maxArtifacts >= 1
    && |states| == |steps| + 1
    && states[0] == INITIAL
    && forall i :: 0 <= i < |steps| ==>
            Enabled(cfg, states[i], steps[i]) && states[i + 1] == Apply(cfg, states[i], steps[i])
  }
}
