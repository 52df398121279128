/** The preview handler itself: an object that owns the caches and updates them step by step.

    Every method is tied to the operation of `PreviewSpec` that it carries out, and keeps the
    invariant of `PreviewRuns`. */
module Preview {
  import opened Wrappers
  import opened ByteSize
  import opened Archive
  import opened Caches
  import opened Github
  import opened PreviewSpec
  import opened PreviewRuns
  import opened Sets
  import RefreshProtocol = Refresh

  lemma PathsTwice(art: Caches.Artifacts, a: set<int>, b: set<int>)
    ensures (set id | id in a + b && id in art :: art[id].cleanup.path)
         == (set id | id in a && id in art :: art[id].cleanup.path)
          + (set id | id in b && id in art - a :: (art - a)[id].cleanup.path)
  {
    var pa := set id | id in a && id in art :: art[id].cleanup.path;
    var pb := set id | id in b && id in art - a :: (art - a)[id].cleanup.path;
    forall id | id in a + b && id in art
      ensures art[id].cleanup.path in pa + pb
    {
      if id !in a { assert id in art - a && (art - a)[id] == art[id]; }
    }
  }

  lemma HandlesTwice(art: Caches.Artifacts, a: set<int>, b: set<int>)
    requires DistinctHandles(art)
    ensures var ha := set id | id in a && id in art :: art[id].cleanup.handle;
            var hb := set id | id in b && id in art - a :: (art - a)[id].cleanup.handle;
            && (set id | id in a + b && id in art :: art[id].cleanup.handle) == ha + hb
            && multiset(ha + hb) == multiset(ha) + multiset(hb)
  {
    var ha := set id | id in a && id in art :: art[id].cleanup.handle;
    var hb := set id | id in b && id in art - a :: (art - a)[id].cleanup.handle;
    forall id | id in a + b && id in art
      ensures art[id].cleanup.handle in ha + hb
    {
      if id !in a { assert id in art - a && (art - a)[id] == art[id]; }
    }
    assert ha !! hb;
    hide DistinctHandles;
  }

  /** Evicting in two goes is evicting once. */
  lemma CleanTwice(d: Disk, art: Caches.Artifacts, a: set<int>, b: set<int>)
    requires DistinctHandles(art)
    ensures CleanAll(CleanAll(d, art, a), art - a, b) == CleanAll(d, art, a + b)
  {
    PathsTwice(art, a, b);
    HandlesTwice(art, a, b);
    hide DistinctHandles;
    var pa := set id | id in a && id in art :: art[id].cleanup.path;
    var pb := set id | id in b && id in art - a :: (art - a)[id].cleanup.path;
    assert d.files - pa - pb == d.files - (pa + pb);
  }

  lemma EvictTwice(s: State, a: set<int>, b: set<int>)
    requires DistinctHandles(s.art)
    ensures EvictArtifacts(EvictArtifacts(s, a), b) == EvictArtifacts(s, a + b)
  {
    CleanTwice(s.disk, s.art, a, b);
    assert s.art - a - b == s.art - (a + b);
    hide CleanAll;
  }

  lemma ForgetTwice(s: State, a: set<string>, b: set<string>)
    ensures Forget(Forget(s, a), b) == Forget(s, a + b)
  {
    assert s.meta - a - b == s.meta - (a + b) && s.reg - a - b == s.reg - (a + b);
  }

  lemma EvictNothing(s: State)
    ensures EvictArtifacts(s, {}) == s && Forget(s, {}) == s
  {
    CleanNone(s.disk, s.art);
    assert s.art - {} == s.art && s.meta - {} == s.meta && s.reg - {} == s.reg;
  }

  lemma OwnedIsDistinct(s: State)
    requires Owned(s)
    ensures DistinctHandles(s.art)
  {
  }

  class GithubPreview {
    const cfg: Config
    const metadataCache: MetadataCache
    const artifactCache: ArtifactCache
    const storage: Storage
    var fileSystems: map<string, Handle>
    var refreshActive: set<string>
    var refreshCount: nat
    ghost var clock: int

    ghost function View(): State
      reads this, metadataCache, artifactCache, storage
    {
      State(metadataCache.entries, artifactCache.entries, fileSystems, storage.View(), clock)
    }

    ghost predicate Valid()
      reads this, metadataCache, artifactCache, storage
    {
      && metadataCache.ttl == cfg.ttl
      && artifactCache.maxSize == cfg.maxArtifacts >= 1
      && Inv(cfg, View(), clock)
    }

    constructor (cfg: Config)
      requires cfg.maxArtifacts >= 1
      ensures Valid() && View() == INITIAL
      ensures this.cfg == cfg && refreshActive == {} && refreshCount == 0
      ensures fresh(metadataCache) && fresh(artifactCache) && fresh(storage)
    {
      this.cfg := cfg;
      metadataCache := new MetadataCache(cfg.ttl);
      artifactCache := new ArtifactCache(cfg.maxArtifacts);
      storage := new Storage();
      fileSystems, refreshActive, refreshCount, clock := map[], {}, 0, 0;
      new;
      InitialInv(cfg);
    }

    static lemma InitialInv(cfg: Config)
      requires cfg.maxArtifacts >= 1
      ensures Inv(cfg, INITIAL, 0)
    {
      assert |INITIAL.art| == 0;
    }

    /** Download an artifact and put it in both caches and the table. */
    method DownloadAndCacheArtifact(key: string, id: int, digest: string, headSHA: string, now: int, response: Response)
      returns (fs: Option<Handle>, ghost victims: set<int>)
      requires artifactCache.maxSize >= 1 && DistinctHandles(artifactCache.entries)
      modifies this`fileSystems, metadataCache, artifactCache, storage
      ensures forall answer ::
                var env := Env(now, answer, response, victims);
                (View(), fs.Some?) == DownloadAndCache(cfg, old(View()), key, id, digest, headSHA, env)
      ensures fs.Some? ==> Victims(old(artifactCache.entries), artifactCache.maxSize, victims)
      ensures fs.Some?
              == DownloadArtifact(cfg.format, old(storage.View()), id, response, cfg.maxArtifactSize, digest).1.Opened?
    {
      victims := {};
      var download := storage.Download(cfg.format, id, response, cfg.maxArtifactSize, digest);
      match download
      case Rejected =>
        return None, victims;
      case Opened(handle, size) =>
        victims := artifactCache.Set(id, handle, size, Cleanup(handle, id), now, storage);
        metadataCache.Set(key, id, headSHA, now);
        fileSystems := fileSystems[key := handle];
        fs := Some(handle);
    }

    method EvictCacheKey(key: string)
      requires DistinctHandles(artifactCache.entries)
      modifies this`fileSystems, metadataCache, artifactCache, storage
      ensures View() == EvictKey(old(View()), key)
    {
      EvictNothing(View());
      var meta, _ := metadataCache.Get(key, 0);
      if meta.Some? {
        var _ := artifactCache.Evict(meta.value.artifactID, storage);
      }
      var _ := metadataCache.Evict(key);
      fileSystems := fileSystems - {key};
    }

    /** If the artifact is cached, point the key at it. */
    method ServeIfCached(key: string, id: int, headSHA: string, now: int) returns (fs: Option<Handle>)
      modifies this`fileSystems, metadataCache, artifactCache
      ensures fs.Some? == (id in old(artifactCache.entries))
      ensures View() == if id in old(artifactCache.entries) then ServeCached(old(View()), key, id, headSHA, now)
                        else old(View())
    {
      fs := artifactCache.Get(id, now);
      if fs.Some? {
        metadataCache.Set(key, id, headSHA, now);
        fileSystems := fileSystems[key := fs.value];
      }
    }

    /** Ask GitHub what the key stands for now, and serve that. */
    method FullResolveKey(key: string, now: int, server: Server, response: Response)
      returns (fs: Option<Handle>, ghost victims: set<int>)
      requires artifactCache.maxSize >= 1 && DistinctHandles(artifactCache.entries)
      modifies this`fileSystems, metadataCache, artifactCache, storage
      ensures var env := Env(now, ResolveKey(server, cfg.artifactName, key), response, victims);
              && (View(), fs.Some?) == FullResolve(cfg, old(View()), key, env)
              && (Stored(cfg, old(View()), ResolveStep(key, env)).Some? ==>
                    Victims(old(artifactCache.entries), artifactCache.maxSize, victims))
    {
      hide Inv, CleanAll, DownloadArtifact, Victims, ServeCached, DownloadAndCache, EvictKey, ResolveKey, Touch;
      victims := {};
      var answer := Resolve(server, cfg.artifactName, key);
      match answer
      case Failed =>
        return None, victims;
      case NotOpen =>
        EvictCacheKey(key);
        return None, victims;
      case Found(id, digest, headSHA, exactHead) =>
        fs, victims := ServeFound(key, id, digest, headSHA, exactHead, now, response);
    }

    /** Guard against a stale listing, then serve what was found from the cache or download it. */
    method ServeFound(key: string, id: int, digest: string, headSHA: string, exactHead: bool, now: int,
        response: Response)
      returns (fs: Option<Handle>, ghost victims: set<int>)
      requires artifactCache.maxSize >= 1 && DistinctHandles(artifactCache.entries)
      modifies this`fileSystems, metadataCache, artifactCache, storage
      ensures var env := Env(now, Found(id, digest, headSHA, exactHead), response, victims);
              && (View(), fs.Some?) == FullResolve(cfg, old(View()), key, env)
              && (Stored(cfg, old(View()), ResolveStep(key, env)).Some? ==>
                    Victims(old(artifactCache.entries), artifactCache.maxSize, victims))
    {
      hide CleanAll, DownloadArtifact, Victims, ServeCached, DownloadAndCache, EvictKey, Touch;
      victims := {};
      var meta, _ := metadataCache.Get(key, now);
      if meta.Some? && !exactHead && id < meta.value.artifactID {
        fs := ServeIfCached(key, meta.value.artifactID, meta.value.headSHA, now);
        if fs.Some? {
          return fs, victims;
        }
      }
      fs := ServeIfCached(key, id, headSHA, now);
      if fs.Some? {
        return fs, victims;
      }
      fs, victims := DownloadAndCacheArtifact(key, id, digest, headSHA, now, response);
    }

    /** Start a background refresh of the key unless one is running: the `Trigger` step of the
        refresh protocol. */
    method TriggerBackgroundRefresh(key: string)
      modifies this`refreshActive, this`refreshCount
      ensures forall s: RefreshProtocol.State, id: nat ::
                && s.active == old(refreshActive) && s.count == old(refreshCount)
                && RefreshProtocol.Enabled(s, RefreshProtocol.Trigger(key, id)) ==>
                  && RefreshProtocol.Apply(s, RefreshProtocol.Trigger(key, id)).active == refreshActive
                  && RefreshProtocol.Apply(s, RefreshProtocol.Trigger(key, id)).count == refreshCount
      ensures refreshActive == old(refreshActive) + {key}
      ensures refreshCount == old(refreshCount) + if key in old(refreshActive) then 0 else 1
    {
      if key in refreshActive {
        return;
      }
      refreshActive := refreshActive + {key};
      refreshCount := refreshCount + 1;
    }

    /** Serve a key: from the caches if they are fresh, else after resolving it. */
    method ResolveAndRegister(key: string, now: int, server: Server, response: Response)
      returns (ok: bool, ghost victims: set<int>)
      requires Valid() && now >= clock
      modifies this, metadataCache, artifactCache, storage
      ensures Valid()
      ensures var env := Env(now, ResolveKey(server, cfg.artifactName, key), response, victims);
              && Enabled(cfg, old(View()), RequestStep(key, env))
              && View() == Apply(cfg, old(View()), RequestStep(key, env))
              && ok == Request(cfg, old(View()), key, env).1
      ensures refreshActive
              == old(refreshActive) + if ServesStale(cfg, old(View()), key, now) then {key} else {}
      ensures refreshCount == old(refreshCount)
              + if ServesStale(cfg, old(View()), key, now) && key !in old(refreshActive) then 1 else 0
    {
      assert Owned(View());
      hide Inv, Owned, Request, ResolveKey, Stored, Victims, ServesStale;
      ok, victims := Serve(key, now, server, response);
      ghost var step := RequestStep(key, Env(now, ResolveKey(server, cfg.artifactName, key), response, victims));
      StepKeepsInv(cfg, old(View()), step);
      clock := now;
    }

    // The three ways a request can go.

    static lemma FreshRequest(cfg: Config, s: State, key: string, env: Env)
      requires IsFresh(cfg, s, key, env.now)
      ensures var id := s.meta[key].artifactID;
              && Request(cfg, s, key, env)
                 == (if id in s.art then (s.(art := Touch(s.art, id, env.now)), true)
                     else DownloadAndCache(cfg, s, key, id, "", s.meta[key].headSHA, env))
              && (Stored(cfg, s, RequestStep(key, env)).Some? ==>
                    && id !in s.art
                    && DownloadArtifact(cfg.format, s.disk, id, env.response, cfg.maxArtifactSize, "").1.Opened?)
    {
      hide DownloadArtifact, DownloadAndCache;
    }

    static lemma StaleRequest(cfg: Config, s: State, key: string, env: Env)
      requires ServesStale(cfg, s, key, env.now)
      ensures Request(cfg, s, key, env) == (s.(art := Touch(s.art, s.meta[key].artifactID, env.now)), true)
      ensures Stored(cfg, s, RequestStep(key, env)) == None
    {
    }

    static lemma ResolvingRequest(cfg: Config, s: State, key: string, env: Env)
      requires NeedsResolve(cfg, s, key, env.now)
      ensures var (t, ok) := FullResolve(cfg, s, key, env);
              Request(cfg, s, key, env) == if ok then (t, true) else FallBack(t, key, env.now)
      ensures Stored(cfg, s, RequestStep(key, env)) == Stored(cfg, s, ResolveStep(key, env))
    {
      hide DownloadArtifact, FullResolve;
    }

    /** Serve a key whose metadata is fresh: from the cache, or by downloading its artifact again. */
    method ServeFresh(key: string, meta: MetadataEntry, now: int, response: Response)
      returns (ok: bool, ghost victims: set<int>)
      requires artifactCache.maxSize >= 1 && DistinctHandles(artifactCache.entries)
      modifies this`fileSystems, metadataCache, artifactCache, storage
      ensures meta.artifactID in old(artifactCache.entries) ==>
                && ok && victims == {}
                && View() == old(View()).(art := Touch(old(View()).art, meta.artifactID, now))
      ensures meta.artifactID !in old(artifactCache.entries) ==>
                && (forall answer ::
                      (View(), ok) == DownloadAndCache(cfg, old(View()), key, meta.artifactID, "", meta.headSHA,
                                                       Env(now, answer, response, victims)))
                && (ok ==> Victims(old(artifactCache.entries), artifactCache.maxSize, victims))
                && ok == DownloadArtifact(cfg.format, old(storage.View()), meta.artifactID, response,
                                          cfg.maxArtifactSize, "").1.Opened?
    {
      hide CleanAll, DownloadArtifact, Victims, DownloadAndCache, DistinctHandles, Touch;
      victims := {};
      var cached := artifactCache.Get(meta.artifactID, now);
      if cached.Some? {
        return true, victims;
      }
      assert View() == old(View()) by { AbsentTouch(old(artifactCache.entries), meta.artifactID, now); }
      var fs;
      fs, victims := DownloadAndCacheArtifact(key, meta.artifactID, "", meta.headSHA, now, response);
      ok := fs.Some?;
    }

    static lemma AbsentTouch(art: Caches.Artifacts, id: int, now: int)
      ensures id !in art ==> Touch(art, id, now) == art
    {
    }

    method Serve(key: string, now: int, server: Server, response: Response)
      returns (ok: bool, ghost victims: set<int>)
      requires metadataCache.ttl == cfg.ttl && artifactCache.maxSize == cfg.maxArtifacts >= 1
      requires Owned(View())
      modifies this`fileSystems, this`refreshActive, this`refreshCount, metadataCache, artifactCache, storage
      ensures var env := Env(now, ResolveKey(server, cfg.artifactName, key), response, victims);
              && (View(), ok) == Request(cfg, old(View()), key, env)
              && (Stored(cfg, old(View()), RequestStep(key, env)).Some? ==>
                    Victims(old(artifactCache.entries), cfg.maxArtifacts, victims))
      ensures refreshActive
              == old(refreshActive) + if ServesStale(cfg, old(View()), key, now) then {key} else {}
      ensures refreshCount == old(refreshCount)
              + if ServesStale(cfg, old(View()), key, now) && key !in old(refreshActive) then 1 else 0
    {
      OwnedIsDistinct(View());
      hide CleanAll, DownloadArtifact, Victims, ResolveKey, FullResolve, DownloadAndCache, Owned, FallBack, Stored,
           Touch, DistinctHandles, Request;
      victims := {};
      ghost var before, answer := View(), ResolveKey(server, cfg.artifactName, key);
      OneWay(cfg, before, key, now);
      var meta, isFresh := metadataCache.Get(key, now);
      assert isFresh == IsFresh(cfg, before, key, now);
      hide NeedsResolve;
      if meta.Some? && isFresh {
        ok, victims := ServeFresh(key, meta.value, now, response);
        FreshRequest(cfg, before, key, Env(now, answer, response, victims));
        return;
      }
      if meta.Some? && !isFresh && cfg.staleWhileRevalidate {
        ok := ServeStale(key, meta.value, now);
        assert ok == ServesStale(cfg, before, key, now);
        if ok {
          StaleRequest(cfg, before, key, Env(now, answer, response, victims));
          return;
        }
      }
      hide IsFresh, ServesStale, IsServed;
      ok, victims := ResolveOrFallBack(key, now, server, response);
      ResolvingRequest(cfg, before, key, Env(now, answer, response, victims));
    }

    /** A request goes one of three ways. */
    static lemma OneWay(cfg: Config, s: State, key: string, now: int)
      ensures NeedsResolve(cfg, s, key, now) <==> !IsFresh(cfg, s, key, now) && !ServesStale(cfg, s, key, now)
      ensures !(IsFresh(cfg, s, key, now) && ServesStale(cfg, s, key, now))
    {
    }

    /** Serve a stale key from the cache, if its artifact is there, and refresh it in the background. */
    method ServeStale(key: string, meta: MetadataEntry, now: int) returns (ok: bool)
      modifies this`refreshActive, this`refreshCount, artifactCache
      ensures ok == (meta.artifactID in old(artifactCache.entries))
      ensures View() == if ok then old(View()).(art := Touch(old(View()).art, meta.artifactID, now)) else old(View())
      ensures refreshActive == old(refreshActive) + if ok then {key} else {}
      ensures refreshCount == old(refreshCount) + if ok && key !in old(refreshActive) then 1 else 0
    {
      AbsentTouch(artifactCache.entries, meta.artifactID, now);
      hide Touch;
      var cached := artifactCache.Get(meta.artifactID, now);
      if cached.None? {
        return false;
      }
      TriggerBackgroundRefresh(key);
      ok := true;
    }

    /** Resolve a key, and serve what it has if that fails. */
    method ResolveOrFallBack(key: string, now: int, server: Server, response: Response)
      returns (ok: bool, ghost victims: set<int>)
      requires artifactCache.maxSize >= 1 && DistinctHandles(artifactCache.entries)
      modifies this`fileSystems, metadataCache, artifactCache, storage
      ensures var env := Env(now, ResolveKey(server, cfg.artifactName, key), response, victims);
              var (t, resolved) := FullResolve(cfg, old(View()), key, env);
              && (View(), ok) == (if resolved then (t, true) else FallBack(t, key, now))
              && (Stored(cfg, old(View()), ResolveStep(key, env)).Some? ==>
                    Victims(old(artifactCache.entries), artifactCache.maxSize, victims))
    {
      hide Victims, ResolveKey, FullResolve, FallBack, Stored, DistinctHandles;
      var fs;
      fs, victims := FullResolveKey(key, now, server, response);
      if fs.Some? {
        return true, victims;
      }
      ok := ServeLastGood(key, now);
    }

    /** Keep serving what the key has, and put off the next attempt until the TTL is over. */
    method ServeLastGood(key: string, now: int) returns (ok: bool)
      modifies this`fileSystems, metadataCache, artifactCache
      ensures (View(), ok) == FallBack(old(View()), key, now)
    {
      var meta, _ := metadataCache.Get(key, now);
      if meta.Some? {
        var cached := artifactCache.Get(meta.value.artifactID, now);
        if cached.Some? {
          metadataCache.TouchEntry(key, now);
          fileSystems := fileSystems[key := cached.value];
          return true;
        }
      }
      ok := false;
    }

    /** Resolve a key now, whatever is cached: the API's refresh, and the body of a background
        refresh. */
    method Refresh(key: string, now: int, server: Server, response: Response)
      returns (ok: bool, ghost victims: set<int>)
      requires Valid() && now >= clock
      modifies this, metadataCache, artifactCache, storage
      ensures Valid()
      ensures var env := Env(now, ResolveKey(server, cfg.artifactName, key), response, victims);
              && Enabled(cfg, old(View()), ResolveStep(key, env))
              && View() == Apply(cfg, old(View()), ResolveStep(key, env))
              && ok == FullResolve(cfg, old(View()), key, env).1
    {
      OwnedIsDistinct(View());
      hide CleanAll, DownloadArtifact, Victims, ResolveKey, FullResolve, Inv;
      var fs;
      fs, victims := FullResolveKey(key, now, server, response);
      ok := fs.Some?;
      ghost var step := ResolveStep(key, Env(now, ResolveKey(server, cfg.artifactName, key), response, victims));
      StepKeepsInv(cfg, old(View()), step);
      clock := now;
    }

    /** Evict a key on demand. */
    method EvictNow(key: string, now: int)
      requires Valid() && now >= clock
      modifies this, metadataCache, artifactCache, storage
      ensures Valid() && View() == Apply(cfg, old(View()), EvictStep(key, now))
    {
      ghost var before, step := View(), EvictStep(key, now);
      OwnedIsDistinct(before);
      StepKeepsInv(cfg, before, step);
      assert Apply(cfg, before, step) == EvictKey(before, key).(clock := now);
      hide Inv, EvictKey, Apply, Enabled, DistinctHandles;
      EvictCacheKey(key);
      clock := now;
    }

    method Unregister(keys: set<string>)
      modifies this`fileSystems
      ensures fileSystems == old(fileSystems) - keys
    {
      var left := keys;
      assert fileSystems - {} == fileSystems;
      while left != {}
        invariant left <= keys && fileSystems == old(fileSystems) - (keys - left)
        decreases left
      {
        ghost var _ := Element(left);
        var key :| key in left;
        fileSystems := fileSystems - {key};
        assert keys - (left - {key}) == (keys - left) + {key};
        left := left - {key};
      }
      assert keys - {} == keys;
    }

    /** Shut down, once no background refresh is left: unregister every key in the metadata, then
        clean up every artifact. */
    method CleanUp()
      requires Valid()
      modifies this`fileSystems, artifactCache, storage
      ensures View() == Shutdown(old(View()))
    {
      OwnedIsDistinct(View());
      hide Inv, CleanAll;
      Unregister(metadataCache.entries.Keys);
      artifactCache.CleanupAll(storage);
      assert old(artifactCache.entries) - old(artifactCache.entries).Keys == map[];
    }

    /** Is this the key of a pull request that GitHub says is not open?  Keys that are no PR
        numbers, and questions GitHub does not answer, are passed over. */
    static method IsClosedPR(answers: PRStates, key: string) returns (closed: bool)
      ensures closed == Closed(answers, key)
    {
      if !(PR_PREFIX <= key) {
        return false;
      }
      var number := StrconvAtoi(TrimPrefix(key, PR_PREFIX));
      if number.Failure? {
        return false;
      }
      var answer := answers(number.value);
      if answer.None? {
        return false;
      }
      closed := answer.value != "open";
    }

    /** First half of a pruning cycle: the closed pull requests among the keys. */
    method PruneClosedPRs(answers: PRStates)
      requires DistinctHandles(artifactCache.entries)
      modifies this`fileSystems, metadataCache, artifactCache, storage
      ensures View() == PruneClosed(old(View()), answers)
    {
      ghost var before := View();
      ghost var done: set<string> := {};
      var entries := metadataCache.entries;
      var left := entries.Keys;
      PruneNothing(before);
      hide CleanAll, DistinctHandles, EvictArtifacts, Forget, Closed;
      while left != {}
        invariant left <= entries.Keys && left !! done && DistinctHandles(artifactCache.entries)
        invariant forall key :: key in done <==> key in entries && key !in left && Closed(answers, key)
        invariant View() == Forget(EvictArtifacts(before, IdsOf(entries, done)), done)
        decreases left
      {
        ghost var _ := Element(left);
        var key :| key in left;
        left := left - {key};
        var closed := IsClosedPR(answers, key);
        if closed {
          DropOne(View(), {entries[key].artifactID}, {key});
          PruneOneMore(before, entries, done, key);
          done := done + {key};
          DropKey(key, entries[key].artifactID);
        }
      }
      assert done == ClosedKeys(before, answers);
    }

    /** Evict an artifact, and take one key out of the metadata and the table. */
    method DropKey(key: string, id: int)
      requires DistinctHandles(artifactCache.entries)
      modifies this`fileSystems, metadataCache, artifactCache, storage
      ensures View() == Forget(EvictArtifacts(old(View()), {id}), {key})
    {
      hide CleanAll, DistinctHandles;
      var _ := artifactCache.Evict(id, storage);
      var _ := metadataCache.Evict(key);
      fileSystems := fileSystems - {key};
    }

    static lemma PruneNothing(s: State)
      ensures Forget(EvictArtifacts(s, IdsOf(s.meta, {})), {}) == s
    {
      EvictNothing(s);
      assert IdsOf(s.meta, {}) == {};
    }

    static lemma DropOne(s: State, ids: set<int>, keys: set<string>)
      requires DistinctHandles(s.art)
      ensures DistinctHandles(Forget(EvictArtifacts(s, ids), keys).art)
    {
    }

    static lemma PruneOneMore(s: State, entries: Metadata, done: set<string>, key: string)
      requires DistinctHandles(s.art) && key in entries
      ensures var before := Forget(EvictArtifacts(s, IdsOf(entries, done)), done);
              Forget(EvictArtifacts(before, {entries[key].artifactID}), {key})
              == Forget(EvictArtifacts(s, IdsOf(entries, done + {key})), done + {key})
    {
      var ids, id := IdsOf(entries, done), entries[key].artifactID;
      assert IdsOf(entries, done + {key}) == ids + {id} by {
        assert forall k :: k in done + {key} <==> k in done || k == key;
      }
      ForgetLater(EvictArtifacts(s, ids), done, {id});
      EvictTwice(s, ids, {id});
      ForgetTwice(EvictArtifacts(s, ids + {id}), done, {key});
    }

    static lemma ForgetLater(s: State, keys: set<string>, ids: set<int>)
      ensures EvictArtifacts(Forget(s, keys), ids) == Forget(EvictArtifacts(s, ids), keys)
    {
    }

    /** Take out every key that pointed at the artifact when the cycle began. */
    method ForgetKeysOf(entries: Metadata, id: int)
      modifies this`fileSystems, metadataCache
      ensures metadataCache.entries == old(metadataCache.entries) - KeysOf(entries, {id})
      ensures fileSystems == old(fileSystems) - KeysOf(entries, {id})
    {
      var left := entries.Keys;
      ghost var done: set<string> := {};
      assert metadataCache.entries - {} == metadataCache.entries && fileSystems - {} == fileSystems;
      while left != {}
        invariant left <= entries.Keys
        invariant forall key :: key in done <==> key in entries && key !in left && entries[key].artifactID == id
        invariant metadataCache.entries == old(metadataCache.entries) - done
        invariant fileSystems == old(fileSystems) - done
        decreases left
      {
        ghost var _ := Element(left);
        var key :| key in left;
        left := left - {key};
        if entries[key].artifactID == id {
          assert old(metadataCache.entries) - done - {key} == old(metadataCache.entries) - (done + {key});
          assert old(fileSystems) - done - {key} == old(fileSystems) - (done + {key});
          done := done + {key};
          var _ := metadataCache.Evict(key);
          fileSystems := fileSystems - {key};
        }
      }
      assert done == KeysOf(entries, {id});
    }

    /** Second half of a pruning cycle: the artifacts that aged out, and the keys that pointed at
        them. */
    method PruneAged(entries: Metadata, now: int)
      requires DistinctHandles(artifactCache.entries)
      modifies this`fileSystems, metadataCache, artifactCache, storage
      ensures var aged := Aged(old(artifactCache.entries), cfg.maxArtifactAge, now);
              View() == Forget(EvictArtifacts(old(View()), aged), KeysOf(entries, aged))
    {
      hide DistinctHandles, EvictArtifacts, Forget, KeysOf;
      var stale := artifactCache.StaleEntries(cfg.maxArtifactAge, now);
      StaleIsAged(artifactCache.entries, stale, cfg.maxArtifactAge, now);
      DropAllAged(entries, stale);
    }

    static lemma StaleIsAged(art: Caches.Artifacts, stale: seq<int>, maxAge: int, now: int)
      requires forall id :: id in stale <==> id in art && art[id].lastAccess < now - maxAge
      ensures (set id | id in stale) == Aged(art, maxAge, now)
    {
      var ids, aged := (set id | id in stale), Aged(art, maxAge, now);
      if ids - aged != {} { var _ := Element(ids - aged); }
      if aged - ids != {} { var _ := Element(aged - ids); }
      assert ids == (ids - aged) + (ids * aged) && aged == (aged - ids) + (ids * aged);
    }

    method DropAllAged(entries: Metadata, stale: seq<int>)
      requires DistinctHandles(artifactCache.entries)
      modifies this`fileSystems, metadataCache, artifactCache, storage
      ensures var ids := set id | id in stale;
              View() == Forget(EvictArtifacts(old(View()), ids), KeysOf(entries, ids))
    {
      ghost var before, done := View(), {};
      AgedNothing(before, entries);
      hide CleanAll, DistinctHandles, EvictArtifacts, Forget, KeysOf;
      for i := 0 to |stale|
        invariant DistinctHandles(artifactCache.entries)
        invariant done == set id | id in stale[..i]
        invariant View() == Forget(EvictArtifacts(before, done), KeysOf(entries, done))
      {
        DropOne(View(), {stale[i]}, KeysOf(entries, {stale[i]}));
        AgedOneMore(before, entries, done, stale[i]);
        assert stale[..i + 1] == stale[..i] + [stale[i]];
        done := done + {stale[i]};
        DropAged(entries, stale[i]);
      }
      assert stale[..|stale|] == stale;
    }

    method DropAged(entries: Metadata, id: int)
      requires DistinctHandles(artifactCache.entries)
      modifies this`fileSystems, metadataCache, artifactCache, storage
      ensures View() == Forget(EvictArtifacts(old(View()), {id}), KeysOf(entries, {id}))
    {
      hide CleanAll, DistinctHandles, KeysOf;
      var _ := artifactCache.Evict(id, storage);
      ForgetKeysOf(entries, id);
    }

    static lemma AgedNothing(s: State, entries: Metadata)
      ensures Forget(EvictArtifacts(s, {}), KeysOf(entries, {})) == s
    {
      EvictNothing(s);
      assert KeysOf(entries, {}) == {};
    }

    static lemma AgedOneMore(s: State, entries: Metadata, done: set<int>, id: int)
      requires DistinctHandles(s.art)
      ensures var before := Forget(EvictArtifacts(s, done), KeysOf(entries, done));
              Forget(EvictArtifacts(before, {id}), KeysOf(entries, {id}))
              == Forget(EvictArtifacts(s, done + {id}), KeysOf(entries, done + {id}))
    {
      var keys := KeysOf(entries, done);
      assert KeysOf(entries, done + {id}) == keys + KeysOf(entries, {id});
      ForgetLater(EvictArtifacts(s, done), keys, {id});
      EvictTwice(s, done, {id});
      ForgetTwice(EvictArtifacts(s, done + {id}), keys, KeysOf(entries, {id}));
    }

    /** One pruning cycle. */
    method PruneOnce(answers: PRStates, now: int)
      requires Valid() && now >= clock
      modifies this, metadataCache, artifactCache, storage
      ensures Valid() && View() == Apply(cfg, old(View()), PruneStep(answers, now))
    {
      ghost var before, step := View(), PruneStep(answers, now);
      OwnedIsDistinct(before);
      StepKeepsInv(cfg, before, step);
      assert Apply(cfg, before, step) == Prune(cfg, before, answers, now).(clock := now);
      ghost var closed := ClosedKeys(View(), answers);
      DropOne(View(), IdsOf(metadataCache.entries, closed), closed);
      hide Inv, CleanAll, EvictArtifacts, Forget, DistinctHandles, Apply, Enabled, ClosedKeys, IdsOf;
      var entries := metadataCache.entries;
      PruneClosedPRs(answers);
      if cfg.maxArtifactAge > 0 {
        PruneAged(entries, now);
      }
      clock := now;
    }
  }
}
