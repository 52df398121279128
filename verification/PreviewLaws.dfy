/** What each operation of the handler does, said of the tables themselves.

    These laws do not use the functions that `PreviewSpec` builds its operations from: they say, key
    by key and artifact by artifact, what is there afterwards and what it is. */
module PreviewLaws {
  import opened ByteSize
  import opened Archive
  import opened Caches
  import opened Github
  import opened PreviewSpec
  import opened PreviewRuns

  // ----- outcomes

  /** The key is gone, and with it the artifact it names, that one's file and handle; nothing else
      has changed. */
  ghost predicate Dropped(s: State, t: State, key: string) {
    && t.meta == s.meta - {key} && t.reg == s.reg - {key}
    && (forall id :: id in t.art <==> id in s.art && !(key in s.meta && s.meta[key].artifactID == id))
    && (forall id :: id in t.art ==> t.art[id] == s.art[id])
    && (forall id :: id in t.disk.files <==> id in s.disk.files && (id in s.art ==> id in t.art))
    && (forall id :: id in t.disk.files ==> t.disk.files[id] == s.disk.files[id])
    && t.disk.next == s.disk.next && t.clock == s.clock
    && (forall h: Handle :: t.disk.cleaned[h] == s.disk.cleaned[h]
          + if key in s.meta && s.meta[key].artifactID in s.art && s.art[s.meta[key].artifactID].fs == h
            then 1 else 0)
  }

  /** Nothing but the time of the last access to this artifact has changed. */
  ghost predicate Accessed(s: State, t: State, id: int, now: int) {
    && id in s.art
    && t == s.(art := s.art[id := ArtifactEntry(s.art[id].fs, s.art[id].sizeBytes, now, s.art[id].cleanup)])
  }

  /** The key names this cached artifact, as of now, and is registered on its handle; the artifact has
      been accessed; nothing else has changed. */
  ghost predicate Pointed(s: State, t: State, key: string, id: int, headSHA: string, now: int) {
    && id in s.art
    && t.meta == s.meta[key := MetadataEntry(id, headSHA, now)]
    && t.reg == s.reg[key := s.art[id].fs]
    && Accessed(s, t.(meta := s.meta, reg := s.reg), id, now)
  }

  /** The artifact has been downloaded for the key: it is a zip within the limit, with the digest asked
      for, and took the place of the victims; the key names it and is registered on its new handle. */
  ghost predicate Downloaded(cfg: Config, s: State, t: State, key: string, id: int, digest: string, headSHA: string,
                             env: Env) {
    && id in t.disk.files
    && var file := t.disk.files[id];
       && cfg.format.isZip(file) && |file| <= cfg.maxArtifactSize
       && (digest != "" ==> cfg.format.hash(file) == digest)
       && t.meta == s.meta[key := MetadataEntry(id, headSHA, env.now)]
       && t.reg == s.reg[key := s.disk.next]
       && id in t.art && t.art[id] == ArtifactEntry(s.disk.next, |file|, env.now, Cleanup(s.disk.next, id))
       && (forall x :: x != id ==> (x in t.art <==> x in s.art && x !in env.victims))
       && (forall x :: x != id && x in t.art ==> t.art[x] == s.art[x])
       && (forall x :: x != id ==> (x in t.disk.files <==> x in s.disk.files && x !in env.victims))
       && (forall x :: x != id && x in t.disk.files ==> t.disk.files[x] == s.disk.files[x])
       && t.disk.next == s.disk.next + 1 && t.clock == s.clock
  }

  /** Tables and cache are as they were, and so are the files; a download may have opened a handle and
      cleaned it up again. */
  ghost predicate Unserved(s: State, t: State) {
    && t.meta == s.meta && t.reg == s.reg && t.art == s.art && t.clock == s.clock
    && t.disk.files == s.disk.files
    && (t.disk == s.disk
        || (t.disk.next == s.disk.next + 1 && t.disk.cleaned == s.disk.cleaned + multiset{s.disk.next}))
  }

  // ----- evicting one key

  lemma EvictedFiles(s: State, id: int)
    requires Owned(s)
    ensures var t := EvictArtifacts(s, {id});
            && t.art == s.art - {id} && t.disk.next == s.disk.next
            && (forall x :: x in t.disk.files <==> x in s.disk.files && !(x == id && id in s.art))
            && (forall x :: x in t.disk.files ==> t.disk.files[x] == s.disk.files[x])
            && forall h: Handle :: t.disk.cleaned[h] == s.disk.cleaned[h]
                 + if id in s.art && s.art[id].fs == h then 1 else 0
  {
    var paths := set i | i in {id} && i in s.art :: s.art[i].cleanup.path;
    var hs := set i | i in {id} && i in s.art :: s.art[i].cleanup.handle;
    assert forall x :: x in paths <==> x == id && id in s.art;
    assert forall h :: h in hs <==> id in s.art && s.art[id].fs == h;
  }

  /** Evicting a key drops that key and its artifact, and nothing else. */
  lemma EvictDropsOneKey(s: State, key: string)
    requires Owned(s)
    ensures Dropped(s, EvictKey(s, key), key)
  {
    if key in s.meta {
      EvictedFiles(s, s.meta[key].artifactID);
      hide CleanAll, Owned;
    } else {
      CleanNone(s.disk, s.art);
      assert s.art - {} == s.art;
      hide CleanAll, Owned;
    }
  }

  /** So does an evict step. */
  lemma EvictStepDropsOneKey(cfg: Config, s: State, key: string, now: int)
    requires Owned(s)
    ensures Dropped(s, Apply(cfg, s, EvictStep(key, now)).(clock := s.clock), key)
  {
    EvictDropsOneKey(s, key);
    hide EvictKey, Owned, Dropped;
    assert EvictKey(s, key).clock == s.clock by { ClockKept(s, key); }
  }

  lemma ClockKept(s: State, key: string)
    ensures EvictKey(s, key).clock == s.clock
  {
  }

  // ----- resolving

  lemma ServePoints(s: State, key: string, id: int, headSHA: string, now: int)
    requires id in s.art
    ensures Pointed(s, ServeCached(s, key, id, headSHA, now), key, id, headSHA, now)
  {
  }

  lemma AccessTouches(s: State, id: int, now: int)
    requires id in s.art
    ensures Accessed(s, s.(art := Touch(s.art, id, now)), id, now)
  {
  }

  lemma StoreDownloads(cfg: Config, s: State, key: string, id: int, digest: string, headSHA: string, file: Bytes,
      env: Env)
    requires Owned(s) && id !in s.art && env.victims <= s.art.Keys
    requires cfg.format.isZip(file) && |file| <= cfg.maxArtifactSize
    requires digest != "" ==> cfg.format.hash(file) == digest
    ensures Downloaded(cfg, s, Stores(s, key, id, headSHA, file, env.now, env.victims), key, id, digest, headSHA, env)
  {
    var vs := env.victims;
    var paths := set x | x in vs && x in s.art :: s.art[x].cleanup.path;
    assert forall x :: x in paths <==> x in vs;
    hide Owned;
  }

  lemma DownloadedFile(cfg: Config, s: State, key: string, id: int, digest: string, headSHA: string, env: Env)
    returns (file: Bytes)
    ensures var (t, ok) := DownloadAndCache(cfg, s, key, id, digest, headSHA, env);
            ok ==>
              && t == Stores(s, key, id, headSHA, file, env.now, env.victims)
              && cfg.format.isZip(file) && |file| <= cfg.maxArtifactSize
              && (digest != "" ==> cfg.format.hash(file) == digest)
  {
    var (d, r) := DownloadArtifact(cfg.format, s.disk, id, env.response, cfg.maxArtifactSize, digest);
    OpenedAddsOneFile(cfg.format, s.disk, id, env.response, cfg.maxArtifactSize, digest);
    file := if r.Opened? then d.files[id] else [];
    hide DownloadArtifact, CleanAll;
  }

  /** A download either gives all that is promised of one, or leaves everything as it was. */
  lemma DownloadLaw(cfg: Config, s: State, key: string, id: int, digest: string, headSHA: string, env: Env)
    requires Owned(s) && TablesAgree(s) && id !in s.art
    requires DownloadArtifact(cfg.format, s.disk, id, env.response, cfg.maxArtifactSize, digest).1.Opened?
             ==> env.victims <= s.art.Keys
    ensures var (t, ok) := DownloadAndCache(cfg, s, key, id, digest, headSHA, env);
            && (ok ==> Downloaded(cfg, s, t, key, id, digest, headSHA, env))
            && (!ok ==> Unserved(s, t))
    ensures DownloadAndCache(cfg, s, key, id, digest, headSHA, env).1
            == DownloadArtifact(cfg.format, s.disk, id, env.response, cfg.maxArtifactSize, digest).1.Opened?
  {
    RejectedLeavesNothing(cfg.format, s.disk, id, env.response, cfg.maxArtifactSize, digest);
    RejectedLeavesHandles(cfg.format, s.disk, id, env.response, cfg.maxArtifactSize, digest);
    var file := DownloadedFile(cfg, s, key, id, digest, headSHA, env);
    if DownloadAndCache(cfg, s, key, id, digest, headSHA, env).1 {
      assert DownloadArtifact(cfg.format, s.disk, id, env.response, cfg.maxArtifactSize, digest).1.Opened?;
      StoreDownloads(cfg, s, key, id, digest, headSHA, file, env);
    }
    hide DownloadArtifact, Stores, CleanAll, Owned, Downloaded;
  }

  lemma RejectedLeavesHandles(f: Format, d: Disk, id: Path, response: Response, maxSize: int, expected: string)
    requires id !in d.files
    ensures var (d', r) := DownloadArtifact(f, d, id, response, maxSize, expected);
            r.Rejected? ==>
              d' == d || (d'.next == d.next + 1 && d'.cleaned == d.cleaned + multiset{d.next})
  {
    RejectedIsCleaned(f, d, id, response, maxSize, expected);
    RejectedLeavesNothing(f, d, id, response, maxSize, expected);
    hide DownloadArtifact;
  }

  /** What resolving comes to, for each answer.  An older build that is not from the head commit does
      not replace a newer one that is cached: the key goes on naming that, from the same commit. */
  ghost predicate Resolved(cfg: Config, s: State, key: string, env: Env, t: State, ok: bool) {
    match env.answer
    case Failed => t == s && !ok
    case NotOpen => Dropped(s, t, key) && !ok
    case Found(id, digest, headSHA, exactHead) =>
      if key in s.meta && !exactHead && id < s.meta[key].artifactID && s.meta[key].artifactID in s.art then
        Pointed(s, t, key, s.meta[key].artifactID, s.meta[key].headSHA, env.now) && ok
      else if id in s.art then
        Pointed(s, t, key, id, headSHA, env.now) && ok
      else
        if ok then Downloaded(cfg, s, t, key, id, digest, headSHA, env) else Unserved(s, t)
  }

  lemma ResolveLaw(cfg: Config, s: State, key: string, env: Env)
    requires Owned(s) && TablesAgree(s)
    requires Stored(cfg, s, ResolveStep(key, env)).Some? ==> env.victims <= s.art.Keys
    ensures var (t, ok) := FullResolve(cfg, s, key, env); Resolved(cfg, s, key, env, t, ok)
  {
    hide Owned, TablesAgree, DownloadArtifact, DownloadAndCache, Downloaded, Dropped, Pointed, Unserved, ServeCached,
         EvictKey;
    match env.answer
    case Failed =>
    case NotOpen => EvictDropsOneKey(s, key);
    case Found(id, digest, headSHA, exactHead) =>
      if key in s.meta && s.meta[key].artifactID in s.art {
        ServePoints(s, key, s.meta[key].artifactID, s.meta[key].headSHA, env.now);
      }
      if id in s.art {
        ServePoints(s, key, id, headSHA, env.now);
      } else if !KeepsNewer(s, key, id, exactHead) {
        DownloadLaw(cfg, s, key, id, digest, headSHA, env);
      }
  }

  // ----- requests

  /** The key's metadata is no older than the time to live. */
  predicate WithinTTL(cfg: Config, s: State, key: string, now: int) {
    key in s.meta && now - s.meta[key].resolvedAt <= cfg.ttl
  }

  /** What a request comes to.  Within the time to live the artifact named is served, and downloaded
      again if it has to be.  After that a key whose artifact is cached is served if it may be served
      stale.  In all other cases the key is resolved; if that fails, the key goes on naming what it
      named, provided that is still cached. */
  ghost predicate Served(cfg: Config, s: State, key: string, env: Env, t: State, ok: bool) {
    var cached := key in s.meta && s.meta[key].artifactID in s.art;
    if cached && (WithinTTL(cfg, s, key, env.now) || cfg.staleWhileRevalidate) then
      Accessed(s, t, s.meta[key].artifactID, env.now) && ok
    else if WithinTTL(cfg, s, key, env.now) then
      if ok then Downloaded(cfg, s, t, key, s.meta[key].artifactID, "", s.meta[key].headSHA, env) else Unserved(s, t)
    else
      exists u, found ::
        && Resolved(cfg, s, key, env, u, found)
        && if found then t == u && ok
           else if cached && !env.answer.NotOpen? then
             ok && Pointed(u, t, key, s.meta[key].artifactID, s.meta[key].headSHA, env.now)
           else t == u && !ok
  }

  lemma FailedKeeps(cfg: Config, s: State, key: string, env: Env, u: State)
    requires Resolved(cfg, s, key, env, u, false)
    ensures !env.answer.NotOpen? ==> u.meta == s.meta && u.reg == s.reg && u.art == s.art
    ensures env.answer.NotOpen? ==> key !in u.meta
  {
    hide Downloaded;
  }

  lemma RequestLaw(cfg: Config, s: State, key: string, env: Env)
    requires Owned(s) && TablesAgree(s)
    requires Stored(cfg, s, RequestStep(key, env)).Some? ==> env.victims <= s.art.Keys
    ensures var (t, ok) := Request(cfg, s, key, env); Served(cfg, s, key, env, t, ok)
  {
    var (t, ok) := Request(cfg, s, key, env);
    if NeedsResolve(cfg, s, key, env.now) {
      assert Stored(cfg, s, RequestStep(key, env)) == Stored(cfg, s, ResolveStep(key, env)) by {
        hide DownloadArtifact;
      }
      ResolveLaw(cfg, s, key, env);
      var (u, found) := FullResolve(cfg, s, key, env);
      if !found { FailedKeeps(cfg, s, key, env, u); }
      if IsServed(u, key) {
        ServePoints(u, key, u.meta[key].artifactID, u.meta[key].headSHA, env.now);
      }
      hide FullResolve, Stored, Resolved, Pointed, ServeCached, Owned;
      assert Resolved(cfg, s, key, env, u, found);
    } else if IsServed(s, key) {
      AccessTouches(s, s.meta[key].artifactID, env.now);
      hide FullResolve, DownloadAndCache, Accessed, Stored, Touch;
    } else {
      DownloadLaw(cfg, s, key, s.meta[key].artifactID, "", s.meta[key].headSHA, env);
      hide FullResolve, DownloadAndCache, Downloaded, Unserved, DownloadArtifact;
    }
  }

  /** A request asks GitHub only when the law says so: otherwise no answer makes a difference. */
  lemma AnswerIgnoredUnlessExpired(cfg: Config, s: State, key: string, env: Env, answer: Answer)
    requires WithinTTL(cfg, s, key, env.now)
             || (cfg.staleWhileRevalidate && key in s.meta && s.meta[key].artifactID in s.art)
    ensures Request(cfg, s, key, env.(answer := answer)) == Request(cfg, s, key, env)
  {
    hide DownloadArtifact, CleanAll;
  }

  /** Without stale-while-revalidate an expired key takes up a newer build that is cached. */
  lemma ExpiredTakesUpNewBuild(cfg: Config, s: State, key: string, env: Env)
    requires !cfg.staleWhileRevalidate && key in s.meta && env.now - s.meta[key].resolvedAt > cfg.ttl
    requires env.answer.Found? && env.answer.artifactID > s.meta[key].artifactID && env.answer.artifactID in s.art
    ensures Pointed(s, Request(cfg, s, key, env).0, key, env.answer.artifactID, env.answer.headSHA, env.now)
  {
    ServePoints(s, key, env.answer.artifactID, env.answer.headSHA, env.now);
    hide ServeCached, DownloadAndCache, EvictKey, Pointed;
  }

  /** A request or resolution that fails leaves tables and cache as they were, unless it found the pull
      request closed. */
  lemma FailureLeavesTables(cfg: Config, s: State, key: string, env: Env)
    requires !env.answer.NotOpen?
    ensures var (t, ok) := FullResolve(cfg, s, key, env); !ok ==> t.meta == s.meta && t.reg == s.reg && t.art == s.art
    ensures var (t, ok) := Request(cfg, s, key, env); !ok ==> t.meta == s.meta && t.reg == s.reg && t.art == s.art
  {
    hide DownloadArtifact, CleanAll;
  }

  /** With GitHub's answers: a key that is served goes on being served, unless a request has to wait
      for a resolution and GitHub reports the key's pull request, which has a build, as not open. */
  lemma ServedUnlessFoundClosed(cfg: Config, s: State, server: Server, key: string, env: Env)
    requires PR_PREFIX <= key || BRANCH_PREFIX <= key
    requires env.answer == ResolveKey(server, cfg.artifactName, key)
    requires key in s.meta && s.meta[key].artifactID in s.art
    ensures Request(cfg, s, key, env).1
            <==> WithinTTL(cfg, s, key, env.now) || cfg.staleWhileRevalidate
                 || !FoundClosed(server, cfg.artifactName, key)
  {
    NotOpenIffFoundClosed(server, cfg.artifactName, key);
    hide DownloadArtifact, CleanAll, ResolveKey, FoundClosed;
  }

  // ----- pruning

  /** GitHub reports the pull request of this key as not open.  No other key is ever reported so. */
  ghost predicate ReportedClosed(answers: PRStates, key: string) {
    exists number :: IsPRKey(key, number) && answers(number).Some? && answers(number).value != "open"
  }

  lemma ClosedIsReported(answers: PRStates, key: string)
    ensures Closed(answers, key) <==> ReportedClosed(answers, key)
  {
    if Closed(answers, key) {
      PRKeyParses(key, StrconvAtoi(key[|PR_PREFIX|..]).value);
    }
    if ReportedClosed(answers, key) {
      var number :| IsPRKey(key, number) && answers(number).Some? && answers(number).value != "open";
      PRKeyParses(key, number);
    }
    hide IsPRKey, StrconvAtoi;
  }

  /** The artifact of some key that is reported closed. */
  ghost predicate OfClosed(s: State, answers: PRStates, id: int) {
    exists key :: key in s.meta && s.meta[key].artifactID == id && ReportedClosed(answers, key)
  }

  lemma IdsOfClosed(s: State, answers: PRStates, id: int)
    ensures id in IdsOf(s.meta, ClosedKeys(s, answers)) <==> OfClosed(s, answers, id)
  {
    forall key
      ensures Closed(answers, key) <==> ReportedClosed(answers, key)
    {
      ClosedIsReported(answers, key);
    }
    hide Closed, ReportedClosed;
  }

  /** Has this artifact not been accessed for longer than the age limit allows, if there is one? */
  predicate TooOld(cfg: Config, s: State, id: int, now: int) {
    cfg.maxArtifactAge > 0 && id in s.art && s.art[id].lastAccess < now - cfg.maxArtifactAge
  }

  /** After pruning: the artifacts of pull requests reported as not open are gone, and with an age
      limit those too old for it; these pull requests are gone, and any other key is dropped only if
      its artifact was too old; all the rest is as it was. */
  ghost predicate Pruned(cfg: Config, s: State, answers: PRStates, now: int, t: State) {
    && (forall id :: id in t.art <==> id in s.art && !OfClosed(s, answers, id) && !TooOld(cfg, s, id, now))
    && (forall id :: id in t.art ==> t.art[id] == s.art[id])
    && (forall k :: k in t.meta <==>
          && k in s.meta && !ReportedClosed(answers, k)
          && !(TooOld(cfg, s, s.meta[k].artifactID, now) && !OfClosed(s, answers, s.meta[k].artifactID)))
    && (forall k :: k in t.meta ==> t.meta[k] == s.meta[k] && k in t.reg && k in s.reg && t.reg[k] == s.reg[k])
    && t.reg.Keys == t.meta.Keys
  }

  /** The same, with the artifacts of closed keys and these keys given as sets. */
  ghost predicate PrunedBy(cfg: Config, s: State, now: int, ids: set<int>, closed: set<string>, t: State) {
    && (forall id :: id in t.art <==> id in s.art && id !in ids && !TooOld(cfg, s, id, now))
    && (forall id :: id in t.art ==> t.art[id] == s.art[id])
    && (forall k :: k in t.meta <==>
          && k in s.meta && k !in closed
          && !(TooOld(cfg, s, s.meta[k].artifactID, now) && s.meta[k].artifactID !in ids))
    && (forall k :: k in t.meta ==> t.meta[k] == s.meta[k] && k in t.reg && k in s.reg && t.reg[k] == s.reg[k])
    && t.reg.Keys == t.meta.Keys
  }

  lemma PruneSteps(cfg: Config, s: State, answers: PRStates, now: int)
    requires s.meta.Keys == s.reg.Keys
    ensures PrunedBy(cfg, s, now, IdsOf(s.meta, ClosedKeys(s, answers)), ClosedKeys(s, answers),
                     Prune(cfg, s, answers, now))
  {
    hide CleanAll, Closed, IdsOf;
    var ids := IdsOf(s.meta, ClosedKeys(s, answers));
    var s1 := PruneClosed(s, answers);
    assert s1.art == s.art - ids;
    assert s1.meta == s.meta - ClosedKeys(s, answers) && s1.reg == s.reg - ClosedKeys(s, answers);
    var t := Prune(cfg, s, answers, now);
    if cfg.maxArtifactAge > 0 {
      var aged := Aged(s1.art, cfg.maxArtifactAge, now);
      assert t.art == s1.art - aged;
      assert t.meta == s1.meta - KeysOf(s.meta, aged) && t.reg == s1.reg - KeysOf(s.meta, aged);
    }
  }

  lemma PrunedByClosed(cfg: Config, s: State, answers: PRStates, now: int, ids: set<int>, closed: set<string>, t: State)
    requires PrunedBy(cfg, s, now, ids, closed, t)
    requires forall id :: id in ids <==> OfClosed(s, answers, id)
    requires forall k :: k in closed <==> k in s.meta && ReportedClosed(answers, k)
    ensures Pruned(cfg, s, answers, now, t)
  {
    hide OfClosed, ReportedClosed, TooOld;
  }

  lemma PruneDropsExactly(cfg: Config, s: State, answers: PRStates, now: int)
    requires s.meta.Keys == s.reg.Keys
    ensures Pruned(cfg, s, answers, now, Prune(cfg, s, answers, now))
  {
    var closed := ClosedKeys(s, answers);
    PruneSteps(cfg, s, answers, now);
    forall id
      ensures id in IdsOf(s.meta, closed) <==> OfClosed(s, answers, id)
    {
      IdsOfClosed(s, answers, id);
    }
    forall k
      ensures k in closed <==> k in s.meta && ReportedClosed(answers, k)
    {
      ClosedIsReported(answers, k);
    }
    hide Prune, IdsOf, ClosedKeys, OfClosed, ReportedClosed, Pruned, PrunedBy;
    PrunedByClosed(cfg, s, answers, now, IdsOf(s.meta, closed), closed, Prune(cfg, s, answers, now));
  }

  /** A pull request is kept while GitHub says that it is open or says nothing, and a branch is kept
      always, unless its own artifact was too old. */
  lemma OpenIsKept(cfg: Config, s: State, answers: PRStates, now: int, key: string)
    requires s.meta.Keys == s.reg.Keys && key in s.meta && !TooOld(cfg, s, s.meta[key].artifactID, now)
    ensures forall number :: IsPRKey(key, number) ==>
              (key in Prune(cfg, s, answers, now).meta
               <==> answers(number).None? || answers(number).value == "open")
    ensures BRANCH_PREFIX <= key ==> key in Prune(cfg, s, answers, now).meta
  {
    PruneDropsExactly(cfg, s, answers, now);
    forall number | IsPRKey(key, number)
      ensures ReportedClosed(answers, key) <==> answers(number).Some? && answers(number).value != "open"
    {
      PRKeyParses(key, number);
      if ReportedClosed(answers, key) {
        var n :| IsPRKey(key, n) && answers(n).Some? && answers(n).value != "open";
        PRKeyParses(key, n);
      }
    }
    if BRANCH_PREFIX <= key {
      assert key[0] == 'b' && !(PR_PREFIX <= key);
      forall number
        ensures !IsPRKey(key, number)
      {
        PRKeyParses(key, number);
      }
    }
    hide Prune, IsPRKey, StrconvAtoi, TooOld;
  }

  /** The files that are left belong to the artifacts that are left, and are as they were. */
  lemma PruneKeepsFiles(cfg: Config, s: State, answers: PRStates, now: int)
    requires Inv(cfg, s, now)
    ensures var t := Prune(cfg, s, answers, now);
            t.disk.files.Keys == t.art.Keys
            && forall id :: id in t.disk.files ==> t.disk.files[id] == s.disk.files[id]
  {
    PruneKeepsInv(cfg, s, answers, now);
    assert TablesAgree(Prune(cfg, s, answers, now));
    SubFiles(cfg, s, answers, now);
    hide Prune, Inv;
  }

  lemma SubFiles(cfg: Config, s: State, answers: PRStates, now: int)
    ensures var t := Prune(cfg, s, answers, now);
            forall id :: id in t.disk.files ==> id in s.disk.files && t.disk.files[id] == s.disk.files[id]
  {
    hide ClosedKeys, IdsOf, Aged, KeysOf;
  }
}
