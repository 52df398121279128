/** What holds over every serialised run of the preview handler. */
module PreviewRuns {
  import opened ByteSize
  import opened Archive
  import opened Caches
  import opened PreviewSpec

  // ----- the invariant

  ghost predicate Resident(art: Caches.Artifacts, h: Handle) {
    exists id :: id in art && art[id].fs == h
  }

  /** A key has metadata exactly when it is registered; an artifact is cached exactly when its zip
      is on disk. */
  ghost predicate TablesAgree(s: State) {
    s.meta.Keys == s.reg.Keys && s.disk.files.Keys == s.art.Keys
  }

  /** Each cached artifact owns its handle and its file, and would clean up just those. */
  ghost predicate Owned(s: State) {
    && (forall id :: id in s.art ==>
          && s.art[id].cleanup == Cleanup(s.art[id].fs, id) && s.art[id].fs < s.disk.next
          && id in s.disk.files && s.art[id].sizeBytes == |s.disk.files[id]|)
    && (forall a, b :: a in s.art && b in s.art && a != b ==> s.art[a].fs != s.art[b].fs)
  }

  /** Every handle ever opened is either held by a cached artifact, or its cleanup has run once. */
  ghost predicate Ledger(s: State) {
    forall h: Handle :: s.disk.cleaned[h] == if h < s.disk.next && !Resident(s.art, h) then 1 else 0
  }

  ghost predicate Stamped(s: State, now: int) {
    && (forall id :: id in s.art ==> s.art[id].lastAccess <= now)
    && (forall k :: k in s.meta ==> s.meta[k].resolvedAt <= now)
  }

  ghost predicate Issued(s: State) {
    forall k :: k in s.reg ==> s.reg[k] < s.disk.next
  }

  ghost predicate Inv(cfg: Config, s: State, now: int) {
    && TablesAgree(s)
    && Owned(s)
    && Ledger(s)
    && Stamped(s, now)
    && Issued(s)
    && |s.art| <= cfg.maxArtifacts
  }

  // ----- each primitive keeps it

  lemma EvictOwned(s: State, ids: set<int>)
    requires Owned(s) && s.disk.files.Keys == s.art.Keys
    ensures var s' := EvictArtifacts(s, ids);
            Owned(s') && s'.disk.files == s.disk.files - ids && s'.disk.files.Keys == s'.art.Keys
  {
    var paths := set id | id in ids && id in s.art :: s.art[id].cleanup.path;
    assert forall id :: id in paths <==> id in ids && id in s.art;
  }

  lemma EvictLedger(s: State, ids: set<int>)
    requires Owned(s) && Ledger(s)
    ensures Ledger(EvictArtifacts(s, ids))
  {
    var s' := EvictArtifacts(s, ids);
    var hs := set id | id in ids && id in s.art :: s.art[id].cleanup.handle;
    forall h: Handle
      ensures s'.disk.cleaned[h] == if h < s'.disk.next && !Resident(s'.art, h) then 1 else 0
    {
      assert s'.disk.cleaned[h] == s.disk.cleaned[h] + (if h in hs then 1 else 0);
      if h in hs {
        var id :| id in ids && id in s.art && s.art[id].cleanup.handle == h;
        assert s.art[id].fs == h && Resident(s.art, h);
      } else if Resident(s.art, h) {
        var id :| id in s.art && s.art[id].fs == h;
        assert id !in ids;
        assert id in s'.art && s'.art[id].fs == h;
      }
    }
  }

  lemma FewerArtifacts(art: Caches.Artifacts, ids: set<int>)
    ensures |art - ids| <= |art|
  {
    assert (art - ids).Keys == art.Keys - ids;
    assert |art.Keys - ids| <= |art.Keys|;
    assert |(art - ids).Keys| == |art - ids| && |art.Keys| == |art|;
  }

  lemma EvictKeepsInv(cfg: Config, s: State, ids: set<int>, now: int)
    requires Inv(cfg, s, now)
    ensures Inv(cfg, EvictArtifacts(s, ids), now)
  {
    EvictOwned(s, ids);
    EvictLedger(s, ids);
    FewerArtifacts(s.art, ids);
    var t := EvictArtifacts(s, ids);
    assert t == State(s.meta, s.art - ids, s.reg, t.disk, s.clock) && t.disk.next == s.disk.next;
    hide Owned, Ledger, CleanAll, EvictArtifacts;
    FewerKeepsInv(cfg, s, t, now);
  }

  lemma FewerKeepsInv(cfg: Config, s: State, t: State, now: int)
    requires Inv(cfg, s, now) && t.meta == s.meta && t.reg == s.reg
    requires forall id :: id in t.art ==> id in s.art && t.art[id] == s.art[id]
    requires t.disk.next == s.disk.next && t.disk.files.Keys == t.art.Keys && |t.art| <= |s.art|
    requires Owned(t) && Ledger(t)
    ensures Inv(cfg, t, now)
  {
    hide Owned, Ledger;
  }

  lemma ForgetKeepsInv(cfg: Config, s: State, keys: set<string>, now: int)
    requires Inv(cfg, s, now)
    ensures Inv(cfg, Forget(s, keys), now)
  {
    hide Ledger, Owned;
    var s' := Forget(s, keys);
    assert Ledger(s') by { LedgerOf(s, s'); }
    assert Owned(s') by { OwnedOf(s, s'); }
  }

  /** The ledger only looks at the artifacts and the disk. */
  lemma LedgerOf(s: State, t: State)
    requires Ledger(s) && t.disk == s.disk
    requires forall h: Handle :: Resident(t.art, h) <==> Resident(s.art, h)
    ensures Ledger(t)
  {
  }

  lemma OwnedOf(s: State, t: State)
    requires Owned(s) && t.disk == s.disk && t.art == s.art
    ensures Owned(t)
  {
  }

  lemma TouchKeeps(s: State, id: int, now: int, t: State)
    requires Owned(s) && Ledger(s) && t.art == Touch(s.art, id, now) && t.disk == s.disk
    ensures Owned(t) && Ledger(t) && |t.art| == |s.art|
  {
    forall h: Handle
      ensures Resident(t.art, h) <==> Resident(s.art, h)
    {
      if Resident(s.art, h) {
        var i :| i in s.art && s.art[i].fs == h;
        assert i in t.art && t.art[i].fs == h;
      }
    }
    LedgerOf(s, t);
    assert t.art.Keys == s.art.Keys;
    assert |t.art.Keys| == |t.art| && |s.art.Keys| == |s.art|;
  }

  lemma TouchStamps(art: Caches.Artifacts, id: int, now: int)
    requires forall x :: x in art ==> art[x].lastAccess <= now
    ensures Touch(art, id, now).Keys == art.Keys
    ensures forall x :: x in Touch(art, id, now) ==> Touch(art, id, now)[x].lastAccess <= now
  {
  }

  lemma TouchKeepsInv(cfg: Config, s: State, id: int, now: int)
    requires Inv(cfg, s, now)
    ensures Inv(cfg, s.(art := Touch(s.art, id, now)), now)
  {
    TouchKeeps(s, id, now, s.(art := Touch(s.art, id, now)));
    TouchStamps(s.art, id, now);
    hide Ledger, Owned, Touch;
  }

  lemma RegisterKeepsInv(cfg: Config, s: State, key: string, e: MetadataEntry, h: Handle, now: int)
    requires Inv(cfg, s, now) && e.resolvedAt <= now && h < s.disk.next
    ensures Inv(cfg, s.(meta := s.meta[key := e], reg := s.reg[key := h]), now)
  {
    var t := s.(meta := s.meta[key := e], reg := s.reg[key := h]);
    LedgerOf(s, t);
    OwnedOf(s, t);
    hide Ledger, Owned;
  }

  lemma ServeKeepsInv(cfg: Config, s: State, key: string, id: int, headSHA: string, now: int)
    requires Inv(cfg, s, now) && id in s.art
    ensures Inv(cfg, ServeCached(s, key, id, headSHA, now), now)
  {
    assert s.art[id].fs < s.disk.next;
    TouchKeepsInv(cfg, s, id, now);
    hide Inv, Touch;
    RegisterKeepsInv(cfg, s.(art := Touch(s.art, id, now)), key, MetadataEntry(id, headSHA, now), s.art[id].fs, now);
  }

  /** The state in which a successful download has been stored. */
  ghost function Stores(s: State, key: string, id: int, headSHA: string, file: Bytes, now: int, victims: set<int>)
    : State
  {
    s.(art := (s.art - victims)[id := ArtifactEntry(s.disk.next, |file|, now, Cleanup(s.disk.next, id))],
       disk := CleanAll(Disk(s.disk.files[id := file], s.disk.cleaned, s.disk.next + 1), s.art, victims),
       meta := s.meta[key := MetadataEntry(id, headSHA, now)],
       reg := s.reg[key := s.disk.next])
  }

  lemma DownloadStores(cfg: Config, s: State, key: string, id: int, digest: string, headSHA: string, env: Env)
    returns (file: Bytes)
    ensures var (s', ok) := DownloadAndCache(cfg, s, key, id, digest, headSHA, env);
            && ok == DownloadArtifact(cfg.format, s.disk, id, env.response, cfg.maxArtifactSize, digest).1.Opened?
            && (ok ==> s' == Stores(s, key, id, headSHA, file, env.now, env.victims)
                       && cfg.format.isZip(file) && |file| <= cfg.maxArtifactSize)
  {
    var (d, r) := DownloadArtifact(cfg.format, s.disk, id, env.response, cfg.maxArtifactSize, digest);
    OpenedAddsOneFile(cfg.format, s.disk, id, env.response, cfg.maxArtifactSize, digest);
    file := if r.Opened? then d.files[id] else [];
    hide DownloadArtifact, CleanAll;
  }

  /** One more artifact and its file, under a new handle. */
  ghost function Add(s: State, key: string, id: int, headSHA: string, file: Bytes, now: int): State {
    State(s.meta[key := MetadataEntry(id, headSHA, now)],
          s.art[id := ArtifactEntry(s.disk.next, |file|, now, Cleanup(s.disk.next, id))],
          s.reg[key := s.disk.next],
          Disk(s.disk.files[id := file], s.disk.cleaned, s.disk.next + 1),
          s.clock)
  }

  /** Is this a zip that the handler accepts? */
  predicate Takes(cfg: Config, zip: Bytes) {
    cfg.format.isZip(zip) && |zip| <= cfg.maxArtifactSize < MAX_INT64
  }

  /** A zip that arrives whole is stored; here without evicting anything. */
  lemma DeliveredIsAdded(cfg: Config, s: State, key: string, id: int, headSHA: string, env: Env, zip: Bytes)
    requires env.response == Delivered(zip) && env.victims == {} && Takes(cfg, zip)
    ensures DownloadAndCache(cfg, s, key, id, "", headSHA, env) == (Add(s, key, id, headSHA, zip, env.now), true)
  {
    DeliveredIsStored(cfg.format, s.disk, id, zip, cfg.maxArtifactSize);
    CleanNone(Disk(s.disk.files[id := zip], s.disk.cleaned, s.disk.next + 1), s.art);
    assert s.art - {} == s.art;
    hide DownloadArtifact, CleanAll, Delivered;
  }

  /** Storing is evicting the victims, and then adding one artifact. */
  lemma StoresIsEvictThenAdd(s: State, key: string, id: int, headSHA: string, file: Bytes, now: int, victims: set<int>)
    requires Owned(s) && id !in s.art && victims <= s.art.Keys
    ensures Stores(s, key, id, headSHA, file, now, victims)
            == Add(EvictArtifacts(s, victims), key, id, headSHA, file, now)
    ensures EvictArtifacts(s, victims).art == s.art - victims
  {
    var paths := set i | i in victims && i in s.art :: s.art[i].cleanup.path;
    assert forall i :: i in paths <==> i in victims;
    assert id !in paths;
    assert s.disk.files[id := file] - paths == (s.disk.files - paths)[id := file];
  }

  lemma AddLedger(e: State, t: State, id: int, entry: ArtifactEntry)
    requires Ledger(e) && id !in e.art && (forall i :: i in e.art ==> e.art[i].fs < e.disk.next)
    requires entry.fs == e.disk.next && t.art == e.art[id := entry]
    requires t.disk.cleaned == e.disk.cleaned && t.disk.next == e.disk.next + 1
    ensures Ledger(t)
  {
    forall h: Handle
      ensures t.disk.cleaned[h] == if h < t.disk.next && !Resident(t.art, h) then 1 else 0
    {
      if h == e.disk.next {
        assert id in t.art && t.art[id].fs == h;
      } else if Resident(e.art, h) {
        var i :| i in e.art && e.art[i].fs == h;
        assert i in t.art && t.art[i].fs == h;
      }
    }
  }

  lemma AddKeepsInv(cfg: Config, s: State, key: string, id: int, headSHA: string, file: Bytes, now: int)
    requires Inv(cfg, s, now) && id !in s.art && |s.art| < cfg.maxArtifacts
    ensures Inv(cfg, Add(s, key, id, headSHA, file, now), now)
  {
    var t := Add(s, key, id, headSHA, file, now);
    AddLedger(s, t, id, t.art[id]);
    AddOwned(s, t, id, file, t.art[id]);
    hide Ledger, Owned;
  }

  lemma StoreKeepsInv(cfg: Config, s: State, key: string, id: int, headSHA: string, file: Bytes, now: int,
      victims: set<int>)
    requires Inv(cfg, s, now) && cfg.maxArtifacts >= 1 && id !in s.art && Victims(s.art, cfg.maxArtifacts, victims)
    ensures Inv(cfg, Stores(s, key, id, headSHA, file, now, victims), now)
  {
    EvictKeepsInv(cfg, s, victims, now);
    StoresIsEvictThenAdd(s, key, id, headSHA, file, now, victims);
    SizeLeft(s.art, victims);
    hide Inv, Stores, EvictArtifacts, Add;
    AddKeepsInv(cfg, EvictArtifacts(s, victims), key, id, headSHA, file, now);
  }

  lemma AddOwned(e: State, t: State, id: int, file: Bytes, entry: ArtifactEntry)
    requires Owned(e) && id !in e.art && e.disk.files.Keys == e.art.Keys
    requires entry.fs == e.disk.next && entry.cleanup == Cleanup(entry.fs, id) && entry.sizeBytes == |file|
    requires t.art == e.art[id := entry] && t.disk.files == e.disk.files[id := file] && t.disk.next == e.disk.next + 1
    ensures Owned(t) && t.disk.files.Keys == t.art.Keys
  {
  }

  lemma RejectKeepsInv(cfg: Config, s: State, id: int, response: Response, digest: string, now: int)
    requires Inv(cfg, s, now) && id !in s.art
    ensures var (d, r) := DownloadArtifact(cfg.format, s.disk, id, response, cfg.maxArtifactSize, digest);
            r.Rejected? ==> Inv(cfg, s.(disk := d), now)
  {
    RejectedLeavesNothing(cfg.format, s.disk, id, response, cfg.maxArtifactSize, digest);
    RejectedIsCleaned(cfg.format, s.disk, id, response, cfg.maxArtifactSize, digest);
    var (d, r) := DownloadArtifact(cfg.format, s.disk, id, response, cfg.maxArtifactSize, digest);
    hide DownloadArtifact;
    if r.Rejected? {
      var t := s.(disk := d);
      assert d.files == s.disk.files;
      assert !Resident(s.art, s.disk.next);
      assert Ledger(t);
    }
  }

  lemma DownloadKeepsInv(cfg: Config, s: State, key: string, id: int, digest: string, headSHA: string, env: Env)
    requires Inv(cfg, s, env.now) && cfg.maxArtifacts >= 1 && id !in s.art
    requires DownloadArtifact(cfg.format, s.disk, id, env.response, cfg.maxArtifactSize, digest).1.Opened?
             ==> Victims(s.art, cfg.maxArtifacts, env.victims)
    ensures Inv(cfg, DownloadAndCache(cfg, s, key, id, digest, headSHA, env).0, env.now)
  {
    var file := DownloadStores(cfg, s, key, id, digest, headSHA, env);
    if DownloadArtifact(cfg.format, s.disk, id, env.response, cfg.maxArtifactSize, digest).1.Opened? {
      StoreKeepsInv(cfg, s, key, id, headSHA, file, env.now, env.victims);
    } else {
      RejectKeepsInv(cfg, s, id, env.response, digest, env.now);
    }
    hide Inv, DownloadArtifact, Stores;
  }

  lemma EvictKeyKeepsInv(cfg: Config, s: State, key: string, now: int)
    requires Inv(cfg, s, now)
    ensures Inv(cfg, EvictKey(s, key), now)
  {
    var ids := if key in s.meta then {s.meta[key].artifactID} else {};
    EvictKeepsInv(cfg, s, ids, now);
    ForgetKeepsInv(cfg, EvictArtifacts(s, ids), {key}, now);
  }

  lemma ResolveKeepsInv(cfg: Config, s: State, key: string, env: Env)
    requires Inv(cfg, s, env.now) && cfg.maxArtifacts >= 1
    requires var step := ResolveStep(key, env); Stored(cfg, s, step).Some? ==>
            Victims(s.art, cfg.maxArtifacts, env.victims)
    ensures Inv(cfg, FullResolve(cfg, s, key, env).0, env.now)
  {
    hide Inv;
    match env.answer
    case Failed =>
    case NotOpen => EvictKeyKeepsInv(cfg, s, key, env.now);
    case Found(id, digest, headSHA, exactHead) =>
      if KeepsNewer(s, key, id, exactHead) {
        ServeKeepsInv(cfg, s, key, s.meta[key].artifactID, s.meta[key].headSHA, env.now);
      } else if id in s.art {
        ServeKeepsInv(cfg, s, key, id, headSHA, env.now);
      } else {
        DownloadKeepsInv(cfg, s, key, id, digest, headSHA, env);
      }
  }

  lemma RequestKeepsInv(cfg: Config, s: State, key: string, env: Env)
    requires Inv(cfg, s, env.now) && cfg.maxArtifacts >= 1
    requires var step := RequestStep(key, env); Stored(cfg, s, step).Some? ==>
            Victims(s.art, cfg.maxArtifacts, env.victims)
    ensures Inv(cfg, Request(cfg, s, key, env).0, env.now)
  {
    hide Inv, FullResolve, DownloadAndCache, Touch;
    if NeedsResolve(cfg, s, key, env.now) {
      ResolveKeepsInv(cfg, s, key, env);
      var (s', ok) := FullResolve(cfg, s, key, env);
      if IsServed(s', key) {
        ServeKeepsInv(cfg, s', key, s'.meta[key].artifactID, s'.meta[key].headSHA, env.now);
      }
    } else if IsServed(s, key) {
      TouchKeepsInv(cfg, s, s.meta[key].artifactID, env.now);
    } else {
      DownloadKeepsInv(cfg, s, key, s.meta[key].artifactID, "", s.meta[key].headSHA, env);
    }
  }

  lemma PruneKeepsInv(cfg: Config, s: State, states: PRStates, now: int)
    requires Inv(cfg, s, now)
    ensures Inv(cfg, Prune(cfg, s, states, now), now)
  {
    hide Inv;
    var closed := ClosedKeys(s, states);
    EvictKeepsInv(cfg, s, IdsOf(s.meta, closed), now);
    ForgetKeepsInv(cfg, EvictArtifacts(s, IdsOf(s.meta, closed)), closed, now);
    var s1 := PruneClosed(s, states);
    var aged := Aged(s1.art, cfg.maxArtifactAge, now);
    EvictKeepsInv(cfg, s1, aged, now);
    ForgetKeepsInv(cfg, EvictArtifacts(s1, aged), KeysOf(s.meta, aged), now);
  }

  lemma LaterKeepsInv(cfg: Config, s: State, now: int, later: int)
    requires Inv(cfg, s, now) && now <= later
    ensures Inv(cfg, s, later) && Inv(cfg, s.(clock := later), later)
  {
    hide Ledger, Owned;
    LedgerOf(s, s.(clock := later));
    OwnedOf(s, s.(clock := later));
  }

  lemma StepKeepsInv(cfg: Config, s: State, step: Step)
    requires cfg.maxArtifacts >= 1 && Inv(cfg, s, s.clock) && Enabled(cfg, s, step)
    ensures Inv(cfg, Apply(cfg, s, step), Apply(cfg, s, step).clock)
  {
    hide Inv, Request, FullResolve, Prune, EvictKey;
    LaterKeepsInv(cfg, s, s.clock, Now(step));
    match step {
      case RequestStep(key, env) => RequestKeepsInv(cfg, s, key, env);
      case ResolveStep(key, env) => ResolveKeepsInv(cfg, s, key, env);
      case EvictStep(key, now) => EvictKeyKeepsInv(cfg, s, key, now);
      case PruneStep(states, now) => PruneKeepsInv(cfg, s, states, now);
    }
    LaterKeepsInv(cfg, Perform(cfg, s, step), Now(step), Now(step));
  }

  lemma {:induction false} RunKeepsInv(cfg: Config, states: seq<State>, steps: seq<Step>, n: nat)
    requires IsRun(cfg, states, steps) && n < |states|
    ensures Inv(cfg, states[n], states[n].clock)
  {
    if n == 0 {
      assert |INITIAL.art| == 0;
    } else {
      RunKeepsInv(cfg, states, steps, n - 1);
      StepKeepsInv(cfg, states[n - 1], steps[n - 1]);
    }
  }
}
