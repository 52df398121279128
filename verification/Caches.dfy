/** The two caches of the preview handler: key -> artifact metadata with a time to live, and
    artifact ID -> open file system, bounded by evicting the least recently used. */
module Caches {
  import opened Wrappers
  import opened Archive
  import opened Sets

  datatype MetadataEntry = MetadataEntry(artifactID: int, headSHA: string, resolvedAt: int)

  type Metadata = map<string, MetadataEntry>

  predicate IsStale(e: MetadataEntry, ttl: int, now: int) {
    now - e.resolvedAt > ttl
  }

  datatype ArtifactEntry = ArtifactEntry(fs: Handle, sizeBytes: int, lastAccess: int, cleanup: Cleanup)

  type Artifacts = map<int, ArtifactEntry>

  function Touch(art: Artifacts, id: int, now: int): Artifacts {
    if id in art then art[id := art[id].(lastAccess := now)] else art
  }

  /** `vs` is what has to go before one more artifact fits: as many as that takes, and none of
      them accessed later than any that stays. */
  ghost predicate Victims(art: Artifacts, maxSize: int, vs: set<int>) {
    && vs <= art.Keys
    && |vs| == (if |art| >= maxSize then |art| - maxSize + 1 else 0)
    && forall v, w :: v in vs && w in art && w !in vs ==> art[v].lastAccess <= art[w].lastAccess
  }

  /** Run the cleanups of the artifacts `ids`. */
  ghost function CleanAll(d: Disk, art: Artifacts, ids: set<int>): Disk {
    Disk(d.files - (set id | id in ids && id in art :: art[id].cleanup.path),
         d.cleaned + multiset(set id | id in ids && id in art :: art[id].cleanup.handle),
         d.next)
  }

  ghost predicate DistinctHandles(art: Artifacts) {
    forall a, b :: a in art && b in art && a != b ==> art[a].cleanup.handle != art[b].cleanup.handle
  }

  /** Cleaning up one more artifact. */
  lemma CleanOneMore(d: Disk, art: Artifacts, ids: set<int>, id: int)
    requires DistinctHandles(art) && id in art && id !in ids
    ensures CleanAll(d, art, ids + {id}) == RunCleanup(CleanAll(d, art, ids), art[id].cleanup)
  {
    var ps := set i | i in ids && i in art :: art[i].cleanup.path;
    var hs := set i | i in ids && i in art :: art[i].cleanup.handle;
    var h := art[id].cleanup.handle;
    assert (set i | i in ids + {id} && i in art :: art[i].cleanup.path) == ps + {art[id].cleanup.path};
    assert (set i | i in ids + {id} && i in art :: art[i].cleanup.handle) == hs + {h};
    assert h !in hs;
    assert multiset(hs + {h}) == multiset(hs) + multiset{h};
    assert d.files - ps - {art[id].cleanup.path} == d.files - (ps + {art[id].cleanup.path});
  }

  lemma CleanNone(d: Disk, art: Artifacts)
    ensures CleanAll(d, art, {}) == d
  {
  }

  /** Victims picked so far: not too many, and none accessed later than any that is left. */
  ghost predicate Oldest(art: Artifacts, maxSize: int, vs: set<int>) {
    && vs <= art.Keys
    && |vs| <= (if |art| >= maxSize then |art| - maxSize + 1 else 0)
    && forall v, w :: v in vs && w in art && w !in vs ==> art[v].lastAccess <= art[w].lastAccess
  }

  lemma NoVictimsYet(art: Artifacts, maxSize: int)
    ensures Oldest(art, maxSize, {})
  {
  }

  lemma NotEmpty(art: Artifacts, maxSize: int)
    requires |art| >= maxSize >= 1
    ensures art != map[]
  {
  }

  lemma SizeLeft(art: Artifacts, vs: set<int>)
    requires vs <= art.Keys
    ensures |art - vs| == |art| - |vs|
  {
    assert (art - vs).Keys == art.Keys - vs;
    assert |(art - vs).Keys| == |art - vs|;
  }

  lemma OneMoreVictim(art: Artifacts, maxSize: int, vs: set<int>, v: int)
    requires Oldest(art, maxSize, vs) && |art - vs| >= maxSize && v in art - vs
    requires forall w :: w in art - vs ==> (art - vs)[v].lastAccess <= (art - vs)[w].lastAccess
    ensures Oldest(art, maxSize, vs + {v}) && v !in vs && (art - vs)[v] == art[v]
    ensures art - vs - {v} == art - (vs + {v})
    ensures |art - (vs + {v})| < |art - vs|
  {
    SizeLeft(art, vs);
    SizeLeft(art, vs + {v});
    assert forall w :: w in art && w !in vs ==> w in art - vs && (art - vs)[w] == art[w];
  }

  lemma EnoughVictims(art: Artifacts, maxSize: int, vs: set<int>)
    requires Oldest(art, maxSize, vs) && |art - vs| < maxSize
    ensures Victims(art, maxSize, vs)
  {
    SizeLeft(art, vs);
  }

  lemma OneMoreDone(art: Artifacts, done: set<int>, id: int)
    requires done <= art.Keys && id in (art - done).Keys
    ensures id in art && id !in done && (art - done)[id] == art[id]
    ensures art - done - {id} == art - (done + {id}) && (art - done - {id}).Keys < (art - done).Keys
  {
    assert id !in (art - done - {id}).Keys;
  }

  lemma AllDone(art: Artifacts, done: set<int>)
    requires done <= art.Keys && (art - done).Keys == {}
    ensures done == art.Keys && art - done == map[]
  {
    assert forall id :: id in art && id !in done ==> id in (art - done).Keys;
  }

  function CleanEach(d: Disk, cleanups: seq<Cleanup>): Disk {
    if cleanups == [] then d
    else RunCleanup(CleanEach(d, cleanups[..|cleanups| - 1]), cleanups[|cleanups| - 1])
  }

  lemma CleanEachAppend(d: Disk, cleanups: seq<Cleanup>, c: Cleanup)
    ensures CleanEach(d, cleanups + [c]) == RunCleanup(CleanEach(d, cleanups), c)
  {
    assert (cleanups + [c])[..|cleanups|] == cleanups;
  }

  class MetadataCache {
    var entries: Metadata
    const ttl: int

    constructor (ttl: int)
      ensures this.ttl == ttl && entries == map[]
    {
      this.ttl, entries := ttl, map[];
    }

    method Get(key: string, now: int) returns (entry: Option<MetadataEntry>, isFresh: bool)
      ensures entry == if key in entries then Some(entries[key]) else None
      ensures isFresh == (key in entries && !IsStale(entries[key], ttl, now))
    {
      if key !in entries {
        return None, false;
      }
      return Some(entries[key]), !IsStale(entries[key], ttl, now);
    }

    method TouchEntry(key: string, now: int)
      modifies this
      ensures entries == if key in old(entries) then old(entries)[key := old(entries)[key].(resolvedAt := now)]
                         else old(entries)
    {
      if key in entries {
        entries := entries[key := entries[key].(resolvedAt := now)];
      }
    }

    method Set(key: string, artifactID: int, headSHA: string, now: int)
      modifies this
      ensures entries == old(entries)[key := MetadataEntry(artifactID, headSHA, now)]
    {
      entries := entries[key := MetadataEntry(artifactID, headSHA, now)];
    }

    method Evict(key: string) returns (ok: bool)
      modifies this
      ensures entries == old(entries) - {key} && ok == (key in old(entries))
    {
      ok := key in entries;
      entries := entries - {key};
    }
  }

  class ArtifactCache {
    var entries: Artifacts
    const maxSize: int

    constructor (maxSize: int)
      ensures this.maxSize == maxSize && entries == map[]
    {
      this.maxSize, entries := maxSize, map[];
    }

    method Get(id: int, now: int) returns (fs: Option<Handle>)
      modifies this
      ensures entries == Touch(old(entries), id, now)
      ensures fs == if id in old(entries) then Some(old(entries)[id].fs) else None
    {
      if id !in entries {
        return None;
      }
      entries := entries[id := entries[id].(lastAccess := now)];
      fs := Some(entries[id].fs);
    }

    /** Scan for an entry no other was accessed before, in whatever order the map yields them, and
        take it out. */
    method EvictOldestLocked() returns (cleanup: Option<Cleanup>, ghost victim: int)
      modifies this
      ensures old(entries) == map[] ==> cleanup.None? && entries == map[]
      ensures old(entries) != map[] ==>
                && victim in old(entries) && cleanup == Some(old(entries)[victim].cleanup)
                && (forall w :: w in old(entries) ==> old(entries)[victim].lastAccess <= old(entries)[w].lastAccess)
                && entries == old(entries) - {victim}
    {
      var oldestID, oldestTime, first := 0, 0, true;
      var left := entries.Keys;
      while left != {}
        invariant left <= entries.Keys
        invariant entries == old(entries)
        invariant first <==> left == entries.Keys
        invariant !first ==> oldestID in entries && entries[oldestID].lastAccess == oldestTime
        invariant forall w :: w in entries && w !in left ==> oldestTime <= entries[w].lastAccess
        decreases left
      {
        ghost var _ := Element(left);
        var id :| id in left;
        if first || entries[id].lastAccess < oldestTime {
          oldestID, oldestTime, first := id, entries[id].lastAccess, false;
        }
        left := left - {id};
      }
      victim := oldestID;
      if first {
        return None, victim;
      }
      cleanup := Some(entries[oldestID].cleanup);
      entries := entries - {oldestID};
    }

    /** Evict the least recently used entries until there is room for one more, keeping their
        cleanups for later. */
    method MakeRoom(ghost disk: Disk) returns (cleanups: seq<Cleanup>, ghost victims: set<int>)
      requires maxSize >= 1 && DistinctHandles(entries)
      modifies this
      ensures Victims(old(entries), maxSize, victims) && entries == old(entries) - victims
      ensures CleanEach(disk, cleanups) == CleanAll(disk, old(entries), victims)
    {
      ghost var was := entries;
      cleanups, victims := [], {};
      CleanNone(disk, was);
      assert CleanEach(disk, []) == disk && was - {} == was;
      hide CleanAll, DistinctHandles, CleanEach, RunCleanup, Oldest;
      NoVictimsYet(was, maxSize);
      while |entries| >= maxSize
        invariant entries == was - victims && Oldest(was, maxSize, victims)
        invariant CleanEach(disk, cleanups) == CleanAll(disk, was, victims)
        decreases |entries|
      {
        ghost var before := entries;
        NotEmpty(entries, maxSize);
        var c, v := EvictOldestLocked();
        OneMoreVictim(was, maxSize, victims, v);
        CleanOneMore(disk, was, victims, v);
        CleanEachAppend(disk, cleanups, c.value);
        victims := victims + {v};
        cleanups := cleanups + [c.value];
      }
      EnoughVictims(was, maxSize, victims);
      hide Victims;
    }

    /** Make room, store the artifact, and then run the cleanups of what was evicted. */
    method Set(id: int, fs: Handle, sizeBytes: int, cleanup: Cleanup, now: int, storage: Storage)
      returns (ghost victims: set<int>)
      requires maxSize >= 1 && DistinctHandles(entries)
      modifies this, storage
      ensures Victims(old(entries), maxSize, victims)
      ensures entries == (old(entries) - victims)[id := ArtifactEntry(fs, sizeBytes, now, cleanup)]
      ensures storage.View() == CleanAll(old(storage.View()), old(entries), victims)
    {
      var cleanups;
      cleanups, victims := MakeRoom(storage.View());
      entries := entries[id := ArtifactEntry(fs, sizeBytes, now, cleanup)];
      RunAll(cleanups, storage);
    }

    static method RunAll(cleanups: seq<Cleanup>, storage: Storage)
      modifies storage
      ensures storage.View() == CleanEach(old(storage.View()), cleanups)
    {
      for i := 0 to |cleanups|
        invariant storage.View() == CleanEach(old(storage.View()), cleanups[..i])
      {
        assert cleanups[..i + 1][..i] == cleanups[..i];
        storage.Clean(cleanups[i]);
      }
      assert cleanups[..|cleanups|] == cleanups;
    }

    method Evict(id: int, storage: Storage) returns (ok: bool)
      requires DistinctHandles(entries)
      modifies this, storage
      ensures entries == old(entries) - {id} && ok == (id in old(entries))
      ensures storage.View() == CleanAll(old(storage.View()), old(entries), {id})
    {
      CleanNone(storage.View(), entries);
      ok := id in entries;
      if ok {
        CleanOneMore(storage.View(), entries, {}, id);
        assert {} + {id} == {id};
        var c := entries[id].cleanup;
        entries := entries - {id};
        storage.Clean(c);
      }
    }

    /** Take every entry out, then run all the cleanups. */
    method CleanupAll(storage: Storage)
      requires DistinctHandles(entries)
      modifies this, storage
      ensures entries == map[]
      ensures storage.View() == CleanAll(old(storage.View()), old(entries), old(entries).Keys)
    {
      ghost var was, disk := entries, storage.View();
      var cleanups := [];
      ghost var done := {};
      CleanNone(disk, was);
      assert CleanEach(disk, []) == disk;
      hide CleanAll, DistinctHandles, CleanEach, RunCleanup;
      while entries.Keys != {}
        invariant done <= was.Keys && entries == was - done
        invariant storage.View() == disk && CleanEach(disk, cleanups) == CleanAll(disk, was, done)
        decreases entries.Keys
      {
        ghost var _ := Element(entries.Keys);
        var id :| id in entries.Keys;
        OneMoreDone(was, done, id);
        CleanOneMore(disk, was, done, id);
        CleanEachAppend(disk, cleanups, entries[id].cleanup);
        cleanups := cleanups + [entries[id].cleanup];
        entries := entries - {id};
        done := done + {id};
      }
      AllDone(was, done);
      RunAll(cleanups, storage);
    }

    /** The artifacts not accessed since `maxAge` ago. */
    method StaleEntries(maxAge: int, now: int) returns (stale: seq<int>)
      ensures forall id :: id in stale <==> id in entries && entries[id].lastAccess < now - maxAge
      ensures forall i, j :: 0 <= i < j < |stale| ==> stale[i] != stale[j]
    {
      stale := [];
      var cutoff := now - maxAge;
      var left := entries.Keys;
      while left != {}
        invariant left <= entries.Keys
        invariant forall id :: id in stale <==> id in entries && id !in left && entries[id].lastAccess < cutoff
        invariant forall i, j :: 0 <= i < j < |stale| ==> stale[i] != stale[j]
        decreases left
      {
        ghost var _ := Element(left);
        var id :| id in left;
        if entries[id].lastAccess < cutoff {
          stale := stale + [id];
        }
        left := left - {id};
      }
    }
  }
}
