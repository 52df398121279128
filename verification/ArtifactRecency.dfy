/** The artifact cache keeps access times instead of a list; it is the same LRU.

    The timestamps stand for a list of IDs, most recent first, in which equally recent ones may come
    in either order.  Each operation of the cache does to such a list what `LruSpec` says, counting
    every artifact as one unit.  If every access is stamped later than all before it there is only
    one list, and over whole traces it is a prefix of the recency stack. */
module ArtifactRecency {
  import opened LruSpec
  import opened Caches
  import opened Sets

  function Units(): Catalog<int> {
    Catalog((id: int) => true, (id: int) => 1)
  }

  lemma {:induction false} TotalIsLength(s: seq<int>)
    ensures Total(Units(), s) == |s|
  {
    if s != [] { TotalIsLength(s[1..]); }
  }

  /** IDs of `l` come in the order of their accesses, the latest first. */
  ghost predicate Decreasing(art: Artifacts, l: seq<int>) {
    && (forall id :: id in l ==> id in art)
    && (forall i, j :: 0 <= i < j < |l| ==> l[i] in art && l[j] in art && art[l[i]].lastAccess >= art[l[j]].lastAccess)
  }

  /** `l` lists the cached IDs, each once, from the latest access to the earliest. */
  ghost predicate Lists(art: Artifacts, l: seq<int>) {
    NoDup(l) && Decreasing(art, l) && forall id :: id in art ==> id in l
  }

  /** No two artifacts were accessed last at the same time. */
  ghost predicate DistinctTimes(art: Artifacts) {
    forall a, b :: a in art && b in art && a != b ==> art[a].lastAccess != art[b].lastAccess
  }

  ghost function Elements(l: seq<int>): set<int> {
    set id | id in l
  }

  lemma {:induction false} NoDupSize(l: seq<int>)
    requires NoDup(l)
    ensures |Elements(l)| == |l|
  {
    if l != [] {
      NoDupSize(l[1..]);
      assert l == [l[0]] + l[1..];
      assert Elements(l) == {l[0]} + Elements(l[1..]);
      assert l[0] !in l[1..];
    }
  }

  lemma ListsSize(art: Artifacts, l: seq<int>)
    requires Lists(art, l)
    ensures |l| == |art|
  {
    NoDupSize(l);
    assert forall id :: id in Elements(l) <==> id in art.Keys;
    assert Elements(l) == art.Keys;
    assert |art.Keys| == |art|;
  }

  lemma TailDecreasing(art: Artifacts, l: seq<int>)
    requires Decreasing(art, l) && l != []
    ensures Decreasing(art, l[1..])
    ensures forall x :: x in l[1..] ==> x in art && art[x].lastAccess <= art[l[0]].lastAccess
  {
    var t := l[1..];
    forall i, j | 0 <= i < j < |t|
      ensures t[i] in art && t[j] in art && art[t[i]].lastAccess >= art[t[j]].lastAccess
    {
      assert t[i] == l[i + 1] && t[j] == l[j + 1];
    }
    forall x | x in t
      ensures x in art && art[x].lastAccess <= art[l[0]].lastAccess
    {
      var i :| 0 <= i < |t| && t[i] == x;
      assert l[i + 1] == x;
    }
  }

  lemma {:induction false} RemoveDecreasing(art: Artifacts, l: seq<int>, id: int)
    requires Decreasing(art, l)
    ensures Decreasing(art, Remove(l, id))
    ensures forall x :: x in Remove(l, id) ==> x in l
  {
    if l == [] {
    } else if l[0] == id {
      TailDecreasing(art, l);
    } else {
      TailDecreasing(art, l);
      RemoveDecreasing(art, l[1..], id);
      assert l[0] in l;
      PushDecreasing(art, l[0], Remove(l[1..], id));
    }
  }

  lemma PushDecreasing(art: Artifacts, h: int, r: seq<int>)
    requires Decreasing(art, r) && h in art
    requires forall x :: x in r ==> art[x].lastAccess <= art[h].lastAccess
    ensures Decreasing(art, [h] + r)
  {
    var l := [h] + r;
    forall i, j | 0 <= i < j < |l|
      ensures l[i] in art && l[j] in art && art[l[i]].lastAccess >= art[l[j]].lastAccess
    {
      assert l[j] == r[j - 1] && r[j - 1] in r;
      if i > 0 { assert l[i] == r[i - 1] && r[i - 1] in r; }
    }
  }

  /** Evicting an ID takes it out of the list. */
  lemma EvictRefinesRemove(art: Artifacts, l: seq<int>, id: int)
    requires Lists(art, l)
    ensures Lists(art - {id}, Remove(l, id))
  {
    RemoveBasics(l, id);
    RemoveDecreasing(art, l, id);
    var r := Remove(l, id);
    forall i | 0 <= i < |r|
      ensures r[i] in art - {id} && (art - {id})[r[i]] == art[r[i]]
    {
      assert r[i] in r;
      assert r[i] in l && r[i] != id;
    }
  }

  /** The order of IDs depends on nothing but their own entries. */
  lemma SameOrder(art: Artifacts, art': Artifacts, l: seq<int>)
    requires Decreasing(art, l)
    requires forall id :: id in l ==> id in art' && art'[id] == art[id]
    ensures Decreasing(art', l)
  {
    forall i, j | 0 <= i < j < |l|
      ensures l[i] in art' && l[j] in art' && art'[l[i]].lastAccess >= art'[l[j]].lastAccess
    {
      var a, b := l[i], l[j];
      assert a in l && b in l;
      assert art[a].lastAccess >= art[b].lastAccess;
    }
  }

  lemma PushLists(art: Artifacts, l: seq<int>, id: int, e: ArtifactEntry)
    requires Lists(art, l) && id !in art
    requires forall x :: x in art ==> art[x].lastAccess <= e.lastAccess
    ensures Lists(art[id := e], [id] + l)
  {
    var art' := art[id := e];
    SameOrder(art, art', l);
    PushDecreasing(art', id, l);
  }

  /** An access to a cached ID, no earlier than any before, moves it to the front. */
  lemma GetRefinesTouch(art: Artifacts, l: seq<int>, maxSize: int, id: int, now: int)
    requires Lists(art, l) && id in art
    requires forall x :: x in art ==> art[x].lastAccess <= now
    ensures Lists(Touch(art, id, now), Open(Units(), maxSize, l, id))
  {
    EvictRefinesRemove(art, l, id);
    PushLists(art - {id}, Remove(l, id), id, art[id].(lastAccess := now));
    assert (art - {id})[id := art[id].(lastAccess := now)] == Touch(art, id, now);
  }

  lemma {:induction false} LatestAccess(art: Artifacts) returns (id: int)
    requires art != map[]
    ensures id in art && forall x :: x in art ==> art[x].lastAccess <= art[id].lastAccess
    decreases |art|
  {
    var first := Element(art.Keys);
    var rest := art - {first};
    SizeLeft(art, {first});
    if rest == map[] {
      id := first;
    } else {
      var m := LatestAccess(rest);
      id := if art[m].lastAccess < art[first].lastAccess then first else m;
    }
    assert forall x :: x in art && x != first ==> x in rest && rest[x] == art[x];
  }

  /** Any access times stand for some list. */
  lemma {:induction false} SomeList(art: Artifacts) returns (l: seq<int>)
    ensures Lists(art, l)
    decreases |art|
  {
    if art == map[] {
      l := [];
    } else {
      var id := LatestAccess(art);
      SizeLeft(art, {id});
      l := SomeList(art - {id});
      PushLists(art - {id}, l, id, art[id]);
      assert (art - {id})[id := art[id]] == art;
      l := [id] + l;
    }
  }

  /** Whatever order the map is scanned in, and however ties are broken, the victims are the IDs at
      the cold end of some list that the access times stand for. */
  lemma VictimsAreATail(art: Artifacts, maxSize: int, vs: set<int>) returns (kept: seq<int>, cold: seq<int>)
    requires maxSize >= 1 && Victims(art, maxSize, vs)
    ensures Lists(art, kept + cold) && Lists(art - vs, kept) && vs == Elements(cold)
    ensures |kept| == if |art| >= maxSize then maxSize - 1 else |art|
  {
    kept := SomeList(art - vs);
    cold := SomeList(art - (art - vs).Keys);
    SizeLeft(art, vs);
    ListsSize(art - vs, kept);
    forall x
      ensures x in kept <==> x in art && x !in vs
      ensures x in cold <==> x in vs
    {
    }
    Joined(art, art - vs, art - (art - vs).Keys, kept, cold);
  }

  /** A list of later accesses followed by one of earlier ones. */
  lemma Joined(art: Artifacts, late: Artifacts, early: Artifacts, kept: seq<int>, cold: seq<int>)
    requires Lists(late, kept) && Lists(early, cold)
    requires forall x :: x in art <==> x in late || x in early
    requires forall x :: x in late ==> x !in early && art[x] == late[x]
    requires forall x :: x in early ==> art[x] == early[x]
    requires forall x, y :: x in late && y in early ==> late[x].lastAccess >= early[y].lastAccess
    ensures Lists(art, kept + cold)
  {
    var l := kept + cold;
    forall i, j | 0 <= i < j < |l|
      ensures l[i] != l[j]
      ensures l[i] in art && l[j] in art && art[l[i]].lastAccess >= art[l[j]].lastAccess
    {
      if j < |kept| {
        assert kept[i] in kept && kept[j] in kept;
      } else if i < |kept| {
        assert kept[i] in kept && cold[j - |kept|] in cold;
      } else {
        assert cold[i - |kept|] in cold && cold[j - |kept|] in cold;
      }
    }
  }

  lemma {:induction false} FitUnits(s: seq<int>, room: int)
    requires room >= 0
    ensures Fit(Units(), s, room) == s[..if |s| <= room then |s| else room]
  {
    TotalIsLength(s);
    if |s| > room {
      FitUnits(s[..|s| - 1], room);
    }
  }

  /** Storing an absent ID, no earlier than any access before, is an LRU insertion into some list that
      the access times stand for: its coldest IDs make room. */
  lemma SetRefinesAdd(art: Artifacts, maxSize: int, id: int, e: ArtifactEntry, vs: set<int>) returns (l: seq<int>)
    requires maxSize >= 1 && id !in art && Victims(art, maxSize, vs)
    requires forall x :: x in art ==> art[x].lastAccess <= e.lastAccess
    ensures Lists(art, l) && Lists((art - vs)[id := e], Open(Units(), maxSize, l, id))
  {
    var kept, cold := VictimsAreATail(art, maxSize, vs);
    l := kept + cold;
    PushLists(art - vs, kept, id, e);
    ListsSize(art, l);
    assert Open(Units(), maxSize, l, id) == [id] + kept by {
      assert id !in l;
      FitUnits(l, maxSize - 1);
      assert l[..|kept|] == kept;
    }
    hide Lists, Victims, Fit;
  }

  /** Distinct access times determine the list. */
  lemma {:induction false} ListIsUnique(art: Artifacts, l: seq<int>, m: seq<int>)
    requires DistinctTimes(art) && Lists(art, l) && Lists(art, m)
    ensures l == m
    decreases |l|
  {
    ListsSize(art, l);
    ListsSize(art, m);
    if l != [] {
      SameFirst(art, l, m);
      EvictRefinesRemove(art, l, l[0]);
      EvictRefinesRemove(art, m, l[0]);
      hide Lists;
      ListIsUnique(art - {l[0]}, Remove(l, l[0]), Remove(m, l[0]));
      assert l[1..] == m[1..];
      assert l == [l[0]] + l[1..] && m == [m[0]] + m[1..];
    }
  }

  /** So with distinct times the victims are the cold end of that one list. */
  lemma VictimsAreTheTail(art: Artifacts, l: seq<int>, maxSize: int, vs: set<int>)
    requires DistinctTimes(art) && Lists(art, l) && maxSize >= 1 && Victims(art, maxSize, vs)
    ensures var keep := if |art| >= maxSize then maxSize - 1 else |art|;
            keep <= |l| && vs == Elements(l[keep..]) && Lists(art - vs, l[..keep])
  {
    var kept, cold := VictimsAreATail(art, maxSize, vs);
    ListIsUnique(art, l, kept + cold);
    assert l[..|kept|] == kept && l[|kept|..] == cold;
    hide Lists, Victims;
  }

  lemma SameFirst(art: Artifacts, l: seq<int>, m: seq<int>)
    requires DistinctTimes(art) && Lists(art, l) && Lists(art, m) && l != [] && m != []
    ensures l[0] == m[0]
  {
    FirstIsLatest(art, l);
    FirstIsLatest(art, m);
  }

  lemma FirstIsLatest(art: Artifacts, l: seq<int>)
    requires Lists(art, l) && l != []
    ensures l[0] in art && forall x :: x in art ==> art[x].lastAccess <= art[l[0]].lastAccess
  {
    TailDecreasing(art, l);
    var first := l[0];
    assert first in l;
    assert l == [first] + l[1..];
  }

  // ----- whole traces

  datatype Op =
    | GetOp(id: int, now: int)
    | SetOp(id: int, entry: ArtifactEntry, victims: set<int>)
    | EvictOp(id: int)

  /** What each operation does to the cache, as `Caches` specifies it.  IDs that are stored are not
      cached already. */
  ghost predicate Does(maxSize: int, art: Artifacts, op: Op, art': Artifacts) {
    match op
    case GetOp(id, now) => art' == Touch(art, id, now)
    case SetOp(id, entry, victims) =>
      id !in art && Victims(art, maxSize, victims) && art' == (art - victims)[id := entry]
    case EvictOp(id) => art' == art - {id}
  }

  /** The operation is stamped later than every access before it. */
  ghost predicate IsLater(art: Artifacts, op: Op) {
    match op
    case GetOp(_, now) => forall id :: id in art ==> art[id].lastAccess < now
    case SetOp(_, entry, _) => forall id :: id in art ==> art[id].lastAccess < entry.lastAccess
    case EvictOp(_) => true
  }

  ghost predicate IsTrace(maxSize: int, arts: seq<Artifacts>, ops: seq<Op>) {
    && maxSize >= 1
    && |arts| == |ops| + 1 && arts[0] == map[]
    && forall i :: 0 <= i < |ops| ==> Does(maxSize, arts[i], ops[i], arts[i + 1]) && IsLater(arts[i], ops[i])
  }

  /** This operation uses the artifact: a hit, or storing it. */
  predicate Uses(art: Artifacts, op: Op, id: int) {
    op.id == id && (op.SetOp? || (op.GetOp? && id in art))
  }

  /** The recency stack: the IDs used so far and not evicted on demand since, latest use first, with
      no bound on their number. */
  function Used(arts: seq<Artifacts>, ops: seq<Op>, n: nat): seq<int>
    requires |arts| == |ops| + 1 && n <= |ops|
  {
    if n == 0 then []
    else
      var s, op := Used(arts, ops, n - 1), ops[n - 1];
      if op.EvictOp? then Remove(s, op.id)
      else if Uses(arts[n - 1], op, op.id) then [op.id] + Remove(s, op.id)
      else s
  }

  /** The first `k` of `s`, or all there are. */
  function Top(s: seq<int>, k: nat): (p: seq<int>)
    ensures p <= s && |p| <= k
  {
    if |s| <= k then s else s[..k]
  }

  /** The cached IDs, in the order of their access times, are the first ones of the stack. */
  ghost predicate OnTop(maxSize: int, art: Artifacts, s: seq<int>) {
    NoDup(s) && DistinctTimes(art) && |art| <= maxSize && |art| <= |s| && Lists(art, s[..|art|])
  }

  lemma UsedIsDistinct(s: seq<int>, id: int)
    requires NoDup(s)
    ensures NoDup(Remove(s, id)) && NoDup([id] + Remove(s, id))
  {
    RemoveBasics(s, id);
  }

  lemma StampKeepsDistinct(art: Artifacts, rest: Artifacts, id: int, e: ArtifactEntry)
    requires DistinctTimes(art) && forall x :: x in art ==> art[x].lastAccess < e.lastAccess
    requires forall x :: x in rest ==> x in art && rest[x] == art[x]
    ensures DistinctTimes(rest[id := e])
  {
  }

  lemma TouchSize(art: Artifacts, id: int, now: int)
    ensures |Touch(art, id, now)| == |art|
  {
    assert Touch(art, id, now).Keys == art.Keys;
    assert |Touch(art, id, now).Keys| == |Touch(art, id, now)| && |art.Keys| == |art|;
  }

  lemma PrefixRemoved(s: seq<int>, k: nat, id: int)
    requires k <= |s|
    ensures Remove(s[..k], id) <= Remove(s, id)
  {
    var p, rest := s[..k], s[k..];
    assert s == p + rest;
    RemoveAppend(p, rest, id);
    if id !in p { RemoveAbsent(p, id); }
    hide Remove;
  }

  lemma HitLists(art: Artifacts, l: seq<int>, id: int, now: int)
    requires DistinctTimes(art) && Lists(art, l) && id in art && forall x :: x in art ==> art[x].lastAccess < now
    ensures var art' := Touch(art, id, now);
            DistinctTimes(art') && Lists(art', [id] + Remove(l, id)) && |art'| == |art| == 1 + |Remove(l, id)|
  {
    GetRefinesTouch(art, l, |art|, id, now);
    assert id in l;
    StampKeepsDistinct(art, art, id, art[id].(lastAccess := now));
    TouchSize(art, id, now);
    hide Lists, DistinctTimes, Touch, Remove;
    ListsSize(Touch(art, id, now), [id] + Remove(l, id));
  }

  lemma HitKeepsOnTop(maxSize: int, art: Artifacts, s: seq<int>, id: int, now: int)
    requires OnTop(maxSize, art, s) && id in art && forall x :: x in art ==> art[x].lastAccess < now
    ensures OnTop(maxSize, Touch(art, id, now), [id] + Remove(s, id))
  {
    hide Lists, DistinctTimes, NoDup, Remove, Touch;
    HitLists(art, s[..|art|], id, now);
    UsedIsDistinct(s, id);
    PrefixRemoved(s, |art|, id);
    assert [id] + Remove(s[..|art|], id) <= [id] + Remove(s, id);
    TakePrefix([id] + Remove(s[..|art|], id), [id] + Remove(s, id));
  }

  lemma EvictLists(art: Artifacts, l: seq<int>, id: int)
    requires DistinctTimes(art) && Lists(art, l)
    ensures var art' := art - {id};
            DistinctTimes(art') && Lists(art', Remove(l, id)) && |Remove(l, id)| == |art'| <= |art|
  {
    EvictRefinesRemove(art, l, id);
    RemoveBasics(l, id);
    assert DistinctTimes(art - {id});
    hide Lists, DistinctTimes, NoDup, Remove;
    ListsSize(art, l);
    ListsSize(art - {id}, Remove(l, id));
  }

  lemma EvictKeepsOnTop(maxSize: int, art: Artifacts, s: seq<int>, id: int)
    requires OnTop(maxSize, art, s)
    ensures OnTop(maxSize, art - {id}, Remove(s, id))
  {
    hide Lists, DistinctTimes, NoDup, Remove;
    EvictLists(art, s[..|art|], id);
    UsedIsDistinct(s, id);
    PrefixRemoved(s, |art|, id);
    TakePrefix(Remove(s[..|art|], id), Remove(s, id));
  }

  /** Putting an ID that is not among the first `k` on the stack leaves these below it. */
  lemma PushOnStack(s: seq<int>, k: nat, keep: nat, id: int)
    requires keep <= k <= |s| && NoDup(s) && id !in s[..k]
    ensures var s' := [id] + Remove(s, id);
            NoDup(s') && |s'| > keep && s'[..keep + 1] == [id] + s[..keep]
  {
    UsedIsDistinct(s, id);
    RemoveAbsent(s[..k], id);
    hide Remove, NoDup;
    PrefixRemoved(s, k, id);
    assert s[..keep] <= Remove(s, id);
  }

  /** Storing with distinct times: the new ID in front of what is kept of the one list. */
  lemma StoredLists(maxSize: int, art: Artifacts, l: seq<int>, id: int, e: ArtifactEntry, vs: set<int>)
    returns (keep: nat)
    requires maxSize >= 1 && DistinctTimes(art) && Lists(art, l) && id !in art && Victims(art, maxSize, vs)
    requires forall x :: x in art ==> art[x].lastAccess < e.lastAccess
    ensures var art' := (art - vs)[id := e];
            && keep == (if |art| >= maxSize then maxSize - 1 else |art|) && keep <= |l| == |art|
            && |art'| == keep + 1 && DistinctTimes(art') && Lists(art', [id] + l[..keep]) && id !in l
  {
    keep := if |art| >= maxSize then maxSize - 1 else |art|;
    VictimsAreTheTail(art, l, maxSize, vs);
    ListsSize(art, l);
    StampKeepsDistinct(art, art - vs, id, e);
    PushLists(art - vs, l[..keep], id, e);
    ListsSize((art - vs)[id := e], [id] + l[..keep]);
    hide DistinctTimes, Victims, NoDup;
  }

  lemma SetKeepsOnTop(maxSize: int, art: Artifacts, s: seq<int>, id: int, e: ArtifactEntry, vs: set<int>)
    requires maxSize >= 1 && OnTop(maxSize, art, s) && id !in art && Victims(art, maxSize, vs)
    requires forall x :: x in art ==> art[x].lastAccess < e.lastAccess
    ensures OnTop(maxSize, (art - vs)[id := e], [id] + Remove(s, id))
    ensures |(art - vs)[id := e]| == if |art| < maxSize then |art| + 1 else maxSize
  {
    hide Lists, DistinctTimes, NoDup, Remove, Victims;
    var keep := StoredLists(maxSize, art, s[..|art|], id, e, vs);
    PushOnStack(s, |art|, keep, id);
    assert s[..|art|][..keep] == s[..keep];
  }

  /** Over every trace, the cached IDs are the top of the recency stack, in its order. */
  lemma {:induction false} CachedIsTopOfStack(maxSize: int, arts: seq<Artifacts>, ops: seq<Op>, n: nat)
    requires IsTrace(maxSize, arts, ops) && n <= |ops|
    ensures OnTop(maxSize, arts[n], Used(arts, ops, n))
  {
    if n > 0 {
      CachedIsTopOfStack(maxSize, arts, ops, n - 1);
      var art, s, op := arts[n - 1], Used(arts, ops, n - 1), ops[n - 1];
      assert Does(maxSize, art, op, arts[n]) && IsLater(art, op);
      match op
      case GetOp(id, now) => if id in art { HitKeepsOnTop(maxSize, art, s, id, now); }
      case SetOp(id, entry, victims) => SetKeepsOnTop(maxSize, art, s, id, entry, victims);
      case EvictOp(id) => EvictKeepsOnTop(maxSize, art, s, id);
    }
    hide OnTop, Victims, Touch;
  }

  /** Without evictions on demand they are the longest part of the stack that fits the cache. */
  lemma {:induction false} LongestWithoutEvictions(maxSize: int, arts: seq<Artifacts>, ops: seq<Op>, n: nat)
    requires IsTrace(maxSize, arts, ops) && n <= |ops|
    requires forall i :: 0 <= i < n ==> !ops[i].EvictOp?
    ensures arts[n].Keys == Elements(Top(Used(arts, ops, n), maxSize))
    ensures LongestFitting(Units(), Used(arts, ops, n), maxSize, Top(Used(arts, ops, n), maxSize))
  {
    CachedIsTopOfStack(maxSize, arts, ops, n);
    FullUnlessFew(maxSize, arts, ops, n);
    var s := Used(arts, ops, n);
    assert Top(s, maxSize) == s[..|arts[n]|];
    SameIds(arts[n], Top(s, maxSize));
    hide Lists;
    forall q | q <= s
      ensures Total(Units(), q) == |q|
    {
      TotalIsLength(q);
    }
  }

  lemma SameIds(art: Artifacts, l: seq<int>)
    requires Lists(art, l)
    ensures art.Keys == Elements(l)
  {
    assert forall id :: id in Elements(l) <==> id in art.Keys;
  }

  /** Without evictions on demand the cache is full unless it holds all that was used. */
  lemma {:induction false} FullUnlessFew(maxSize: int, arts: seq<Artifacts>, ops: seq<Op>, n: nat)
    requires IsTrace(maxSize, arts, ops) && n <= |ops|
    requires forall i :: 0 <= i < n ==> !ops[i].EvictOp?
    ensures |arts[n]| == if |Used(arts, ops, n)| <= maxSize then |Used(arts, ops, n)| else maxSize
  {
    if n > 0 {
      FullUnlessFew(maxSize, arts, ops, n - 1);
      CachedIsTopOfStack(maxSize, arts, ops, n - 1);
      CachedIsTopOfStack(maxSize, arts, ops, n);
      var art, s, op := arts[n - 1], Used(arts, ops, n - 1), ops[n - 1];
      hide Victims, Lists;
      RemoveBasics(s, op.id);
      if op.SetOp? {
        SetKeepsOnTop(maxSize, art, s, op.id, op.entry, op.victims);
      } else if op.id in art {
        TouchSize(art, op.id, op.now);
        SameIds(art, s[..|art|]);
        assert op.id in s[..|art|];
        assert op.id in s;
      }
    }
  }

  lemma CachedIsInTop(maxSize: int, art: Artifacts, s: seq<int>, x: int)
    requires maxSize >= 1 && OnTop(maxSize, art, s)
    ensures x in art ==> x in Top(s, maxSize)
    ensures x in Top(s, maxSize) && |art| == maxSize ==> x in art
  {
    SameIds(art, s[..|art|]);
    assert x in art <==> x in s[..|art|];
    hide Lists, NoDup;
  }

  lemma CachedAfterStep(maxSize: int, art: Artifacts, s: seq<int>, op: Op, art': Artifacts, s': seq<int>, x: int)
    requires maxSize >= 1 && Does(maxSize, art, op, art') && IsLater(art, op)
    requires OnTop(maxSize, art, s) && OnTop(maxSize, art', s')
    requires s' == if op.EvictOp? then Remove(s, op.id)
                   else if Uses(art, op, op.id) then [op.id] + Remove(s, op.id) else s
    ensures x in art' <==> Uses(art, op, x) || (x in art && x in Top(s', maxSize))
  {
    CachedIsInTop(maxSize, art', s', x);
    RemoveBasics(s, op.id);
    hide Lists, DistinctTimes;
    if op.SetOp? {
      SetKeepsOnTop(maxSize, art, s, op.id, op.entry, op.victims);
      if |art| < maxSize {
        assert op.victims == {};
      }
    }
    hide OnTop, Remove, NoDup;
  }

  /** Operation `m` used the artifact, which has been among the first `maxSize` of the stack ever
      since. */
  ghost predicate OnTopSince(maxSize: int, arts: seq<Artifacts>, ops: seq<Op>, m: nat, n: nat, x: int)
    requires maxSize >= 1 && |arts| == |ops| + 1 && n <= |ops|
  {
    && m < n && Uses(arts[m], ops[m], x)
    && forall t :: m < t <= n ==> x in Top(Used(arts, ops, t), maxSize)
  }

  lemma OnTopFromTheUse(maxSize: int, arts: seq<Artifacts>, ops: seq<Op>, n: nat, x: int)
    requires maxSize >= 1 && |arts| == |ops| + 1 && n < |ops| && Uses(arts[n], ops[n], x)
    ensures OnTopSince(maxSize, arts, ops, n, n + 1, x)
  {
    var s := Used(arts, ops, n + 1);
    assert s[0] == x && Top(s, maxSize)[0] == x;
    hide Used, Top;
  }

  lemma OnTopForLonger(maxSize: int, arts: seq<Artifacts>, ops: seq<Op>, m: nat, n: nat, x: int)
    requires maxSize >= 1 && |arts| == |ops| + 1 && 0 < n <= |ops| && !Uses(arts[n - 1], ops[n - 1], x)
    ensures OnTopSince(maxSize, arts, ops, m, n, x)
            <==> OnTopSince(maxSize, arts, ops, m, n - 1, x) && x in Top(Used(arts, ops, n), maxSize)
  {
    hide Used, Top, Uses;
  }

  lemma CachedAfter(maxSize: int, arts: seq<Artifacts>, ops: seq<Op>, n: nat, x: int)
    requires IsTrace(maxSize, arts, ops) && n < |ops|
    ensures x in arts[n + 1] <==>
              Uses(arts[n], ops[n], x) || (x in arts[n] && x in Top(Used(arts, ops, n + 1), maxSize))
  {
    CachedIsTopOfStack(maxSize, arts, ops, n);
    CachedIsTopOfStack(maxSize, arts, ops, n + 1);
    hide OnTop, Top, Does, IsLater;
    CachedAfterStep(maxSize, arts[n], Used(arts, ops, n), ops[n], arts[n + 1], Used(arts, ops, n + 1), x);
  }

  /** With evictions on demand, exactly: an artifact is cached if and only if it was used and has
      since been, at all times, among the first `maxSize` of the stack.  (Room that an eviction
      leaves is not filled with what had to go before.) */
  lemma {:induction false} CachedIffOnTopSince(maxSize: int, arts: seq<Artifacts>, ops: seq<Op>, n: nat, x: int)
    requires IsTrace(maxSize, arts, ops) && n <= |ops|
    ensures x in arts[n] <==> exists m :: OnTopSince(maxSize, arts, ops, m, n, x)
  {
    if n > 0 {
      hide Does, IsLater, Used, Top, Uses, OnTopSince;
      CachedIffOnTopSince(maxSize, arts, ops, n - 1, x);
      CachedAfter(maxSize, arts, ops, n - 1, x);
      if Uses(arts[n - 1], ops[n - 1], x) {
        OnTopFromTheUse(maxSize, arts, ops, n - 1, x);
      } else {
        assert x in arts[n] <==> x in arts[n - 1] && x in Top(Used(arts, ops, n), maxSize);
        if x in arts[n] {
          var m: nat :| OnTopSince(maxSize, arts, ops, m, n - 1, x);
          OnTopForLonger(maxSize, arts, ops, m, n, x);
        }
        if exists m :: OnTopSince(maxSize, arts, ops, m, n, x) {
          var m: nat :| OnTopSince(maxSize, arts, ops, m, n, x);
          OnTopForLonger(maxSize, arts, ops, m, n, x);
        }
      }
    }
  }
}
