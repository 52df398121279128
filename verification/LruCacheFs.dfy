/** The in-memory read cache put in front of an artifact's file system: a map from names to
    entries, threaded on an intrusive doubly linked list, with a byte counter. */
module LruCacheFs {
  import opened LruSpec

  /** What an opened file shows its reader. */
  datatype FileData = FileData(bytes: seq<bv8>, modTime: int, mode: int)

  /** What the immutable base file system holds under a name. */
  datatype BaseEntry = Failing(error: string) | Directory | Regular(file: FileData)

  datatype OpenResult = OpenError(error: string) | OpenedDirectory | OpenedFile(file: FileData)

  datatype StatResult = StatError(error: string) | StatDirectory | StatFile(size: int, modTime: int, mode: int)

  type Base = string -> BaseEntry

  /** What opening `name` gives without any cache. */
  function Uncached(base: Base, name: string): OpenResult {
    match base(name)
    case Failing(e) => OpenError(e)
    case Directory => OpenedDirectory
    case Regular(f) => OpenedFile(f)
  }

  function UncachedStat(base: Base, name: string): StatResult {
    match base(name)
    case Failing(e) => StatError(e)
    case Directory => StatDirectory
    case Regular(f) => StatFile(|f.bytes|, f.modTime, f.mode)
  }

  function CatalogOf(base: Base): Catalog<string> {
    Catalog((k: string) => base(k).Regular?,
            (k: string) => if base(k).Regular? then |base(k).file.bytes| else 0)
  }

  /** The cache as a value: the names, most recently used first, and the data kept for each. */
  datatype Cache = Cache(order: seq<string>, data: map<string, FileData>)

  const EMPTY_CACHE := Cache([], map[])

  /** First critical section of `Open`: a hit moves the name to the front. */
  function Lookup(c: Cache, name: string): Cache {
    if name in c.data then c.(order := [name] + Remove(c.order, name)) else c
  }

  /** Second critical section of `Open`: look again, and add the entry if it is still missing. */
  function Insert(base: Base, max: int, c: Cache, name: string, file: FileData): Cache {
    if name in c.data then Lookup(c, name)
    else
      var kept := Fit(CatalogOf(base), c.order, max - |file.bytes|);
      Cache([name] + kept, (map k | k in c.data && k in kept :: c.data[k])[name := file])
  }

  /** One whole `Open` with nothing in between. */
  function OpenAtomic(base: Base, max: int, c: Cache, name: string): Cache {
    if name in c.data then Lookup(c, name)
    else if Cacheable(CatalogOf(base), max, name) then Insert(base, max, c, name, base(name).file)
    else c
  }

  /** Every reachable cache: distinct names, each with the base's data, within the byte budget. */
  ghost predicate WellFormed(base: Base, max: int, c: Cache) {
    && NoDup(c.order)
    && (forall k :: k in c.order <==> k in c.data)
    && (forall k :: k in c.data ==> base(k) == Regular(c.data[k]))
    && (c.order != [] ==> Total(CatalogOf(base), c.order) <= max)
  }

  lemma {:induction false} LookupWellFormed(base: Base, max: int, c: Cache, name: string)
    requires WellFormed(base, max, c)
    ensures WellFormed(base, max, Lookup(c, name))
  {
    RemoveBasics(c.order, name);
    if name in c.data {
      RemoveTotal(CatalogOf(base), c.order, name);
      assert Lookup(c, name).order[1..] == Remove(c.order, name);
    }
  }

  lemma {:induction false} InsertWellFormed(base: Base, max: int, c: Cache, name: string, file: FileData)
    requires WellFormed(base, max, c) && base(name) == Regular(file) && |file.bytes| <= max
    ensures WellFormed(base, max, Insert(base, max, c, name, file))
  {
    LookupWellFormed(base, max, c, name);
    if name !in c.data {
      FitIsTight(CatalogOf(base), c.order, max - |file.bytes|);
      var c' := Insert(base, max, c, name, file);
      assert c'.order[1..] == Fit(CatalogOf(base), c.order, max - |file.bytes|);
    }
  }

  lemma OpenAtomicWellFormed(base: Base, max: int, c: Cache, name: string)
    requires WellFormed(base, max, c)
    ensures WellFormed(base, max, OpenAtomic(base, max, c, name))
  {
    hide WellFormed, Lookup, Insert;
    LookupWellFormed(base, max, c, name);
    if name !in c.data && Cacheable(CatalogOf(base), max, name) {
      InsertWellFormed(base, max, c, name, base(name).file);
    }
  }

  /** After a whole `Open` the name is cached if and only if it is a file within the budget, and then
      with what the base holds. */
  lemma OpenedIsCached(base: Base, max: int, c: Cache, name: string)
    requires WellFormed(base, max, c)
    ensures var c' := OpenAtomic(base, max, c, name);
            && (name in c'.data <==> base(name).Regular? && |base(name).file.bytes| <= max)
            && (name in c'.data ==> c'.data[name] == base(name).file)
  {
    if name in c.data {
      RemoveTotal(CatalogOf(base), c.order, name);
    }
    hide Fit, Remove, NoDup;
  }

  /** A whole `Open` moves the list of names as the LRU specification says. */
  lemma OpenAtomicRefinesOpen(base: Base, max: int, c: Cache, name: string)
    requires forall k :: k in c.order <==> k in c.data
    ensures OpenAtomic(base, max, c, name).order == Open(CatalogOf(base), max, c.order, name)
  {
    assert name in c.order <==> name in c.data;
  }

  class CacheEntry {
    const name: string
    const file: FileData
    const size: int
    var prev: CacheEntry?
    var next: CacheEntry?

    constructor (name: string, file: FileData)
      ensures this.name == name && this.file == file && size == |file.bytes|
    {
      this.name, this.file, this.size := name, file, |file.bytes|;
      prev, next := null, null;
    }
  }

  ghost function Names(nodes: seq<CacheEntry>): (names: seq<string>)
    ensures |names| == |nodes|
  {
    if nodes == [] then [] else [nodes[0].name] + Names(nodes[1..])
  }

  lemma {:induction false} NamesAt(nodes: seq<CacheEntry>)
    ensures forall i :: 0 <= i < |nodes| ==> Names(nodes)[i] == nodes[i].name
  {
    if nodes != [] {
      NamesAt(nodes[1..]);
      assert forall i :: 0 < i < |nodes| ==> nodes[i] == nodes[1..][i - 1];
    }
  }

  lemma {:induction false} NamesAppend(a: seq<CacheEntry>, b: seq<CacheEntry>)
    ensures Names(a + b) == Names(a) + Names(b)
  {
    if a == [] {
      assert a + b == b;
    } else {
      assert (a + b)[1..] == a[1..] + b;
      NamesAppend(a[1..], b);
      ConsAppend(a[0].name, Names(a[1..]), Names(b));
    }
  }

  /** The nodes without the one at position `k`. */
  ghost function Drop<T>(s: seq<T>, k: nat): (r: seq<T>)
    requires k < |s|
    ensures |r| == |s| - 1
  {
    s[..k] + s[k + 1..]
  }

  /** The table holds exactly the listed nodes, each under its own name. */
  ghost predicate Indexed(nodes: seq<CacheEntry>, table: map<string, CacheEntry>) {
    && NoDup(Names(nodes))
    && (forall i :: 0 <= i < |nodes| ==> nodes[i].name in table && table[nodes[i].name] == nodes[i])
    && (forall k :: k in table ==> table[k] in nodes && table[k].name == k)
  }

  /** The entries hold the base's data, and the byte count is exact and within the budget. */
  ghost predicate Accounted(base: Base, max: int, nodes: seq<CacheEntry>, bytes: int) {
    && (forall i :: 0 <= i < |nodes| ==>
          base(nodes[i].name) == Regular(nodes[i].file) && nodes[i].size == |nodes[i].file.bytes|)
    && bytes == Total(CatalogOf(base), Names(nodes))
    && (nodes != [] ==> bytes <= max)
  }

  ghost function FilesOf(table: map<string, CacheEntry>): map<string, FileData> {
    map k | k in table :: table[k].file
  }

  lemma {:induction false} OthersDiffer(nodes: seq<CacheEntry>, k: nat, table: map<string, CacheEntry>)
    requires k < |nodes| && Indexed(nodes, table)
    ensures forall i :: 0 <= i < |nodes| && i != k ==> nodes[i] != nodes[k] && nodes[i].name != nodes[k].name
  {
    NamesAt(nodes);
    assert forall i :: 0 <= i < |nodes| && i != k ==> Names(nodes)[i] != Names(nodes)[k];
  }

  /** Two nodes apart in the list are different objects, for the neighbours of position `k`. */
  lemma {:induction false} NeighboursDiffer(nodes: seq<CacheEntry>, k: nat, table: map<string, CacheEntry>)
    requires k < |nodes| && Indexed(nodes, table)
    ensures forall i :: 0 <= i < |nodes| && i != 0 ==> nodes[i] != nodes[0]
    ensures forall i :: 0 <= i < |nodes| && i != k ==> nodes[i] != nodes[k]
    ensures k > 0 ==> forall i :: 0 <= i < |nodes| && i != k - 1 ==> nodes[i] != nodes[k - 1]
    ensures k < |nodes| - 1 ==> forall i :: 0 <= i < |nodes| && i != k + 1 ==> nodes[i] != nodes[k + 1]
  {
    OthersDiffer(nodes, 0, table);
    OthersDiffer(nodes, k, table);
    if k > 0 { OthersDiffer(nodes, k - 1, table); }
    if k < |nodes| - 1 { OthersDiffer(nodes, k + 1, table); }
  }

  lemma {:induction false} DropNames(nodes: seq<CacheEntry>, k: nat, table: map<string, CacheEntry>)
    requires k < |nodes| && Indexed(nodes, table)
    ensures Names(Drop(nodes, k)) == Remove(Names(nodes), nodes[k].name)
  {
    var p, e, r := nodes[..k], nodes[k], nodes[k + 1..];
    assert nodes == p + ([e] + r);
    PushNames(r, e);
    NamesAppend(p, [e] + r);
    NamesAppend(p, r);
    hide Names;
    NoDupParts(Names(p), [e.name] + Names(r));
    RemoveAppend(Names(p), [e.name] + Names(r), e.name);
    RemoveCons(e.name, Names(r), e.name);
  }

  lemma DropNoDup(nodes: seq<CacheEntry>, k: nat, table: map<string, CacheEntry>)
    requires k < |nodes| && Indexed(nodes, table)
    ensures NoDup(Names(Drop(nodes, k)))
  {
    DropNames(nodes, k, table);
    hide Names, Drop;
    RemoveBasics(Names(nodes), nodes[k].name);
  }

  lemma DropIndexed(nodes: seq<CacheEntry>, k: nat, table: map<string, CacheEntry>)
    requires k < |nodes| && Indexed(nodes, table)
    ensures Indexed(Drop(nodes, k), table - {nodes[k].name})
  {
    DropNoDup(nodes, k, table);
    OthersDiffer(nodes, k, table);
    hide NoDup, Names;
    var rest := Drop(nodes, k);
    assert forall i :: 0 <= i < |rest| ==> rest[i] == nodes[if i < k then i else i + 1];
    forall n | n in table && n != nodes[k].name
      ensures table[n] in rest
    {
      var i :| 0 <= i < |nodes| && nodes[i] == table[n];
      assert rest[if i < k then i else i - 1] == table[n];
    }
  }

  lemma {:induction false} DropAccounted(base: Base, max: int, nodes: seq<CacheEntry>, k: nat,
                                         table: map<string, CacheEntry>, bytes: int)
    requires k < |nodes| && Indexed(nodes, table) && Accounted(base, max, nodes, bytes)
    ensures Accounted(base, max, Drop(nodes, k), bytes - nodes[k].size)
  {
    DropNames(nodes, k, table);
    NamesAt(nodes);
    hide Names, NoDup;
    assert nodes[k].name == Names(nodes)[k];
    RemoveTotal(CatalogOf(base), Names(nodes), nodes[k].name);
  }

  lemma PushNames(nodes: seq<CacheEntry>, e: CacheEntry)
    ensures Names([e] + nodes) == [e.name] + Names(nodes)
  {
    assert ([e] + nodes)[1..] == nodes;
  }

  lemma PushIndexed(nodes: seq<CacheEntry>, e: CacheEntry, table: map<string, CacheEntry>)
    requires Indexed(nodes, table) && e.name !in table
    ensures Indexed([e] + nodes, table[e.name := e])
    ensures e !in nodes
  {
    var all := [e] + nodes;
    PushNames(nodes, e);
    IndexedKeys(nodes, table);
    hide Names;
    NoDupCons(e.name, Names(nodes));
    hide NoDup;
    assert all[0] == e && forall i :: 0 < i < |all| ==> all[i] == nodes[i - 1];
    forall k | k in table
      ensures table[k] in all
    {
      var i :| 0 <= i < |nodes| && nodes[i] == table[k];
      assert all[i + 1] == table[k];
    }
  }

  lemma {:induction false} PushAccounted(base: Base, max: int, nodes: seq<CacheEntry>, e: CacheEntry, bytes: int)
    requires Accounted(base, max, nodes, bytes) && e.size <= max
    requires nodes == [] || bytes + e.size <= max
    requires base(e.name) == Regular(e.file) && e.size == |e.file.bytes|
    ensures Accounted(base, max, [e] + nodes, bytes + e.size)
    ensures Names([e] + nodes) == [e.name] + Names(nodes)
  {
    PushNames(nodes, e);
    hide Names;
    assert ([e.name] + Names(nodes))[1..] == Names(nodes);
  }

  lemma {:induction false} MoveIndexed(nodes: seq<CacheEntry>, k: nat, table: map<string, CacheEntry>)
    requires k < |nodes| && Indexed(nodes, table)
    ensures Indexed([nodes[k]] + Drop(nodes, k), table)
    ensures k == 0 ==> [nodes[k]] + Drop(nodes, k) == nodes
  {
    var e := nodes[k];
    DropIndexed(nodes, k, table);
    PushIndexed(Drop(nodes, k), e, table - {e.name});
    assert (table - {e.name})[e.name := e] == table;
  }

  lemma {:induction false} MoveAccounted(base: Base, max: int, nodes: seq<CacheEntry>, k: nat,
                                         table: map<string, CacheEntry>, bytes: int)
    requires k < |nodes| && Indexed(nodes, table) && Accounted(base, max, nodes, bytes)
    ensures Accounted(base, max, [nodes[k]] + Drop(nodes, k), bytes)
    ensures Names([nodes[k]] + Drop(nodes, k)) == [nodes[k].name] + Remove(Names(nodes), nodes[k].name)
  {
    DropAccounted(base, max, nodes, k, table, bytes);
    PushAccounted(base, max, Drop(nodes, k), nodes[k], bytes - nodes[k].size);
    DropNames(nodes, k, table);
  }

  /** Evicting the last node takes the last name off. */
  lemma {:induction false} DropLast(nodes: seq<CacheEntry>)
    requires nodes != []
    ensures Drop(nodes, |nodes| - 1) == nodes[..|nodes| - 1]
    ensures Names(nodes[..|nodes| - 1]) == Names(nodes)[..|nodes| - 1]
  {
    NamesAt(nodes);
    NamesAt(nodes[..|nodes| - 1]);
  }

  lemma {:induction false} IndexedKeys(nodes: seq<CacheEntry>, table: map<string, CacheEntry>)
    requires Indexed(nodes, table)
    ensures forall k :: k in Names(nodes) <==> k in table
  {
    NamesAt(nodes);
    forall k | k in table
      ensures k in Names(nodes)
    {
      var i :| 0 <= i < |nodes| && nodes[i] == table[k];
      assert Names(nodes)[i] == k;
    }
  }

  /** Keeping the nodes `kept` of the old table and adding `e` is what `Insert` does. */
  lemma {:induction false} InsertView(base: Base, max: int, was: seq<CacheEntry>, table: map<string, CacheEntry>,
                                      kept: seq<CacheEntry>, left: map<string, CacheEntry>, e: CacheEntry)
    requires Indexed(kept, left) && e.name !in table
    requires forall k :: k in left ==> k in table && left[k] == table[k]
    requires Names(kept) == Fit(CatalogOf(base), Names(was), max - |e.file.bytes|)
    ensures Cache([e.name] + Names(kept), FilesOf(left[e.name := e]))
         == Insert(base, max, Cache(Names(was), FilesOf(table)), e.name, e.file)
  {
    IndexedKeys(kept, left);
    hide Indexed, Names, Fit;
  }

  /** The pointers: `next` from `head` runs through `nodes` and `prev` from `tail` runs back. */
  ghost predicate Chain(nodes: seq<CacheEntry>, head: CacheEntry?, tail: CacheEntry?)
    reads nodes
  {
    && head == (if nodes == [] then null else nodes[0])
    && tail == (if nodes == [] then null else nodes[|nodes| - 1])
    && (forall i {:trigger nodes[i].prev} :: 0 <= i < |nodes| ==>
          nodes[i].prev == if i == 0 then null else nodes[i - 1])
    && (forall i {:trigger nodes[i].next} :: 0 <= i < |nodes| ==>
          nodes[i].next == if i == |nodes| - 1 then null else nodes[i + 1])
  }

  /** Every node but `k` points past position `k`. */
  ghost predicate Bypassed(was: seq<CacheEntry>, k: nat, first: CacheEntry?)
    requires k < |was|
    reads was
  {
    && (forall i {:trigger was[i].prev} :: 0 <= i < |was| && i != k ==>
          was[i].prev == if i == (if k == 0 then 1 else 0) then first
                         else if i == k + 1 then was[k - 1] else was[i - 1])
    && (forall i {:trigger was[i].next} :: 0 <= i < |was| && i != k ==>
          was[i].next == if i == k - 1 then (if k + 1 < |was| then was[k + 1] else null)
                         else if i == |was| - 1 then null else was[i + 1])
  }

  /** If all other nodes bypass `k` and the first of them has no predecessor, they are a chain. */
  lemma {:induction false} DroppedIsChain(was: seq<CacheEntry>, k: nat, head: CacheEntry?, tail: CacheEntry?)
    requires k < |was| && Bypassed(was, k, null)
    requires head == if |was| == 1 then null else if k == 0 then was[1] else was[0]
    requires tail == if |was| == 1 then null else if k == |was| - 1 then was[k - 1] else was[|was| - 1]
    ensures Chain(Drop(was, k), head, tail)
  {
    var rest := Drop(was, k);
    forall i | 0 <= i < |rest|
      ensures rest[i].prev == if i == 0 then null else rest[i - 1]
      ensures rest[i].next == if i == |rest| - 1 then null else rest[i + 1]
    {
      assert rest[i] == was[if i < k then i else i + 1];
    }
  }

  /** If all other nodes bypass `k` and it stands before the first of them, it heads a chain. */
  lemma {:induction false} MovedIsChain(was: seq<CacheEntry>, k: nat)
    requires 0 < k < |was| && Bypassed(was, k, was[k])
    requires was[k].prev == null && was[k].next == was[0]
    ensures Chain([was[k]] + Drop(was, k), was[k], if k == |was| - 1 then was[k - 1] else was[|was| - 1])
  {
    var moved := [was[k]] + Drop(was, k);
    forall i | 0 <= i < |moved|
      ensures moved[i].prev == if i == 0 then null else moved[i - 1]
      ensures moved[i].next == if i == |moved| - 1 then null else moved[i + 1]
    {
      assert moved[i] == was[if i == 0 then k else if i <= k then i - 1 else i];
    }
  }

  lemma {:induction false} PushedIsChain(kept: seq<CacheEntry>, e: CacheEntry, tail: CacheEntry?)
    requires tail == if kept == [] then e else kept[|kept| - 1]
    requires e.prev == null && e.next == if kept == [] then null else kept[0]
    requires forall i {:trigger kept[i].prev} :: 0 <= i < |kept| ==>
               kept[i].prev == if i == 0 then e else kept[i - 1]
    requires forall i {:trigger kept[i].next} :: 0 <= i < |kept| ==>
               kept[i].next == if i == |kept| - 1 then null else kept[i + 1]
    ensures Chain([e] + kept, e, tail)
  {
    var all := [e] + kept;
    forall i | 0 <= i < |all|
      ensures all[i].prev == if i == 0 then null else all[i - 1]
      ensures all[i].next == if i == |all| - 1 then null else all[i + 1]
    {
      assert i > 0 ==> all[i] == kept[i - 1];
    }
  }

  class LruCacheFs {
    const base: Base
    const maxBytes: int
    var entries: map<string, CacheEntry>
    var curBytes: int
    var head: CacheEntry?
    var tail: CacheEntry?
    ghost var Nodes: seq<CacheEntry>  // the list, from head to tail

    ghost predicate Linked()
      reads this, Nodes
    {
      Chain(Nodes, head, tail)
    }

    ghost predicate Valid()
      reads this, Nodes
    {
      && Linked()
      && Indexed(Nodes, entries)
      && Accounted(base, maxBytes, Nodes, curBytes)
    }

    ghost function View(): Cache
      reads this
    {
      Cache(Names(Nodes), FilesOf(entries))
    }

    constructor (base: Base, maxBytes: int)
      ensures Valid() && fresh(Nodes)
      ensures this.base == base && this.maxBytes == maxBytes
      ensures View() == EMPTY_CACHE
    {
      this.base, this.maxBytes := base, maxBytes;
      entries, curBytes, head, tail := map[], 0, null, null;
      Nodes := [];
    }

    /** Unlink `e`, at position `k` of the list, and drop it from the table. */
    method EvictLocked(e: CacheEntry, ghost k: nat)
      requires Valid() && k < |Nodes| && Nodes[k] == e
      modifies this, Nodes
      ensures Valid()
      ensures Nodes == Drop(old(Nodes), k)
      ensures Names(Nodes) == Remove(Names(old(Nodes)), e.name)
      ensures entries == old(entries) - {e.name}
      ensures curBytes == old(curBytes) - e.size
    {
      hide Drop, Names, Remove, Indexed, Accounted;
      ghost var was := Nodes;
      NeighboursDiffer(was, k, entries);
      if e.prev != null {
        e.prev.next := e.next;
      } else {
        head := e.next;
      }
      if e.next != null {
        e.next.prev := e.prev;
      } else {
        tail := e.prev;
      }
      ghost var table := entries;
      curBytes := curBytes - e.size;
      entries := entries - {e.name};
      Nodes := Drop(was, k);
      assert Bypassed(was, k, null);
      DroppedIsChain(was, k, head, tail);
      hide Chain, Bypassed;
      DropNames(was, k, table);
      DropIndexed(was, k, table);
      DropAccounted(base, maxBytes, was, k, table, curBytes + e.size);
    }

    /** Move `e`, at position `k` of the list, to the front. */
    method TouchLocked(e: CacheEntry, ghost k: nat)
      requires Valid() && k < |Nodes| && Nodes[k] == e
      modifies this`head, this`tail, this`Nodes, Nodes
      ensures Valid()
      ensures Nodes == [e] + Drop(old(Nodes), k)
      ensures Names(Nodes) == [e.name] + Remove(Names(old(Nodes)), e.name)
    {
      hide Drop, Names, Remove, Indexed, Accounted;
      ghost var was := Nodes;
      NeighboursDiffer(was, k, entries);
      if head == e {
        MoveIndexed(was, k, entries);
        MoveAccounted(base, maxBytes, was, k, entries, curBytes);
        return;
      }
      if e.prev != null {
        e.prev.next := e.next;
      }
      if e.next != null {
        e.next.prev := e.prev;
      }
      if tail == e {
        tail := e.prev;
      }
      e.prev := null;
      e.next := head;
      if head != null {
        head.prev := e;
      }
      head := e;
      Nodes := [e] + Drop(was, k);
      assert Bypassed(was, k, e);
      MovedIsChain(was, k);
      assert Chain(Nodes, head, tail);
      hide Chain, Bypassed;
      MoveIndexed(was, k, entries);
      MoveAccounted(base, maxBytes, was, k, entries, curBytes);
    }

    lemma FitDropsLast(nodes: seq<CacheEntry>, room: int, bytes: int)
      requires nodes != [] && Accounted(base, maxBytes, nodes, bytes) && bytes > room
      ensures Fit(CatalogOf(base), Names(nodes)[..|nodes| - 1], room) == Fit(CatalogOf(base), Names(nodes), room)
    {
    }

    lemma FitStops(nodes: seq<CacheEntry>, room: int, bytes: int)
      requires Accounted(base, maxBytes, nodes, bytes) && (nodes == [] || bytes <= room)
      ensures Fit(CatalogOf(base), Names(nodes), room) == Names(nodes)
    {
    }

    /** Evict from the tail until `size` more bytes fit. */
    method MakeRoom(size: int)
      requires Valid() && size <= maxBytes
      modifies this, Nodes
      ensures Valid() && Nodes <= old(Nodes)
      ensures Nodes == [] || curBytes + size <= maxBytes
      ensures forall k :: k in entries ==> k in old(entries) && entries[k] == old(entries)[k]
      ensures Names(Nodes) == Fit(CatalogOf(base), Names(old(Nodes)), maxBytes - size)
    {
      hide Drop, Names, Remove, Indexed, Accounted;
      ghost var was, cat := Nodes, CatalogOf(base);
      while curBytes + size > maxBytes && tail != null
        invariant Valid() && Nodes <= was
        invariant forall k :: k in entries ==> k in old(entries) && entries[k] == old(entries)[k]
        invariant Fit(cat, Names(Nodes), maxBytes - size) == Fit(cat, Names(was), maxBytes - size)
        decreases |Nodes|
      {
        DropLast(Nodes);
        FitDropsLast(Nodes, maxBytes - size, curBytes);
        EvictLocked(tail, |Nodes| - 1);
      }
      FitStops(Nodes, maxBytes - size, curBytes);
    }

    /** Link a new node in front of the list. */
    method PushFront(e: CacheEntry, ghost table: map<string, CacheEntry>)
      requires Linked() && Indexed(Nodes, table) && e !in Nodes
      modifies this`head, this`tail, this`Nodes, Nodes, e
      ensures Linked() && Nodes == [e] + old(Nodes)
    {
      ghost var was := Nodes;
      if was != [] { OthersDiffer(was, 0, table); }
      hide Indexed;
      assert forall i :: 0 <= i < |was| ==> was[i] != e;
      e.prev := null;
      e.next := head;
      if head != null {
        head.prev := e;
      }
      head := e;
      if tail == null {
        tail := e;
      }
      Nodes := [e] + was;
      PushedIsChain(was, e, tail);
      hide Chain;
    }

    /** Make room, then put the new entry at the front. */
    method AddLocked(e: CacheEntry)
      requires Valid() && e.name !in entries
      requires base(e.name) == Regular(e.file) && e.size == |e.file.bytes| <= maxBytes
      modifies this, Nodes, e
      ensures Valid()
      ensures forall n :: n in Nodes ==> n in old(Nodes) || n == e
      ensures View() == Insert(base, maxBytes, old(View()), e.name, e.file)
    {
      hide Drop, Names, Remove, Indexed, Accounted, Chain;
      MakeRoom(e.size);
      ghost var left := entries;
      InsertView(base, maxBytes, old(Nodes), old(entries), Nodes, left, e);
      PushIndexed(Nodes, e, left);
      PushAccounted(base, maxBytes, Nodes, e, curBytes);
      entries := entries[e.name := e];
      curBytes := curBytes + e.size;
      PushFront(e, left);
    }

    /** First critical section of `Open`. */
    method LookupLocked(name: string) returns (e: CacheEntry?)
      requires Valid()
      modifies this, Nodes
      ensures Valid() && (forall n :: n in Nodes ==> n in old(Nodes))
      ensures (e != null) == (name in old(View()).data)
      ensures e != null ==> base(name) == Regular(e.file)
      ensures View() == Lookup(old(View()), name)
    {
      if name !in entries {
        return null;
      }
      e := entries[name];
      ghost var k :| 0 <= k < |Nodes| && Nodes[k] == e;
      TouchLocked(e, k);
    }

    /** Second critical section of `Open`: another opener may have cached the name meanwhile. */
    method InsertLocked(e: CacheEntry) returns (shown: CacheEntry)
      requires Valid() && e !in Nodes
      requires base(e.name) == Regular(e.file) && e.size == |e.file.bytes| <= maxBytes
      modifies this, Nodes, e
      ensures Valid() && shown.file == e.file
      ensures forall n :: n in Nodes ==> n in old(Nodes) || n == e
      ensures View() == Insert(base, maxBytes, old(View()), e.name, e.file)
    {
      var existing := LookupLocked(e.name);
      if existing != null {
        return existing;
      }
      AddLocked(e);
      shown := e;
    }

    /** Open a file through the cache. */
    method Open(name: string) returns (r: OpenResult)
      requires Valid()
      modifies this, Nodes
      ensures Valid() && (forall n :: n in Nodes ==> n in old(Nodes) || fresh(n))
      ensures r == Uncached(base, name)
      ensures match base(name)
              case Failing(error) => r == OpenError(error)
              case Directory => r == OpenedDirectory
              case Regular(file) => r == OpenedFile(file)
      ensures View() == OpenAtomic(base, maxBytes, old(View()), name)
    {
      var hit := LookupLocked(name);
      if hit != null {
        return OpenedFile(hit.file);
      }
      match base(name)
      case Failing(error) =>
        return OpenError(error);
      case Directory =>
        return OpenedDirectory;
      case Regular(file) =>
        var e := new CacheEntry(name, file);
        if e.size > maxBytes {
          return OpenedFile(file);
        }
        var shown := InsertLocked(e);
        return OpenedFile(shown.file);
    }

    /** Stat through the cache; nothing changes. */
    method Stat(name: string) returns (r: StatResult)
      requires Valid()
      ensures r == UncachedStat(base, name)
      ensures match base(name)
              case Failing(error) => r == StatError(error)
              case Directory => r == StatDirectory
              case Regular(file) => r == StatFile(|file.bytes|, file.modTime, file.mode)
    {
      if name in entries {
        var e := entries[name];
        return StatFile(e.size, e.file.modTime, e.file.mode);
      }
      r := UncachedStat(base, name);
    }

    /** The nodes met by following `next`, at most `n` of them. */
    ghost function Forward(e: CacheEntry?, n: nat): seq<CacheEntry>
      reads *
    {
      if e == null || n == 0 then [] else [e] + Forward(e.next, n - 1)
    }

    ghost function Backward(e: CacheEntry?, n: nat): seq<CacheEntry>
      reads *
    {
      if e == null || n == 0 then [] else Backward(e.prev, n - 1) + [e]
    }

    lemma {:induction false} ForwardFrom(i: nat, n: nat)
      requires Linked() && i <= |Nodes| && n >= |Nodes| - i
      ensures Forward(if i == |Nodes| then null else Nodes[i], n) == Nodes[i..]
      decreases n
    {
      if i < |Nodes| { ForwardFrom(i + 1, n - 1); }
    }

    lemma {:induction false} BackwardFrom(i: nat, n: nat)
      requires Linked() && i <= |Nodes| && n >= i
      ensures Backward(if i == 0 then null else Nodes[i - 1], n) == Nodes[..i]
      decreases n
    {
      if i > 0 {
        BackwardFrom(i - 1, n - 1);
        assert Nodes[..i] == Nodes[..i - 1] + [Nodes[i - 1]];
      }
    }

    /** Walking forward from `head` and backward from `tail`, however long, meets the same finite
        sequence of distinct nodes; their names are distinct and are exactly the table's keys. */
    lemma {:induction false} WalksAgree(n: nat)
      requires Valid() && n >= |Nodes|
      ensures Forward(head, n) == Nodes == Backward(tail, n)
      ensures NoDup(Names(Nodes)) && (forall k :: k in Names(Nodes) <==> k in entries)
    {
      hide Names, NoDup;
      ForwardFrom(0, n);
      BackwardFrom(|Nodes|, n);
      assert Nodes[0..] == Nodes && Nodes[..|Nodes|] == Nodes;
      IndexedKeys(Nodes, entries);
    }
  }
}
