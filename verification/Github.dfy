/** Choosing the build to preview: which workflow run, and which artifact of it.

    GitHub's answers are inputs here: a `Server` fixes what each request of one resolution is
    answered, `None` standing for any failed request. */
module Github {
  import opened Wrappers
  import opened ByteSize
  import Timestamps

  datatype Run = Run(id: int, headBranch: string, headSHA: string, createdAt: string)

  datatype Artifact = Artifact(id: int, name: string, sizeInBytes: int, expired: bool, digest: string)

  datatype PullRequest = PullRequest(state: string, headRef: string, headSHA: string)

  type Artifacts = int -> Option<seq<Artifact>>

  datatype Server = Server(
    pullRequest: int -> Option<PullRequest>,
    branchHead: string -> Option<string>,
    runsByHead: string -> Option<seq<Run>>,
    runsByBranch: string -> Option<seq<Run>>,
    artifactsAtHead: Artifacts,     // answers while searching the head commit's runs
    artifactsOnBranch: Artifacts)   // answers while searching the branch listing

  datatype Resolution = Resolution(run: Run, artifact: Artifact, targetSHA: string)

  // ----- the order of runs

  /** Newer first: by creation time as a string, then by run ID. */
  predicate Newer(a: Run, b: Run) {
    if a.createdAt != b.createdAt then Timestamps.Less(b.createdAt, a.createdAt) else a.id > b.id
  }

  predicate Tied(a: Run, b: Run) {
    a.createdAt == b.createdAt && a.id == b.id
  }

  ghost predicate Ordered(s: seq<Run>) {
    forall i, j :: 0 <= i < j < |s| ==> !Newer(s[j], s[i])
  }

  /** The runs of `s` that tie with `r`, in their order. */
  function TiedWith(s: seq<Run>, r: Run): seq<Run> {
    if s == [] then [] else (if Tied(s[0], r) then [s[0]] else []) + TiedWith(s[1..], r)
  }

  /** `t` is `s` sorted newest first, ties in their original order: what a stable sort promises. */
  ghost predicate IsStableSort(s: seq<Run>, t: seq<Run>) {
    Ordered(t) && forall r :: TiedWith(t, r) == TiedWith(s, r)
  }

  /** Insert `r` behind every run it is not newer than. */
  function Insert(s: seq<Run>, r: Run): (t: seq<Run>)
    ensures |t| == |s| + 1
  {
    if s == [] || !Newer(r, s[|s| - 1]) then s + [r] else Insert(s[..|s| - 1], r) + [s[|s| - 1]]
  }

  function Sorted(s: seq<Run>): (t: seq<Run>)
    ensures |t| == |s|
  {
    if s == [] then [] else Insert(Sorted(s[..|s| - 1]), s[|s| - 1])
  }

  lemma NewerIsTotal(a: Run, b: Run)
    ensures !(Newer(a, b) && Newer(b, a))
    ensures Newer(a, b) || Newer(b, a) || Tied(a, b)
    ensures Tied(a, b) ==> !Newer(a, b)
  {
    Timestamps.LessIsTotalOrder(a.createdAt, b.createdAt);
  }

  lemma NewerTransitive(a: Run, b: Run, c: Run)
    requires Newer(a, b) && !Newer(c, b)
    ensures Newer(a, c)
  {
    Timestamps.LessIsTotalOrder(a.createdAt, b.createdAt);
    Timestamps.LessIsTotalOrder(c.createdAt, b.createdAt);
    if a.createdAt != b.createdAt && b.createdAt != c.createdAt {
      Timestamps.LessTransitive(c.createdAt, b.createdAt, a.createdAt);
    }
    Timestamps.LessIsTotalOrder(a.createdAt, c.createdAt);
  }

  lemma NotNewerTransitive(a: Run, b: Run, c: Run)
    requires !Newer(b, a) && !Newer(c, b)
    ensures !Newer(c, a)
  {
    if Newer(c, a) { NewerTransitive(c, a, b); }
  }

  lemma {:induction false} TiedWithAppend(s: seq<Run>, t: seq<Run>, r: Run)
    ensures TiedWith(s + t, r) == TiedWith(s, r) + TiedWith(t, r)
  {
    if s == [] {
      assert s + t == t;
    } else {
      assert (s + t)[1..] == s[1..] + t;
      TiedWithAppend(s[1..], t, r);
    }
  }

  lemma {:induction false} TiedWithMembers(s: seq<Run>, r: Run)
    ensures forall x :: x in TiedWith(s, r) <==> x in s && Tied(x, r)
  {
    if s != [] {
      TiedWithMembers(s[1..], r);
      assert s == [s[0]] + s[1..];
    }
  }

  lemma {:induction false} InsertMembers(s: seq<Run>, r: Run)
    ensures forall x :: x in Insert(s, r) <==> x in s || x == r
  {
    if s != [] && Newer(r, s[|s| - 1]) {
      InsertMembers(s[..|s| - 1], r);
      assert s == s[..|s| - 1] + [s[|s| - 1]];
    }
  }

  lemma {:induction false} InsertOrdered(s: seq<Run>, r: Run)
    requires Ordered(s)
    ensures Ordered(Insert(s, r))
  {
    var t := Insert(s, r);
    if s != [] {
      var u, last := s[..|s| - 1], s[|s| - 1];
      if Newer(r, last) {
        InsertOrdered(u, r);
        InsertMembers(u, r);
        NewerIsTotal(r, last);
        var v := Insert(u, r);
        forall i | 0 <= i < |v|
          ensures !Newer(last, v[i])
        {
          assert v[i] in v;
        }
      } else {
        forall i | 0 <= i < |s|
          ensures !Newer(r, s[i])
        {
          if i < |s| - 1 { NotNewerTransitive(s[i], last, r); }
        }
      }
    }
  }

  lemma {:induction false} InsertStable(s: seq<Run>, r: Run, e: Run)
    ensures TiedWith(Insert(s, r), e) == TiedWith(s + [r], e)
  {
    if s != [] && Newer(r, s[|s| - 1]) {
      var u, last := s[..|s| - 1], s[|s| - 1];
      InsertStable(u, r, e);
      NewerIsTotal(r, last);
      assert s == u + [last];
      TiedWithAppend(Insert(u, r), [last], e);
      TiedWithAppend(u, [r], e);
      TiedWithAppend(u, [last], e);
      TiedWithAppend(s, [r], e);
      assert !(Tied(last, e) && Tied(r, e));
    }
  }

  /** Sorting sorts, and is stable. */
  lemma {:induction false} SortedIsStableSort(s: seq<Run>)
    ensures IsStableSort(s, Sorted(s))
  {
    if s != [] {
      var u, r := s[..|s| - 1], s[|s| - 1];
      SortedIsStableSort(u);
      InsertOrdered(Sorted(u), r);
      assert s == u + [r];
      forall e
        ensures TiedWith(Sorted(s), e) == TiedWith(s, e)
      {
        InsertStable(Sorted(u), r, e);
        TiedWithAppend(Sorted(u), [r], e);
        TiedWithAppend(u, [r], e);
      }
    }
  }

  lemma FirstIsTied(s: seq<Run>, t: seq<Run>)
    requires Ordered(s) && Ordered(t) && s != [] && forall r :: TiedWith(s, r) == TiedWith(t, r)
    ensures t != [] && s[0] == t[0]
  {
    var a := s[0];
    assert TiedWith(s, a)[0] == a;
    TiedWithMembers(t, a);
    assert a in TiedWith(t, a);
    var b := t[0];
    assert TiedWith(t, b)[0] == b;
    TiedWithMembers(s, b);
    assert b in TiedWith(s, b);
    NewerIsTotal(a, b);
    assert !Newer(a, b) && !Newer(b, a);
    assert TiedWith(t, a)[0] == b;
  }

  lemma HeadIsTied(t: seq<Run>)
    ensures t != [] ==> TiedWith(t, t[0]) != []
  {
  }

  lemma FirstIsMember<T>(s: seq<T>)
    ensures s != [] ==> s[0] in s
  {
  }

  /** A stable sort has only one possible outcome, so it does not matter which algorithm ran. */
  lemma {:induction false} StableSortIsUnique(s: seq<Run>, t: seq<Run>)
    requires Ordered(s) && Ordered(t) && forall r :: TiedWith(s, r) == TiedWith(t, r)
    ensures s == t
  {
    if s == [] {
      HeadIsTied(t);
    } else {
      FirstIsTied(s, t);
      forall r
        ensures TiedWith(s[1..], r) == TiedWith(t[1..], r)
      {
        var h := if Tied(s[0], r) then [s[0]] else [];
        assert TiedWith(s, r) == h + TiedWith(s[1..], r);
        assert TiedWith(t, r) == h + TiedWith(t[1..], r);
        assert TiedWith(s, r)[|h|..] == TiedWith(s[1..], r);
      }
      StableSortIsUnique(s[1..], t[1..]);
      assert s == [s[0]] + s[1..] && t == [t[0]] + t[1..];
    }
  }

  ghost predicate DistinctIds(s: seq<Run>) {
    forall i, j :: 0 <= i < j < |s| ==> s[i].id != s[j].id
  }

  lemma {:induction false} TiedWithOne(s: seq<Run>, r: Run)
    requires DistinctIds(s)
    ensures TiedWith(s, r) == [] || exists x :: x in s && Tied(x, r) && TiedWith(s, r) == [x]
  {
    if s != [] {
      TiedWithOne(s[1..], r);
      TiedWithMembers(s[1..], r);
      if Tied(s[0], r) {
        assert forall i :: 0 <= i < |s[1..]| ==> s[1..][i].id != s[0].id;
        FirstIsMember(TiedWith(s[1..], r));
      }
    }
  }

  /** With distinct run IDs, sorting forgets the order the server listed the runs in. */
  lemma SortedForgetsOrder(s: seq<Run>, t: seq<Run>)
    requires multiset(s) == multiset(t) && DistinctIds(s) && DistinctIds(t)
    ensures Sorted(s) == Sorted(t)
  {
    SortedIsStableSort(s);
    SortedIsStableSort(t);
    forall r
      ensures TiedWith(s, r) == TiedWith(t, r)
    {
      TiedWithMembers(s, r);
      TiedWithMembers(t, r);
      TiedWithOne(s, r);
      TiedWithOne(t, r);
      assert forall x :: x in s <==> x in t by {
        assert forall x :: x in s <==> x in multiset(s);
        assert forall x :: x in t <==> x in multiset(t);
      }
      if TiedWith(s, r) != [] {
        assert TiedWith(s, r)[0] in TiedWith(t, r);
      }
      if TiedWith(t, r) != [] {
        assert TiedWith(t, r)[0] in TiedWith(s, r);
      }
    }
    StableSortIsUnique(Sorted(s), Sorted(t));
  }

  lemma {:induction false} SortedMembers(s: seq<Run>)
    ensures forall r :: r in Sorted(s) <==> r in s
  {
    if s != [] {
      SortedMembers(s[..|s| - 1]);
      InsertMembers(Sorted(s[..|s| - 1]), s[|s| - 1]);
      assert s == s[..|s| - 1] + [s[|s| - 1]];
    }
  }

  /** Swap the run at `i` backwards until the one before it is not older. */
  method InsertInPlace(a: array<Run>, i: nat)
    requires i < a.Length
    modifies a
    ensures a[..i + 1] == Insert(old(a[..i]), old(a[i]))
    ensures a[i + 1..] == old(a[i + 1..])
  {
    ghost var x, before := a[i], a[..i];
    var j := i;
    while j > 0 && Newer(a[j], a[j - 1])
      invariant 0 <= j <= i && a[j] == x
      invariant a[i + 1..] == old(a[i + 1..])
      invariant Insert(before, x) == Insert(a[..j], x) + a[j + 1..i + 1]
    {
      assert a[..j][..j - 1] == a[..j - 1];
      a[j], a[j - 1] := a[j - 1], a[j];
      j := j - 1;
      assert a[j + 1..i + 1] == [a[j + 1]] + a[j + 2..i + 1];
    }
    assert Insert(a[..j], x) == a[..j] + [x];
    hide Insert, Newer;
    assert a[..i + 1] == a[..j] + [x] + a[j + 1..i + 1];
  }

  /** Sort the runs in place, by insertion. */
  method SortRuns(a: array<Run>)
    modifies a
    ensures a[..] == Sorted(old(a[..]))
  {
    ghost var was := a[..];
    for i := 0 to a.Length
      invariant a[..i] == Sorted(was[..i]) && a[i..] == was[i..]
    {
      InsertInPlace(a, i);
      assert was[..i + 1][..i] == was[..i];
      hide Insert;
    }
    assert a[..] == a[..a.Length] && was == was[..a.Length];
  }

  // ----- the search

  function ForBranch(runs: seq<Run>, branch: string): seq<Run> {
    if runs == [] then []
    else ForBranch(runs[..|runs| - 1], branch) +
         (if runs[|runs| - 1].headBranch == branch then [runs[|runs| - 1]] else [])
  }

  method RunsForBranch(runs: seq<Run>, branch: string) returns (out: seq<Run>)
    ensures out == ForBranch(runs, branch)
  {
    out := [];
    for i := 0 to |runs|
      invariant out == ForBranch(runs[..i], branch)
    {
      assert runs[..i + 1][..i] == runs[..i];
      if runs[i].headBranch == branch {
        out := out + [runs[i]];
      }
    }
    assert runs[..|runs|] == runs;
  }

  lemma {:induction false} ForBranchMembers(runs: seq<Run>, branch: string)
    ensures forall r :: r in ForBranch(runs, branch) <==> r in runs && r.headBranch == branch
  {
    if runs != [] {
      ForBranchMembers(runs[..|runs| - 1], branch);
      assert runs == runs[..|runs| - 1] + [runs[|runs| - 1]];
    }
  }

  lemma {:induction false} ForBranchOrdered(runs: seq<Run>, branch: string)
    requires Ordered(runs)
    ensures Ordered(ForBranch(runs, branch))
  {
    if runs != [] {
      var u, last := runs[..|runs| - 1], runs[|runs| - 1];
      ForBranchOrdered(u, branch);
      ForBranchMembers(u, branch);
      var f := ForBranch(u, branch);
      forall i | 0 <= i < |f|
        ensures !Newer(last, f[i])
      {
        assert f[i] in u;
      }
    }
  }

  /** The first non-expired artifact of the configured name. */
  function FirstMatching(artifacts: seq<Artifact>, name: string): Option<Artifact> {
    if artifacts == [] then None
    else if artifacts[0].name == name && !artifacts[0].expired then Some(artifacts[0])
    else FirstMatching(artifacts[1..], name)
  }

  /** What a run offers: nothing if its artifacts cannot be listed. */
  function Offer(artifacts: Artifacts, name: string, run: Run): Option<Artifact> {
    match artifacts(run.id)
    case None => None
    case Some(list) => FirstMatching(list, name)
  }

  function Find(artifacts: Artifacts, name: string, runs: seq<Run>): Option<(Run, Artifact)> {
    if runs == [] then None
    else
      match Offer(artifacts, name, runs[0])
      case Some(a) => Some((runs[0], a))
      case None => Find(artifacts, name, runs[1..])
  }

  /** Scan the runs, and the artifacts of each, for the first usable artifact. */
  method FindArtifact(artifacts: Artifacts, name: string, runs: seq<Run>) returns (found: Option<(Run, Artifact)>)
    ensures found == Find(artifacts, name, runs)
  {
    for i := 0 to |runs|
      invariant Find(artifacts, name, runs) == Find(artifacts, name, runs[i..])
    {
      var answer := artifacts(runs[i].id);
      if answer.None? {
        continue;
      }
      for j := 0 to |answer.value|
        invariant FirstMatching(answer.value, name) == FirstMatching(answer.value[j..], name)
      {
        var a := answer.value[j];
        if a.name == name && !a.expired {
          return Some((runs[i], a));
        }
      }
    }
    found := None;
  }

  /** The runs listed by one request, newest first. */
  function ListRuns(answer: Option<seq<Run>>): Option<seq<Run>> {
    match answer
    case None => None
    case Some(runs) => Some(Sorted(runs))
  }

  /** Where the head commit's own builds are looked for. */
  function HeadRuns(server: Server, branch: string, headSHA: string): seq<Run> {
    if headSHA == "" then []
    else
      match ListRuns(server.runsByHead(headSHA))
      case None => []
      case Some(runs) => ForBranch(runs, branch)
  }

  function ResolveArtifactAt(server: Server, name: string, branch: string, headSHA: string): Option<(Run, Artifact)> {
    var atHead := Find(server.artifactsAtHead, name, HeadRuns(server, branch, headSHA));
    if atHead.Some? then atHead
    else
      match ListRuns(server.runsByBranch(branch))
      case None => None
      case Some(runs) => Find(server.artifactsOnBranch, name, runs)
  }

  function ResolveBranch(server: Server, name: string, branch: string): Option<Resolution> {
    var head := server.branchHead(branch);
    var headSHA := if head.Some? then head.value else "";  // an unknown head is not fatal
    match ResolveArtifactAt(server, name, branch, headSHA)
    case None => None
    case Some((run, artifact)) => Some(Resolution(run, artifact, headSHA))
  }

  function ResolvePR(server: Server, name: string, number: int): Option<(PullRequest, Resolution)> {
    match server.pullRequest(number)
    case None => None
    case Some(pr) =>
      match ResolveArtifactAt(server, name, pr.headRef, pr.headSHA)
      case None => None
      case Some((run, artifact)) => Some((pr, Resolution(run, artifact, pr.headSHA)))
  }

  predicate ExactHead(r: Resolution) {
    r.targetSHA != "" && r.run.headSHA == r.targetSHA
  }

  // ----- what the search finds

  /** `(run, artifact)` is the newest usable build in `pool`: nothing in it with a usable artifact
      is newer. */
  ghost predicate NewestUsable(artifacts: Artifacts, name: string, pool: seq<Run>, run: Run, artifact: Artifact) {
    && run in pool
    && Offer(artifacts, name, run) == Some(artifact)
    && forall r :: r in pool && Newer(r, run) ==> Offer(artifacts, name, r).None?
  }

  ghost predicate NoneUsable(artifacts: Artifacts, name: string, pool: seq<Run>) {
    forall r :: r in pool ==> Offer(artifacts, name, r).None?
  }

  lemma {:induction false} FindsNewest(artifacts: Artifacts, name: string, runs: seq<Run>)
    requires Ordered(runs)
    ensures match Find(artifacts, name, runs)
            case None => NoneUsable(artifacts, name, runs)
            case Some((run, a)) => NewestUsable(artifacts, name, runs, run, a)
  {
    if runs != [] {
      assert runs == [runs[0]] + runs[1..];
      FindsNewest(artifacts, name, runs[1..]);
      forall r | r in runs
        ensures !Newer(r, runs[0])
      {
        NewerIsTotal(runs[0], runs[0]);
      }
    }
  }

  /** The match is the first artifact listed that has the name and has not expired. */
  lemma {:induction false} MatchIsUsable(artifacts: seq<Artifact>, name: string)
    ensures match FirstMatching(artifacts, name)
            case None => forall a :: a in artifacts ==> a.name != name || a.expired
            case Some(a) => exists i :: 0 <= i < |artifacts| && artifacts[i] == a && a.name == name && !a.expired
                                        && forall j :: 0 <= j < i ==> artifacts[j].name != name || artifacts[j].expired
  {
    if artifacts != [] {
      var rest := artifacts[1..];
      MatchIsUsable(rest, name);
      assert artifacts == [artifacts[0]] + rest;
      if artifacts[0].name == name && !artifacts[0].expired {
        assert artifacts[0] == FirstMatching(artifacts, name).value;
      } else if FirstMatching(rest, name).Some? {
        var a := FirstMatching(rest, name).value;
        var i :| 0 <= i < |rest| && rest[i] == a
                 && forall j :: 0 <= j < i ==> rest[j].name != name || rest[j].expired;
        assert artifacts[i + 1] == a;
        assert forall j :: 0 < j < i + 1 ==> artifacts[j] == rest[j - 1];
      }
    }
  }

  /** This is the first artifact of the run that has the name and has not expired. */
  ghost predicate FirstUsable(artifacts: Artifacts, name: string, run: Run, a: Artifact) {
    && artifacts(run.id).Some?
    && var list := artifacts(run.id).value;
       exists i :: 0 <= i < |list| && list[i] == a && a.name == name && !a.expired
                   && forall j :: 0 <= j < i ==> list[j].name != name || list[j].expired
  }

  /** A run offers its first usable artifact; it offers none only if it has none, or if its artifacts
      cannot be listed. */
  lemma OfferIsFirstUsable(artifacts: Artifacts, name: string, run: Run)
    ensures match Offer(artifacts, name, run)
            case Some(a) => FirstUsable(artifacts, name, run, a)
            case None =>
              artifacts(run.id).Some? ==> forall a :: a in artifacts(run.id).value ==> a.name != name || a.expired
  {
    if artifacts(run.id).Some? {
      MatchIsUsable(artifacts(run.id).value, name);
    }
    hide FirstMatching;
  }

  /** The runs of the head commit that were built for this branch, as the server listed them. */
  ghost function HeadPool(server: Server, branch: string, headSHA: string): set<Run> {
    if headSHA == "" || server.runsByHead(headSHA).None? then {}
    else set r | r in server.runsByHead(headSHA).value && r.headBranch == branch
  }

  lemma HeadRunsArePool(server: Server, branch: string, headSHA: string)
    ensures Ordered(HeadRuns(server, branch, headSHA))
    ensures forall r :: r in HeadRuns(server, branch, headSHA) <==> r in HeadPool(server, branch, headSHA)
  {
    if headSHA != "" && server.runsByHead(headSHA).Some? {
      var runs := server.runsByHead(headSHA).value;
      SortedIsStableSort(runs);
      SortedMembers(runs);
      ForBranchOrdered(Sorted(runs), branch);
      ForBranchMembers(Sorted(runs), branch);
    }
  }

  /** The build chosen is the newest usable one among the head commit's runs on this branch; only
      if none of those is usable, the newest usable one of the branch listing. */
  lemma ChoosesNewest(server: Server, name: string, branch: string, headSHA: string)
    ensures var pool := HeadPool(server, branch, headSHA);
            var listing := server.runsByBranch(branch);
            match ResolveArtifactAt(server, name, branch, headSHA)
            case Some((run, a)) =>
              if exists r :: r in pool && Offer(server.artifactsAtHead, name, r).Some? then
                && run in pool && Offer(server.artifactsAtHead, name, run) == Some(a)
                && forall r :: r in pool && Newer(r, run) ==> Offer(server.artifactsAtHead, name, r).None?
              else
                listing.Some? && NewestUsable(server.artifactsOnBranch, name, listing.value, run, a)
            case None =>
              && (forall r :: r in pool ==> Offer(server.artifactsAtHead, name, r).None?)
              && (listing.Some? ==> NoneUsable(server.artifactsOnBranch, name, listing.value))
  {
    HeadRunsArePool(server, branch, headSHA);
    FindsNewest(server.artifactsAtHead, name, HeadRuns(server, branch, headSHA));
    if server.runsByBranch(branch).Some? {
      var runs := server.runsByBranch(branch).value;
      SortedIsStableSort(runs);
      SortedMembers(runs);
      FindsNewest(server.artifactsOnBranch, name, Sorted(runs));
    }
    hide Sorted, ForBranch, Find, Newer, HeadRuns, Offer;
  }

  /** The same answers, except that run lists may come in another order. */
  ghost predicate SameListing(a: Option<seq<Run>>, b: Option<seq<Run>>) {
    match (a, b)
    case (None, None) => true
    case (Some(s), Some(t)) => multiset(s) == multiset(t) && DistinctIds(s) && DistinctIds(t)
    case _ => false
  }

  /** The order in which the server lists the runs makes no difference. */
  lemma ServerOrderIsIgnored(one: Server, two: Server, name: string, branch: string, headSHA: string)
    requires SameListing(one.runsByHead(headSHA), two.runsByHead(headSHA))
    requires SameListing(one.runsByBranch(branch), two.runsByBranch(branch))
    requires one.artifactsAtHead == two.artifactsAtHead && one.artifactsOnBranch == two.artifactsOnBranch
    ensures ResolveArtifactAt(one, name, branch, headSHA) == ResolveArtifactAt(two, name, branch, headSHA)
  {
    if one.runsByHead(headSHA).Some? {
      SortedForgetsOrder(one.runsByHead(headSHA).value, two.runsByHead(headSHA).value);
    }
    if one.runsByBranch(branch).Some? {
      SortedForgetsOrder(one.runsByBranch(branch).value, two.runsByBranch(branch).value);
    }
    hide Sorted, ForBranch, Find;
  }

  /** Runs stamped with RFC 3339 times are ordered by those instants, ties by run ID. */
  lemma NewerIsLater(a: Run, b: Run, s: Timestamps.Timestamp, t: Timestamps.Timestamp)
    requires Timestamps.Valid(s) && Timestamps.Valid(t)
    requires a.createdAt == Timestamps.Format(s) && b.createdAt == Timestamps.Format(t)
    ensures Newer(a, b) <==> Timestamps.Instant(s) > Timestamps.Instant(t)
                             || (Timestamps.Instant(s) == Timestamps.Instant(t) && a.id > b.id)
  {
    Timestamps.StringOrderIsTimeOrder(t, s);
  }

  // ----- keys

  /** What resolving a cache key comes to. */
  datatype Answer =
    | Failed                // no build found, or the key is malformed
    | NotOpen               // the pull request is closed
    | Found(artifactID: int, digest: string, headSHA: string, exactHead: bool)

  const BRANCH_PREFIX := "branch:"
  const PR_PREFIX := "pr:"

  function TrimPrefix(s: string, p: string): string {
    if p <= s then s[|p|..] else s
  }

  function AnswerOf(r: Resolution): Answer {
    Found(r.artifact.id, r.artifact.digest, r.run.headSHA, ExactHead(r))
  }

  function ResolveKey(server: Server, name: string, key: string): Answer {
    if BRANCH_PREFIX <= key then
      match ResolveBranch(server, name, key[|BRANCH_PREFIX|..])
      case None => Failed
      case Some(r) => AnswerOf(r)
    else
      var number := StrconvAtoi(TrimPrefix(key, PR_PREFIX));
      if number.Failure? then Failed
      else
        match ResolvePR(server, name, number.value)
        case None => Failed
        case Some((pr, r)) => if pr.state != "open" then NotOpen else AnswerOf(r)
  }

  /** The key stands for this pull request: the prefix, and the number in any spelling. */
  ghost predicate IsPRKey(key: string, number: int) {
    0 <= number <= MAX_INT64
    && exists sign, d :: IsNumber(sign, d) && SignedValue(sign, d) == number && key == PR_PREFIX + (sign + d)
  }

  lemma PRKeyParses(key: string, number: int)
    ensures IsPRKey(key, number)
            <==> PR_PREFIX <= key && StrconvAtoi(key[|PR_PREFIX|..]) == Success(number)
  {
    if IsPRKey(key, number) {
      var sign, d :| IsNumber(sign, d) && SignedValue(sign, d) == number && key == PR_PREFIX + (sign + d);
      AtoiOfNumber(sign, d);
      assert key[|PR_PREFIX|..] == sign + d;
    }
    if PR_PREFIX <= key && StrconvAtoi(key[|PR_PREFIX|..]) == Success(number) {
      var text := key[|PR_PREFIX|..];
      var sign, d := NumberParts(text);
      AtoiOfNumber(sign, d);
      assert key == PR_PREFIX + text;
    }
  }

  /** Resolving a branch: GitHub's answers can only make it fail or find the build chosen. */
  lemma BranchResolves(server: Server, name: string, branch: string)
    ensures var headSHA := if server.branchHead(branch).Some? then server.branchHead(branch).value else "";
            ResolveKey(server, name, BRANCH_PREFIX + branch)
            == match ResolveArtifactAt(server, name, branch, headSHA)
               case None => Failed
               case Some((run, a)) => Found(a.id, a.digest, run.headSHA, headSHA != "" && run.headSHA == headSHA)
  {
    var key := BRANCH_PREFIX + branch;
    assert BRANCH_PREFIX <= key && key[|BRANCH_PREFIX|..] == branch;
    hide ResolveArtifactAt;
  }

  /** Resolving a pull request: it fails if its number is unknown or it has no build, whatever its
      state; only then does its state decide between closed and found. */
  lemma PullRequestResolves(server: Server, name: string, key: string, number: int)
    requires IsPRKey(key, number)
    ensures ResolveKey(server, name, key)
            == match server.pullRequest(number)
               case None => Failed
               case Some(pr) =>
                 match ResolveArtifactAt(server, name, pr.headRef, pr.headSHA)
                 case None => Failed
                 case Some((run, a)) =>
                   if pr.state == "open"
                   then Found(a.id, a.digest, run.headSHA, pr.headSHA != "" && run.headSHA == pr.headSHA)
                   else NotOpen
  {
    PRKeyParses(key, number);
    assert key[0] == 'p' && !(BRANCH_PREFIX <= key);
    hide ResolveArtifactAt, StrconvAtoi, IsPRKey;
  }

  /** GitHub reports the pull request of this key as not open, and has a build of it. */
  ghost predicate FoundClosed(server: Server, name: string, key: string) {
    exists number ::
      && IsPRKey(key, number)
      && server.pullRequest(number).Some?
      && var pr := server.pullRequest(number).value;
         pr.state != "open" && ResolveArtifactAt(server, name, pr.headRef, pr.headSHA).Some?
  }

  /** A key is answered as closed only for that reason: not when GitHub fails, not when there is no
      build, and never for a branch. */
  lemma NotOpenIffFoundClosed(server: Server, name: string, key: string)
    requires PR_PREFIX <= key || BRANCH_PREFIX <= key
    ensures ResolveKey(server, name, key).NotOpen? <==> FoundClosed(server, name, key)
  {
    if PR_PREFIX <= key && StrconvAtoi(key[|PR_PREFIX|..]).Success? {
      var number := StrconvAtoi(key[|PR_PREFIX|..]).value;
      PRKeyParses(key, number);
      PullRequestResolves(server, name, key, number);
    }
    if BRANCH_PREFIX <= key {
      BranchResolves(server, name, key[|BRANCH_PREFIX|..]);
      assert key == BRANCH_PREFIX + key[|BRANCH_PREFIX|..];
    }
    if PR_PREFIX <= key {
      assert key[0] == 'p' && !(BRANCH_PREFIX <= key);
    }
    forall number
      ensures IsPRKey(key, number) <==> PR_PREFIX <= key && StrconvAtoi(key[|PR_PREFIX|..]) == Success(number)
    {
      PRKeyParses(key, number);
    }
    hide ResolveArtifactAt, StrconvAtoi, IsPRKey;
  }

  /** The branch and the head commit that a key's build is searched for; none if the key names no
      pull request, or one that is not open. */
  function Sought(server: Server, key: string): Option<(string, string)> {
    if BRANCH_PREFIX <= key then
      var branch := key[|BRANCH_PREFIX|..];
      var head := server.branchHead(branch);
      Some((branch, if head.Some? then head.value else ""))
    else
      var number := StrconvAtoi(TrimPrefix(key, PR_PREFIX));
      if number.Failure? then None
      else
        match server.pullRequest(number.value)
        case None => None
        case Some(pr) => if pr.state == "open" then Some((pr.headRef, pr.headSHA)) else None
  }

  /** The build that the search chooses for a key. */
  function Chosen(server: Server, name: string, key: string): Option<(Run, Artifact)> {
    match Sought(server, key)
    case None => None
    case Some((branch, headSHA)) => ResolveArtifactAt(server, name, branch, headSHA)
  }

  /** Does the chosen build's run claim the head commit?  This compares two strings, whichever
      search found the run. */
  predicate ClaimsHead(server: Server, name: string, key: string) {
    && Chosen(server, name, key).Some?
    && Sought(server, key).value.1 != ""
    && Chosen(server, name, key).value.0.headSHA == Sought(server, key).value.1
  }

  /** List runs, newest first. */
  method ListSorted(answer: Option<seq<Run>>) returns (r: Option<seq<Run>>)
    ensures r == ListRuns(answer)
  {
    if answer.None? {
      return None;
    }
    var runs := answer.value;
    var a := new Run[|runs|](i requires 0 <= i < |runs| => runs[i]);
    assert a[..] == runs;
    SortRuns(a);
    r := Some(a[..]);
  }

  /** Search the head commit's runs first, then the branch listing. */
  method ResolveArtifact(server: Server, name: string, branch: string, headSHA: string)
    returns (found: Option<(Run, Artifact)>)
    ensures found == ResolveArtifactAt(server, name, branch, headSHA)
  {
    hide Sorted, ForBranch, Find;
    if headSHA != "" {
      var atHead := ListSorted(server.runsByHead(headSHA));
      if atHead.Some? {
        var ofBranch := RunsForBranch(atHead.value, branch);
        found := FindArtifact(server.artifactsAtHead, name, ofBranch);
        if found.Some? {
          return;
        }
      }
    }
    NothingAtHead(server, name, branch, headSHA);
    var listed := ListSorted(server.runsByBranch(branch));
    if listed.None? {
      return None;
    }
    found := FindArtifact(server.artifactsOnBranch, name, listed.value);
  }

  lemma NothingAtHead(server: Server, name: string, branch: string, headSHA: string)
    ensures headSHA == "" || server.runsByHead(headSHA).None? ==>
              Find(server.artifactsAtHead, name, HeadRuns(server, branch, headSHA)) == None
  {
  }

  /** Ask GitHub what a key stands for. */
  method Resolve(server: Server, name: string, key: string) returns (answer: Answer)
    ensures answer == ResolveKey(server, name, key)
  {
    hide ResolveArtifactAt, StrconvAtoi;
    if BRANCH_PREFIX <= key {
      var branch := TrimPrefix(key, BRANCH_PREFIX);
      var head := server.branchHead(branch);
      var headSHA := if head.Some? then head.value else "";
      var found := ResolveArtifact(server, name, branch, headSHA);
      match found
      case None => return Failed;
      case Some((run, artifact)) => return AnswerOf(Resolution(run, artifact, headSHA));
    }
    var number := StrconvAtoi(TrimPrefix(key, PR_PREFIX));
    if number.Failure? {
      return Failed;
    }
    var pr := server.pullRequest(number.value);
    if pr.None? {
      return Failed;
    }
    var found := ResolveArtifact(server, name, pr.value.headRef, pr.value.headSHA);
    match found
    case None => return Failed;
    case Some((run, artifact)) =>
      if pr.value.state != "open" {
        return NotOpen;
      }
      return AnswerOf(Resolution(run, artifact, pr.value.headSHA));
  }

  /** Resolving a key, for pull requests and branches alike, finds what the search chooses. */
  lemma AnswerIsChosen(server: Server, name: string, key: string)
    ensures match Chosen(server, name, key)
            case None => !ResolveKey(server, name, key).Found?
            case Some((run, a)) =>
              ResolveKey(server, name, key) == Found(a.id, a.digest, run.headSHA, ClaimsHead(server, name, key))
  {
    hide ResolveArtifactAt, StrconvAtoi;
  }

  /** The head commit's own runs had nothing usable, and the branch listing did. */
  ghost predicate FoundByListing(server: Server, name: string, key: string) {
    && Chosen(server, name, key).Some?
    && forall r :: r in HeadPool(server, Sought(server, key).value.0, Sought(server, key).value.1) ==>
              Offer(server.artifactsAtHead, name, r).None?
  }
}
