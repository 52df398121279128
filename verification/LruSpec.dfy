/** Least-recently-used lists bounded by a total size, on plain sequences.

    A list holds the cached names, most recently used first.  The module defines what each
    operation of a size-bounded LRU does to that list, and proves for whole traces which names
    are cached: the longest prefix of the recency stack that fits the budget. */
module LruSpec {

  /** What the cache can see of the store behind it: which names are files, and their sizes. */
  datatype Catalog<!K> = Catalog(isFile: K -> bool, size: K -> nat)

  predicate Cacheable<K(!new)>(c: Catalog<K>, max: int, k: K) {
    c.isFile(k) && c.size(k) <= max
  }

  function Total<K(!new)>(c: Catalog<K>, s: seq<K>): nat {
    if s == [] then 0 else c.size(s[0]) + Total(c, s[1..])
  }

  ghost predicate NoDup<K(!new)>(s: seq<K>) {
    forall i, j :: 0 <= i < j < |s| ==> s[i] != s[j]
  }

  /** The list without the first occurrence of `k`. */
  function Remove<K(==, !new)>(s: seq<K>, k: K): seq<K> {
    if s == [] then [] else if s[0] == k then s[1..] else [s[0]] + Remove(s[1..], k)
  }

  /** Drop names from the cold end until the rest fits in `room`. */
  function Fit<K(!new)>(c: Catalog<K>, s: seq<K>, room: int): seq<K> {
    if s == [] || Total(c, s) <= room then s else Fit(c, s[..|s| - 1], room)
  }

  /** The list after one `Open(k)`. */
  function Open<K(==, !new)>(c: Catalog<K>, max: int, s: seq<K>, k: K): seq<K> {
    if k in s then [k] + Remove(s, k)
    else if Cacheable(c, max, k) then [k] + Fit(c, s, max - c.size(k))
    else s
  }

  /** The list after a whole trace, oldest open first, from the empty cache. */
  function Run<K(==, !new)>(c: Catalog<K>, max: int, trace: seq<K>): seq<K> {
    if trace == [] then []
    else Open(c, max, Run(c, max, trace[..|trace| - 1]), trace[|trace| - 1])
  }

  /** The recency stack: the distinct cacheable names of the trace, most recent first, no budget. */
  function Stack<K(==, !new)>(c: Catalog<K>, max: int, trace: seq<K>): seq<K> {
    if trace == [] then []
    else
      var s := Stack(c, max, trace[..|trace| - 1]);
      var k := trace[|trace| - 1];
      if Cacheable(c, max, k) then [k] + Remove(s, k) else s
  }

  /** `p` is the longest prefix of `s` whose sizes add up to at most `room`. */
  ghost predicate LongestFitting<K(!new)>(c: Catalog<K>, s: seq<K>, room: int, p: seq<K>) {
    && p <= s
    && Total(c, p) <= room
    && forall q :: q <= s && Total(c, q) <= room ==> |q| <= |p|
  }

  // ----- totals and prefixes

  lemma {:induction false} TotalAppend<K(!new)>(c: Catalog<K>, a: seq<K>, b: seq<K>)
    ensures Total(c, a + b) == Total(c, a) + Total(c, b)
  {
    if a == [] {
      assert a + b == b;
    } else {
      assert (a + b)[1..] == a[1..] + b;
      TotalAppend(c, a[1..], b);
    }
  }

  lemma TotalPrefix<K(!new)>(c: Catalog<K>, p: seq<K>, s: seq<K>)
    requires p <= s
    ensures Total(c, p) <= Total(c, s)
  {
    assert s == p + s[|p|..];
    TotalAppend(c, p, s[|p|..]);
  }

  /** Local form of "longest": the prefix fits and the next name does not. */
  ghost predicate Tight<K(!new)>(c: Catalog<K>, s: seq<K>, room: int, p: seq<K>) {
    && p <= s
    && Total(c, p) <= room
    && (|p| < |s| ==> Total(c, p) + c.size(s[|p|]) > room)
  }

  lemma TightIsLongest<K(!new)>(c: Catalog<K>, s: seq<K>, room: int, p: seq<K>)
    requires Tight(c, s, room, p)
    ensures LongestFitting(c, s, room, p)
  {
    forall q | q <= s && |q| > |p|
      ensures Total(c, q) > room
    {
      var next := s[..|p| + 1];
      assert next == p + [s[|p|]];
      TotalAppend(c, p, [s[|p|]]);
      assert Total(c, [s[|p|]]) == c.size(s[|p|]);
      TotalPrefix(c, next, q);
    }
  }

  lemma {:induction false} FitIsTight<K(!new)>(c: Catalog<K>, s: seq<K>, room: int)
    requires room >= 0
    ensures Tight(c, s, room, Fit(c, s, room))
  {
    if s != [] && Total(c, s) > room {
      var t := s[..|s| - 1];
      FitIsTight(c, t, room);
      if Fit(c, t, room) == t {
        assert s == t + [s[|s| - 1]];
        TotalAppend(c, t, [s[|s| - 1]]);
        assert Total(c, [s[|s| - 1]]) == c.size(s[|s| - 1]);
      }
    }
  }

  /** There is only one longest fitting prefix, so being it pins a list down. */
  lemma LongestIsUnique<K(!new)>(c: Catalog<K>, s: seq<K>, room: int, p: seq<K>, q: seq<K>)
    requires LongestFitting(c, s, room, p) && LongestFitting(c, s, room, q)
    ensures p == q
  {
  }

  lemma TakePrefix<K(!new)>(p: seq<K>, s: seq<K>)
    requires p <= s
    ensures |p| <= |s| && s[..|p|] == p
  {
  }

  // ----- removal

  lemma {:induction false} RemoveBasics<K(!new)>(s: seq<K>, k: K)
    requires NoDup(s)
    ensures NoDup(Remove(s, k)) && k !in Remove(s, k)
    ensures forall x :: x in Remove(s, k) <==> x in s && x != k
    ensures |Remove(s, k)| == if k in s then |s| - 1 else |s|
  {
    if s != [] {
      var h, t := s[0], s[1..];
      assert s == [h] + t;
      NoDupTail(h, t);
      RemoveCons(h, t, k);
      hide NoDup, Remove;
      RemoveBasics(t, k);
      if h != k { NoDupCons(h, Remove(t, k)); }
    }
  }

  lemma NoDupTail<K(!new)>(h: K, t: seq<K>)
    requires NoDup([h] + t)
    ensures NoDup(t) && h !in t
  {
    var s := [h] + t;
    assert s[0] == h && forall i :: 0 <= i < |t| ==> t[i] == s[i + 1];
  }

  lemma ConsAppend<K(!new)>(h: K, t: seq<K>, b: seq<K>)
    ensures [h] + t + b == [h] + (t + b)
  {
  }

  lemma RemoveCons<K(!new)>(h: K, t: seq<K>, k: K)
    ensures Remove([h] + t, k) == if h == k then t else [h] + Remove(t, k)
  {
    assert ([h] + t)[1..] == t;
  }

  lemma {:induction false} RemoveAppend<K(!new)>(a: seq<K>, b: seq<K>, k: K)
    ensures Remove(a + b, k) == if k in a then Remove(a, k) + b else a + Remove(b, k)
  {
    if a == [] {
      assert a + b == b;
    } else {
      var h, t := a[0], a[1..];
      RemoveAppend(t, b, k);
      RemoveCons(h, t, k);
      RemoveCons(h, t + b, k);
      hide Remove;
      ConsAppend(h, t, b);
      assert [h] + t == a;
      if h != k {
        if k in t {
          ConsAppend(h, Remove(t, k), b);
        } else {
          ConsAppend(h, t, Remove(b, k));
        }
      }
    }
  }

  lemma {:induction false} RemoveAbsent<K(!new)>(s: seq<K>, k: K)
    requires k !in s
    ensures Remove(s, k) == s
  {
    if s != [] { RemoveAbsent(s[1..], k); }
  }

  lemma NoDupCons<K(!new)>(h: K, t: seq<K>)
    requires NoDup(t) && h !in t
    ensures NoDup([h] + t)
  {
    assert forall i :: 0 < i < |[h] + t| ==> ([h] + t)[i] == t[i - 1];
  }

  /** Without repetition, the head of the second part is not in the first. */
  lemma NoDupParts<K(!new)>(a: seq<K>, b: seq<K>)
    requires NoDup(a + b) && b != []
    ensures b[0] !in a
  {
    var s := a + b;
    assert s[|a|] == b[0];
    assert forall i :: 0 <= i < |a| ==> a[i] == s[i];
  }

  lemma {:induction false} RemoveTotal<K(!new)>(c: Catalog<K>, s: seq<K>, k: K)
    requires k in s
    ensures Total(c, s) == c.size(k) + Total(c, Remove(s, k))
  {
    if s[0] != k { RemoveTotal(c, s[1..], k); }
  }

  /** What `Remove` does at the position of `k`. */
  lemma RemoveAt<K(!new)>(s: seq<K>, i: nat)
    requires i < |s| && NoDup(s)
    ensures Remove(s, s[i]) == s[..i] + s[i + 1..]
  {
    var a, b, k := s[..i], s[i..], s[i];
    assert s == a + b;
    assert k !in a;
    assert b[0] == k && Remove(b, k) == b[1..];
    hide NoDup, Remove;
    RemoveAppend(a, b, k);
    assert b[1..] == s[i + 1..];
  }

  // ----- the stack

  lemma {:induction false} StackBasics<K(!new)>(c: Catalog<K>, max: int, t: seq<K>)
    ensures NoDup(Stack(c, max, t))
    ensures forall k :: k in Stack(c, max, t) <==> k in t && Cacheable(c, max, k)
  {
    if t != [] {
      var u, k := t[..|t| - 1], t[|t| - 1];
      StackBasics(c, max, u);
      RemoveBasics(Stack(c, max, u), k);
      assert t == u + [k];
    }
  }

  // ----- main theorem: the cache is the longest fitting prefix of the recency stack

  lemma TouchKeepsTight<K(!new)>(c: Catalog<K>, max: int, s: seq<K>, p: seq<K>, k: K)
    requires Tight(c, s, max, p) && k in p
    ensures Tight(c, [k] + Remove(s, k), max, [k] + Remove(p, k))
  {
    var rest := TightCut(c, s, max, p);
    RemoveAppend(p, rest, k);
    RemoveTotal(c, p, k);
    hide Remove, Tight, Total;
    ConsAppend(k, Remove(p, k), rest);
    TotalCons(c, k, Remove(p, k));
    TightParts(c, max, [k] + Remove(p, k), rest);
  }

  lemma TotalCons<K(!new)>(c: Catalog<K>, h: K, t: seq<K>)
    ensures Total(c, [h] + t) == c.size(h) + Total(c, t)
  {
    assert ([h] + t)[1..] == t;
  }

  /** A list cut where the next name would not fit. */
  lemma TightCut<K(!new)>(c: Catalog<K>, s: seq<K>, room: int, p: seq<K>) returns (rest: seq<K>)
    requires Tight(c, s, room, p)
    ensures s == p + rest && Total(c, p) <= room && (rest != [] ==> Total(c, p) + c.size(rest[0]) > room)
  {
    rest := s[|p|..];
    hide Total;
  }

  lemma TightParts<K(!new)>(c: Catalog<K>, room: int, p: seq<K>, rest: seq<K>)
    requires Total(c, p) <= room && (rest != [] ==> Total(c, p) + c.size(rest[0]) > room)
    ensures Tight(c, p + rest, room, p)
  {
  }

  lemma {:induction false} RemoveLength<K(!new)>(s: seq<K>, k: K)
    requires k in s
    ensures |Remove(s, k)| == |s| - 1
  {
    if s[0] != k { RemoveLength(s[1..], k); }
  }

  lemma AddKeepsTight<K(!new)>(c: Catalog<K>, max: int, s: seq<K>, p: seq<K>, k: K)
    requires Tight(c, s, max, p) && k !in p && c.size(k) <= max
    ensures Tight(c, [k] + Remove(s, k), max, [k] + Fit(c, p, max - c.size(k)))
  {
    FitIsTight(c, p, max - c.size(k));
    hide Tight, Fit, Total;
    var d := Fit(c, p, max - c.size(k));
    var rest := TightCut(c, s, max, p);
    var cold := TightCut(c, p, max - c.size(k), d);
    RemoveAppend(p, rest, k);
    var left := Remove(rest, k);
    if cold == [] && left != [] {
      assert d == p && left[0] == rest[0];
    }
    hide Remove;
    TotalCons(c, k, d);
    TightParts(c, max, [k] + d, cold + left);
    Regroup(k, d, cold, left);
  }

  lemma Regroup<K(!new)>(k: K, a: seq<K>, b: seq<K>, r: seq<K>)
    ensures [k] + a + (b + r) == [k] + (a + b + r)
  {
  }

  lemma {:induction false} RunIsTight<K(!new)>(c: Catalog<K>, max: int, t: seq<K>)
    requires max >= 0
    ensures Tight(c, Stack(c, max, t), max, Run(c, max, t))
  {
    if t != [] {
      var u, k := t[..|t| - 1], t[|t| - 1];
      RunIsTight(c, max, u);
      var s, p := Stack(c, max, u), Run(c, max, u);
      StackBasics(c, max, u);
      if k in p {
        assert k in s;
        TouchKeepsTight(c, max, s, p, k);
      } else if Cacheable(c, max, k) {
        AddKeepsTight(c, max, s, p, k);
      }
    }
  }

  /** After any trace the cached names, in list order, are the longest prefix of the recency
      stack that fits the budget; in particular they are distinct and within budget. */
  lemma CacheIsLongestFittingPrefix<K(!new)>(c: Catalog<K>, max: int, t: seq<K>)
    requires max >= 0
    ensures LongestFitting(c, Stack(c, max, t), max, Run(c, max, t))
    ensures NoDup(Run(c, max, t)) && Total(c, Run(c, max, t)) <= max
  {
    RunIsTight(c, max, t);
    TightIsLongest(c, Stack(c, max, t), max, Run(c, max, t));
    StackBasics(c, max, t);
  }

  /** The name opened last is cached if and only if it is a file within the budget. */
  lemma OpenedIsCachedIffFits<K(!new)>(c: Catalog<K>, max: int, t: seq<K>, k: K)
    ensures k in Run(c, max, t + [k]) <==> c.isFile(k) && c.size(k) <= max
  {
    assert (t + [k])[..|t|] == t;
    var s := Run(c, max, t);
    if max >= 0 {
      RunIsTight(c, max, t);
      StackBasics(c, max, t);
      assert k in s ==> k in Stack(c, max, t);
    } else {
      NegativeBudgetCachesNothing(c, max, t);
    }
    hide Stack, Tight, Fit, Remove;
  }

  /** With a negative budget nothing is ever cached. */
  lemma {:induction false} NegativeBudgetCachesNothing<K(!new)>(c: Catalog<K>, max: int, t: seq<K>)
    requires max < 0
    ensures Run(c, max, t) == []
  {
    if t != [] { NegativeBudgetCachesNothing(c, max, t[..|t| - 1]); }
  }

  // ----- inclusion: a larger budget never loses a hit

  lemma {:induction false} SameStack<K(!new)>(c: Catalog<K>, small: int, large: int, t: seq<K>)
    requires small <= large
    requires forall k :: k in t && c.isFile(k) ==> c.size(k) <= small
    ensures Stack(c, small, t) == Stack(c, large, t)
  {
    if t != [] {
      var u := t[..|t| - 1];
      assert t == u + [t[|t| - 1]];
      SameStack(c, small, large, u);
    }
  }

  /** If every opened file fits the smaller budget, the smaller cache is at all times a prefix
      of the larger one. */
  lemma Inclusion<K(!new)>(c: Catalog<K>, small: int, large: int, t: seq<K>)
    requires small <= large
    requires forall k :: k in t && c.isFile(k) ==> c.size(k) <= small
    ensures Run(c, small, t) <= Run(c, large, t)
  {
    if small < 0 {
      NegativeBudgetCachesNothing(c, small, t);
    } else {
      SameStack(c, small, large, t);
      RunIsTight(c, small, t);
      RunIsTight(c, large, t);
      var s, p, q := Stack(c, large, t), Run(c, small, t), Run(c, large, t);
      TightIsLongest(c, s, large, q);
      assert p <= s && Total(c, p) <= large;
      assert |p| <= |q|;
    }
  }

  /** The size hypothesis of `Inclusion` is needed: a file between the two budgets can push out of
      the larger cache a name that the smaller cache keeps. */
  lemma InclusionNeedsSmallFiles(small: nat, large: nat)
    requires 0 < small < large
    ensures var c := Catalog((k: bool) => true, (k: bool) => if k then large else small);
            Run(c, small, [false, true]) == [false] && Run(c, large, [false, true]) == [true]
  {
    var c := Catalog((k: bool) => true, (k: bool) => if k then large else small);
    var t := [false, true];
    assert t[..1] == [false];
    assert [false][..0] == [];
    assert Total(c, [false]) == small;
    assert [false][..|[false]| - 1] == [];
    assert forall m :: m in {small, large} ==> Run(c, m, [false]) == [false];
  }

  // ----- hits by reuse distance

  lemma {:induction false} StackSplit<K(!new)>(c: Catalog<K>, max: int, a: seq<K>, b: seq<K>)
    ensures Stack(c, max, b) <= Stack(c, max, a + b)
  {
    if b != [] {
      var u, k := b[..|b| - 1], b[|b| - 1];
      assert (a + b)[..|a + b| - 1] == a + u;
      StackSplit(c, max, a, u);
      var s, p := Stack(c, max, a + u), Stack(c, max, u);
      assert s == p + s[|p|..];
      RemoveAppend(p, s[|p|..], k);
      if k !in p { RemoveAbsent(p, k); }
    }
  }

  /** Opening `k` and then `b`, which does not mention `k`, leaves `k` deepest in the stack of
      those opens. */
  lemma {:induction false} OldestIsDeepest<K(!new)>(c: Catalog<K>, max: int, k: K, b: seq<K>)
    requires Cacheable(c, max, k) && k !in b
    ensures Stack(c, max, [k] + b) == Stack(c, max, b) + [k]
  {
    if b == [] {
      assert [k] + b == [k];
      assert [k][..0] == [];
    } else {
      var u, x := b[..|b| - 1], b[|b| - 1];
      assert ([k] + b)[..|b|] == [k] + u;
      OldestIsDeepest(c, max, k, u);
      var s := Stack(c, max, u);
      RemoveAppend(s, [k], x);
      assert Remove([k], x) == [k];
      if x !in s { RemoveAbsent(s, x); }
      hide Remove, Cacheable;
      ConsAppend(x, Remove(s, x), [k]);
    }
  }

  /** `k` was last opened just before `b`: it is still cached exactly when the distinct cacheable
      files opened since then, `k` included, fit the budget together.  `Stack(.., [k] + b)` lists
      those files once each (`StackBasics`). */
  lemma CachedIffReuseFits<K(!new)>(c: Catalog<K>, max: int, a: seq<K>, k: K, b: seq<K>)
    requires Cacheable(c, max, k) && k !in b
    ensures k in Run(c, max, a + [k] + b) <==> Total(c, Stack(c, max, [k] + b)) <= max
  {
    var t := a + [k] + b;
    assert t == a + ([k] + b);
    StackSplit(c, max, a, [k] + b);
    OldestIsDeepest(c, max, k, b);
    StackBasics(c, max, t);
    RunIsTight(c, max, t);
    var s, p, d := Stack(c, max, t), Run(c, max, t), Stack(c, max, [k] + b);
    TightIsLongest(c, s, max, p);
    assert d[|d| - 1] == k && s[|d| - 1] == k;
    if k in p {
      assert |p| >= |d|;
      assert d <= p;
      TotalPrefix(c, d, p);
    }
    if Total(c, d) <= max {
      assert |d| <= |p|;
      assert p[|d| - 1] == k;
    }
  }
}
