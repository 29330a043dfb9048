/**
 The branch browser. It merges the references of every selected module
 (union or intersection under `RefComparer`), lays them out as a tree of
 slash-separated folders, and maps each reference kind to the git commands
 its context menu and the "New Branch" dialog issue.
 */
module GitBranches {
  import opened Extensions
  import opened GitModel

  // ---------------------------------------------------------------------------
  // References and RefComparer
  // ---------------------------------------------------------------------------

  /** The closed family of git references a module reports. */
  datatype Reference =
    | LocalBranch(qualifiedName: string, name: string)
    | RemoteBranch(qualifiedName: string, name: string, remoteAlias: string)
    | Tag(qualifiedName: string, name: string)
    | Stash(qualifiedName: string, name: string, id: string)
  {
    /** `is Branch`: local and remote branches share the `Branch` base. */
    predicate IsBranch() {
      LocalBranch? || RemoteBranch?
    }
  }

  /** `RefComparer.Equals`. */
  predicate RefEquals(x: Reference, y: Reference) {
    (x.LocalBranch? && y.LocalBranch? && x.name == y.name)
    || (x.RemoteBranch? && y.RemoteBranch? && x.qualifiedName == y.qualifiedName)
  }

  /**
   The comparer is symmetric and transitive but reflexive only on branches:
   a tag or a stash is not even equal to itself.
   */
  lemma RefEqualsLaws(x: Reference, y: Reference, z: Reference)
    ensures RefEquals(x, x) <==> x.IsBranch()
    ensures RefEquals(x, y) ==> RefEquals(y, x)
    ensures RefEquals(x, y) && RefEquals(y, z) ==> RefEquals(x, z)
    ensures RefEquals(x, y) ==> x.LocalBranch? == y.LocalBranch? && x.IsBranch()
  {
  }

  /**
   How a hash set built on `RefComparer` finds `y` for `x`: the hash codes of
   the qualified names (`RefComparer.GetHashCode`) must agree, then `Equals`.
   `hash` stands for `string.GetHashCode`; nothing is assumed about it.
   */
  predicate SetMatch(hash: string -> int, x: Reference, y: Reference) {
    hash(x.qualifiedName) == hash(y.qualifiedName) && RefEquals(x, y)
  }

  lemma SetMatchLaws(hash: string -> int)
    ensures forall x, y :: SetMatch(hash, x, y) ==> SetMatch(hash, y, x) && SetMatch(hash, x, x) && x.IsBranch()
    ensures forall x, y, z :: SetMatch(hash, x, y) && SetMatch(hash, y, z) ==> SetMatch(hash, x, z)
  {
  }

  predicate MatchesAny(hash: string -> int, x: Reference, ys: seq<Reference>) {
    exists i :: 0 <= i < |ys| && SetMatch(hash, ys[i], x)
  }

  /** No two positions of `s` hold references the hash set would merge. */
  predicate NoTwoMatch(hash: string -> int, s: seq<Reference>) {
    forall i, j :: 0 <= i < j < |s| ==> !SetMatch(hash, s[i], s[j])
  }

  // ---------------------------------------------------------------------------
  // Distinct (union of all modules)
  // ---------------------------------------------------------------------------

  /** `Distinct(refComparer)` continued from the references already `kept`. */
  function DistinctFrom(hash: string -> int, xs: seq<Reference>, kept: seq<Reference>): seq<Reference>
    decreases |xs|
  {
    if xs == [] then kept
    else DistinctFrom(hash, xs[1..], if MatchesAny(hash, xs[0], kept) then kept else kept + [xs[0]])
  }

  /** `xs.Distinct(refComparer)`: the first of each class, in order. */
  function Distinct(hash: string -> int, xs: seq<Reference>): seq<Reference> {
    DistinctFrom(hash, xs, [])
  }

  lemma {:induction false} DistinctFromFacts(hash: string -> int, xs: seq<Reference>, kept: seq<Reference>)
    requires NoTwoMatch(hash, kept)
    ensures var r := DistinctFrom(hash, xs, kept);
      && |kept| <= |r| && r[..|kept|] == kept
      && (forall i :: 0 <= i < |r| ==> r[i] in kept || r[i] in xs)
      && (forall i :: 0 <= i < |xs| ==> xs[i] in r || MatchesAny(hash, xs[i], r))
      && NoTwoMatch(hash, r)
    decreases |xs|
  {
    if xs != [] {
      var next := if MatchesAny(hash, xs[0], kept) then kept else kept + [xs[0]];
      SetMatchLaws(hash);
      DistinctFromFacts(hash, xs[1..], next);
      var r := DistinctFrom(hash, xs, kept);
      assert r[..|next|] == next;
      assert r[..|kept|] == next[..|kept|];
      forall i | 0 <= i < |xs| ensures xs[i] in r || MatchesAny(hash, xs[i], r) {
        if i == 0 {
          if MatchesAny(hash, xs[0], kept) {
            var j :| 0 <= j < |kept| && SetMatch(hash, kept[j], xs[0]);
            assert r[j] == kept[j];
          } else {
            assert r[|kept|] == xs[0];
          }
        } else {
          assert xs[1..][i - 1] == xs[i];
        }
      }
    }
  }

  /**
   The union keeps only references some module has, keeps a representative
   of every branch, keeps every tag and stash (they match nothing), and keeps
   no two references the comparer merges.
   */
  lemma DistinctFacts(hash: string -> int, xs: seq<Reference>)
    ensures var r := Distinct(hash, xs);
      && (forall i :: 0 <= i < |r| ==> r[i] in xs)
      && (forall i :: 0 <= i < |xs| ==> xs[i] in r || MatchesAny(hash, xs[i], r))
      && (forall i :: 0 <= i < |xs| && !xs[i].IsBranch() ==> xs[i] in r)
      && NoTwoMatch(hash, r)
  {
    DistinctFromFacts(hash, xs, []);
  }

  // ---------------------------------------------------------------------------
  // Intersect (references every module has)
  // ---------------------------------------------------------------------------

  /** The pool without every entry matching `x` (the hash set's `Remove`). */
  function Without(hash: string -> int, pool: seq<Reference>, x: Reference): (r: seq<Reference>)
    ensures |r| <= |pool|
  {
    if pool == [] then []
    else (if SetMatch(hash, pool[0], x) then [] else [pool[0]]) + Without(hash, pool[1..], x)
  }

  /** What remains of the pool: exactly the entries that do not match `x`. */
  lemma {:induction false} WithoutMember(hash: string -> int, pool: seq<Reference>, x: Reference, y: Reference)
    ensures y in Without(hash, pool, x) <==> y in pool && !SetMatch(hash, y, x)
  {
    if pool != [] {
      WithoutMember(hash, pool[1..], x, y);
      assert pool == [pool[0]] + pool[1..];
    }
  }

  /**
   `first.Intersect(second, refComparer)`: each element of `first` is
   yielded when the set of `second` still holds a match, which is then
   removed. Removing every match of the pool is the same as removing the one
   entry a hash set keeps for that class.
   */
  function Intersect(hash: string -> int, first: seq<Reference>, pool: seq<Reference>): seq<Reference>
    decreases |first|
  {
    if first == [] then []
    else if MatchesAny(hash, first[0], pool) then [first[0]] + Intersect(hash, first[1..], Without(hash, pool, first[0]))
    else Intersect(hash, first[1..], pool)
  }

  /** What survives an intersection comes from `first` and has a match in `pool`. */
  lemma {:induction false} IntersectSound(hash: string -> int, first: seq<Reference>, pool: seq<Reference>)
    ensures forall i :: 0 <= i < |Intersect(hash, first, pool)| ==>
      Intersect(hash, first, pool)[i] in first && MatchesAny(hash, Intersect(hash, first, pool)[i], pool)
    decreases |first|
  {
    if first != [] {
      var r := Intersect(hash, first, pool);
      assert first == [first[0]] + first[1..];
      if MatchesAny(hash, first[0], pool) {
        var rest := Without(hash, pool, first[0]);
        var tail := Intersect(hash, first[1..], rest);
        IntersectSound(hash, first[1..], rest);
        assert r == [first[0]] + tail;
        forall i | 1 <= i < |r| ensures r[i] in first && MatchesAny(hash, r[i], pool) {
          assert r[i] == tail[i - 1];
          assert MatchesAny(hash, tail[i - 1], rest);
          var j :| 0 <= j < |rest| && SetMatch(hash, rest[j], r[i]);
          WithoutMember(hash, pool, first[0], rest[j]);
          var k :| 0 <= k < |pool| && pool[k] == rest[j];
        }
      } else {
        var tail := Intersect(hash, first[1..], pool);
        IntersectSound(hash, first[1..], pool);
        assert r == tail;
        forall i | 0 <= i < |r| ensures r[i] in first && MatchesAny(hash, r[i], pool) {
          assert tail[i] in first[1..];
        }
      }
    }
  }

  /** A survivor drawn from the pool without the matches of `x` does not match `x`. */
  lemma FirstDoesNotMatchTail(hash: string -> int, x: Reference, pool: seq<Reference>, rest: seq<Reference>, y: Reference)
    requires rest == Without(hash, pool, x)
    requires MatchesAny(hash, y, rest)
    ensures !SetMatch(hash, x, y)
  {
    var j :| 0 <= j < |rest| && SetMatch(hash, rest[j], y);
    WithoutMember(hash, pool, x, rest[j]);
  }

  /** An element matching nothing of a list without two matches can go in front of it. */
  lemma ConsNoTwoMatch(hash: string -> int, x: Reference, tail: seq<Reference>)
    requires NoTwoMatch(hash, tail)
    requires forall k :: 0 <= k < |tail| ==> !SetMatch(hash, x, tail[k])
    ensures NoTwoMatch(hash, [x] + tail)
  {
    var r := [x] + tail;
    forall i, j | 0 <= i < j < |r| ensures !SetMatch(hash, r[i], r[j]) {
      assert r[j] == tail[j - 1];
      if i > 0 {
        assert r[i] == tail[i - 1];
      }
    }
  }

  /** No two survivors of an intersection match each other. */
  lemma {:induction false} IntersectNoTwoMatch(hash: string -> int, first: seq<Reference>, pool: seq<Reference>)
    ensures NoTwoMatch(hash, Intersect(hash, first, pool))
    decreases |first|
  {
    if first != [] {
      if MatchesAny(hash, first[0], pool) {
        var rest := Without(hash, pool, first[0]);
        var tail := Intersect(hash, first[1..], rest);
        IntersectNoTwoMatch(hash, first[1..], rest);
        IntersectSound(hash, first[1..], rest);
        forall k | 0 <= k < |tail| ensures !SetMatch(hash, first[0], tail[k]) {
          FirstDoesNotMatchTail(hash, first[0], pool, rest, tail[k]);
        }
        ConsNoTwoMatch(hash, first[0], tail);
      } else {
        IntersectNoTwoMatch(hash, first[1..], pool);
      }
    }
  }

  /** Every element of `first` with a match in `pool` is represented in the result. */
  lemma {:induction false} IntersectComplete(hash: string -> int, first: seq<Reference>, pool: seq<Reference>)
    ensures forall i :: 0 <= i < |first| && MatchesAny(hash, first[i], pool) ==>
      MatchesAny(hash, first[i], Intersect(hash, first, pool))
    decreases |first|
  {
    if first != [] {
      var r := Intersect(hash, first, pool);
      SetMatchLaws(hash);
      if MatchesAny(hash, first[0], pool) {
        var rest := Without(hash, pool, first[0]);
        var tail := Intersect(hash, first[1..], rest);
        IntersectComplete(hash, first[1..], rest);
        assert r == [first[0]] + tail;
        forall i | 0 <= i < |first| && MatchesAny(hash, first[i], pool) ensures MatchesAny(hash, first[i], r) {
          var m :| 0 <= m < |pool| && SetMatch(hash, pool[m], first[i]);
          if i == 0 || SetMatch(hash, pool[m], first[0]) {
            assert SetMatch(hash, r[0], first[i]);
          } else {
            WithoutMember(hash, pool, first[0], pool[m]);
            assert first[1..][i - 1] == first[i];
            assert MatchesAny(hash, first[1..][i - 1], tail);
            var t :| 0 <= t < |tail| && SetMatch(hash, tail[t], first[i]);
            assert r[t + 1] == tail[t];
          }
        }
      } else {
        var tail := Intersect(hash, first[1..], pool);
        IntersectComplete(hash, first[1..], pool);
        assert r == tail;
        forall i | 0 <= i < |first| && MatchesAny(hash, first[i], pool) ensures MatchesAny(hash, first[i], r) {
          assert i > 0 && first[1..][i - 1] == first[i];
        }
      }
    }
  }

  /** `lists.Aggregate(acc, (result, next) => result.Intersect(next, refComparer))`. */
  function FoldIntersect(hash: string -> int, acc: seq<Reference>, lists: seq<seq<Reference>>): seq<Reference>
    decreases |lists|
  {
    if lists == [] then acc
    else FoldIntersect(hash, Intersect(hash, acc, lists[0]), lists[1..])
  }

  lemma {:induction false} FoldIntersectSound(hash: string -> int, acc: seq<Reference>, lists: seq<seq<Reference>>)
    ensures forall i :: 0 <= i < |FoldIntersect(hash, acc, lists)| ==> FoldIntersect(hash, acc, lists)[i] in acc
    ensures forall i, k :: 0 <= i < |FoldIntersect(hash, acc, lists)| && 0 <= k < |lists| ==>
      MatchesAny(hash, FoldIntersect(hash, acc, lists)[i], lists[k])
    decreases |lists|
  {
    if lists != [] {
      var next := Intersect(hash, acc, lists[0]);
      var r := FoldIntersect(hash, acc, lists);
      FoldIntersectSound(hash, next, lists[1..]);
      IntersectSound(hash, acc, lists[0]);
      assert r == FoldIntersect(hash, next, lists[1..]);
      forall i | 0 <= i < |r| ensures r[i] in acc && MatchesAny(hash, r[i], lists[0]) {
        assert r[i] in next;
        var j :| 0 <= j < |next| && next[j] == r[i];
        assert next[j] in acc && MatchesAny(hash, next[j], lists[0]);
      }
      forall i, k | 0 <= i < |r| && 1 <= k < |lists| ensures MatchesAny(hash, r[i], lists[k]) {
        assert lists[1..][k - 1] == lists[k];
        assert MatchesAny(hash, r[i], lists[1..][k - 1]);
      }
    }
  }

  lemma {:induction false} FoldIntersectComplete(hash: string -> int, acc: seq<Reference>, lists: seq<seq<Reference>>, x: Reference)
    requires x in acc && |lists| >= 1
    requires forall k :: 0 <= k < |lists| ==> MatchesAny(hash, x, lists[k])
    ensures MatchesAny(hash, x, FoldIntersect(hash, acc, lists))
    decreases |lists|
  {
    SetMatchLaws(hash);
    var next := Intersect(hash, acc, lists[0]);
    IntersectComplete(hash, acc, lists[0]);
    var i :| 0 <= i < |acc| && acc[i] == x;
    assert MatchesAny(hash, acc[i], next);
    var r := FoldIntersect(hash, acc, lists);
    assert r == FoldIntersect(hash, next, lists[1..]);
    if |lists| == 1 {
      assert lists[1..] == [];
      assert r == next;
    } else {
      var j :| 0 <= j < |next| && SetMatch(hash, next[j], x);
      var y := next[j];
      forall k | 0 <= k < |lists[1..]| ensures MatchesAny(hash, y, lists[1..][k]) {
        assert lists[1..][k] == lists[k + 1];
        var m :| 0 <= m < |lists[k + 1]| && SetMatch(hash, lists[k + 1][m], x);
        assert SetMatch(hash, lists[k + 1][m], y);
      }
      FoldIntersectComplete(hash, next, lists[1..], y);
      var t :| 0 <= t < |r| && SetMatch(hash, r[t], y);
      assert SetMatch(hash, r[t], x);
    }
  }

  lemma {:induction false} FoldIntersectNoTwoMatch(hash: string -> int, acc: seq<Reference>, lists: seq<seq<Reference>>)
    requires |lists| >= 1
    ensures NoTwoMatch(hash, FoldIntersect(hash, acc, lists))
    decreases |lists|
  {
    var next := Intersect(hash, acc, lists[0]);
    if |lists| == 1 {
      IntersectNoTwoMatch(hash, acc, lists[0]);
      assert lists[1..] == [];
      assert FoldIntersect(hash, acc, lists) == next;
    } else {
      FoldIntersectNoTwoMatch(hash, next, lists[1..]);
    }
  }

  // ---------------------------------------------------------------------------
  // Choosing the references shown
  // ---------------------------------------------------------------------------

  function Values(opts: seq<Option<seq<Reference>>>): (r: seq<seq<Reference>>)
    requires forall i :: 0 <= i < |opts| ==> opts[i].Some?
    ensures |r| == |opts| && forall i :: 0 <= i < |r| ==> r[i] == opts[i].value
  {
    seq(|opts|, i requires 0 <= i < |opts| => opts[i].value)
  }

  /** `SelectMany(x => x)`. */
  function Flatten(lists: seq<seq<Reference>>): (r: seq<Reference>)
    ensures forall k, i :: 0 <= k < |lists| && 0 <= i < |lists[k]| ==> lists[k][i] in r
    ensures forall i :: 0 <= i < |r| ==> exists k :: 0 <= k < |lists| && r[i] in lists[k]
  {
    if lists == [] then []
    else
      var rest := Flatten(lists[1..]);
      assert forall k :: 1 <= k < |lists| ==> lists[k] == lists[1..][k - 1];
      lists[0] + rest
  }

  /**
   The references the window shows, from each module's references (`None`
   while a module's query has no result): nothing unless there is a module and
   every list is available; one module's list as is; otherwise the union
   (show all) or the left fold of intersections from the first module.
   */
  function SelectReferences(hash: string -> int, perModule: seq<Option<seq<Reference>>>, showAll: bool): (r: Option<seq<Reference>>)
    ensures r.None? <==> |perModule| == 0 || exists i :: 0 <= i < |perModule| && perModule[i].None?
    ensures r.Some? && |perModule| == 1 ==> r.value == perModule[0].value
  {
    if |perModule| == 0 || exists i :: 0 <= i < |perModule| && perModule[i].None? then None
    else
      var lists := Values(perModule);
      if |lists| == 1 then Some(lists[0])
      else if showAll then Some(Distinct(hash, Flatten(lists)))
      else Some(FoldIntersect(hash, lists[0], lists[1..]))
  }

  /**
   Show-all mode over several modules: every reference shown comes from some
   module; every branch of every module is represented; every tag and stash
   of every module is shown; no two shown references are merged by the
   comparer.
   */
  lemma SelectUnion(hash: string -> int, perModule: seq<Option<seq<Reference>>>)
    requires |perModule| >= 2 && forall i :: 0 <= i < |perModule| ==> perModule[i].Some?
    ensures var r := SelectReferences(hash, perModule, true).value;
      && (forall j :: 0 <= j < |r| ==> exists k :: 0 <= k < |perModule| && r[j] in perModule[k].value)
      && (forall k, i :: 0 <= k < |perModule| && 0 <= i < |perModule[k].value| ==>
            perModule[k].value[i] in r || MatchesAny(hash, perModule[k].value[i], r))
      && (forall k, i :: 0 <= k < |perModule| && 0 <= i < |perModule[k].value| && !perModule[k].value[i].IsBranch() ==>
            perModule[k].value[i] in r)
      && NoTwoMatch(hash, r)
  {
    var lists := Values(perModule);
    var all := Flatten(lists);
    DistinctFacts(hash, all);
    var r := SelectReferences(hash, perModule, true).value;
    forall k, i | 0 <= k < |perModule| && 0 <= i < |perModule[k].value|
      ensures perModule[k].value[i] in r || MatchesAny(hash, perModule[k].value[i], r)
    {
      assert lists[k][i] in all;
      var n :| 0 <= n < |all| && all[n] == lists[k][i];
    }
  }

  /**
   Intersection mode over several modules: every reference shown is in the
   first module's list and matched in every module's list, so it is a branch
   (tags and stashes never survive); every reference of the first module that
   is matched in every other module is represented; no two shown references
   are merged by the comparer.
   */
  lemma SelectIntersection(hash: string -> int, perModule: seq<Option<seq<Reference>>>)
    requires |perModule| >= 2 && forall i :: 0 <= i < |perModule| ==> perModule[i].Some?
    ensures var r := SelectReferences(hash, perModule, false).value;
      && (forall j :: 0 <= j < |r| ==> r[j] in perModule[0].value && r[j].IsBranch())
      && (forall j, k :: 0 <= j < |r| && 0 <= k < |perModule| ==> MatchesAny(hash, r[j], perModule[k].value))
      && (forall i ::
            (0 <= i < |perModule[0].value| &&
             forall k :: 1 <= k < |perModule| ==> MatchesAny(hash, perModule[0].value[i], perModule[k].value))
            ==> MatchesAny(hash, perModule[0].value[i], r))
      && NoTwoMatch(hash, r)
  {
    var lists := Values(perModule);
    var r := SelectReferences(hash, perModule, false).value;
    assert r == FoldIntersect(hash, lists[0], lists[1..]);
    FoldIntersectSound(hash, lists[0], lists[1..]);
    FoldIntersectNoTwoMatch(hash, lists[0], lists[1..]);
    SetMatchLaws(hash);
    forall j, k | 0 <= j < |r| && 0 <= k < |perModule| ensures MatchesAny(hash, r[j], perModule[k].value) {
      if k == 0 {
        var m :| 0 <= m < |lists[0]| && lists[0][m] == r[j];
        assert MatchesAny(hash, r[j], lists[1..][0]);
        assert SetMatch(hash, r[j], r[j]);
      } else {
        assert lists[1..][k - 1] == lists[k];
      }
    }
    forall j | 0 <= j < |r| ensures r[j].IsBranch() {
      assert MatchesAny(hash, r[j], lists[1..][0]);
    }
    forall i | 0 <= i < |lists[0]| && (forall k :: 1 <= k < |perModule| ==> MatchesAny(hash, lists[0][i], lists[k]))
      ensures MatchesAny(hash, lists[0][i], r)
    {
      forall k | 0 <= k < |lists[1..]| ensures MatchesAny(hash, lists[0][i], lists[1..][k]) {
        assert lists[1..][k] == lists[k + 1];
      }
      FoldIntersectComplete(hash, lists[0], lists[1..], lists[0][i]);
    }
  }

  // ---------------------------------------------------------------------------
  // Ordering by qualified name
  // ---------------------------------------------------------------------------

  /** Lexicographic order on character codes. */
  predicate NameLe(a: string, b: string)
    decreases |a|
  {
    a == [] || (b != [] && (a[0] < b[0] || (a[0] == b[0] && NameLe(a[1..], b[1..]))))
  }

  lemma {:induction false} NameLeTotal(a: string, b: string)
    ensures NameLe(a, b) || NameLe(b, a)
    decreases |a|
  {
    if a != [] && b != [] && a[0] == b[0] {
      NameLeTotal(a[1..], b[1..]);
    }
  }

  predicate SortedByName(s: seq<Reference>) {
    forall i :: 0 < i < |s| ==> NameLe(s[i - 1].qualifiedName, s[i].qualifiedName)
  }

  /** Insert before the first entry whose name is not smaller (keeps ties in order). */
  function InsertByName(r: Reference, sorted: seq<Reference>): (res: seq<Reference>)
    requires SortedByName(sorted)
    ensures |res| == |sorted| + 1 && SortedByName(res)
    ensures res[0] == r || (sorted != [] && res[0] == sorted[0])
    ensures multiset(res) == multiset(sorted) + multiset{r}
  {
    if sorted == [] || NameLe(r.qualifiedName, sorted[0].qualifiedName) then [r] + sorted
    else
      NameLeTotal(r.qualifiedName, sorted[0].qualifiedName);
      var tail := InsertByName(r, sorted[1..]);
      assert sorted == [sorted[0]] + sorted[1..];
      [sorted[0]] + tail
  }

  /** `OrderBy(x => x.QualifiedName)`: a stable sort on the qualified name. */
  function SortByName(refs: seq<Reference>): (res: seq<Reference>)
    ensures SortedByName(res)
    ensures multiset(res) == multiset(refs)
  {
    if refs == [] then []
    else
      assert refs == [refs[0]] + refs[1..];
      InsertByName(refs[0], SortByName(refs[1..]))
  }

  /** The references one call of `BranchesToItems` lists, in listing order. */
  function Listed(filter: Reference -> bool, branches: seq<Reference>): (order: seq<Reference>)
    ensures SortedByName(order)
    ensures multiset(order) == multiset(Filter(filter, branches))
  {
    SortByName(Filter(filter, branches))
  }

  /** The listed references are exactly those passing the filter. */
  lemma ListedMembers(filter: Reference -> bool, branches: seq<Reference>)
    ensures var order := Listed(filter, branches);
      && (forall i :: 0 <= i < |order| ==> filter(order[i]) && order[i] in branches)
      && (forall i :: 0 <= i < |branches| && filter(branches[i]) ==> branches[i] in order)
  {
    var kept := Filter(filter, branches);
    var order := Listed(filter, branches);
    forall i | 0 <= i < |order| ensures filter(order[i]) && order[i] in branches {
      assert order[i] in multiset(order);
      var j :| 0 <= j < |kept| && kept[j] == order[i];
    }
    forall i | 0 <= i < |branches| && filter(branches[i]) ensures branches[i] in order {
      assert branches[i] in kept;
      assert branches[i] in multiset(kept);
    }
  }

  // ---------------------------------------------------------------------------
  // Tree items
  // ---------------------------------------------------------------------------

  datatype TreeItem = TreeItem(id: int, depth: int, displayName: string)

  /** What the window reads of a module: name, references and current branch. */
  datatype ModuleView = ModuleView(name: string, references: Option<seq<Reference>>, currentBranch: Option<string>)

  predicate AllReferencesKnown(modules: seq<ModuleView>) {
    forall i :: 0 <= i < |modules| ==> modules[i].references.Some?
  }

  function Ids(items: seq<TreeItem>): set<int> {
    set i | 0 <= i < |items| :: items[i].id
  }

  lemma IdsAppend(items: seq<TreeItem>, y: TreeItem)
    ensures Ids(items + [y]) == Ids(items) + {y.id}
  {
    var s := items + [y];
    forall id | id in Ids(items) ensures id in Ids(s) {
      var i :| 0 <= i < |items| && items[i].id == id;
      assert s[i] == items[i];
    }
    assert s[|items|] == y;
  }

  /** The number a string of decimal digits denotes, most significant digit first. */
  function DigitsValue(s: string): nat
    requires forall i :: 0 <= i < |s| ==> '0' <= s[i] <= '9'
  {
    if s == [] then 0
    else 10 * DigitsValue(s[..|s| - 1]) + (s[|s| - 1] - '0') as nat
  }

  /**
   The digits of a count, as `int.ToString` prints it: the decimal digits
   of `n`, without leading zeros.
   */
  function NatToString(n: nat): (s: string)
    ensures |s| >= 1 && forall i :: 0 <= i < |s| ==> '0' <= s[i] <= '9'
    ensures DigitsValue(s) == n
    ensures s[0] == '0' ==> s == "0"
  {
    var digit := ['0' + ((n % 10) as char)];
    if n < 10 then digit
    else
      var s := NatToString(n / 10) + digit;
      assert s[..|s| - 1] == NatToString(n / 10);
      s
  }

  /** The folder part of a qualified name: everything before its last '/'. */
  function FolderPath(qn: string): (path: string)
    requires '/' in qn
    ensures |path| < |qn| && qn[|path|] == '/' && '/' !in qn[|path| + 1..]
  {
    qn[..LastIndexOf(qn, '/')]
  }

  /** `currentPath.Split('/')`. */
  function PathParts(path: string): (parts: seq<string>)
    ensures |parts| == Count(path, {'/'}) + 1
  {
    SplitOn(path, {'/'})
  }

  /** Id of the folder for the first `p + 1` parts of `path`. */
  function FolderId(hash: string -> int, path: string, p: nat): int
    requires p < |PathParts(path)|
  {
    hash(JoinChar(PathParts(path)[..p + 1], '/'))
  }

  function FolderItem(hash: string -> int, qn: string, p: nat, rootDepth: int): TreeItem
    requires '/' in qn && p < |PathParts(FolderPath(qn))|
  {
    TreeItem(FolderId(hash, FolderPath(qn), p), rootDepth + p, PathParts(FolderPath(qn))[p])
  }

  /** The number of modules whose references include `qn`. */
  function HavingCount(modules: seq<ModuleView>, qn: string): (n: nat)
    requires AllReferencesKnown(modules)
    ensures n <= |modules|
    ensures n == |modules| <==> forall i :: 0 <= i < |modules| ==> HasName(modules[i].references.value, qn)
  {
    if modules == [] then 0
    else
      assert forall i :: 1 <= i < |modules| ==> modules[i] == modules[1..][i - 1];
      (if HasName(modules[0].references.value, qn) then 1 else 0) + HavingCount(modules[1..], qn)
  }

  /** The test `branchesPerRepo.Count` applies: the module's references include `qn`. */
  function Having(qn: string): ModuleView -> bool {
    (m: ModuleView) => m.references.Some? && HasName(m.references.value, qn)
  }

  /** The count is the number of modules that `Count` with the `Having` test keeps. */
  lemma {:induction false} HavingCountFilters(modules: seq<ModuleView>, qn: string)
    requires AllReferencesKnown(modules)
    ensures HavingCount(modules, qn) == |Filter(Having(qn), modules)|
  {
    if modules != [] {
      HavingCountFilters(modules[1..], qn);
    }
  }

  /**
   The count adds up over consecutive groups of modules, and one module
   counts 1 exactly when its references include `qn`.
   */
  lemma HavingCountAppend(a: seq<ModuleView>, b: seq<ModuleView>, m: ModuleView, qn: string)
    requires AllReferencesKnown(a) && AllReferencesKnown(b) && m.references.Some?
    ensures AllReferencesKnown(a + b) && AllReferencesKnown([m])
    ensures HavingCount(a + b, qn) == HavingCount(a, qn) + HavingCount(b, qn)
    ensures HavingCount([m], qn) == if HasName(m.references.value, qn) then 1 else 0
  {
    assert AllReferencesKnown(a + b) by {
      forall i | 0 <= i < |a + b| ensures (a + b)[i].references.Some? {
        if i >= |a| {
          assert (a + b)[i] == b[i - |a|];
        }
      }
    }
    HavingCountFilters(a + b, qn);
    HavingCountFilters(a, qn);
    HavingCountFilters(b, qn);
    FilterAppend(Having(qn), a, b);
  }

  predicate HasName(refs: seq<Reference>, qn: string) {
    exists i :: 0 <= i < |refs| && refs[i].qualifiedName == qn
  }

  /** Names of the modules whose current branch is `qn`, in module order. */
  function NamesOnBranch(modules: seq<ModuleView>, qn: string): (names: seq<string>)
    ensures |names| <= |modules|
  {
    if modules == [] then []
    else (if modules[0].currentBranch == Some(qn) then [modules[0].name] else []) + NamesOnBranch(modules[1..], qn)
  }

  /** The names listed are exactly those of the modules on the branch. */
  lemma {:induction false} NamesOnBranchMembers(modules: seq<ModuleView>, qn: string)
    ensures forall i :: 0 <= i < |modules| && modules[i].currentBranch == Some(qn) ==> modules[i].name in NamesOnBranch(modules, qn)
    ensures forall j :: 0 <= j < |NamesOnBranch(modules, qn)| ==>
      exists i :: 0 <= i < |modules| && modules[i].currentBranch == Some(qn) && modules[i].name == NamesOnBranch(modules, qn)[j]
  {
    if modules != [] {
      var head := if modules[0].currentBranch == Some(qn) then [modules[0].name] else [];
      var tail := NamesOnBranch(modules[1..], qn);
      NamesOnBranchMembers(modules[1..], qn);
      assert NamesOnBranch(modules, qn) == head + tail;
      forall i | 0 <= i < |modules| && modules[i].currentBranch == Some(qn)
        ensures modules[i].name in head + tail
      {
        if i > 0 {
          assert modules[1..][i - 1] == modules[i];
        }
      }
      var names := NamesOnBranch(modules, qn);
      forall j | 0 <= j < |names|
        ensures exists i :: 0 <= i < |modules| && modules[i].currentBranch == Some(qn) && modules[i].name == names[j]
      {
        if j >= |head| {
          assert names[j] == tail[j - |head|];
          var i :| 0 <= i < |modules[1..]| && modules[1..][i].currentBranch == Some(qn) && modules[1..][i].name == tail[j - |head|];
          assert modules[i + 1] == modules[1..][i];
          assert modules[i + 1].currentBranch == Some(qn) && modules[i + 1].name == names[j];
        } else {
          assert modules[0].currentBranch == Some(qn) && modules[0].name == names[j];
        }
      }
    } else {
      assert NamesOnBranch(modules, qn) == [];
    }
  }

  /** The "(n)" part of a label: shown when not every module has the branch. */
  function CountNote(modules: seq<ModuleView>, qn: string): string
    requires AllReferencesKnown(modules)
  {
    var having := HavingCount(modules, qn);
    Interpolate(When(Some(WrapUp(NatToString(having), "(", Some(")"))), having != |modules|))
  }

  /** The "[names]" part of a label: the modules whose current branch it is. */
  function CurrentNote(modules: seq<ModuleView>, qn: string): string {
    var reposOnBranch := JoinChar(NamesOnBranch(modules, qn), ',');
    Interpolate(When(Some(WrapUp(reposOnBranch, "[", Some("]"))), reposOnBranch != ""))
  }

  function BranchLabel(modules: seq<ModuleView>, qn: string): string
    requires AllReferencesKnown(modules)
  {
    AfterLast(qn, '/') + " " + CountNote(modules, qn) + " " + CurrentNote(modules, qn)
  }

  function BranchItem(hash: string -> int, modules: seq<ModuleView>, r: Reference, rootDepth: int): TreeItem
    requires AllReferencesKnown(modules)
  {
    TreeItem(hash(r.qualifiedName), rootDepth + Count(r.qualifiedName, {'/'}), BranchLabel(modules, r.qualifiedName))
  }

  /** The "(n)" part appears exactly when not every module has the branch. */
  lemma CountNoteShown(modules: seq<ModuleView>, qn: string)
    requires AllReferencesKnown(modules)
    ensures CountNote(modules, qn) == "" <==> HavingCount(modules, qn) == |modules|
    ensures CountNote(modules, qn) != "" ==> CountNote(modules, qn) == "(" + NatToString(HavingCount(modules, qn)) + ")"
  {
    var having := HavingCount(modules, qn);
    var w := WrapUp(NatToString(having), "(", Some(")"));
    WrapUpAgreesWhenRightGiven(NatToString(having), "(", ")");
    assert w != "";
  }

  /**
   The "[names]" part lists the modules on the branch, and appears whenever
   a module with a non-empty name is on it.
   */
  lemma CurrentNoteShown(modules: seq<ModuleView>, qn: string)
    ensures CurrentNote(modules, qn) != "" ==>
      NamesOnBranch(modules, qn) != [] && CurrentNote(modules, qn) == "[" + JoinChar(NamesOnBranch(modules, qn), ',') + "]"
    ensures (exists i :: 0 <= i < |modules| && modules[i].currentBranch == Some(qn) && modules[i].name != "") ==>
      CurrentNote(modules, qn) != ""
  {
    var names := NamesOnBranch(modules, qn);
    NamesOnBranchMembers(modules, qn);
    var joined := JoinChar(names, ',');
    WrapUpAgreesWhenRightGiven(joined, "[", "]");
    if exists i :: 0 <= i < |modules| && modules[i].currentBranch == Some(qn) && modules[i].name != "" {
      var i :| 0 <= i < |modules| && modules[i].currentBranch == Some(qn) && modules[i].name != "";
      var k :| 0 <= k < |names| && names[k] == modules[i].name;
      JoinNonEmpty(names, [','], k);
      assert joined == Join(names, [',']);
    }
  }

  /**
   A branch sits at `rootDepth` plus its number of slashes, exactly one level
   below the innermost folder created for it.
   */
  lemma {:induction false} BranchBelowInnermostFolder(hash: string -> int, modules: seq<ModuleView>, r: Reference, rootDepth: int)
    requires AllReferencesKnown(modules)
    requires '/' in r.qualifiedName
    ensures var last := |PathParts(FolderPath(r.qualifiedName))| - 1;
      FolderItem(hash, r.qualifiedName, last, rootDepth).depth + 1 == BranchItem(hash, modules, r, rootDepth).depth
  {
    var qn := r.qualifiedName;
    SlashesOfQualifiedName(qn);
    assert |PathParts(FolderPath(qn))| == Count(qn, {'/'});
    assert BranchItem(hash, modules, r, rootDepth).depth == rootDepth + Count(qn, {'/'});
  }

  /** A qualified name has one slash more than its folder path. */
  lemma SlashesOfQualifiedName(qn: string)
    requires '/' in qn
    ensures Count(qn, {'/'}) == Count(FolderPath(qn), {'/'}) + 1
  {
    var path := FolderPath(qn);
    var tail := qn[|path| + 1..];
    assert '/' !in tail;
    assert Count(tail, {'/'}) == 0;
    assert Count(['/'] + tail, {'/'}) == 1 + Count(tail, {'/'});
    assert qn == path + (['/'] + tail);
    CountAppend(path, ['/'] + tail, {'/'});
  }

  // ---------------------------------------------------------------------------
  // BranchesToItems
  // ---------------------------------------------------------------------------

  /** Which listed reference an appended item belongs to, and how. */
  datatype ItemOrigin = BranchOf(k: nat) | FolderOf(k: nat, part: nat)

  /** Folders of reference k come after branch k - 1 and before branch k. */
  function Key(o: ItemOrigin): nat {
    match o
    case BranchOf(k) => 2 * k + 1
    case FolderOf(k, _) => 2 * k
  }

  /**
   The order of appended items: everything of an earlier reference comes
   first, a reference's folders come before its branch item, and its folders
   come parent first.
   */
  predicate Precedes(a: ItemOrigin, b: ItemOrigin) {
    Key(a) < Key(b) || (a.FolderOf? && b.FolderOf? && a.k == b.k && a.part < b.part)
  }

  /** The listed references whose branch items were appended, in order. */
  ghost function BranchIndices(origin: seq<ItemOrigin>): seq<nat> {
    if origin == [] then []
    else
      var last := origin[|origin| - 1];
      BranchIndices(origin[..|origin| - 1]) + (if last.BranchOf? then [last.k] else [])
  }

  function Range(n: nat): (r: seq<nat>)
    ensures |r| == n && forall i :: 0 <= i < n ==> r[i] == i
  {
    seq(n, i => i)
  }

  lemma RangeNext(k: nat)
    ensures Range(k) + [k] == Range(k + 1)
  {
  }

  /** Every folder of `path` has an item among `ids`. */
  ghost predicate PathFoldersPresent(hash: string -> int, path: string, ids: set<int>) {
    forall p :: 0 <= p < |PathParts(path)| ==> FolderId(hash, path, p) in ids
  }

  /** The first `n` folders of `path` have items among `ids`. */
  ghost predicate FirstFoldersPresent(hash: string -> int, path: string, n: nat, ids: set<int>) {
    forall p :: 0 <= p < n && p < |PathParts(path)| ==> FolderId(hash, path, p) in ids
  }

  lemma FirstFoldersPresentStep(hash: string -> int, path: string, n: nat, ids: set<int>, ids': set<int>)
    requires n < |PathParts(path)|
    requires FirstFoldersPresent(hash, path, n, ids) && ids <= ids' && FolderId(hash, path, n) in ids'
    ensures FirstFoldersPresent(hash, path, n + 1, ids')
  {
  }

  ghost predicate FoldersPresent(hash: string -> int, qn: string, ids: set<int>) {
    '/' in qn && FolderPath(qn) != "" ==> PathFoldersPresent(hash, FolderPath(qn), ids)
  }

  /**
   `item`, appended after `before`, is what `o` says: the branch item of a
   listed reference (with an item for each of its folders already present),
   or one of its folders, added only because no earlier item had its id.
   */
  ghost predicate PlacedAt(hash: string -> int, modules: seq<ModuleView>, order: seq<Reference>, rootDepth: int,
                           before: seq<TreeItem>, item: TreeItem, o: ItemOrigin)
    requires AllReferencesKnown(modules)
  {
    o.k < |order| &&
    match o
    case BranchOf(k) =>
      item == BranchItem(hash, modules, order[k], rootDepth)
      && FoldersPresent(hash, order[k].qualifiedName, Ids(before))
    case FolderOf(k, p) =>
      '/' in order[k].qualifiedName && p < |PathParts(FolderPath(order[k].qualifiedName))|
      && item == FolderItem(hash, order[k].qualifiedName, p, rootDepth)
      && item.id !in Ids(before)
  }

  /**
   Each of the last `|origin|` items of `result` is placed as its entry of
   `origin` says, after the items before it, each entry `Precedes` the next.
   */
  ghost predicate Placements(hash: string -> int, modules: seq<ModuleView>, order: seq<Reference>, rootDepth: int,
                             result: seq<TreeItem>, origin: seq<ItemOrigin>)
    requires AllReferencesKnown(modules)
    requires |origin| <= |result|
    decreases |origin|
  {
    origin == [] ||
    var n, m := |result| - 1, |origin| - 1;
    && Placements(hash, modules, order, rootDepth, result[..n], origin[..m])
    && PlacedAt(hash, modules, order, rootDepth, result[..n], result[n], origin[m])
    && (m > 0 ==> Precedes(origin[m - 1], origin[m]))
  }

  /** `result` is `items` followed by one item per entry of `origin`, each placed as its origin says. */
  ghost predicate WellPlaced(hash: string -> int, modules: seq<ModuleView>, order: seq<Reference>, rootDepth: int,
                             items: seq<TreeItem>, result: seq<TreeItem>, origin: seq<ItemOrigin>)
    requires AllReferencesKnown(modules)
  {
    && |result| == |items| + |origin|
    && result[..|items|] == items
    && Placements(hash, modules, order, rootDepth, result, origin)
  }

  lemma WellPlacedAppend(hash: string -> int, modules: seq<ModuleView>, order: seq<Reference>, rootDepth: int,
                         items: seq<TreeItem>, result: seq<TreeItem>, origin: seq<ItemOrigin>, y: TreeItem, o: ItemOrigin)
    requires AllReferencesKnown(modules)
    requires WellPlaced(hash, modules, order, rootDepth, items, result, origin)
    requires PlacedAt(hash, modules, order, rootDepth, result, y, o)
    requires origin != [] ==> Precedes(origin[|origin| - 1], o)
    ensures WellPlaced(hash, modules, order, rootDepth, items, result + [y], origin + [o])
  {
    var result', origin' := result + [y], origin + [o];
    assert result'[..|items|] == items;
    assert result'[..|result|] == result && result'[|result|] == y;
    assert origin'[..|origin|] == origin && origin'[|origin|] == o;
  }

  lemma BranchIndicesAppend(origin: seq<ItemOrigin>, o: ItemOrigin)
    ensures BranchIndices(origin + [o]) == BranchIndices(origin) + (if o.BranchOf? then [o.k] else [])
  {
    assert (origin + [o])[..|origin|] == origin;
  }

  /**
   After the first `k` listed references: the items are well placed, the
   branch items of exactly those `k` references are in, and nothing of a
   later reference than `k` has been added.
   */
  ghost predicate Progress(hash: string -> int, modules: seq<ModuleView>, order: seq<Reference>, rootDepth: int,
                           items: seq<TreeItem>, result: seq<TreeItem>, origin: seq<ItemOrigin>, k: nat)
    requires AllReferencesKnown(modules)
  {
    && WellPlaced(hash, modules, order, rootDepth, items, result, origin)
    && BranchIndices(origin) == Range(k)
    && (origin != [] ==> Key(origin[|origin| - 1]) < 2 * k)
  }

  /**
   Within the folder loop of listed reference `k`: as `Progress`, except that
   the last item may be a folder of `k` for a part before `i`.
   */
  ghost predicate FolderProgress(hash: string -> int, modules: seq<ModuleView>, order: seq<Reference>, rootDepth: int,
                                 items: seq<TreeItem>, result: seq<TreeItem>, origin: seq<ItemOrigin>, k: nat, i: nat)
    requires AllReferencesKnown(modules)
  {
    && WellPlaced(hash, modules, order, rootDepth, items, result, origin)
    && BranchIndices(origin) == Range(k)
    && (origin != [] ==>
         var last := origin[|origin| - 1];
         Key(last) < 2 * k || (last.FolderOf? && last.k == k && last.part < i))
  }

  lemma ProgressStartsFolders(hash: string -> int, modules: seq<ModuleView>, order: seq<Reference>, rootDepth: int,
                              items: seq<TreeItem>, result: seq<TreeItem>, origin: seq<ItemOrigin>, k: nat)
    requires AllReferencesKnown(modules)
    requires Progress(hash, modules, order, rootDepth, items, result, origin, k)
    ensures FolderProgress(hash, modules, order, rootDepth, items, result, origin, k, 0)
  {
  }

  lemma AppendFolder(hash: string -> int, modules: seq<ModuleView>, order: seq<Reference>, rootDepth: int,
                     items: seq<TreeItem>, result: seq<TreeItem>, origin: seq<ItemOrigin>, k: nat, p: nat, y: TreeItem)
    requires AllReferencesKnown(modules)
    requires FolderProgress(hash, modules, order, rootDepth, items, result, origin, k, p)
    requires PlacedAt(hash, modules, order, rootDepth, result, y, FolderOf(k, p))
    ensures FolderProgress(hash, modules, order, rootDepth, items, result + [y], origin + [FolderOf(k, p)], k, p + 1)
    ensures Ids(result + [y]) == Ids(result) + {y.id}
  {
    WellPlacedAppend(hash, modules, order, rootDepth, items, result, origin, y, FolderOf(k, p));
    BranchIndicesAppend(origin, FolderOf(k, p));
    IdsAppend(result, y);
  }

  lemma AppendBranch(hash: string -> int, modules: seq<ModuleView>, order: seq<Reference>, rootDepth: int,
                     items: seq<TreeItem>, result: seq<TreeItem>, origin: seq<ItemOrigin>, k: nat, i: nat, y: TreeItem)
    requires AllReferencesKnown(modules)
    requires FolderProgress(hash, modules, order, rootDepth, items, result, origin, k, i)
    requires PlacedAt(hash, modules, order, rootDepth, result, y, BranchOf(k))
    ensures Progress(hash, modules, order, rootDepth, items, result + [y], origin + [BranchOf(k)], k + 1)
    ensures Ids(result + [y]) == Ids(result) + {y.id}
  {
    WellPlacedAppend(hash, modules, order, rootDepth, items, result, origin, y, BranchOf(k));
    BranchIndicesAppend(origin, BranchOf(k));
    RangeNext(k);
    IdsAppend(result, y);
  }

  /**
   The folder part of `BranchesToItems` for listed reference `k`: an item for
   each prefix of the folder path whose id is not present yet.
   */
  method AddFolders(hash: string -> int, modules: seq<ModuleView>, order: seq<Reference>, rootDepth: int,
                    items: seq<TreeItem>, k: nat, result0: seq<TreeItem>, ghost origin0: seq<ItemOrigin>)
    returns (result: seq<TreeItem>, ghost origin: seq<ItemOrigin>)
    requires AllReferencesKnown(modules)
    requires k < |order| && '/' in order[k].qualifiedName
    requires Progress(hash, modules, order, rootDepth, items, result0, origin0, k)
    ensures FolderProgress(hash, modules, order, rootDepth, items, result, origin, k, |PathParts(FolderPath(order[k].qualifiedName))|)
    ensures PathFoldersPresent(hash, FolderPath(order[k].qualifiedName), Ids(result))
  {
    var qn := order[k].qualifiedName;
    var currentPath := FolderPath(qn);
    var parts := PathParts(currentPath);
    result, origin := result0, origin0;
    var i := 0;
    while i < |parts|
      invariant 0 <= i <= |parts|
      invariant FolderProgress(hash, modules, order, rootDepth, items, result, origin, k, i)
      invariant FirstFoldersPresent(hash, currentPath, i, Ids(result))
    {
      var hashCode := hash(JoinChar(parts[..i + 1], '/'));
      assert hashCode == FolderId(hash, currentPath, i);
      ghost var before := Ids(result);
      if hashCode !in Ids(result) {
        var folder := TreeItem(hashCode, rootDepth + i, parts[i]);
        assert PlacedAt(hash, modules, order, rootDepth, result, folder, FolderOf(k, i));
        AppendFolder(hash, modules, order, rootDepth, items, result, origin, k, i, folder);
        result, origin := result + [folder], origin + [FolderOf(k, i)];
      }
      FirstFoldersPresentStep(hash, currentPath, i, before, Ids(result));
      i := i + 1;
    }
  }

  /**
   One round of the `BranchesToItems` loop, for listed reference `k`: the
   folders of its path when the path differs from the previous one, then its
   own item.
   */
  method PlaceReference(hash: string -> int, modules: seq<ModuleView>, order: seq<Reference>, rootDepth: int,
                        items: seq<TreeItem>, k: nat, path0: string, result0: seq<TreeItem>, ghost origin0: seq<ItemOrigin>)
    returns (currentPath: string, result: seq<TreeItem>, ghost origin: seq<ItemOrigin>)
    requires AllReferencesKnown(modules)
    requires k < |order|
    requires Progress(hash, modules, order, rootDepth, items, result0, origin0, k)
    requires path0 != "" ==> PathFoldersPresent(hash, path0, Ids(result0))
    ensures Progress(hash, modules, order, rootDepth, items, result, origin, k + 1)
    ensures currentPath != "" ==> PathFoldersPresent(hash, currentPath, Ids(result))
  {
    currentPath, result, origin := path0, result0, origin0;
    ProgressStartsFolders(hash, modules, order, rootDepth, items, result, origin, k);
    ghost var parts := 0;
    var qn := order[k].qualifiedName;
    var lastSlashIndex := LastIndexOf(qn, '/');
    if lastSlashIndex != -1 && currentPath != qn[..lastSlashIndex] {
      currentPath := qn[..lastSlashIndex];
      result, origin := AddFolders(hash, modules, order, rootDepth, items, k, result, origin);
      parts := |PathParts(FolderPath(qn))|;
    }
    assert FoldersPresent(hash, qn, Ids(result)) by {
      if '/' in qn {
        assert currentPath == FolderPath(qn);
      }
    }
    var item := BranchItem(hash, modules, order[k], rootDepth);
    AppendBranch(hash, modules, order, rootDepth, items, result, origin, k, parts, item);
    result, origin := result + [item], origin + [BranchOf(k)];
  }

  /**
   `BranchesToItems`: appends to `items`, for each reference passing
   `filter` in ascending qualified-name order, first the folder items of its
   path not yet present (when the path differs from the previous one), then
   its own item. `origin` tells, for each appended item, which listed
   reference it belongs to.
   */
  method BranchesToItems(hash: string -> int, modules: seq<ModuleView>, branches: seq<Reference>,
                         filter: Reference -> bool, rootDepth: int, items: seq<TreeItem>)
    returns (result: seq<TreeItem>, ghost origin: seq<ItemOrigin>)
    requires AllReferencesKnown(modules)
    ensures |result| >= |items| && result[..|items|] == items
    ensures WellPlaced(hash, modules, Listed(filter, branches), rootDepth, items, result, origin)
    ensures BranchIndices(origin) == Range(|Listed(filter, branches)|)
  {
    var order := Listed(filter, branches);
    var currentPath := "";
    result, origin := items, [];
    var k := 0;
    while k < |order|
      invariant 0 <= k <= |order|
      invariant Progress(hash, modules, order, rootDepth, items, result, origin, k)
      invariant currentPath != "" ==> PathFoldersPresent(hash, currentPath, Ids(result))
    {
      currentPath, result, origin := PlaceReference(hash, modules, order, rootDepth, items, k, currentPath, result, origin);
      k := k + 1;
    }
  }

  // ---------------------------------------------------------------------------
  // Context menu and new branch
  // ---------------------------------------------------------------------------

  /** A context-menu entry: its label, the git command it runs in every module, and whether a confirmation dialog guards it. */
  datatype MenuItem = MenuItem(caption: string, command: string, confirm: bool)

  /** `stash@{Id}`. */
  function StashName(id: string): string {
    "stash@{" + id + "}"
  }

  predicate StartsWith(s: string, prefix: string) {
    |prefix| <= |s| && s[..|prefix|] == prefix
  }

  /**
   `ContextMenu`: no menu without a selected reference; otherwise the two
   entries of its kind, then merge and rebase for branches. Slashes in the
   labels become the division slash U+2215.
   */
  function ContextMenu(selected: Option<Reference>): (menu: Option<seq<MenuItem>>)
    ensures menu.None? <==> selected.None?
    ensures menu.Some? ==> |menu.value| == if selected.value.IsBranch() then 4 else 2
  {
    match selected
    case None => None
    case Some(r) =>
      var shown := ReplaceChar(r.qualifiedName, '/', '\U{2215}');
      var own := match r
        case LocalBranch(_, name) =>
          [MenuItem("Checkout [" + shown + "]", "checkout " + name, false),
           MenuItem("Delete local [" + shown + "]", "branch -d " + name, true)]
        case RemoteBranch(_, name, alias) =>
          [MenuItem("Checkout & Track [" + shown + "]", "switch " + name, false),
           MenuItem("Delete [" + shown + "] on remote", "push -d " + alias + " " + name, true)]
        case Tag(qn, name) =>
          [MenuItem("Checkout tag [" + shown + "]", "checkout " + qn, false),
           MenuItem("Delete tag [" + shown + "]", "tag -d " + name, true)]
        case Stash(_, _, id) =>
          [MenuItem("Apply stash [" + shown + "]", "stash apply " + StashName(id), false),
           MenuItem("Delete stash [" + shown + "]", "stash -d " + StashName(id), true)];
      var merging := if r.IsBranch() then
          [MenuItem("Merge [" + shown + "]", "merge " + r.qualifiedName, true),
           MenuItem("Rebase [" + shown + "]", "rebase " + r.qualifiedName, true)]
        else [];
      Some(own + merging)
  }

  /**
   Only the first entry (checkout or apply) runs without a confirmation
   dialog; merge and rebase, by qualified name, are the entries added for
   branches.
   */
  lemma ContextMenuConfirmations(r: Reference)
    ensures var menu := ContextMenu(Some(r)).value;
      && !menu[0].confirm && (forall i :: 1 <= i < |menu| ==> menu[i].confirm)
      && (r.IsBranch() ==> menu[2].command == "merge " + r.qualifiedName && menu[3].command == "rebase " + r.qualifiedName)
  {
  }

  /** No entry of a tag or stash menu merges or rebases. */
  lemma MergeOnlyForBranches(r: Reference)
    ensures var menu := ContextMenu(Some(r)).value;
      forall i :: 0 <= i < |menu| && (StartsWith(menu[i].command, "merge ") || StartsWith(menu[i].command, "rebase ")) ==>
        r.IsBranch()
  {
    var menu := ContextMenu(Some(r)).value;
    if !r.IsBranch() {
      assert |menu| == 2;
      assert menu[0].command[0] != 'm' && menu[0].command[0] != 'r';
      assert menu[1].command[0] != 'm' && menu[1].command[0] != 'r';
    }
  }

  /**
   The commands of each kind's own entries: a stash is addressed as
   `stash@{Id}`, a remote branch is deleted with `push -d <alias> <name>`, a
   local branch is checked out and deleted by its short name, a tag checked
   out by its qualified name.
   */
  lemma ContextMenuOwnCommands(r: Reference)
    ensures var menu := ContextMenu(Some(r)).value;
      && (r.Stash? ==> menu[0].command == "stash apply stash@{" + r.id + "}" && menu[1].command == "stash -d stash@{" + r.id + "}")
      && (r.RemoteBranch? ==> menu[0].command == "switch " + r.name && menu[1].command == "push -d " + r.remoteAlias + " " + r.name)
      && (r.LocalBranch? ==> menu[0].command == "checkout " + r.name && menu[1].command == "branch -d " + r.name)
      && (r.Tag? ==> menu[0].command == "checkout " + r.qualifiedName && menu[1].command == "tag -d " + r.name)
  {
  }

  /** `references.FirstOrDefault(x => x.QualifiedName.GetHashCode() == id)`. */
  function FindById(hash: string -> int, references: seq<Reference>, id: int): (r: Option<Reference>)
    ensures r.None? <==> forall i :: 0 <= i < |references| ==> hash(references[i].qualifiedName) != id
    ensures r.Some? ==>
      exists i :: 0 <= i < |references| && references[i] == r.value && hash(r.value.qualifiedName) == id
        && forall j :: 0 <= j < i ==> hash(references[j].qualifiedName) != id
  {
    if references == [] then None
    else if hash(references[0].qualifiedName) == id then Some(references[0])
    else
      var rest := FindById(hash, references[1..], id);
      assert forall i :: 1 <= i < |references| ==> references[i] == references[1..][i - 1];
      rest
  }

  /** The command "New Branch" runs in every selected module. */
  function NewBranchCommand(branchName: string, checkout: bool): (command: string)
    ensures checkout ==> command == "checkout -b " + branchName
    ensures !checkout ==> command == "branch " + branchName
    ensures StartsWith(command, "checkout -b ") <==> checkout
    ensures |command| >= |branchName|
    ensures command[|command| - |branchName|..] == branchName
  {
    var command := if checkout then "checkout -b " + branchName else "branch " + branchName;
    assert !checkout ==> command[0] == 'b';
    command
  }

  /** One (module, command) pair per module, in module order. */
  function PerModule(moduleNames: seq<string>, command: string): (runs: seq<(string, string)>)
    ensures |runs| == |moduleNames|
    ensures forall i :: 0 <= i < |runs| ==> runs[i] == (moduleNames[i], command)
  {
    seq(|moduleNames|, i requires 0 <= i < |moduleNames| => (moduleNames[i], command))
  }

  /** `MakeBranch`: nothing unless Ok was pressed, then the command in every module. */
  function MakeBranch(moduleNames: seq<string>, branchName: string, checkout: bool, pressedOk: bool): (runs: seq<(string, string)>)
    ensures !pressedOk ==> runs == []
    ensures pressedOk ==>
      |runs| == |moduleNames| &&
      forall i :: 0 <= i < |runs| ==> runs[i].0 == moduleNames[i] && runs[i].1 == NewBranchCommand(branchName, checkout)
    ensures pressedOk && checkout ==> forall i :: 0 <= i < |runs| ==> runs[i].1 == "checkout -b " + branchName
    ensures pressedOk && !checkout ==> forall i :: 0 <= i < |runs| ==> runs[i].1 == "branch " + branchName
  {
    if pressedOk then PerModule(moduleNames, NewBranchCommand(branchName, checkout)) else []
  }

  // ---------------------------------------------------------------------------
  // The window
  // ---------------------------------------------------------------------------

  const HeaderNames: seq<string> := ["Branches", "Remotes", "Tags", "Stashes"]

  function ReferencesOf(modules: seq<ModuleView>): (perModule: seq<Option<seq<Reference>>>)
    ensures |perModule| == |modules| && forall i :: 0 <= i < |modules| ==> perModule[i] == modules[i].references
  {
    seq(|modules|, i requires 0 <= i < |modules| => modules[i].references)
  }

  /** The reference kind listed under header `h`. */
  predicate InSection(h: nat, r: Reference) {
    match h
    case 0 => r.LocalBranch?
    case 1 => r.RemoteBranch?
    case 2 => r.Tag?
    case _ => r.Stash?
  }

  /** The filter `OnGUI` passes for header `h`. */
  function SectionFilter(h: nat): Reference -> bool {
    (x: Reference) => InSection(h, x)
  }

  /**
   Section `h` of `tree`: its header at `start`, then, up to `end`, the
   items `BranchesToItems` placed at root depth 1 for the references of
   the section's kind, sorted by name, each exactly once.
   */
  ghost predicate SectionPlaced(hash: string -> int, modules: seq<ModuleView>, references: seq<Reference>, h: nat,
                                tree: seq<TreeItem>, start: nat, end: nat, origin: seq<ItemOrigin>)
    requires AllReferencesKnown(modules) && h < 4
  {
    && start < end <= |tree|
    && tree[start] == TreeItem(h, 0, HeaderNames[h])
    && WellPlaced(hash, modules, Listed(SectionFilter(h), references), 1, tree[..start + 1], tree[..end], origin)
    && BranchIndices(origin) == Range(|Listed(SectionFilter(h), references)|)
  }

  /**
   The first `|origins|` sections of `tree`: section `h` runs from its
   header at `bounds[h]` up to `bounds[h + 1]`.
   */
  ghost predicate Sections(hash: string -> int, modules: seq<ModuleView>, references: seq<Reference>,
                           tree: seq<TreeItem>, bounds: seq<nat>, origins: seq<seq<ItemOrigin>>)
    requires AllReferencesKnown(modules) && |origins| <= 4 && |bounds| == |origins| + 1
    decreases |origins|
  {
    origins == [] ||
    var n := |origins| - 1;
    && Sections(hash, modules, references, tree, bounds[..n + 1], origins[..n])
    && SectionPlaced(hash, modules, references, n, tree, bounds[n], bounds[n + 1], origins[n])
  }

  /**
   The headers of the sections so far: header `h` at `bounds[h]`, and the
   last bound at the end of `tree`.
   */
  ghost predicate HeadersAt(tree: seq<TreeItem>, bounds: seq<nat>)
    requires 1 <= |bounds| <= 5
  {
    && bounds[|bounds| - 1] == |tree|
    && forall h :: 0 <= h < |bounds| - 1 ==> bounds[h] < |tree| && tree[bounds[h]] == TreeItem(h, 0, HeaderNames[h])
  }

  /** A section of a tree stays a section of every tree extending it. */
  lemma SectionInTree(hash: string -> int, modules: seq<ModuleView>, references: seq<Reference>, h: nat,
                      section: seq<TreeItem>, tree: seq<TreeItem>, start: nat, end: nat, origin: seq<ItemOrigin>)
    requires AllReferencesKnown(modules) && h < 4
    requires SectionPlaced(hash, modules, references, h, section, start, end, origin)
    requires |section| <= |tree| && tree[..|section|] == section
    ensures SectionPlaced(hash, modules, references, h, tree, start, end, origin)
  {
    assert tree[..start + 1] == section[..start + 1];
    assert tree[..end] == section[..end];
    assert tree[start] == section[start];
  }

  /** The sections of a tree stay sections of every tree extending it. */
  lemma {:induction false} SectionsInTree(hash: string -> int, modules: seq<ModuleView>, references: seq<Reference>,
                                          section: seq<TreeItem>, tree: seq<TreeItem>, bounds: seq<nat>, origins: seq<seq<ItemOrigin>>)
    requires AllReferencesKnown(modules) && |origins| <= 4 && |bounds| == |origins| + 1
    requires Sections(hash, modules, references, section, bounds, origins)
    requires |section| <= |tree| && tree[..|section|] == section
    ensures Sections(hash, modules, references, tree, bounds, origins)
    decreases |origins|
  {
    if origins != [] {
      var n := |origins| - 1;
      SectionsInTree(hash, modules, references, section, tree, bounds[..n + 1], origins[..n]);
      SectionInTree(hash, modules, references, n, section, tree, bounds[n], bounds[n + 1], origins[n]);
    }
  }

  /**
   One section of the tree: header `h` at depth 0, then what
   `BranchesToItems` appends for the references of its kind at root depth 1.
   */
  method AddSection(hash: string -> int, modules: seq<ModuleView>, references: seq<Reference>, h: nat, items: seq<TreeItem>)
    returns (result: seq<TreeItem>, ghost origin: seq<ItemOrigin>)
    requires AllReferencesKnown(modules) && h < 4
    ensures |result| > |items| && result[..|items|] == items
    ensures SectionPlaced(hash, modules, references, h, result, |items|, |result|, origin)
  {
    var header := TreeItem(h, 0, HeaderNames[h]);
    result, origin := BranchesToItems(hash, modules, references, SectionFilter(h), 1, items + [header]);
    assert result[..|items|] == (items + [header])[..|items|] == items;
    assert result[|items|] == (items + [header])[|items|];
    assert result[..|result|] == result;
  }

  /** A tree extended by the next header keeps the headers before it. */
  lemma HeadersAtAppend(tree: seq<TreeItem>, tree': seq<TreeItem>, bounds: seq<nat>, h: nat)
    requires h < 4 && |bounds| == h + 1 && HeadersAt(tree, bounds)
    requires |tree'| > |tree| && tree'[..|tree|] == tree && tree'[|tree|] == TreeItem(h, 0, HeaderNames[h])
    ensures HeadersAt(tree', bounds + [|tree'|])
  {
    var bounds' := bounds + [|tree'|];
    forall k | 0 <= k < h + 1 ensures bounds'[k] < |tree'| && tree'[bounds'[k]] == TreeItem(k, 0, HeaderNames[k]) {
      if k < h {
        assert tree'[..|tree|][bounds[k]] == tree[bounds[k]];
      }
    }
  }

  /** The sections of a tree, then one more section placed after them. */
  lemma SectionsAppend(hash: string -> int, modules: seq<ModuleView>, references: seq<Reference>, h: nat,
                       tree: seq<TreeItem>, tree': seq<TreeItem>, bounds: seq<nat>, origins: seq<seq<ItemOrigin>>,
                       origin: seq<ItemOrigin>)
    requires AllReferencesKnown(modules) && h == |origins| < 4 && |bounds| == h + 1 && bounds[h] == |tree|
    requires Sections(hash, modules, references, tree, bounds, origins)
    requires |tree'| > |tree| && tree'[..|tree|] == tree
    requires SectionPlaced(hash, modules, references, h, tree', |tree|, |tree'|, origin)
    ensures Sections(hash, modules, references, tree', bounds + [|tree'|], origins + [origin])
  {
    SectionsInTree(hash, modules, references, tree, tree', bounds, origins);
    SectionsSnoc(hash, modules, references, tree', bounds, origins, |tree'|, origin);
  }

  /** Sections of one tree, followed by the next section of that tree. */
  lemma SectionsSnoc(hash: string -> int, modules: seq<ModuleView>, references: seq<Reference>,
                     tree: seq<TreeItem>, bounds: seq<nat>, origins: seq<seq<ItemOrigin>>, end: nat,
                     origin: seq<ItemOrigin>)
    requires AllReferencesKnown(modules) && |origins| < 4 && |bounds| == |origins| + 1
    requires Sections(hash, modules, references, tree, bounds, origins)
    requires SectionPlaced(hash, modules, references, |origins|, tree, bounds[|origins|], end, origin)
    ensures Sections(hash, modules, references, tree, bounds + [end], origins + [origin])
  {
    assert (bounds + [end])[..|origins| + 1] == bounds && (origins + [origin])[..|origins|] == origins;
  }

  /**
   Appends section `h` to a tree holding the sections before it.
   */
  method AppendSection(hash: string -> int, modules: seq<ModuleView>, references: seq<Reference>, h: nat,
                       tree: seq<TreeItem>, ghost bounds: seq<nat>, ghost origins: seq<seq<ItemOrigin>>)
    returns (tree': seq<TreeItem>, ghost bounds': seq<nat>, ghost origins': seq<seq<ItemOrigin>>)
    requires AllReferencesKnown(modules) && h == |origins| < 4 && |bounds| == h + 1
    requires HeadersAt(tree, bounds) && Sections(hash, modules, references, tree, bounds, origins)
    ensures |tree'| > |tree| && tree'[..|tree|] == tree && tree'[|tree|] == TreeItem(h, 0, HeaderNames[h])
    ensures bounds' == bounds + [|tree'|] && bounds'[0] == bounds[0] && |origins'| == |origins| + 1
    ensures HeadersAt(tree', bounds') && Sections(hash, modules, references, tree', bounds', origins')
  {
    ghost var origin;
    tree', origin := AddSection(hash, modules, references, h, tree);
    bounds', origins' := bounds + [|tree'|], origins + [origin];
    HeadersAtAppend(tree, tree', bounds, h);
    SectionsAppend(hash, modules, references, h, tree, tree', bounds, origins, origin);
  }

  /**
   The four sections, Branches, Remotes, Tags and Stashes, one after the
   other: header `h` at `bounds[h]`, its items up to `bounds[h + 1]`.
   */
  method Tree(hash: string -> int, modules: seq<ModuleView>, references: seq<Reference>)
    returns (tree: seq<TreeItem>, ghost bounds: seq<nat>, ghost origins: seq<seq<ItemOrigin>>)
    requires AllReferencesKnown(modules)
    ensures |bounds| == 5 && bounds[0] == 0 < bounds[1] < bounds[2] < bounds[3] < bounds[4] == |tree|
    ensures forall h :: 0 <= h < 4 ==> bounds[h] < |tree| && tree[bounds[h]] == TreeItem(h, 0, HeaderNames[h])
    ensures |origins| == 4 && Sections(hash, modules, references, tree, bounds, origins)
  {
    ghost var bounds0, bounds1, bounds2, origins0, origins1, origins2;
    var items0, items1, items2;
    items0, bounds0, origins0 := AppendSection(hash, modules, references, 0, [], [0], []);
    items1, bounds1, origins1 := AppendSection(hash, modules, references, 1, items0, bounds0, origins0);
    items2, bounds2, origins2 := AppendSection(hash, modules, references, 2, items1, bounds1, origins1);
    tree, bounds, origins := AppendSection(hash, modules, references, 3, items2, bounds2, origins2);
  }

  class BranchesWindow {
    var showAllBranches: bool
    /** The last batch started from the context menu (null before any). */
    var checkoutTask: Option<GitTask>
    /** Every (module, command) handed to git by this window, in order. */
    var issued: seq<(string, string)>

    constructor ()
      ensures !showAllBranches && checkoutTask == None && issued == []
    {
      showAllBranches := false;
      checkoutTask := None;
      issued := [];
    }

    /** The "Show All Branches" toggle. */
    method ToggleShowAll(value: bool)
      modifies this
      ensures showAllBranches == value && checkoutTask == old(checkoutTask) && issued == old(issued)
    {
      showAllBranches := value;
    }

    /**
     The item list `OnGUI` builds: nothing unless some module is selected and
     every module's references are known; otherwise the four headers at
     depth 0, header `h` at `bounds[h]`, each followed up to `bounds[h + 1]`
     by the items `BranchesToItems` places for the references of its kind.
     */
    method BuildTree(hash: string -> int, modules: seq<ModuleView>)
      returns (tree: Option<seq<TreeItem>>, ghost bounds: seq<nat>, ghost origins: seq<seq<ItemOrigin>>)
      ensures tree.None? <==> SelectReferences(hash, ReferencesOf(modules), showAllBranches).None?
      ensures tree.Some? ==>
        && |bounds| == 5 && bounds[0] == 0 < bounds[1] < bounds[2] < bounds[3] < bounds[4] == |tree.value|
        && (forall h :: 0 <= h < 4 ==> bounds[h] < |tree.value| && tree.value[bounds[h]] == TreeItem(h, 0, HeaderNames[h]))
      ensures tree.Some? ==>
        && AllReferencesKnown(modules) && |bounds| == 5 && |origins| == 4
        && Sections(hash, modules, SelectReferences(hash, ReferencesOf(modules), showAllBranches).value,
                    tree.value, bounds, origins)
    {
      var selected := SelectReferences(hash, ReferencesOf(modules), showAllBranches);
      bounds, origins := [], [];
      if selected.None? {
        return None, bounds, origins;
      }
      assert AllReferencesKnown(modules) by {
        assert forall i :: 0 <= i < |modules| ==> ReferencesOf(modules)[i] == modules[i].references;
      }
      var items;
      items, bounds, origins := Tree(hash, modules, selected.value);
      tree := Some(items);
    }

    /**
     A context click on item `id`: the menu for the first shown reference
     with that hash, offered only while no earlier batch is still running.
     */
    function ContextClick(hash: string -> int, references: seq<Reference>, id: int): (menu: Option<seq<MenuItem>>)
      reads this
      ensures menu.Some? <==>
        (checkoutTask.None? || checkoutTask.value.completed)
        && exists i :: 0 <= i < |references| && hash(references[i].qualifiedName) == id
      ensures menu.Some? ==>
        exists i :: 0 <= i < |references| && hash(references[i].qualifiedName) == id
          && (forall j :: 0 <= j < i ==> hash(references[j].qualifiedName) != id)
          && menu == ContextMenu(Some(references[i]))
    {
      if checkoutTask.None? || checkoutTask.value.completed then ContextMenu(FindById(hash, references, id)) else None
    }

    /**
     Choosing a menu entry: unless its dialog was declined, the command runs
     in every module and the batch becomes `checkoutTask`.
     */
    method ChooseMenuItem(moduleNames: seq<string>, item: MenuItem, confirmed: bool)
      modifies this
      ensures showAllBranches == old(showAllBranches)
      ensures !item.confirm || confirmed ==>
        checkoutTask == Some(GitTask(item.command, false)) && issued == old(issued) + PerModule(moduleNames, item.command)
      ensures item.confirm && !confirmed ==> checkoutTask == old(checkoutTask) && issued == old(issued)
    {
      if !item.confirm || confirmed {
        checkoutTask := Some(GitTask(item.command, false));
        issued := issued + PerModule(moduleNames, item.command);
      }
    }

    /** The batch finished (observed on a later frame). */
    method CheckoutFinished()
      modifies this
      requires checkoutTask.Some?
      ensures checkoutTask == Some(old(checkoutTask.value).(completed := true))
      ensures showAllBranches == old(showAllBranches) && issued == old(issued)
    {
      checkoutTask := Some(checkoutTask.value.(completed := true));
    }
  }
}
