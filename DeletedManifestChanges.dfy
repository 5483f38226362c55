/**
 * The path changes a changeset makes, as the deleted-files-manifest
 * derivation consumes them: per-parent manifest diffs merged into one map
 * ordered by path (a path both added and removed is a file/dir conflict),
 * or, for a changeset without parents, every path it contains marked as
 * added; the result is arranged as a tree of changes keyed by path element.
 */
module DeletedManifestChanges {
  import opened Wrappers
  import opened Lexicographic

  type PathElement = string

  /** A repository path: a non-empty sequence of elements; the root has no path. */
  type MPath = p: seq<PathElement> | |p| > 0 witness [""]

  datatype PathChange = Add | Remove | FileDirConflict

  /** One entry of a manifest diff between a parent and the changeset; entries are not modelled. */
  datatype Diff = Added(path: Option<MPath>) | Removed(path: Option<MPath>) | Changed(path: Option<MPath>)

  /** The change a diff entry contributes: only additions and removals of a non-root path. */
  function Contribution(d: Diff): Option<(MPath, PathChange)>
  {
    match d
    case Added(Some(p)) => Some((p, Add))
    case Removed(Some(p)) => Some((p, Remove))
    case _ => None
  }

  /** The contributions of a sequence of diff entries, in order. */
  function Contributions(diffs: seq<Diff>): (r: seq<(MPath, PathChange)>)
    ensures forall i :: 0 <= i < |r| ==> r[i].1 != FileDirConflict
  {
    if diffs == [] then []
    else
      var rest := Contributions(diffs[..|diffs| - 1]);
      match Contribution(diffs[|diffs| - 1])
      case None => rest
      case Some(e) => rest + [e]
  }

  /** A change is contributed exactly when some entry adds or removes that path. */
  lemma {:induction false} ContributionsExact(diffs: seq<Diff>, p: MPath, c: PathChange)
    ensures (p, c) in Contributions(diffs) <==>
      (c == Add && Added(Some(p)) in diffs) || (c == Remove && Removed(Some(p)) in diffs)
    decreases |diffs|
  {
    if diffs != [] {
      var init := diffs[..|diffs| - 1];
      ContributionsExact(init, p, c);
      assert diffs == init + [diffs[|diffs| - 1]];
    }
  }

  function Flatten(parentDiffs: seq<seq<Diff>>): seq<Diff>
  {
    if parentDiffs == [] then [] else Flatten(parentDiffs[..|parentDiffs| - 1]) + parentDiffs[|parentDiffs| - 1]
  }

  // ---------------------------------------------------------------------
  // The merge of all parents' changes
  // ---------------------------------------------------------------------

  /** The map entry update: a new path keeps its change; a different change makes a conflict. */
  function Merge(existing: Option<PathChange>, change: PathChange): PathChange
  {
    if existing.None? then change
    else if existing.value != change then FileDirConflict
    else existing.value
  }

  function Get(m: map<MPath, PathChange>, p: MPath): Option<PathChange>
  {
    if p in m then Some(m[p]) else None
  }

  /** The map after applying the entry update for each change in order. */
  function MergedMap(entries: seq<(MPath, PathChange)>): map<MPath, PathChange>
  {
    if entries == [] then map[]
    else
      var m := MergedMap(entries[..|entries| - 1]);
      var e := entries[|entries| - 1];
      m[e.0 := Merge(Get(m, e.0), e.1)]
  }

  predicate Has(entries: seq<(MPath, PathChange)>, p: MPath, c: PathChange)
  {
    (p, c) in entries
  }

  /**
   * Over additions and removals, a path is merged into a conflict exactly
   * when it is both added and removed, and otherwise keeps its one kind.
   */
  lemma {:induction false} MergedOutcome(entries: seq<(MPath, PathChange)>, p: MPath)
    requires forall i :: 0 <= i < |entries| ==> entries[i].1 != FileDirConflict
    ensures p in MergedMap(entries) <==> Has(entries, p, Add) || Has(entries, p, Remove)
    ensures p in MergedMap(entries) ==>
      MergedMap(entries)[p] ==
        if Has(entries, p, Add) && Has(entries, p, Remove) then FileDirConflict
        else if Has(entries, p, Add) then Add
        else Remove
    decreases |entries|
  {
    if entries != [] {
      var init := entries[..|entries| - 1];
      var e := entries[|entries| - 1];
      assert entries == init + [e];
      MergedOutcome(init, p);
      assert forall c :: Has(entries, p, c) <==> Has(init, p, c) || e == (p, c);
    }
  }

  /** A conflict is never changed back by later entries. */
  lemma {:induction false} FileDirConflictSticks(entries: seq<(MPath, PathChange)>, more: seq<(MPath, PathChange)>, p: MPath)
    requires p in MergedMap(entries) && MergedMap(entries)[p] == FileDirConflict
    ensures p in MergedMap(entries + more) && MergedMap(entries + more)[p] == FileDirConflict
    decreases |more|
  {
    if more == [] {
      assert entries + more == entries;
    } else {
      var init := more[..|more| - 1];
      assert (entries + more)[..|entries + more| - 1] == entries + init;
      FileDirConflictSticks(entries, init, p);
    }
  }

  // ---------------------------------------------------------------------
  // The ordered map: an association list sorted by path
  // ---------------------------------------------------------------------

  predicate SortedByPath(s: seq<(MPath, PathChange)>)
  {
    forall i, j :: 0 <= i < j < |s| ==> PathLess(s[i].0, s[j].0)
  }

  function KeysOf(s: seq<(MPath, PathChange)>): set<MPath>
  {
    set i | 0 <= i < |s| :: s[i].0
  }

  lemma KeysOfCons(s: seq<(MPath, PathChange)>)
    requires s != []
    ensures KeysOf(s) == {s[0].0} + KeysOf(s[1..])
  {
    forall k | k in KeysOf(s) ensures k in {s[0].0} + KeysOf(s[1..]) {
      var i :| 0 <= i < |s| && s[i].0 == k;
      if i > 0 {
        assert s[1..][i - 1].0 == k;
      }
    }
    forall k | k in KeysOf(s[1..]) ensures k in KeysOf(s) {
      var i :| 0 <= i < |s[1..]| && s[1..][i].0 == k;
      assert s[i + 1].0 == k;
    }
  }

  /** The change the list holds for a path. */
  function ListGet(s: seq<(MPath, PathChange)>, p: MPath): Option<PathChange>
  {
    if s == [] then None else if s[0].0 == p then Some(s[0].1) else ListGet(s[1..], p)
  }

  /** The first path of a sorted list is below all the others. */
  lemma SortedTail(s: seq<(MPath, PathChange)>)
    requires s != [] && SortedByPath(s)
    ensures SortedByPath(s[1..])
    ensures KeysOf(s) == {s[0].0} + KeysOf(s[1..])
    ensures forall p :: p in KeysOf(s[1..]) ==> PathLess(s[0].0, p)
  {
    KeysOfCons(s);
    forall p | p in KeysOf(s[1..]) ensures PathLess(s[0].0, p) {
      var i :| 0 <= i < |s[1..]| && s[1..][i].0 == p;
      assert s[i + 1].0 == p;
    }
  }

  /** A list whose head is below its sorted tail is sorted. */
  lemma SortedCons(e: (MPath, PathChange), s: seq<(MPath, PathChange)>)
    requires SortedByPath(s)
    requires forall p :: p in KeysOf(s) ==> PathLess(e.0, p)
    ensures SortedByPath([e] + s)
    ensures KeysOf([e] + s) == {e.0} + KeysOf(s)
  {
    var r := [e] + s;
    assert r[1..] == s;
    KeysOfCons(r);
    forall i, j | 0 <= i < j < |r| ensures PathLess(r[i].0, r[j].0) {
      if i == 0 {
        assert r[j].0 in KeysOf(s) by {
          assert s[j - 1] == r[j];
        }
      } else {
        assert r[i] == s[i - 1] && r[j] == s[j - 1];
      }
    }
  }

  /** A path below the first path of a sorted list is not in it. */
  lemma {:induction false} ListGetBelow(s: seq<(MPath, PathChange)>, p: MPath)
    requires SortedByPath(s)
    requires forall q :: q in KeysOf(s) ==> PathLess(p, q)
    ensures ListGet(s, p) == None
    decreases |s|
  {
    if s != [] {
      SortedTail(s);
      PathLessIrreflexive(p);
      ListGetBelow(s[1..], p);
    }
  }

  /** The map entry API on the sorted list: update in place or insert at the path's position. */
  function Upsert(s: seq<(MPath, PathChange)>, p: MPath, c: PathChange): (r: seq<(MPath, PathChange)>)
    requires SortedByPath(s)
    ensures SortedByPath(r)
    ensures KeysOf(r) == KeysOf(s) + {p}
  {
    if s == [] then
      assert KeysOf([(p, c)]) == {p} by {
        KeysOfCons([(p, c)]);
      }
      [(p, c)]
    else
      SortedTail(s);
      if s[0].0 == p then
        var r := [(p, Merge(Some(s[0].1), c))] + s[1..];
        SortedCons(r[0], s[1..]);
        r
      else if PathLess(p, s[0].0) then
        forall q | q in KeysOf(s) ensures PathLess(p, q) {
          if q != s[0].0 {
            PathLessTransitive(p, s[0].0, q);
          }
        }
        SortedCons((p, c), s);
        [(p, c)] + s
      else
        PathLessTotal(p, s[0].0);
        var rest := Upsert(s[1..], p, c);
        SortedCons(s[0], rest);
        [s[0]] + rest
  }

  /** Upsert applies the entry update to the one path and leaves the others. */
  lemma {:induction false} UpsertGet(s: seq<(MPath, PathChange)>, p: MPath, c: PathChange, q: MPath)
    requires SortedByPath(s)
    ensures ListGet(Upsert(s, p, c), q) == if q == p then Some(Merge(ListGet(s, p), c)) else ListGet(s, q)
    decreases |s|
  {
    if s != [] {
      SortedTail(s);
      if s[0].0 == p {
        var r := [(p, Merge(Some(s[0].1), c))] + s[1..];
        assert r[1..] == s[1..];
      } else if PathLess(p, s[0].0) {
        var r := [(p, c)] + s;
        assert r[1..] == s;
        forall k | k in KeysOf(s) ensures PathLess(p, k) {
          if k != s[0].0 {
            PathLessTransitive(p, s[0].0, k);
          }
        }
        ListGetBelow(s, p);
      } else {
        var rest := Upsert(s[1..], p, c);
        UpsertGet(s[1..], p, c, q);
        var r := [s[0]] + rest;
        assert r[1..] == rest;
      }
    }
  }

  /**
   * diff_against_parents: the parents' diffs contribute their additions and
   * removals of non-root paths, merged into one map; the result lists each
   * path once, in ascending path order, with its merged change.
   */
  method DiffAgainstParents(parentDiffs: seq<seq<Diff>>) returns (res: seq<(MPath, PathChange)>)
    ensures SortedByPath(res)
    ensures forall p :: ListGet(res, p) == Get(MergedMap(Contributions(Flatten(parentDiffs))), p)
  {
    var diffs := Contributions(Flatten(parentDiffs));
    var changes: seq<(MPath, PathChange)> := [];
    for i := 0 to |diffs|
      invariant SortedByPath(changes)
      invariant forall p :: ListGet(changes, p) == Get(MergedMap(diffs[..i]), p)
    {
      var (path, change) := diffs[i];
      assert diffs[..i + 1][..i] == diffs[..i];
      forall p ensures ListGet(Upsert(changes, path, change), p) == Get(MergedMap(diffs[..i + 1]), p) {
        UpsertGet(changes, path, change, p);
      }
      changes := Upsert(changes, path, change);
    }
    assert diffs[..|diffs|] == diffs;
    res := changes;
  }

  /** A path occurs once in a sorted list. */
  lemma SortedDistinct(s: seq<(MPath, PathChange)>)
    requires SortedByPath(s)
    ensures forall i, j :: 0 <= i < |s| && 0 <= j < |s| && s[i].0 == s[j].0 ==> i == j
  {
    forall i, j | 0 <= i < |s| && 0 <= j < |s| && s[i].0 == s[j].0 ensures i == j {
      PathLessIrreflexive(s[i].0);
    }
  }

  // ---------------------------------------------------------------------
  // The tree of changes
  // ---------------------------------------------------------------------

  /** A change per path: the value at the root of each subtree, children by path element. */
  datatype PathTree = PathTree(value: Option<PathChange>, subentries: map<PathElement, PathTree>)

  const EmptyTree: PathTree := PathTree(None, map[])

  /** Sets the value at `path`, creating empty nodes on the way. */
  function Insert(t: PathTree, path: seq<PathElement>, v: Option<PathChange>): PathTree
    decreases |path|
  {
    if path == [] then t.(value := v)
    else
      var child := if path[0] in t.subentries then t.subentries[path[0]] else EmptyTree;
      t.(subentries := t.subentries[path[0] := Insert(child, path[1..], v)])
  }

  function Lookup(t: PathTree, path: seq<PathElement>): Option<PathChange>
    decreases |path|
  {
    if path == [] then t.value
    else if path[0] in t.subentries then Lookup(t.subentries[path[0]], path[1..])
    else None
  }

  lemma {:induction false} LookupEmpty(path: seq<PathElement>)
    ensures Lookup(EmptyTree, path) == None
  {
  }

  /** Insertion sets one path and leaves every other path as it was. */
  lemma {:induction false} LookupInsert(t: PathTree, p: seq<PathElement>, v: Option<PathChange>, q: seq<PathElement>)
    ensures Lookup(Insert(t, p, v), q) == if p == q then v else Lookup(t, q)
    decreases |p|
  {
    if p != [] && q != [] {
      var child := if p[0] in t.subentries then t.subentries[p[0]] else EmptyTree;
      if p[0] == q[0] {
        LookupInsert(child, p[1..], v, q[1..]);
        if p[0] !in t.subentries {
          LookupEmpty(q[1..]);
        }
        assert p == [p[0]] + p[1..] && q == [q[0]] + q[1..];
      }
    }
  }

  /** PathTree::from_iter: each path's value set in order. */
  function FromIter(entries: seq<(MPath, PathChange)>): PathTree
  {
    if entries == [] then EmptyTree
    else
      var e := entries[|entries| - 1];
      Insert(FromIter(entries[..|entries| - 1]), e.0, Some(e.1))
  }

  /** The value of the last entry for a path, if any. */
  function LastValue(entries: seq<(MPath, PathChange)>, q: MPath): Option<PathChange>
  {
    if entries == [] then None
    else if entries[|entries| - 1].0 == q then Some(entries[|entries| - 1].1)
    else LastValue(entries[..|entries| - 1], q)
  }

  /** The tree holds no change at the root, and the last change listed for each path. */
  lemma {:induction false} FromIterLookup(entries: seq<(MPath, PathChange)>, q: seq<PathElement>)
    ensures q == [] ==> Lookup(FromIter(entries), q) == None
    ensures q != [] ==> Lookup(FromIter(entries), q) == LastValue(entries, q)
    decreases |entries|
  {
    if entries == [] {
      LookupEmpty(q);
    } else {
      var e := entries[|entries| - 1];
      FromIterLookup(entries[..|entries| - 1], q);
      LookupInsert(FromIter(entries[..|entries| - 1]), e.0, Some(e.1), q);
    }
  }

  lemma {:induction false} ListGetSnoc(s: seq<(MPath, PathChange)>, e: (MPath, PathChange), q: MPath)
    requires e.0 !in KeysOf(s)
    ensures ListGet(s + [e], q) == if q == e.0 then Some(e.1) else ListGet(s, q)
    decreases |s|
  {
    if s != [] {
      KeysOfCons(s);
      assert (s + [e])[1..] == s[1..] + [e];
      ListGetSnoc(s[1..], e, q);
    }
  }

  /** Dropping the last entry of a sorted list leaves a sorted list without its path. */
  lemma SortedInit(s: seq<(MPath, PathChange)>)
    requires s != [] && SortedByPath(s)
    ensures SortedByPath(s[..|s| - 1])
    ensures s[|s| - 1].0 !in KeysOf(s[..|s| - 1])
  {
    var init := s[..|s| - 1];
    forall i, j | 0 <= i < j < |init| ensures PathLess(init[i].0, init[j].0) {
      assert init[i] == s[i] && init[j] == s[j];
    }
    if s[|s| - 1].0 in KeysOf(init) {
      var i :| 0 <= i < |init| && init[i].0 == s[|s| - 1].0;
      assert PathLess(s[i].0, s[|s| - 1].0);
      PathLessIrreflexive(s[i].0);
    }
  }

  /** In a sorted list each path is listed once, so its last entry is its only one. */
  lemma {:induction false} LastValueOfSorted(s: seq<(MPath, PathChange)>, q: MPath)
    requires SortedByPath(s)
    ensures LastValue(s, q) == ListGet(s, q)
    decreases |s|
  {
    if s != [] {
      var init, e := s[..|s| - 1], s[|s| - 1];
      SortedInit(s);
      LastValueOfSorted(init, q);
      ListGetSnoc(init, e, q);
      assert s == init + [e];
    }
  }

  /** The changes of a changeset without parents: every non-root path it lists, added. */
  function AllAdded(listing: seq<Option<MPath>>): (r: seq<(MPath, PathChange)>)
    ensures forall p :: (p, Add) in r <==> Some(p) in listing
    ensures forall i :: 0 <= i < |r| ==> r[i].1 == Add
  {
    if listing == [] then []
    else
      var rest := AllAdded(listing[..|listing| - 1]);
      assert listing == listing[..|listing| - 1] + [listing[|listing| - 1]];
      match listing[|listing| - 1]
      case None => rest
      case Some(p) => rest + [(p, Add)]
  }

  lemma {:induction false} LastValueAllAdded(r: seq<(MPath, PathChange)>, p: MPath)
    requires forall i :: 0 <= i < |r| ==> r[i].1 == Add
    ensures LastValue(r, p) == if (p, Add) in r then Some(Add) else None
    decreases |r|
  {
    if r != [] {
      var init := r[..|r| - 1];
      LastValueAllAdded(init, p);
      assert r == init + [r[|r| - 1]];
    }
  }

  /**
   * get_changes: with no parents every listed non-root path is an
   * addition; otherwise the merged diff against the parents.  The root
   * path never carries a change.
   */
  method GetChanges(listing: seq<Option<MPath>>, parentDiffs: seq<seq<Diff>>) returns (changes: PathTree)
    ensures Lookup(changes, []) == None
    ensures parentDiffs == [] ==>
      forall p: MPath :: Lookup(changes, p) == if Some(p) in listing then Some(Add) else None
    ensures parentDiffs != [] ==>
      forall p: MPath :: Lookup(changes, p) == Get(MergedMap(Contributions(Flatten(parentDiffs))), p)
  {
    var entries: seq<(MPath, PathChange)>;
    if parentDiffs == [] {
      entries := AllAdded(listing);
      forall p: MPath ensures LastValue(entries, p) == if Some(p) in listing then Some(Add) else None {
        LastValueAllAdded(entries, p);
      }
    } else {
      entries := DiffAgainstParents(parentDiffs);
      forall p: MPath ensures LastValue(entries, p) == Get(MergedMap(Contributions(Flatten(parentDiffs))), p) {
        LastValueOfSorted(entries, p);
      }
    }
    changes := FromIter(entries);
    FromIterLookup(entries, []);
    forall p: MPath ensures Lookup(changes, p) == LastValue(entries, p) {
      FromIterLookup(entries, p);
    }
  }
}
