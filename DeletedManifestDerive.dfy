/**
 * Derivation of a changeset's deleted-files manifest from its parents'
 * manifests and its tree of path changes.  A manifest node has an optional
 * linknode (the changeset that deleted the path) and named subentries; a
 * node without a linknode is a live directory some of whose descendants
 * were deleted, and no stored node below the root lacks both.  Each node of
 * the traversal is unfolded into a change type and the child nodes to
 * visit, the children are derived, and the node is rebuilt from the
 * children's results and saved at most once per derivation.
 */
module DeletedManifestDerive {
  import opened Wrappers
  import opened DeletedManifestChanges

  type ChangesetId = nat

  datatype Manifest = Manifest(linknode: Option<ChangesetId>, subentries: map<PathElement, ManifestId>)

  /** A manifest's id is the hash of its content, modelled as collision-free. */
  datatype ManifestId = Id(manifest: Manifest)

  predicate IsDeleted(m: Manifest) { m.linknode.Some? }

  predicate IsEmpty(m: Manifest) { m.subentries == map[] }

  /** The shape every stored node below the root has: deleted, or with subentries. */
  ghost predicate WellFormed(m: Manifest)
  {
    (IsDeleted(m) || !IsEmpty(m)) && forall k :: k in m.subentries ==> WellFormed(m.subentries[k].manifest)
  }

  /** A root may be an empty live node; below it every node is well formed. */
  ghost predicate RootWellFormed(m: Manifest)
  {
    forall k :: k in m.subentries ==> WellFormed(m.subentries[k].manifest)
  }

  /** The root created when the traversal yields no manifest. */
  const EmptyRoot: Manifest := Manifest(None, map[])

  datatype ChangeType = Reuse | CreateDeleted | RemoveIfNowEmpty

  /** How to rebuild a node: its change type and the parent whose subentries it copies. */
  datatype ManifestChange = ManifestChange(changeType: ChangeType, copyFrom: Option<ManifestId>)

  datatype DeriveError = InconsistentStatus | SubentryWithoutPath

  // ---------------------------------------------------------------------
  // Unfold: the change type of a node
  // ---------------------------------------------------------------------

  /** check_consistency over the parent manifests in the order they were loaded. */
  function CheckConsistency(parents: seq<ManifestId>): (r: Result<bool, DeriveError>)
    ensures parents == [] ==> r == Success(false)
    ensures r.Success? ==> forall i :: 0 <= i < |parents| ==> IsDeleted(parents[i].manifest) == r.value
    ensures r.Failure? <==>
      exists i, j :: 0 <= i < |parents| && 0 <= j < |parents| && IsDeleted(parents[i].manifest) != IsDeleted(parents[j].manifest)
  {
    if parents == [] then Success(false)
    else if forall i :: 0 <= i < |parents| ==> IsDeleted(parents[i].manifest) == IsDeleted(parents[0].manifest) then
      Success(IsDeleted(parents[0].manifest))
    else
      Failure(InconsistentStatus)
  }

  /** The common deletion status of a set of parents, if they have one. */
  function ParentStatus(parents: set<ManifestId>): Result<bool, DeriveError>
  {
    if forall p :: p in parents ==> !IsDeleted(p.manifest) then Success(false)
    else if forall p :: p in parents ==> IsDeleted(p.manifest) then Success(true)
    else Failure(InconsistentStatus)
  }

  /** The parents are a hash set: the order they are checked in does not change the outcome. */
  lemma CheckConsistencyOrderFree(parents: seq<ManifestId>)
    ensures CheckConsistency(parents) == ParentStatus(set p | p in parents)
  {
    var s := set p | p in parents;
    if parents != [] {
      assert parents[0] in s;
      if CheckConsistency(parents).Failure? {
        var i, j :| 0 <= i < |parents| && 0 <= j < |parents| &&
          IsDeleted(parents[i].manifest) != IsDeleted(parents[j].manifest);
        assert parents[i] in s && parents[j] in s;
      }
    }
  }

  /** The change type of a node, from its own change, whether anything below changed, and its parents. */
  function DecideChangeType(change: Option<PathChange>, subChanged: bool, parents: set<ManifestId>): (r: Result<ChangeType, DeriveError>)
    ensures r == Success(Reuse) <==> change.None? && !subChanged && |parents| <= 1
    ensures r == Success(CreateDeleted) <==>
      change == Some(Remove) ||
      (change.None? && !subChanged && |parents| >= 2 && forall p :: p in parents ==> IsDeleted(p.manifest))
    ensures r.Failure? <==>
      change.None? && !subChanged &&
      exists p, q :: p in parents && q in parents && IsDeleted(p.manifest) != IsDeleted(q.manifest)
    ensures r.Failure? ==> r.error == InconsistentStatus
  {
    match change
    case None =>
      if subChanged then Success(RemoveIfNowEmpty)
      else if |parents| <= 1 then
        SmallSetAgrees(parents);
        Success(Reuse)
      else
        (match ParentStatus(parents)
         case Failure(e) => Failure(e)
         case Success(deleted) => Success(if deleted then CreateDeleted else RemoveIfNowEmpty))
    case Some(Add) => Success(RemoveIfNowEmpty)
    case Some(Remove) => Success(CreateDeleted)
    case Some(FileDirConflict) => Success(RemoveIfNowEmpty)
  }

  lemma SmallSetAgrees(parents: set<ManifestId>)
    requires |parents| <= 1
    ensures forall p, q :: p in parents && q in parents ==> p == q
  {
    forall p, q | p in parents && q in parents ensures p == q {
      if p != q {
        assert {p, q} <= parents;
        assert |{p, q}| == 2;
        SubsetCard({p, q}, parents);
      }
    }
  }

  lemma SubsetCard(a: set<ManifestId>, b: set<ManifestId>)
    requires a <= b
    ensures |a| <= |b|
  {
    if a != {} {
      var x :| x in a;
      SubsetCard(a - {x}, b - {x});
    }
  }

  /** The parent a node copies its subentries from: its one parent, if it has exactly one. */
  function CopySource(parents: set<ManifestId>): (r: Option<ManifestId>)
    ensures r.Some? <==> |parents| == 1
    ensures r.Some? ==> parents == {r.value}
  {
    if |parents| == 1 then
      SmallSetAgrees(parents);
      var p :| p in parents;
      assert parents == {p} by {
        SmallSetAgrees(parents);
      }
      Some(p)
    else None
  }

  // ---------------------------------------------------------------------
  // Unfold: the child nodes to visit
  // ---------------------------------------------------------------------

  /** A node of the traversal: the path element leading to it, its changes and its distinct parents. */
  datatype UnfoldNode = UnfoldNode(pathElement: Option<PathElement>, changes: PathTree, parents: set<ManifestId>)

  function ChildChanges(changes: PathTree, name: PathElement): PathTree
  {
    if name in changes.subentries then changes.subentries[name] else EmptyTree
  }

  /** The parents' subentries of one name. */
  function ChildParents(parents: set<ManifestId>, name: PathElement): set<ManifestId>
  {
    set p | p in parents && name in p.manifest.subentries :: p.manifest.subentries[name]
  }

  /** The names of all the parents' subentries. */
  function SubentryNames(parents: set<ManifestId>): set<PathElement>
  {
    set p, k | p in parents && k in p.manifest.subentries :: k
  }

  /** The children visited: the changed names, and with several parents every parent subentry name. */
  function ChildNames(changes: PathTree, parents: set<ManifestId>): set<PathElement>
  {
    changes.subentries.Keys + (if |parents| >= 2 then SubentryNames(parents) else {})
  }

  function Children(changes: PathTree, parents: set<ManifestId>): map<PathElement, UnfoldNode>
  {
    map k | k in ChildNames(changes, parents) :: ChildNode(changes, parents, k)
  }

  /** do_unfold: the node's change and the children to visit (none when the node is reused). */
  function Unfold(changes: PathTree, parents: set<ManifestId>): Result<(ManifestChange, map<PathElement, UnfoldNode>), DeriveError>
  {
    match DecideChangeType(changes.value, changes.subentries != map[], parents)
    case Failure(e) => Failure(e)
    case Success(ct) =>
      Success((ManifestChange(ct, CopySource(parents)), if ct == Reuse then map[] else Children(changes, parents)))
  }

  /** With one parent, the changed children inherit that parent's subentry of the same name. */
  lemma OneParentChildren(changes: PathTree, parent: ManifestId, name: PathElement)
    ensures name in Children(changes, {parent}) <==> name in changes.subentries
    ensures name in Children(changes, {parent}) ==>
      Children(changes, {parent})[name].parents ==
        if name in parent.manifest.subentries then {parent.manifest.subentries[name]} else {}
  {
    assert |{parent}| == 1;
  }

  /** With several parents, every name of a change or of any parent's subentry is visited. */
  lemma ManyParentsChildren(changes: PathTree, parents: set<ManifestId>, name: PathElement)
    requires |parents| >= 2
    ensures name in Children(changes, parents) <==>
      name in changes.subentries || exists p :: p in parents && name in p.manifest.subentries
    ensures CopySource(parents) == None
  {
    if exists p :: p in parents && name in p.manifest.subentries {
      var p :| p in parents && name in p.manifest.subentries;
      assert name in SubentryNames(parents);
    }
  }

  /**
   * do_unfold's child selection as the source performs it: the changed
   * names first, then either the one parent's matching subentries, or, with
   * several parents, every subentry of every parent.
   */
  method SelectChildren(changes: PathTree, parents: set<ManifestId>) returns (children: map<PathElement, UnfoldNode>)
    ensures children == Children(changes, parents)
  {
    if |parents| == 1 {
      var parent := CopySource(parents).value;
      children := InheritSubentries(changes, parent);
    } else {
      children := MergeSubentries(changes, parents);
      if |parents| == 0 {
        assert SubentryNames(parents) == {};
      }
    }
    SameChildren(changes, parents, children);
  }

  /** With several parents: every changed name and every parent subentry name, with all parents' subentries. */
  method MergeSubentries(changes: PathTree, parents: set<ManifestId>) returns (children: map<PathElement, UnfoldNode>)
    ensures children.Keys == changes.subentries.Keys + SubentryNames(parents)
    ensures forall k :: k in children ==> children[k] == ChildNode(changes, parents, k)
  {
    var todo := parents;
    children := map k | k in changes.subentries :: UnfoldNode(Some(k), changes.subentries[k], {});
    assert parents - todo == {};
    while todo != {}
      invariant todo <= parents
      invariant children.Keys == changes.subentries.Keys + SubentryNames(parents - todo)
      invariant forall k :: k in children ==> children[k] == ChildNode(changes, parents - todo, k)
      decreases todo
    {
      var parent :| parent in todo;
      children := AddSubentriesOf(changes, parents - todo, parent, children);
      assert parents - (todo - {parent}) == (parents - todo) + {parent};
      todo := todo - {parent};
    }
    assert parents - todo == parents;
  }

  /** A map with the visited names that holds each name's child is the children. */
  lemma SameChildren(changes: PathTree, parents: set<ManifestId>, children: map<PathElement, UnfoldNode>)
    requires children.Keys == ChildNames(changes, parents)
    requires forall k :: k in children ==> children[k] == ChildNode(changes, parents, k)
    ensures children == Children(changes, parents)
  {
  }

  /** With one parent: each changed child takes the parent's subentry of its name, if any. */
  method InheritSubentries(changes: PathTree, parent: ManifestId) returns (children: map<PathElement, UnfoldNode>)
    ensures children.Keys == changes.subentries.Keys
    ensures forall k :: k in children ==> children[k] == ChildNode(changes, {parent}, k)
  {
    children := map k | k in changes.subentries :: UnfoldNode(Some(k), changes.subentries[k], {});
    var todo := children.Keys;
    while todo != {}
      invariant children.Keys == changes.subentries.Keys
      invariant todo <= children.Keys
      invariant forall k :: k in children ==>
        children[k] == UnfoldNode(Some(k), changes.subentries[k], if k in todo then {} else ChildParents({parent}, k))
      decreases todo
    {
      var k :| k in todo;
      ChildParentsSingle(parent, k);
      if k in parent.manifest.subentries {
        children := children[k := children[k].(parents := children[k].parents + {parent.manifest.subentries[k]})];
      }
      todo := todo - {k};
    }
  }

  /** With several parents: one more parent's subentries join the children, creating missing ones. */
  method AddSubentriesOf(changes: PathTree, done: set<ManifestId>, parent: ManifestId, children0: map<PathElement, UnfoldNode>)
    returns (children: map<PathElement, UnfoldNode>)
    requires children0.Keys == changes.subentries.Keys + SubentryNames(done)
    requires forall k :: k in children0 ==> children0[k] == ChildNode(changes, done, k)
    ensures children.Keys == changes.subentries.Keys + SubentryNames(done + {parent})
    ensures forall k :: k in children ==> children[k] == ChildNode(changes, done + {parent}, k)
  {
    children := children0;
    var subentries := parent.manifest.subentries;
    var names := subentries.Keys;
    assert Partway(changes, done, parent, {}, children);
    while names != {}
      invariant names <= subentries.Keys
      invariant Partway(changes, done, parent, subentries.Keys - names, children)
      decreases names
    {
      var k :| k in names;
      var node := if k in children then children[k] else UnfoldNode(Some(k), EmptyTree, {});
      PartwayStep(changes, done, parent, subentries.Keys - names, children, k);
      assert subentries.Keys - (names - {k}) == (subentries.Keys - names) + {k};
      children := children[k := node.(parents := node.parents + {subentries[k]})];
      names := names - {k};
    }
    assert subentries.Keys - names == subentries.Keys;
    PartwayDone(changes, done, parent, children);
  }

  lemma PartwayDone(changes: PathTree, done: set<ManifestId>, parent: ManifestId, children: map<PathElement, UnfoldNode>)
    requires Partway(changes, done, parent, parent.manifest.subentries.Keys, children)
    ensures children.Keys == changes.subentries.Keys + SubentryNames(done + {parent})
    ensures forall k :: k in children ==> children[k] == ChildNode(changes, done + {parent}, k)
  {
    AddParent(done, parent);
  }

  /** The children once the parents in `done` and the names `seen` of one more parent are merged. */
  ghost predicate Partway(changes: PathTree, done: set<ManifestId>, parent: ManifestId, seen: set<PathElement>,
                          children: map<PathElement, UnfoldNode>)
  {
    seen <= parent.manifest.subentries.Keys &&
    children.Keys == changes.subentries.Keys + SubentryNames(done) + seen &&
    forall k :: k in children ==>
      children[k] == UnfoldNode(Some(k), ChildChanges(changes, k),
        ChildParents(done, k) + if k in seen then {parent.manifest.subentries[k]} else {})
  }

  lemma PartwayStep(changes: PathTree, done: set<ManifestId>, parent: ManifestId, seen: set<PathElement>,
                    children: map<PathElement, UnfoldNode>, k: PathElement)
    requires seen <= parent.manifest.subentries.Keys
    requires k in parent.manifest.subentries && k !in seen
    requires Partway(changes, done, parent, seen, children)
    ensures
      var node := if k in children then children[k] else UnfoldNode(Some(k), EmptyTree, {});
      Partway(changes, done, parent, seen + {k},
        children[k := node.(parents := node.parents + {parent.manifest.subentries[k]})])
  {
    var v := parent.manifest.subentries[k];
    var node := if k in children then children[k] else UnfoldNode(Some(k), EmptyTree, {});
    var next := children[k := node.(parents := node.parents + {v})];
    var seen' := seen + {k};
    assert next.Keys == changes.subentries.Keys + SubentryNames(done) + seen';
    forall j | j in next
      ensures next[j] == UnfoldNode(Some(j), ChildChanges(changes, j),
                           ChildParents(done, j) + if j in seen' then {parent.manifest.subentries[j]} else {})
    {
      if j == k && k !in children {
        NoNameNoParents(done, k);
      }
    }
  }

  function ChildNode(changes: PathTree, parents: set<ManifestId>, name: PathElement): UnfoldNode
  {
    UnfoldNode(Some(name), ChildChanges(changes, name), ChildParents(parents, name))
  }

  lemma ChildParentsSingle(parent: ManifestId, name: PathElement)
    ensures ChildParents({parent}, name) ==
      if name in parent.manifest.subentries then {parent.manifest.subentries[name]} else {}
  {
  }

  lemma NoNameNoParents(parents: set<ManifestId>, name: PathElement)
    requires name !in SubentryNames(parents)
    ensures ChildParents(parents, name) == {}
  {
  }

  lemma AddParent(done: set<ManifestId>, parent: ManifestId)
    ensures SubentryNames(done + {parent}) == SubentryNames(done) + parent.manifest.subentries.Keys
    ensures forall k ::
      ChildParents(done + {parent}, k) == ChildParents(done, k) + if k in parent.manifest.subentries then {parent.manifest.subentries[k]} else {}
  {
    forall k | k in parent.manifest.subentries ensures k in SubentryNames(done + {parent}) {
    }
  }

  // ---------------------------------------------------------------------
  // Fold: rebuilding a node
  // ---------------------------------------------------------------------

  /** Subentries after the children's results: Some sets the entry, None removes it. */
  function ApplyUpdates(base: map<PathElement, ManifestId>, updates: map<PathElement, Option<ManifestId>>): map<PathElement, ManifestId>
  {
    map k | k in base.Keys + updates.Keys && (k in updates ==> updates[k].Some?) ::
      if k in updates then updates[k].value else base[k]
  }

  /** copy_and_update_subentries: the copy source's subentries (or none), updated, under a new linknode. */
  function CopyAndUpdate(copyFrom: Option<ManifestId>, linknode: Option<ChangesetId>, updates: map<PathElement, Option<ManifestId>>): Manifest
  {
    Manifest(linknode, ApplyUpdates(if copyFrom.Some? then copyFrom.value.manifest.subentries else map[], updates))
  }

  /** do_create: the id a node folds to, or None when it is not needed. */
  function Create(change: ManifestChange, updates: map<PathElement, Option<ManifestId>>, cs: ChangesetId): (r: Option<ManifestId>)
    ensures change.changeType == Reuse ==> r == change.copyFrom
    ensures change.changeType == CreateDeleted ==> r.Some? && r.value.manifest.linknode == Some(cs)
    ensures change.changeType == RemoveIfNowEmpty ==>
      (r.None? <==> IsEmpty(CopyAndUpdate(change.copyFrom, None, updates)))
    ensures change.changeType == RemoveIfNowEmpty && r.Some? ==>
      r.value.manifest.linknode.None? && !IsEmpty(r.value.manifest)
    ensures change.changeType != Reuse && r.Some? ==> r.value == Id(CopyAndUpdate(change.copyFrom, r.value.manifest.linknode, updates))
  {
    match change.changeType
    case Reuse => change.copyFrom
    case CreateDeleted => Some(Id(CopyAndUpdate(change.copyFrom, Some(cs), updates)))
    case RemoveIfNowEmpty =>
      var m := CopyAndUpdate(change.copyFrom, None, updates);
      if IsEmpty(m) then None else Some(Id(m))
  }

  /** The children's results in the order they arrive; later entries of a name replace earlier ones. */
  function UpdatesOf(entries: seq<(Option<PathElement>, Option<ManifestId>)>): map<PathElement, Option<ManifestId>>
  {
    if entries == [] then map[]
    else
      var rest := UpdatesOf(entries[..|entries| - 1]);
      var e := entries[|entries| - 1];
      if e.0.Some? then rest[e.0.value := e.1] else rest
  }

  /** With distinct names, each child's result is the update of its name, and there are no others. */
  lemma {:induction false} UpdatesOfDistinct(entries: seq<(Option<PathElement>, Option<ManifestId>)>)
    requires forall i, j :: 0 <= i < j < |entries| && entries[i].0.Some? ==> entries[i].0 != entries[j].0
    ensures forall k :: k in UpdatesOf(entries) <==> exists i :: 0 <= i < |entries| && entries[i].0 == Some(k)
    ensures forall i :: 0 <= i < |entries| && entries[i].0.Some? ==> UpdatesOf(entries)[entries[i].0.value] == entries[i].1
    decreases |entries|
  {
    if entries != [] {
      var init := entries[..|entries| - 1];
      assert forall i :: 0 <= i < |init| ==> init[i] == entries[i];
      UpdatesOfDistinct(init);
    }
  }

  /**
   * `outputs` holds, once each, the successful result of every name in
   * `done`, and `at` says where.
   */
  ghost predicate OutputsOf(outputs: seq<(Option<PathElement>, Option<ManifestId>)>,
                            results: map<PathElement, Result<Option<ManifestId>, DeriveError>>,
                            at: map<PathElement, nat>, done: set<PathElement>)
  {
    && at.Keys == done && done <= results.Keys
    && (forall k :: k in at ==> at[k] < |outputs| && outputs[at[k]].0 == Some(k))
    && (forall i :: 0 <= i < |outputs| ==>
          outputs[i].0.Some? && outputs[i].0.value in done && results[outputs[i].0.value] == Success(outputs[i].1))
    && (forall i, j :: 0 <= i < j < |outputs| ==> outputs[i].0 != outputs[j].0)
  }

  lemma OutputsOfStep(outputs: seq<(Option<PathElement>, Option<ManifestId>)>,
                      results: map<PathElement, Result<Option<ManifestId>, DeriveError>>,
                      at: map<PathElement, nat>, done: set<PathElement>, k: PathElement, v: Option<ManifestId>)
    requires OutputsOf(outputs, results, at, done)
    requires k !in done && k in results && results[k] == Success(v)
    ensures OutputsOf(outputs + [(Some(k), v)], results, at[k := |outputs|], done + {k})
  {
    var o := outputs + [(Some(k), v)];
    forall i, j | 0 <= i < j < |o| ensures o[i].0 != o[j].0 {
      if j == |outputs| {
        assert o[i] == outputs[i];
      }
    }
  }

  lemma OutputsOfDone(outputs: seq<(Option<PathElement>, Option<ManifestId>)>,
                      results: map<PathElement, Result<Option<ManifestId>, DeriveError>>,
                      at: map<PathElement, nat>)
    requires OutputsOf(outputs, results, at, results.Keys)
    ensures forall k :: k in results ==> results[k].Success?
    ensures forall i :: 0 <= i < |outputs| ==> outputs[i].0.Some?
    ensures UpdatesOf(outputs) == Updates(results)
  {
    forall k | k in results ensures results[k].Success? {
      assert outputs[at[k]].0 == Some(k);
    }
    UpdatesOfDistinct(outputs);
    var u := UpdatesOf(outputs);
    forall k ensures k in u <==> k in Updates(results) {
      if k in results {
        assert outputs[at[k]].0 == Some(k);
      }
    }
    forall k | k in u ensures u[k] == Updates(results)[k] {
      var i :| 0 <= i < |outputs| && outputs[i].0 == Some(k);
    }
  }

  /** The fold loop: collect the children's results by name; a child without a name is an error. */
  method CollectSubentries(entries: seq<(Option<PathElement>, Option<ManifestId>)>)
    returns (r: Result<map<PathElement, Option<ManifestId>>, DeriveError>)
    ensures r.Failure? <==> exists i :: 0 <= i < |entries| && entries[i].0.None?
    ensures r.Failure? ==> r.error == SubentryWithoutPath
    ensures r.Success? ==> r.value == UpdatesOf(entries)
  {
    var updates: map<PathElement, Option<ManifestId>> := map[];
    for i := 0 to |entries|
      invariant forall j :: 0 <= j < i ==> entries[j].0.Some?
      invariant updates == UpdatesOf(entries[..i])
    {
      match entries[i].0
      case None =>
        return Failure(SubentryWithoutPath);
      case Some(path) =>
        assert entries[..i + 1][..i] == entries[..i];
        updates := updates[path := entries[i].1];
    }
    assert entries[..|entries|] == entries;
    return Success(updates);
  }

  // ---------------------------------------------------------------------
  // The traversal, as a function of its inputs
  // ---------------------------------------------------------------------

  ghost function MaxOf(s: set<nat>): (r: nat)
    ensures forall x :: x in s ==> x <= r
    ensures s != {} ==> r in s
  {
    if s == {} then 0
    else
      var x :| x in s;
      var rest := s - {x};
      assert forall y :: y in s ==> y == x || y in rest;
      if rest == {} then x
      else
        var m := MaxOf(rest);
        if x <= m then m else x
  }

  ghost function Height(m: Manifest): nat
  {
    if m.subentries == map[] then 0
    else 1 + MaxOf(set k | k in m.subentries :: Height(m.subentries[k].manifest))
  }

  ghost function TreeHeight(t: PathTree): nat
  {
    if t.subentries == map[] then 0
    else 1 + MaxOf(set k | k in t.subentries :: TreeHeight(t.subentries[k]))
  }

  ghost function ParentsHeight(parents: set<ManifestId>): nat
  {
    MaxOf(set p | p in parents :: Height(p.manifest))
  }

  ghost function Measure(changes: PathTree, parents: set<ManifestId>): nat
  {
    TreeHeight(changes) + ParentsHeight(parents)
  }

  lemma SubentryLower(m: Manifest, k: PathElement)
    requires k in m.subentries
    ensures Height(m.subentries[k].manifest) < Height(m)
  {
    var hs := set j | j in m.subentries :: Height(m.subentries[j].manifest);
    assert Height(m) == 1 + MaxOf(hs);
    assert Height(m.subentries[k].manifest) in hs;
  }

  lemma SubtreeLower(t: PathTree, k: PathElement)
    requires k in t.subentries
    ensures TreeHeight(t.subentries[k]) < TreeHeight(t)
  {
    var hs := set j | j in t.subentries :: TreeHeight(t.subentries[j]);
    assert TreeHeight(t) == 1 + MaxOf(hs);
    assert TreeHeight(t.subentries[k]) in hs;
  }

  lemma ParentsLower(parents: set<ManifestId>, k: PathElement)
    ensures ParentsHeight(ChildParents(parents, k)) <= ParentsHeight(parents)
    ensures ChildParents(parents, k) != {} ==> ParentsHeight(ChildParents(parents, k)) < ParentsHeight(parents)
  {
    var cp := ChildParents(parents, k);
    var ch := set q | q in cp :: Height(q.manifest);
    var ph := set p | p in parents :: Height(p.manifest);
    forall h | h in ch ensures h < MaxOf(ph) {
      var q :| q in cp && h == Height(q.manifest);
      var p :| p in parents && k in p.manifest.subentries && q == p.manifest.subentries[k];
      SubentryLower(p.manifest, k);
      assert Height(p.manifest) in ph;
    }
    if cp != {} {
      var q :| q in cp;
      assert Height(q.manifest) in ch;
    }
  }

  /** A child is strictly lower in the change tree or in the parents. */
  lemma ChildSmaller(changes: PathTree, parents: set<ManifestId>, k: PathElement)
    requires k in ChildNames(changes, parents)
    ensures Measure(ChildChanges(changes, k), ChildParents(parents, k)) < Measure(changes, parents)
  {
    ParentsLower(parents, k);
    if k in changes.subentries {
      SubtreeLower(changes, k);
    } else {
      var p :| p in parents && k in p.manifest.subentries;
      assert p.manifest.subentries[k] in ChildParents(parents, k);
    }
  }

  lemma ChildrenSmaller(changes: PathTree, parents: set<ManifestId>)
    ensures forall k :: k in ChildNames(changes, parents) ==>
      Measure(ChildChanges(changes, k), ChildParents(parents, k)) < Measure(changes, parents)
  {
    forall k | k in ChildNames(changes, parents)
      ensures Measure(ChildChanges(changes, k), ChildParents(parents, k)) < Measure(changes, parents)
    {
      ChildSmaller(changes, parents, k);
    }
  }

  /** The children Unfold returns are the child nodes of their names. */
  lemma UnfoldChildren(changes: PathTree, parents: set<ManifestId>)
    requires Unfold(changes, parents).Success?
    ensures forall k :: k in Unfold(changes, parents).value.1 ==>
      k in ChildNames(changes, parents) && Unfold(changes, parents).value.1[k] == ChildNode(changes, parents, k)
  {
  }

  /**
   * The result of the traversal below a node: unfold it, derive every
   * child, and fold the children's results into the node.
   */
  ghost function NodeResult(changes: PathTree, parents: set<ManifestId>, cs: ChangesetId): Result<Option<ManifestId>, DeriveError>
    decreases Measure(changes, parents), 1
  {
    var u := Unfold(changes, parents);
    if u.Failure? then Failure(u.error)
    else FoldChildren(u.value.0, ChildResults(changes, parents, cs), cs)
  }

  /** The results of a node's children, by name. */
  ghost function ChildResults(changes: PathTree, parents: set<ManifestId>, cs: ChangesetId): (r: map<PathElement, Result<Option<ManifestId>, DeriveError>>)
    requires Unfold(changes, parents).Success?
    ensures r.Keys == Unfold(changes, parents).value.1.Keys
    decreases Measure(changes, parents), 0
  {
    UnfoldChildren(changes, parents);
    ChildrenSmaller(changes, parents);
    map k | k in Unfold(changes, parents).value.1 :: NodeResult(ChildChanges(changes, k), ChildParents(parents, k), cs)
  }

  lemma ChildResultAt(changes: PathTree, parents: set<ManifestId>, cs: ChangesetId, k: PathElement)
    requires Unfold(changes, parents).Success?
    requires k in Unfold(changes, parents).value.1
    ensures ChildResults(changes, parents, cs)[k] == NodeResult(ChildChanges(changes, k), ChildParents(parents, k), cs)
  {
  }

  /** The successful children's results, by name. */
  function Updates(results: map<PathElement, Result<Option<ManifestId>, DeriveError>>): map<PathElement, Option<ManifestId>>
  {
    map k | k in results && results[k].Success? :: results[k].value
  }

  /** The fold of a node: a failing child's error, or the node rebuilt from the children's results. */
  ghost function FoldChildren(change: ManifestChange, results: map<PathElement, Result<Option<ManifestId>, DeriveError>>, cs: ChangesetId)
    : (r: Result<Option<ManifestId>, DeriveError>)
    ensures r.Failure? <==> exists k :: k in results && results[k].Failure?
    ensures r.Failure? ==> exists k :: k in results && results[k] == r
    ensures r.Success? ==> r.value == Create(change, Updates(results), cs)
  {
    if exists k :: k in results && results[k].Failure? then
      var k :| k in results && results[k].Failure?;
      results[k]
    else
      Success(Create(change, Updates(results), cs))
  }

  /** derive: the root of the traversal, or an empty live root when it yields none. */
  ghost function Derived(cs: ChangesetId, parents: seq<ManifestId>, changes: PathTree): Result<ManifestId, DeriveError>
  {
    match NodeResult(changes, (set p | p in parents), cs)
    case Failure(e) => Failure(e)
    case Success(None) => Success(Id(EmptyRoot))
    case Success(Some(id)) => Success(id)
  }

  // ---------------------------------------------------------------------
  // What a derivation saves
  // ---------------------------------------------------------------------

  /** The node a fold saves: the rebuilt node, when the node is not reused and one is kept. */
  ghost function Rebuilt(change: ManifestChange, results: map<PathElement, Result<Option<ManifestId>, DeriveError>>, cs: ChangesetId)
    : set<ManifestId>
  {
    var f := FoldChildren(change, results, cs);
    if change.changeType != Reuse && f.Success? && f.value.Some? then {f.value.value} else {}
  }

  /**
   * The manifests the traversal below a node saves: everything its children
   * save, and its own rebuilt node.
   */
  ghost function Saved(changes: PathTree, parents: set<ManifestId>, cs: ChangesetId): set<ManifestId>
    decreases Measure(changes, parents), 1
  {
    var u := Unfold(changes, parents);
    if u.Failure? then {}
    else ChildrenSaved(changes, parents, cs) + Rebuilt(u.value.0, ChildResults(changes, parents, cs), cs)
  }

  ghost function ChildrenSaved(changes: PathTree, parents: set<ManifestId>, cs: ChangesetId): set<ManifestId>
    requires Unfold(changes, parents).Success?
    decreases Measure(changes, parents), 0
  {
    UnfoldChildren(changes, parents);
    ChildrenSmaller(changes, parents);
    set k, id | k in Unfold(changes, parents).value.1 && id in Saved(ChildChanges(changes, k), ChildParents(parents, k), cs) :: id
  }

  /** The manifests saved below the children named in `names`. */
  ghost function SavedAmong(children: map<PathElement, UnfoldNode>, names: set<PathElement>, cs: ChangesetId): set<ManifestId>
  {
    set k, id | k in names && k in children && id in Saved(children[k].changes, children[k].parents, cs) :: id
  }

  /** What `derive` saves: the traversal's manifests, and the empty root when the traversal yields none. */
  ghost function DerivedSaved(cs: ChangesetId, parents: seq<ManifestId>, changes: PathTree): set<ManifestId>
  {
    var ps := set p | p in parents;
    Saved(changes, ps, cs) + if NodeResult(changes, ps, cs) == Success(None) then {Id(EmptyRoot)} else {}
  }

  lemma SavedAmongStep(children: map<PathElement, UnfoldNode>, names: set<PathElement>, k: PathElement, cs: ChangesetId)
    requires k in children
    ensures SavedAmong(children, names + {k}, cs) ==
      SavedAmong(children, names, cs) + Saved(children[k].changes, children[k].parents, cs)
  {
  }

  lemma SavedAmongMono(children: map<PathElement, UnfoldNode>, names: set<PathElement>, more: set<PathElement>, cs: ChangesetId)
    requires names <= more
    ensures SavedAmong(children, names, cs) <= SavedAmong(children, more, cs)
  {
  }

  /** The children Unfold returns save exactly what the traversal's children save. */
  lemma ChildrenSavedAmong(changes: PathTree, parents: set<ManifestId>, cs: ChangesetId)
    requires Unfold(changes, parents).Success?
    ensures ChildrenSaved(changes, parents, cs) ==
      SavedAmong(Unfold(changes, parents).value.1, Unfold(changes, parents).value.1.Keys, cs)
  {
    UnfoldChildren(changes, parents);
  }

  /** What a node saves: what its unfolded children save, and its own rebuilt node. */
  lemma SavedOfNode(changes: PathTree, parents: set<ManifestId>, cs: ChangesetId)
    requires Unfold(changes, parents).Success?
    ensures Saved(changes, parents, cs) ==
      SavedAmong(Unfold(changes, parents).value.1, Unfold(changes, parents).value.1.Keys, cs) +
      Rebuilt(Unfold(changes, parents).value.0, ChildResults(changes, parents, cs), cs)
  {
    ChildrenSavedAmong(changes, parents, cs);
  }

  /** Once every child has succeeded, the node's own save is the kept node do_create builds. */
  lemma RebuiltOfUpdates(change: ManifestChange, results: map<PathElement, Result<Option<ManifestId>, DeriveError>>,
                         updates: map<PathElement, Option<ManifestId>>, cs: ChangesetId)
    requires forall k :: k in results ==> results[k].Success?
    requires updates == Updates(results)
    ensures Rebuilt(change, results, cs) ==
      if change.changeType != Reuse && Create(change, updates, cs).Some? then {Create(change, updates, cs).value} else {}
  {
  }

  /** A node the traversal yields is either one of its parents, reused, or a manifest it saved. */
  lemma ResultSavedOrReused(changes: PathTree, parents: set<ManifestId>, cs: ChangesetId)
    ensures NodeResult(changes, parents, cs).Success? && NodeResult(changes, parents, cs).value.Some? ==>
      NodeResult(changes, parents, cs).value.value in Saved(changes, parents, cs) ||
      NodeResult(changes, parents, cs).value.value in parents
  {
    var r := NodeResult(changes, parents, cs);
    if r.Success? && r.value.Some? {
      var change := Unfold(changes, parents).value.0;
      if change.changeType == Reuse {
        assert r.value == CopySource(parents);
      } else {
        assert r.value.value in Rebuilt(change, ChildResults(changes, parents, cs), cs);
      }
    }
  }

  /**
   * Every manifest a derivation saves from parents with well-formed
   * descendants is itself well formed: deleted, or with subentries.
   */
  lemma {:induction false} SavedWellFormed(changes: PathTree, parents: set<ManifestId>, cs: ChangesetId)
    requires forall p :: p in parents ==> RootWellFormed(p.manifest)
    ensures forall id :: id in Saved(changes, parents, cs) ==> WellFormed(id.manifest)
    decreases Measure(changes, parents)
  {
    var u := Unfold(changes, parents);
    if u.Success? {
      forall id | id in ChildrenSaved(changes, parents, cs) ensures WellFormed(id.manifest) {
        var k :| k in u.value.1 && id in Saved(ChildChanges(changes, k), ChildParents(parents, k), cs);
        UnfoldChildren(changes, parents);
        ChildSmaller(changes, parents, k);
        ChildParentsWellFormed(parents, k);
        SavedWellFormed(ChildChanges(changes, k), ChildParents(parents, k), cs);
      }
      var own := Rebuilt(u.value.0, ChildResults(changes, parents, cs), cs);
      forall id | id in own ensures WellFormed(id.manifest) {
        RebuiltRootWellFormed(changes, parents, cs);
        assert NodeResult(changes, parents, cs) == Success(Some(id));
      }
    }
  }

  /** The only error a derivation reports is parents with inconsistent deletion status. */
  lemma {:induction false} NodeResultErrors(changes: PathTree, parents: set<ManifestId>, cs: ChangesetId)
    ensures NodeResult(changes, parents, cs).Failure? ==> NodeResult(changes, parents, cs).error == InconsistentStatus
    decreases Measure(changes, parents)
  {
    if NodeResult(changes, parents, cs).Failure? && Unfold(changes, parents).Success? {
      var results := ChildResults(changes, parents, cs);
      var k :| k in results && results[k] == NodeResult(changes, parents, cs);
      UnfoldChildren(changes, parents);
      ChildSmaller(changes, parents, k);
      NodeResultErrors(ChildChanges(changes, k), ChildParents(parents, k), cs);
    }
  }

  /** Below a well-formed parent, every child's parents are well formed. */
  lemma ChildParentsWellFormed(parents: set<ManifestId>, k: PathElement)
    requires forall p :: p in parents ==> RootWellFormed(p.manifest)
    ensures forall q :: q in ChildParents(parents, k) ==> WellFormed(q.manifest)
  {
  }

  lemma ApplyUpdatesWellFormed(base: map<PathElement, ManifestId>, updates: map<PathElement, Option<ManifestId>>)
    requires forall k :: k in base ==> WellFormed(base[k].manifest)
    requires forall k :: k in updates && updates[k].Some? ==> WellFormed(updates[k].value.manifest)
    ensures forall k :: k in ApplyUpdates(base, updates) ==> WellFormed(ApplyUpdates(base, updates)[k].manifest)
  {
  }

  /**
   * A node rebuilt (not reused) from parents whose descendants are well
   * formed has only well-formed descendants.
   */
  lemma {:induction false} RebuiltRootWellFormed(changes: PathTree, parents: set<ManifestId>, cs: ChangesetId)
    requires forall p :: p in parents ==> RootWellFormed(p.manifest)
    ensures NodeResult(changes, parents, cs).Success? && NodeResult(changes, parents, cs).value.Some? ==>
      RootWellFormed(NodeResult(changes, parents, cs).value.value.manifest)
    decreases Measure(changes, parents), 0
  {
    var r := NodeResult(changes, parents, cs);
    if r.Success? && r.value.Some? {
      var change := Unfold(changes, parents).value.0;
      if change.changeType != Reuse {
        var results := ChildResults(changes, parents, cs);
        var updates := Updates(results);
        assert r.value == Create(change, updates, cs);
        var m := r.value.value.manifest;
        forall k | k in updates && updates[k].Some? ensures WellFormed(updates[k].value.manifest) {
          UnfoldChildren(changes, parents);
          ChildSmaller(changes, parents, k);
          ChildParentsWellFormed(parents, k);
          NodeResultWellFormed(ChildChanges(changes, k), ChildParents(parents, k), cs);
        }
        var base := if change.copyFrom.Some? then change.copyFrom.value.manifest.subentries else map[];
        assert change.copyFrom.Some? ==> change.copyFrom.value in parents;
        ApplyUpdatesWellFormed(base, updates);
        assert m.subentries == ApplyUpdates(base, updates);
      }
    }
  }

  /** Every node derived from well-formed parents is well formed: deleted, or with subentries. */
  lemma {:induction false} NodeResultWellFormed(changes: PathTree, parents: set<ManifestId>, cs: ChangesetId)
    requires forall p :: p in parents ==> WellFormed(p.manifest)
    ensures NodeResult(changes, parents, cs).Success? && NodeResult(changes, parents, cs).value.Some? ==>
      WellFormed(NodeResult(changes, parents, cs).value.value.manifest)
    decreases Measure(changes, parents), 1
  {
    var r := NodeResult(changes, parents, cs);
    if r.Success? && r.value.Some? {
      var change := Unfold(changes, parents).value.0;
      if change.changeType == Reuse {
        assert r.value == change.copyFrom;
      } else {
        RebuiltRootWellFormed(changes, parents, cs);
      }
    }
  }

  /**
   * A derived root has only well-formed nodes below it, whether it is a
   * parent reused, a rebuilt node, or the empty live root.
   */
  lemma DerivedRootWellFormed(cs: ChangesetId, parents: seq<ManifestId>, changes: PathTree)
    requires forall i :: 0 <= i < |parents| ==> RootWellFormed(parents[i].manifest)
    ensures Derived(cs, parents, changes).Success? ==> RootWellFormed(Derived(cs, parents, changes).value.manifest)
  {
    var ps := set p | p in parents;
    RebuiltRootWellFormed(changes, ps, cs);
    var r := NodeResult(changes, ps, cs);
    if r.Success? && r.value.Some? && Unfold(changes, ps).value.0.changeType == Reuse {
      assert r.value == Unfold(changes, ps).value.0.copyFrom;
    }
  }

  /** A tree of changes without any removal. */
  ghost predicate NoRemoval(t: PathTree)
  {
    t.value != Some(Remove) && forall k :: k in t.subentries ==> NoRemoval(t.subentries[k])
  }

  /** Without parents and without removals nothing is deleted: the traversal yields no node. */
  lemma {:induction false} NothingDeletedWithoutParents(changes: PathTree, cs: ChangesetId)
    requires NoRemoval(changes)
    ensures NodeResult(changes, {}, cs) == Success(None)
    decreases Measure(changes, {})
  {
    var change := Unfold(changes, {}).value.0;
    var results := ChildResults(changes, {}, cs);
    UnfoldChildren(changes, {});
    forall k | k in results ensures results[k] == Success(None) {
      ChildSmaller(changes, {}, k);
      assert ChildParents({}, k) == {};
      NothingDeletedWithoutParents(ChildChanges(changes, k), cs);
    }
    assert ApplyUpdates(map[], Updates(results)) == map[];
  }

  /** A first changeset with no removals gets the empty live root. */
  lemma FirstChangesetLiveRoot(cs: ChangesetId, changes: PathTree)
    requires NoRemoval(changes)
    ensures Derived(cs, [], changes) == Success(Id(EmptyRoot))
  {
    assert (set p: ManifestId | p in []) == {};
    NothingDeletedWithoutParents(changes, cs);
  }

  /**
   * The root stays live: with no change at the root path (as `get_changes`
   * guarantees) and live parent roots, the derived root is not deleted.
   */
  lemma DerivedRootLive(cs: ChangesetId, parents: seq<ManifestId>, changes: PathTree)
    requires Lookup(changes, []) == None
    requires forall i :: 0 <= i < |parents| ==> !IsDeleted(parents[i].manifest)
    ensures Derived(cs, parents, changes).Success? ==> !IsDeleted(Derived(cs, parents, changes).value.manifest)
  {
    var ps := set p | p in parents;
    var r := NodeResult(changes, ps, cs);
    if r.Success? && r.value.Some? {
      var change := Unfold(changes, ps).value.0;
      if ps != {} {
        var p :| p in ps;
        assert !IsDeleted(p.manifest);
      }
      assert change.changeType != CreateDeleted;
      if change.changeType == Reuse {
        assert r.value == CopySource(ps);
      }
    }
  }

  /** A tree whose lookups never give `Remove` has no removal anywhere. */
  lemma {:induction false} NoRemovalOfLookups(t: PathTree)
    requires forall p :: Lookup(t, p) != Some(Remove)
    ensures NoRemoval(t)
    decreases t
  {
    assert t.value == Lookup(t, []);
    forall k | k in t.subentries ensures NoRemoval(t.subentries[k]) {
      forall p ensures Lookup(t.subentries[k], p) != Some(Remove) {
        assert Lookup(t, [k] + p) == Lookup(t.subentries[k], p) by {
          assert ([k] + p)[0] == k && ([k] + p)[1..] == p;
        }
      }
      NoRemovalOfLookups(t.subentries[k]);
    }
  }

  /** A first changeset whose changes are its listing, all added, gets the empty live root. */
  lemma FirstChangesetFromListing(cs: ChangesetId, listing: seq<Option<MPath>>, changes: PathTree)
    requires Lookup(changes, []) == None
    requires forall p: MPath :: Lookup(changes, p) == if Some(p) in listing then Some(Add) else None
    ensures Derived(cs, [], changes) == Success(Id(EmptyRoot))
  {
    forall p: seq<PathElement> ensures Lookup(changes, p) != Some(Remove) {
      if p != [] {
        var q: MPath := p;
        assert Lookup(changes, q) != Some(Remove);
      }
    }
    NoRemovalOfLookups(changes);
    FirstChangesetLiveRoot(cs, changes);
  }

  /** An unchanged node is reused: its one parent, or nothing. */
  lemma UnchangedReused(parents: set<ManifestId>, cs: ChangesetId)
    requires |parents| <= 1
    ensures NodeResult(EmptyTree, parents, cs) == Success(CopySource(parents))
  {
    assert ChildResults(EmptyTree, parents, cs) == map[];
  }

  /** A removed path is marked deleted by the current changeset. */
  lemma RemovedPathDeleted(changes: PathTree, parents: set<ManifestId>, cs: ChangesetId)
    requires changes.value == Some(Remove)
    ensures NodeResult(changes, parents, cs).Success? ==>
      NodeResult(changes, parents, cs).value.Some? &&
      NodeResult(changes, parents, cs).value.value.manifest.linknode == Some(cs)
  {
  }

  // ---------------------------------------------------------------------
  // The traversal as the source performs it
  // ---------------------------------------------------------------------

  /**
   * `results` are the results of the children, each of which lies below
   * `bound` in the traversal measure.
   */
  ghost predicate ResultsOf(children: map<PathElement, UnfoldNode>,
                            results: map<PathElement, Result<Option<ManifestId>, DeriveError>>, cs: ChangesetId, bound: nat)
  {
    && results.Keys == children.Keys
    && (forall k {:trigger Measure(children[k].changes, children[k].parents)} :: k in children ==>
          Measure(children[k].changes, children[k].parents) < bound)
    && (forall k {:trigger NodeResult(children[k].changes, children[k].parents, cs)} :: k in children ==>
          results[k] == NodeResult(children[k].changes, children[k].parents, cs))
  }

  /** One derivation's writes: each manifest saved is queued for storage once. */
  class Deriver {
    /** The manifests already sent, by id (the blobstore key is a function of the id). */
    var created: set<ManifestId>
    /** The manifests sent for storage, in order. */
    var queued: seq<ManifestId>

    ghost predicate Valid()
      reads this
    {
      (forall i, j :: 0 <= i < j < |queued| ==> queued[i] != queued[j]) &&
      (forall id :: id in created <==> id in queued)
    }

    constructor ()
      ensures Valid() && created == {} && queued == []
    {
      created, queued := {}, [];
    }

    /** save_manifest: queue the manifest unless its key was already sent; return its id either way. */
    method SaveManifest(m: Manifest) returns (id: ManifestId)
      requires Valid()
      modifies this
      ensures Valid() && id == Id(m)
      ensures created == old(created) + {id}
      ensures queued == if id in old(created) then old(queued) else old(queued) + [id]
    {
      id := Id(m);
      if id !in created {
        created := created + {id};
        queued := queued + [id];
      }
    }

    /** do_create, saving the rebuilt node when one is kept. */
    method DoCreate(cs: ChangesetId, change: ManifestChange, updates: map<PathElement, Option<ManifestId>>)
      returns (r: Option<ManifestId>)
      requires Valid()
      modifies this
      ensures Valid() && r == Create(change, updates, cs)
      ensures old(queued) <= queued
      ensures created == old(created) + if change.changeType != Reuse && r.Some? then {r.value} else {}
    {
      match change.changeType
      case Reuse =>
        r := change.copyFrom;
      case CreateDeleted =>
        var id := SaveManifest(CopyAndUpdate(change.copyFrom, Some(cs), updates));
        r := Some(id);
      case RemoveIfNowEmpty =>
        var m := CopyAndUpdate(change.copyFrom, None, updates);
        if !IsEmpty(m) {
          var id := SaveManifest(m);
          r := Some(id);
        } else {
          r := None;
        }
    }

    /** Unfold a node, derive its children one after another, and fold them into the node. */
    method DeriveNode(cs: ChangesetId, changes: PathTree, parents: set<ManifestId>)
      returns (r: Result<Option<ManifestId>, DeriveError>)
      requires Valid()
      modifies this
      ensures Valid() && old(queued) <= queued
      ensures r == NodeResult(changes, parents, cs)
      ensures old(created) <= created <= old(created) + Saved(changes, parents, cs)
      ensures r.Success? ==> created == old(created) + Saved(changes, parents, cs)
      decreases Measure(changes, parents), 2
    {
      var decided := DecideChangeType(changes.value, changes.subentries != map[], parents);
      if decided.Failure? {
        return Failure(decided.error);
      }
      var change := ManifestChange(decided.value, CopySource(parents));
      var children: map<PathElement, UnfoldNode> := map[];
      if decided.value != Reuse {
        children := SelectChildren(changes, parents);
      }
      assert Unfold(changes, parents) == Success((change, children));
      UnfoldChildren(changes, parents);
      ChildrenSmaller(changes, parents);
      forall k | k in children ensures ChildResults(changes, parents, cs)[k] == NodeResult(children[k].changes, children[k].parents, cs) {
        ChildResultAt(changes, parents, cs, k);
      }
      assert ResultsOf(children, ChildResults(changes, parents, cs), cs, Measure(changes, parents));
      var outputs := DeriveChildren(cs, children, ChildResults(changes, parents, cs), Measure(changes, parents));
      SavedOfNode(changes, parents, cs);
      if outputs.Failure? {
        NodeResultErrors(changes, parents, cs);
        return Failure(outputs.error);
      }
      var collected := CollectSubentries(outputs.value);
      var id := DoCreate(cs, change, collected.value);
      RebuiltOfUpdates(change, ChildResults(changes, parents, cs), collected.value, cs);
      r := Success(id);
    }

    /** Derive each child in turn, stopping at the first failure; the results arrive by name. */
    method DeriveChildren(cs: ChangesetId, children: map<PathElement, UnfoldNode>,
                          ghost results: map<PathElement, Result<Option<ManifestId>, DeriveError>>, ghost bound: nat)
      returns (r: Result<seq<(Option<PathElement>, Option<ManifestId>)>, DeriveError>)
      requires Valid()
      requires ResultsOf(children, results, cs, bound)
      modifies this
      ensures Valid() && old(queued) <= queued
      ensures old(created) <= created <= old(created) + SavedAmong(children, children.Keys, cs)
      ensures r.Success? ==> created == old(created) + SavedAmong(children, children.Keys, cs)
      ensures r.Failure? <==> exists k :: k in results && results[k].Failure?
      ensures r.Failure? ==> r.error == InconsistentStatus
      ensures r.Success? ==> forall i :: 0 <= i < |r.value| ==> r.value[i].0.Some?
      ensures r.Success? ==> UpdatesOf(r.value) == Updates(results)
      decreases bound, 1
    {
      var todo := children.Keys;
      var outputs: seq<(Option<PathElement>, Option<ManifestId>)> := [];
      ghost var at: map<PathElement, nat> := map[];
      while todo != {}
        invariant Valid() && old(queued) <= queued
        invariant todo <= children.Keys
        invariant created == old(created) + SavedAmong(children, children.Keys - todo, cs)
        invariant OutputsOf(outputs, results, at, children.Keys - todo)
        decreases todo
      {
        var k :| k in todo;
        var res := DeriveChild(cs, children, results, k, bound);
        SavedAmongStep(children, children.Keys - todo, k, cs);
        SavedAmongMono(children, (children.Keys - todo) + {k}, children.Keys, cs);
        if res.Failure? {
          assert k in results && results[k].Failure?;
          return Failure(res.error);
        }
        OutputsOfStep(outputs, results, at, children.Keys - todo, k, res.value);
        outputs, at := outputs + [(Some(k), res.value)], at[k := |outputs|];
        assert children.Keys - (todo - {k}) == (children.Keys - todo) + {k};
        todo := todo - {k};
      }
      assert children.Keys - todo == children.Keys;
      OutputsOfDone(outputs, results, at);
      return Success(outputs);
    }

    /** Derive the child named `k`, whose result is known to be `results[k]`. */
    method DeriveChild(cs: ChangesetId, children: map<PathElement, UnfoldNode>,
                       ghost results: map<PathElement, Result<Option<ManifestId>, DeriveError>>, k: PathElement, ghost bound: nat)
      returns (r: Result<Option<ManifestId>, DeriveError>)
      requires Valid()
      requires ResultsOf(children, results, cs, bound) && k in children
      modifies this
      ensures Valid() && old(queued) <= queued
      ensures old(created) <= created <= old(created) + Saved(children[k].changes, children[k].parents, cs)
      ensures r.Success? ==> created == old(created) + Saved(children[k].changes, children[k].parents, cs)
      ensures r == results[k]
      ensures r.Failure? ==> r.error == InconsistentStatus
      decreases bound, 0
    {
      r := DeriveNode(cs, children[k].changes, children[k].parents);
      NodeResultErrors(children[k].changes, children[k].parents, cs);
    }

    /** derive: the root traversal over the distinct parents, with the empty live root as fallback. */
    method Derive(cs: ChangesetId, parents: seq<ManifestId>, changes: PathTree) returns (r: Result<ManifestId, DeriveError>)
      requires Valid()
      modifies this
      ensures Valid() && old(queued) <= queued
      ensures r == Derived(cs, parents, changes)
      ensures old(created) <= created <= old(created) + DerivedSaved(cs, parents, changes)
      ensures r.Success? ==> created == old(created) + DerivedSaved(cs, parents, changes)
      ensures r.Success? ==> r.value in created || r.value in parents
    {
      var root := DeriveNode(cs, changes, set p | p in parents);
      ResultSavedOrReused(changes, (set p | p in parents), cs);
      match root
      case Failure(e) =>
        r := Failure(e);
      case Success(Some(id)) =>
        r := Success(id);
      case Success(None) =>
        var id := SaveManifest(EmptyRoot);
        r := Success(id);
    }
  }
}
