# Deleted-files manifests, git/hg hash lookup, process memory parsing and benchmark statistics

This project models four pieces of the eden source-control repository in Dafny and proves properties of the models.

- **Deleted-files manifest derivation** (Mononoke, `DeletedManifestChanges.dfy` and `DeletedManifestDerive.dfy`).
  - A deleted-files manifest is a tree that mirrors a commit's paths. Each node records whether the path is deleted now, and if so the changeset that deleted it (its *linknode*).
  - `get_changes` and `diff_against_parents` turn a changeset's file changes, or its diffs against each parent, into a tree of path changes (`Add`, `Remove`, or `FileDirConflict` when a path is both added and removed).
  - The derivation unfolds the change tree together with the parents' manifests:
    - it checks that the parents agree on whether a node is deleted;
    - it decides whether to reuse a parent's node or build a new one;
    - it folds the children's results back into new nodes, and saves each rebuilt node, queuing it for storage the first time it is seen.
- **gitlookup** (the hg server extension, `GitLookup.dfy`).
  - The `_gitlookup_git_<sha>` / `_gitlookup_hg_<sha>` wire lookups against the flat git↔hg map file.
  - Extraction of the map lines for missing hashes that a client needs.
  - The JSON payload of the git-hg map bundle part, the set of git-metadata parts sent to a client, and the client-side handlers that apply those parts.
- **ProcUtil** (`ProcUtil.dfy`).
  - Parsing of `/proc/<pid>/statm` into memory statistics.
  - Delimiter trimming, and `key: value` splitting.
  - Parsing of `/proc/<pid>/smaps` into one map per memory region.
  - Summing the `Private_Dirty` sizes into the private-byte count.
- **StatAccumulator** (the benchmark library, `Bench.dfy`).
  - The minimum/average accumulator and its monoid structure, including the 64-bit wrap-around of `total_` and `count_`.

Shared modules:
- `Wrappers.dfy` holds `Option` and `Result`.
- `Lexicographic.dfy` holds the string and path orders: Python's `sorted` on strings and the `BTreeMap` order on paths.

Unbounded integers stand in for the C++ `size_t` and `uint64_t` values. Where those types wrap, the wrap is written out:
- `MulWrap` and `% WORD` in `ProcUtil.dfy`;
- `Wrap` in `Bench.dfy`.

## Model

Source paths are relative to the repository root.

| member | source | states |
|---|---|---|
| DeletedManifestChanges.Contributions | eden/mononoke/derived_data/deleted_files_manifest/derive.rs:525-532 | A parent diff contributes only `Add` or `Remove` entries, never a conflict. |
| DeletedManifestChanges.ContributionsExact | eden/mononoke/derived_data/deleted_files_manifest/derive.rs:525-532 | `(p, c)` is contributed exactly when some diff adds `p` (`c == Add`) or removes `p` (`c == Remove`). Diffs of the root path and other diff kinds contribute nothing. |
| DeletedManifestChanges.MergedOutcome | eden/mononoke/derived_data/deleted_files_manifest/derive.rs:534-548 | After merging, a path is present iff some entry added or removed it. Its value is `FileDirConflict` if it was both added and removed, otherwise `Add` or `Remove`. |
| DeletedManifestChanges.Merge | eden/mononoke/derived_data/deleted_files_manifest/derive.rs:540-547 | Defines one merge step of the `entry` update: a first change is inserted as is, an equal change keeps the entry, and a differing one turns it into `FileDirConflict`. Its effect over a list is stated by `MergedOutcome`. |
| DeletedManifestChanges.MergedMap | eden/mononoke/derived_data/deleted_files_manifest/derive.rs:534-548 | Defines the `BTreeMap` that the merge loop builds, folding `Merge` over the entries in order. `MergedOutcome` and `FileDirConflictSticks` state its contents; `DiffAgainstParents` is proved against it. |
| DeletedManifestChanges.FileDirConflictSticks | eden/mononoke/derived_data/deleted_files_manifest/derive.rs:542-546 | Once a path is in conflict, later entries cannot change that. |
| DeletedManifestChanges.Upsert | eden/mononoke/derived_data/deleted_files_manifest/derive.rs:534-548 | The path-sorted change list stays sorted, and its key set gains exactly `p`. |
| DeletedManifestChanges.UpsertGet | eden/mononoke/derived_data/deleted_files_manifest/derive.rs:540-547 | After the update, `p` maps to its old change merged with the new one. Every other path keeps its change. |
| DeletedManifestChanges.DiffAgainstParents | eden/mononoke/derived_data/deleted_files_manifest/derive.rs:509-551 | The loop returns a path-sorted list that gives every path the change obtained by merging all parents' diffs. |
| DeletedManifestChanges.SortedDistinct | eden/mononoke/derived_data/deleted_files_manifest/derive.rs:534-548 | A path-sorted change list names each path at most once. |
| DeletedManifestChanges.LookupEmpty | eden/mononoke/derived_data/deleted_files_manifest/derive.rs:458-507 | The empty path tree holds no change at any path. |
| DeletedManifestChanges.LookupInsert | eden/mononoke/derived_data/deleted_files_manifest/derive.rs:458-507 | Inserting at a path sets that path's value and leaves every other path unchanged. |
| DeletedManifestChanges.FromIterLookup | eden/mononoke/derived_data/deleted_files_manifest/derive.rs:502-506 | A tree built from entries holds nothing at the root, and at any other path the last value given for it. |
| DeletedManifestChanges.LastValueOfSorted | eden/mononoke/derived_data/deleted_files_manifest/derive.rs:502-506 | For a path-sorted list, "last value given for a path" is the path's only value. |
| DeletedManifestChanges.AllAdded | eden/mononoke/derived_data/deleted_files_manifest/derive.rs:487-497 | With no parents, every non-root path of the changeset's listing is recorded as `Add`, and nothing else is recorded. |
| DeletedManifestChanges.LastValueAllAdded | eden/mononoke/derived_data/deleted_files_manifest/derive.rs:487-497 | In an all-`Add` list, a path's last value is `Add` iff the path is listed. |
| DeletedManifestChanges.GetChanges | eden/mononoke/derived_data/deleted_files_manifest/derive.rs:458-507 | The change tree has nothing at the root. With no parents, a path is `Add` iff the listing contains it. Otherwise every path holds the merge of all parents' diffs. |
| DeletedManifestDerive.CheckConsistency | eden/mononoke/derived_data/deleted_files_manifest/derive.rs:244-255 | No parents gives "not deleted". Success means every parent has the reported status. Failure happens iff two parents disagree. |
| DeletedManifestDerive.CheckConsistencyOrderFree | eden/mononoke/derived_data/deleted_files_manifest/derive.rs:244-255 | The check depends only on the set of parents: not their order, not repeats. |
| DeletedManifestDerive.DecideChangeType | eden/mononoke/derived_data/deleted_files_manifest/derive.rs:258-313 | There are three iff conditions. Reuse: no change, no changed subentries, and at most one parent. CreateDeleted: a `Remove`, or an untouched node whose two or more parents are all deleted. Failure (`InconsistentStatus`): an untouched node whose parents disagree. |
| DeletedManifestDerive.SmallSetAgrees | eden/mononoke/derived_data/deleted_files_manifest/derive.rs:263-285 | With at most one parent, all parents are the same node (so the status check cannot fail). |
| DeletedManifestDerive.CopySource | eden/mononoke/derived_data/deleted_files_manifest/derive.rs:335-373 | A node is copied from a parent iff there is exactly one parent, and then the copied node is that parent. |
| DeletedManifestDerive.OneParentChildren | eden/mononoke/derived_data/deleted_files_manifest/derive.rs:335-349 | With one parent, the children unfolded are exactly the changed subentries. Each child's parent is the parent's same-named subentry, if any. |
| DeletedManifestDerive.ManyParentsChildren | eden/mononoke/derived_data/deleted_files_manifest/derive.rs:350-373 | With several parents, a name is unfolded iff it is changed or some parent has it, and nothing is copied. |
| DeletedManifestDerive.SelectChildren | eden/mononoke/derived_data/deleted_files_manifest/derive.rs:335-373 | The imperative child selection yields exactly the children the unfold specification names. |
| DeletedManifestDerive.MergeSubentries | eden/mononoke/derived_data/deleted_files_manifest/derive.rs:350-373 | The merge loop covers the changed names plus every parent's subentry names. Each child gets its changes and the set of all parents' same-named subentries. |
| DeletedManifestDerive.SameChildren | eden/mononoke/derived_data/deleted_files_manifest/derive.rs:316-373 | A map with the unfold's names and per-name nodes is the unfold's children. |
| DeletedManifestDerive.Unfold | eden/mononoke/derived_data/deleted_files_manifest/derive.rs:224-383 | Defines `do_unfold`: the consistency check and change type, the copy source, and the children to recurse into. `DecideChangeType`, `CopySource`, `OneParentChildren`, `ManyParentsChildren` and `UnfoldChildren` state its parts. |
| DeletedManifestDerive.InheritSubentries | eden/mononoke/derived_data/deleted_files_manifest/derive.rs:335-349 | The one-parent loop covers exactly the changed names, each with its specified child node. |
| DeletedManifestDerive.AddSubentriesOf | eden/mononoke/derived_data/deleted_files_manifest/derive.rs:354-370 | Folding one more parent's subentries extends the merged children to cover that parent too. |
| DeletedManifestDerive.AddParent | eden/mononoke/derived_data/deleted_files_manifest/derive.rs:354-370 | Adding a parent adds its subentry names, and adds its subentry to the parents of each same-named child. |
| DeletedManifestDerive.Create | eden/mononoke/derived_data/deleted_files_manifest/derive.rs:408-455 | Reuse returns the copied node. CreateDeleted makes a node deleted by `cs`. RemoveIfNowEmpty gives no node iff the updated copy has no subentries; otherwise it gives a live, non-empty node. Every new node is the stored id of the updated copy. |
| DeletedManifestDerive.CopyAndUpdate | eden/mononoke/derived_data/deleted_files_manifest/derive.rs:420-426 | Stands for `copy_and_update_subentries`: the manifest with the copied parent's subentries (or none), the given linknode, and the updates applied (a `None` update removes the name). `ApplyUpdatesWellFormed` states what it preserves. |
| DeletedManifestDerive.UpdatesOfDistinct | eden/mononoke/derived_data/deleted_files_manifest/derive.rs:156-169 | With distinct child names, the subentry updates are keyed by exactly those names, each with its child's result. |
| DeletedManifestDerive.OutputsOfDone | eden/mononoke/derived_data/deleted_files_manifest/derive.rs:156-169 | After every child has run, each has succeeded and has a name. The collected updates are the map of all children's results. |
| DeletedManifestDerive.CollectSubentries | eden/mononoke/derived_data/deleted_files_manifest/derive.rs:156-169 | The fold loop fails iff some child output has no name, with the subentry-without-path error. Otherwise it returns the updates map of the outputs. |
| DeletedManifestDerive.ChildrenSmaller | eden/mononoke/derived_data/deleted_files_manifest/derive.rs:316-328 | Every unfolded child lies strictly lower in the combined height of the change tree and its parents, so the traversal ends. |
| DeletedManifestDerive.UnfoldChildren | eden/mononoke/derived_data/deleted_files_manifest/derive.rs:224-383 | A successful unfold's children all have names of the node, with their specified change subtree and parents. |
| DeletedManifestDerive.ChildResultAt | eden/mononoke/derived_data/deleted_files_manifest/derive.rs:116-139 | Each child's result is the derivation of that child's subtree against its parents. |
| DeletedManifestDerive.NodeResult | eden/mononoke/derived_data/deleted_files_manifest/derive.rs:116-188 | Defines the result of the unfold/fold traversal at one node: unfold, derive every child, then fold with `Create`. `ChildResultAt`, `FoldChildren`, `NodeResultErrors`, `NodeResultWellFormed` and `RemovedPathDeleted` state its properties; `Deriver.DeriveNode` is proved against it. |
| DeletedManifestDerive.FoldChildren | eden/mononoke/derived_data/deleted_files_manifest/derive.rs:156-169 | A node fails iff some child failed, and then with that child's error. Otherwise it is created from the children's updates. |
| DeletedManifestDerive.NodeResultErrors | eden/mononoke/derived_data/deleted_files_manifest/derive.rs:244-313 | The only error a node derivation can report is inconsistent parent status. |
| DeletedManifestDerive.ChildParentsWellFormed | eden/mononoke/derived_data/deleted_files_manifest/derive.rs:316-373 | The subentries of well-formed parents are themselves well-formed nodes (deleted, or with subentries). |
| DeletedManifestDerive.ApplyUpdatesWellFormed | eden/mononoke/derived_data/deleted_files_manifest/derive.rs:408-455 | Applying well-formed updates to well-formed subentries keeps every subentry well formed. |
| DeletedManifestDerive.NodeResultWellFormed | eden/mononoke/derived_data/deleted_files_manifest/derive.rs:103-221 | Below the root, derivation from well-formed parents only yields well-formed nodes: no live node without subentries is stored. |
| DeletedManifestDerive.RebuiltRootWellFormed | eden/mononoke/derived_data/deleted_files_manifest/derive.rs:103-221 | A root rebuilt from well-formed parents has well-formed subentries. |
| DeletedManifestDerive.DerivedRootWellFormed | eden/mononoke/derived_data/deleted_files_manifest/derive.rs:190-211 | The derived root, including the empty live root used when nothing is left, is well formed. |
| DeletedManifestDerive.Derived | eden/mononoke/derived_data/deleted_files_manifest/derive.rs:103-221 | Defines what `derive` returns: the traversal's error, the rebuilt root, or the empty live root when the traversal yields none. `DerivedRootWellFormed` and `FirstChangesetLiveRoot` state its properties; `Deriver.Derive` is proved against it. |
| DeletedManifestDerive.NothingDeletedWithoutParents | eden/mononoke/derived_data/deleted_files_manifest/derive.rs:258-313 | With no parents and no removals, no node is created below the root. |
| DeletedManifestDerive.FirstChangesetLiveRoot | eden/mononoke/derived_data/deleted_files_manifest/derive.rs:190-211 | A root changeset that removes nothing derives the empty live root. |
| DeletedManifestDerive.FirstChangesetFromListing | eden/mononoke/derived_data/deleted_files_manifest/derive.rs:487-497 | A first changeset's change tree as `get_changes` builds it (nothing at the root, `Add` exactly at the listed paths) derives the empty live root. |
| DeletedManifestDerive.NoRemovalOfLookups | eden/mononoke/derived_data/deleted_files_manifest/derive.rs:458-507 | A change tree in which no path looks up to `Remove` has no removal anywhere. |
| DeletedManifestDerive.DerivedRootLive | eden/mononoke/derived_data/deleted_files_manifest/derive.rs:258-313 | With nothing recorded at the root path (which `get_changes` ensures) and live parent roots, a derived root is never deleted. |
| DeletedManifestDerive.UnchangedReused | eden/mononoke/derived_data/deleted_files_manifest/derive.rs:258-281 | An unchanged node with at most one parent reuses the parent's node, or none. |
| DeletedManifestDerive.RemovedPathDeleted | eden/mononoke/derived_data/deleted_files_manifest/derive.rs:302-305 | A removed path derives to a node deleted by this changeset. |
| DeletedManifestDerive.Saved | eden/mononoke/derived_data/deleted_files_manifest/derive.rs:116-188 | Defines the manifests a traversal below a node saves: what its children save, and its own node when it is rebuilt, not reused, and kept. The Deriver methods are proved against it. |
| DeletedManifestDerive.DerivedSaved | eden/mononoke/derived_data/deleted_files_manifest/derive.rs:190-211 | Defines what `derive` saves: the traversal's `Saved` set, plus the empty root when the traversal yields none. `Deriver.Derive` is proved against it. |
| DeletedManifestDerive.ResultSavedOrReused | eden/mononoke/derived_data/deleted_files_manifest/derive.rs:408-455 | A node the traversal yields is one of the node's parents, reused, or a manifest in its `Saved` set. |
| DeletedManifestDerive.SavedWellFormed | eden/mononoke/derived_data/deleted_files_manifest/derive.rs:408-455 | Every manifest a derivation from well-formed parents saves is well formed: deleted, or with subentries, and so are its descendants. |
| DeletedManifestDerive.Deriver.constructor | eden/mononoke/derived_data/deleted_files_manifest/derive.rs:110-112 | A new derivation has created and queued nothing. |
| DeletedManifestDerive.Deriver.SaveManifest | eden/mononoke/derived_data/deleted_files_manifest/derive.rs:385-406 | Saving returns the node's content id and records it as created. It is queued for storage iff it was not created before. |
| DeletedManifestDerive.Deriver.DoCreate | eden/mononoke/derived_data/deleted_files_manifest/derive.rs:408-455 | The imperative creation returns what `Create` specifies, and records exactly the new node as created. |
| DeletedManifestDerive.Deriver.DeriveNode | eden/mononoke/derived_data/deleted_files_manifest/derive.rs:116-188 | The recursive traversal returns exactly the node's specified derivation result. On success, the created set grows by exactly `Saved` of the node: every rebuilt node below it and its own. On failure it grows by part of that. The storage queue only grows at its end. |
| DeletedManifestDerive.Deriver.DeriveChildren | eden/mononoke/derived_data/deleted_files_manifest/derive.rs:156-169 | Deriving all children fails iff some child's specified result fails. Otherwise it gives named outputs whose updates map is the children's results, and the created set grows by exactly what the children save (`SavedAmong`). On failure it grows by part of that. |
| DeletedManifestDerive.Deriver.DeriveChild | eden/mononoke/derived_data/deleted_files_manifest/derive.rs:116-139 | One child's derivation returns its specified result. On success the created set grows by exactly that child's `Saved` set; on failure by part of it. |
| DeletedManifestDerive.Deriver.Derive | eden/mononoke/derived_data/deleted_files_manifest/derive.rs:103-221 | The whole derivation returns the specified root: the rebuilt root, or the empty live root when nothing is left. On success the created set grows by exactly `DerivedSaved`, the empty root included when it is the fallback. The returned root is a saved manifest or one of the parents. |
| GitLookup.ParseLookupKey | eden/hg-server/edenscm/hgext/gitlookup.py:111-119 | A `_gitlookup_git_` key looks up toward hg, and a `_gitlookup_hg_` key toward git, with the rest as the sha. Any other key gives none. |
| GitLookup.ParseLookupKeyOfBuiltKey | eden/hg-server/edenscm/hgext/gitlookup.py:111-119 | Building a key from a prefix and a sha and parsing it back gives that direction and sha. |
| GitLookup.LStrip | eden/hg-server/edenscm/hgext/gitlookup.py:162 | Left stripping drops exactly the leading whitespace. |
| GitLookup.RStrip | eden/hg-server/edenscm/hgext/gitlookup.py:162 | Right stripping drops exactly the trailing whitespace. |
| GitLookup.IndexOf | eden/hg-server/edenscm/hgext/gitlookup.py:162 | Returns the first occurrence of the separator, or none when it is absent. |
| GitLookup.ScanLineOfMapLine | eden/hg-server/edenscm/hgext/gitlookup.py:162 | A map line `git hg` splits back into its two hashes. |
| GitLookup.Strip | eden/hg-server/edenscm/hgext/gitlookup.py:162 | Defines `str.strip()` as `RStrip` of `LStrip`; those two state what is dropped at each end. |
| GitLookup.ScanLine | eden/hg-server/edenscm/hgext/gitlookup.py:161-162 | Defines the unpacking of one map line: strip it, then split at the first space into (git, hg). A line without a space is a malformed-line error. `ScanLineOfMapLine` is its round trip with `MapLine`. |
| GitLookup.ScanMapFile | eden/hg-server/edenscm/hgext/gitlookup.py:158-167 | The imperative scan of the map file returns what the line-by-line lookup specifies. |
| GitLookup.FlatMapLookup | eden/hg-server/edenscm/hgext/gitlookup.py:158-167 | Defines the flat map scan: the first malformed line fails, the first line whose column matches gives the other column, and no match gives none. `FlatMapLookupFirstStop`, `FlatMapLookupMiss` and `FlatMapLookupHitWitness` state it; `ScanMapFile` is proved against it. |
| GitLookup.FlatMapLookupFirstStop | eden/hg-server/edenscm/hgext/gitlookup.py:158-167 | The first line that is malformed or a hit decides the outcome: a malformed-line error, or the hit's other column. |
| GitLookup.FlatMapLookupMiss | eden/hg-server/edenscm/hgext/gitlookup.py:158-167 | If every line is well formed and none matches, the lookup finds nothing. |
| GitLookup.FlatMapLookupHitWitness | eden/hg-server/edenscm/hgext/gitlookup.py:158-167 | A found value comes from a matching line preceded only by well-formed non-matching lines. |
| GitLookup.DoLookupGivesNone | eden/hg-server/edenscm/hgext/gitlookup.py:105-134 | No lookup results: without a map file, for a key without a lookup prefix, for a sha that is not 40 characters long, or for an unknown hg revision. |
| GitLookup.DoLookup | eden/hg-server/edenscm/hgext/gitlookup.py:105-167 | Defines `_dolookup`: no map file or no direction prefix gives none. For hg keys, an unknown revision gives none, another lookup error fails, and a `convert_revision` extra answers. A sha not 40 long gives none; otherwise the flat map is scanned. `DoLookupGivesNone`, `DoLookupPrefersExtras`, `DoLookupToHg` and `DoLookupFindsMapLine` state these cases. |
| GitLookup.DoLookupPrefersExtras | eden/hg-server/edenscm/hgext/gitlookup.py:120-130 | An hg revision with a recorded `convert_revision` extra answers with it, before the map file is read. |
| GitLookup.DoLookupFindsMapLine | eden/hg-server/edenscm/hgext/gitlookup.py:133-167 | A git sha whose map line follows only non-matching lines is answered with that line's hg hash. |
| GitLookup.DoLookupToHg | eden/hg-server/edenscm/hgext/gitlookup.py:112-167 | A 40-character git-to-hg lookup is exactly the flat map scan. |
| GitLookup.FlatMapLookupFindsLine | eden/hg-server/edenscm/hgext/gitlookup.py:158-164 | A matching line after only non-matching well-formed lines yields its hg hash. |
| GitLookup.RemoteLookup | eden/hg-server/edenscm/hgext/gitlookup.py:84-94 | A key without `_gitlookup_` passes through to the original reply. A prefixed key fails exactly when the lookup fails. |
| GitLookup.RemoteLookupDecodes | eden/hg-server/edenscm/hgext/gitlookup.py:84-94 | The wire reply `success result` decodes back to the lookup's answer: "1 value" found, "0 …" not found. |
| GitLookup.RemoteLookupOtherPrefixedKey | eden/hg-server/edenscm/hgext/gitlookup.py:84-94 | A `_gitlookup_` key with neither direction prefix answers `0 gitlookup failed`. |
| GitLookup.Record | eden/hg-server/edenscm/hgext/gitlookup.py:292-320 | Every fixed-width record of the map file has the map line's length. |
| GitLookup.LastRecordsComplete | eden/hg-server/edenscm/hgext/gitlookup.py:292-320 | If every wanted hash occurs from some record on, scanning back from there finds, for each wanted hash, its last record. |
| GitLookup.ScanStep | eden/hg-server/edenscm/hgext/gitlookup.py:308-318 | One backward step moves a newly met wanted hash from "to find" to "found", with its record. |
| GitLookup.GetMissingLines | eden/hg-server/edenscm/hgext/gitlookup.py:292-320 | No wanted hashes gives nothing. A file length that is not a multiple of the line length aborts. Otherwise it succeeds iff every wanted hash occurs in the file (else it aborts with missing hashes), and returns each wanted hash's last map line. |
| GitLookup.MissingRecordsOnePerHash | eden/hg-server/edenscm/hgext/gitlookup.py:292-320 | The returned lines are map lines of wanted hashes, exactly one for each wanted hash present. |
| GitLookup.LastIndexWithHash | eden/hg-server/edenscm/hgext/gitlookup.py:308-318 | Every record has a last record with the same hash at or after it. |
| GitLookup.SetOf | eden/hg-server/edenscm/hgext/gitlookup.py:340-344 | A JSON list read as a set keeps exactly its elements. |
| GitLookup.FromDictToDict | eden/hg-server/edenscm/hgext/gitlookup.py:329-344 | Reading back the dictionary that a payload writes gives the same payload. |
| GitLookup.ToDict | eden/hg-server/edenscm/hgext/gitlookup.py:329-334 | Defines `_todict`: the flag as a bool, and the heads and missing lines as lists. `FromDictToDict` is its round trip. |
| GitLookup.FromDict | eden/hg-server/edenscm/hgext/gitlookup.py:340-344 | Defines `_fromdict`: a missing key is an error, and so is a heads or lines field that holds a flag (not iterable). The flag is read by Python truthiness, and list fields are read as sets. `FromDictToDict` and `FromDictIgnoresListOrder` state its properties. |
| GitLookup.FromDictIgnoresListOrder | eden/hg-server/edenscm/hgext/gitlookup.py:340-344 | Reordering or repeating the elements of a list field does not change the payload read. |
| GitLookup.ValidatePartParams | eden/hg-server/edenscm/hgext/gitlookup.py:425-434 | A part aborts iff it has no filename. Otherwise it is processed iff the filename is a known git-meta file. |
| GitLookup.SortedGitMetaFilesIsSortedListing | eden/hg-server/edenscm/hgext/gitlookup.py:396-415 | The iteration order of the git-meta files is their sorted listing. |
| GitLookup.GitMetaParts | eden/hg-server/edenscm/hgext/gitlookup.py:396-415 | No part is sent unless the client's bundle capabilities include `fb_gitmeta`. Otherwise the parts are sent in ascending file-name order, one for each file to overwrite that exists, each carrying that file's content. |
| GitLookup.GitMetaPartNamesAreSorted | eden/hg-server/edenscm/hgext/gitlookup.py:396-415 | For a client that asked for git metadata, the part names are exactly `sorted(files to overwrite ∩ existing files)`; for any other client there are none. |
| GitLookup.ReceiveGitHgMapOutcomes | eden/hg-server/edenscm/hgext/gitlookup.py:440-474 | No missing lines changes nothing. A full sync replaces the map file. Otherwise the lines are appended, and the map file must exist. Whenever lines arrive, the heads file is rewritten. |
| GitLookup.ReceiveGitHgMap | eden/hg-server/edenscm/hgext/gitlookup.py:440-474 | Defines `bundle2getgithgmap` on a map of file names to line sets: validate the part, read the payload, then replace or append the missing lines and rewrite the heads file. `ReceiveGitHgMapOutcomes`, `ReceiveGitHgMapKeepsLines` and `ReceiveGitHgMapIdempotent` state its effect. |
| GitLookup.ReceiveGitHgMapKeepsLines | eden/hg-server/edenscm/hgext/gitlookup.py:440-474 | After lines arrive, the map file holds them (and its old lines unless it was a full sync). The heads file holds the new heads, and no other file changes. |
| GitLookup.ReceiveGitHgMapIdempotent | eden/hg-server/edenscm/hgext/gitlookup.py:440-474 | Applying the same map part twice has the effect of applying it once. |
| GitLookup.ReceiveGitMeta | eden/hg-server/edenscm/hgext/gitlookup.py:478-485 | A part aborts iff it has no filename, and an unknown file is skipped. Otherwise the named file gets the data and no other file changes. |
| GitLookup.ReceiveGitMetaIdempotent | eden/hg-server/edenscm/hgext/gitlookup.py:478-485 | Receiving the same meta part twice has the effect of receiving it once. |
| ProcUtil.Decimal | eden/fs/utils/ProcUtil.cpp:107-127 | The decimal spelling of `n` is non-empty digits with no leading zero, and reads back as `n`. |
| ProcUtil.ParseSize | eden/fs/utils/ProcUtil.cpp:109-115 | A number read is at most `SIZE_MAX`. It consumes input up to the first non-digit. Blank input is an error. |
| ProcUtil.ParseSizeReadsDecimal | eden/fs/utils/ProcUtil.cpp:109-115 | Leading blanks followed by a decimal number in range read back as that number, and the rest is left. |
| ProcUtil.Stoull | eden/fs/utils/ProcUtil.cpp:202-205 | A number read is at most `SIZE_MAX`. |
| ProcUtil.StoullReadsDecimal | eden/fs/utils/ProcUtil.cpp:202-205 | A decimal number in range, followed by a non-digit, reads back as that number. |
| ProcUtil.ParseColumns | eden/fs/utils/ProcUtil.cpp:107-127 | Reading `n` columns gives exactly `n` values. |
| ProcUtil.ParseColumnsFailurePersists | eden/fs/utils/ProcUtil.cpp:109-115 | Once a column is unreadable, reading more columns also fails. |
| ProcUtil.ParseStatmFile | eden/fs/utils/ProcUtil.cpp:107-127 | The imperative column loop returns what the statm specification gives. |
| ProcUtil.Statm | eden/fs/utils/ProcUtil.cpp:107-127 | Defines `parseStatmFile`: read seven numbers in turn (none if any read fails), then scale five of them by the page size as `size_t`. `StatmOfSevenColumns` and `StatmOfSixColumnsFails` state it; `ParseStatmFile` is proved against it. |
| ProcUtil.ParseColumnsReadsColumns | eden/fs/utils/ProcUtil.cpp:107-127 | Space-separated in-range numbers read back as exactly those numbers. |
| ProcUtil.StatmOfSevenColumns | eden/fs/utils/ProcUtil.cpp:107-127 | Seven in-range columns give the page-scaled (size_t-wrapped) vsize, resident, shared, text and data; the library column is skipped. |
| ProcUtil.StatmOfSixColumnsFails | eden/fs/utils/ProcUtil.cpp:109-115 | A statm line with only six columns gives no statistics. |
| ProcUtil.FindFirstNotOf | eden/fs/utils/ProcUtil.cpp:129-133 | Finds the first non-delimiter position, or none iff all are delimiters. |
| ProcUtil.FindLastNotOf | eden/fs/utils/ProcUtil.cpp:129-133 | Finds the last non-delimiter position, or none iff all are delimiters. |
| ProcUtil.TrimBounds | eden/fs/utils/ProcUtil.cpp:129-133 | Trimming keeps one contiguous slice and drops only delimiters on either side. |
| ProcUtil.Trim | eden/fs/utils/ProcUtil.cpp:129-133 | Defines `trim` as the two erases, at `find_first_not_of` and after `find_last_not_of`. `TrimBounds`, `TrimEnds`, `TrimAllDelimiters`, `TrimFixedPoint` and `TrimIdempotent` state what it keeps. |
| ProcUtil.TrimEnds | eden/fs/utils/ProcUtil.cpp:129-133 | A trimmed string is empty, or starts and ends with a non-delimiter. |
| ProcUtil.TrimAllDelimiters | eden/fs/utils/ProcUtil.cpp:129-133 | A string made only of delimiters trims to empty. |
| ProcUtil.TrimFixedPoint | eden/fs/utils/ProcUtil.cpp:129-133 | A string with no delimiter at either end is left unchanged. |
| ProcUtil.TrimIdempotent | eden/fs/utils/ProcUtil.cpp:129-133 | Trimming twice is trimming once. |
| ProcUtil.Find | eden/fs/utils/ProcUtil.cpp:140 | Returns the first occurrence of the delimiter, or none when there is none. |
| ProcUtil.JoinSplit | eden/fs/utils/ProcUtil.cpp:140 | Joining the split pieces with the delimiter gives back the line. |
| ProcUtil.Split | eden/fs/utils/ProcUtil.cpp:140 | Defines `folly::split` with empty pieces kept: the pieces between successive leftmost occurrences of the delimiter. `JoinSplit` and `SplitOneCharCount` state it. |
| ProcUtil.SplitOneCharCount | eden/fs/utils/ProcUtil.cpp:140 | Splitting at a one-character delimiter gives one more piece than its occurrences. |
| ProcUtil.SplitAtOnlyOccurrence | eden/fs/utils/ProcUtil.cpp:140-144 | A line with exactly one delimiter splits into the text before and after it. |
| ProcUtil.KeyValueOneCharDelimiter | eden/fs/utils/ProcUtil.cpp:135-146 | A line without exactly one delimiter gives an empty key and value. Otherwise the key and value are the trimmed text on either side of the delimiter. |
| ProcUtil.GetKeyValuePair | eden/fs/utils/ProcUtil.cpp:135-146 | Defines `getKeyValuePair`: split the line, and if there are exactly two pieces, trim each with the default whitespace delimiter; otherwise return an empty pair. `KeyValueOneCharDelimiter` states it for a one-character delimiter. |
| ProcUtil.ParseProcSmaps | eden/fs/utils/ProcUtil.cpp:148-178 | The imperative line loop returns the specified list of region maps. |
| ProcUtil.Lines | eden/fs/utils/ProcUtil.cpp:154 | Defines the lines `getline` yields: the text split at newlines, without an empty piece after a final newline. |
| ProcUtil.Smaps | eden/fs/utils/ProcUtil.cpp:148-178 | Defines `parseProcSmaps` over lines: headers start blocks, lines before the first header are skipped, body lines with a non-empty key set that key, and each non-empty block becomes one map. `SmapsAppendBlock`, `SmapsLeadingLinesIgnored`, `BlockMapKeys`, `BlockMapLastLineWins` and `SmapsEntriesShape` state it. |
| ProcUtil.SmapsRunConcat | eden/fs/utils/ProcUtil.cpp:154-173 | Parsing proceeds line by line: parsing two chunks is parsing the first, then the second. |
| ProcUtil.SmapsLeadingLinesIgnored | eden/fs/utils/ProcUtil.cpp:161-165 | Lines before the first region header are ignored. |
| ProcUtil.SmapsAppendBlock | eden/fs/utils/ProcUtil.cpp:155-177 | A header and its body add one map for that region, omitted when empty. |
| ProcUtil.BlockMapKeys | eden/fs/utils/ProcUtil.cpp:166-171 | A region's map has exactly the non-empty keys of its body lines. |
| ProcUtil.BlockMapLastLineWins | eden/fs/utils/ProcUtil.cpp:166-171 | When a key repeats, the region map keeps the value of its last line. |
| ProcUtil.SmapsEntriesShape | eden/fs/utils/ProcUtil.cpp:148-178 | No returned map is empty, and there are at most as many maps as header lines. |
| ProcUtil.DirtyBytesOfKilobytes | eden/fs/utils/ProcUtil.cpp:201-205 | An `N kB` value counts `N * 1024` bytes, size_t-wrapped. |
| ProcUtil.DirtyBytes | eden/fs/utils/ProcUtil.cpp:201-205 | Defines the bytes of one `Private_Dirty` value: none unless ` kB` occurs somewhere in it; otherwise `stoull` of the value without its last three characters, times 1024 as `size_t` (none if `stoull` fails). `DirtyBytesOfKilobytes` and `DirtyBytesIgnoresTextAfterSuffix` state it. |
| ProcUtil.DirtyBytesIgnoresTextAfterSuffix | eden/fs/utils/ProcUtil.cpp:202-205 | A value `N kB` followed by any further text still counts `N * 1024` bytes: the check for ` kB` accepts it anywhere, and `stoull` stops at the space. |
| ProcUtil.CalculatePrivateBytes | eden/fs/utils/ProcUtil.cpp:195-223 | The result is none iff some region's `Private_Dirty` value has no ` kB` in it, or `stoull` cannot read a number at the start of the value without its last three characters. Otherwise it is the sum of all regions' private dirty bytes, modulo the size_t word. |
| ProcUtil.TotalBytesWithoutKey | eden/fs/utils/ProcUtil.cpp:198-200 | Regions without `Private_Dirty` contribute no bytes. |
| ProcUtil.TotalBytesConcat | eden/fs/utils/ProcUtil.cpp:195-223 | The byte total is additive over region lists. |
| ProcUtil.TotalBytesSkipsMapsWithoutKey | eden/fs/utils/ProcUtil.cpp:198-200 | Inserting regions without `Private_Dirty` leaves the total unchanged. |
| Bench.Wrap | eden/fs/benchharness/Bench.h:46-48 | A wrapped value fits in `uint64_t`, and values that already fit are unchanged. |
| Bench.WrapIsMod | eden/fs/benchharness/Bench.h:46-48 | The wrap is reduction modulo 2^64. |
| Bench.MinOf | eden/fs/benchharness/Bench.h:26 | The minimum is at most the initial value and every value, and is one of them. |
| Bench.EmptyIsIdentity | eden/fs/benchharness/Bench.h:18-22 | A default accumulator is a left and right identity for combine. |
| Bench.Added | eden/fs/benchharness/Bench.h:25-29 | Defines the state after `add`: the smaller minimum, and the total and count increased with 64-bit wrap-around. `Bench.StatAccumulator.Add` is proved against it; `AddIsCombineWithSingleton` and `AddsFromEmpty` state what it computes. |
| Bench.Combined | eden/fs/benchharness/Bench.h:31-35 | Defines the state after `combine`: the smaller minimum, and summed totals and counts with wrap-around. `EmptyIsIdentity`, `CombineAssociative` and `CombineCommutative` state that it is a commutative monoid. |
| Bench.Average | eden/fs/benchharness/Bench.h:41-43 | Defines `getAverage`: integer division of total by count, or 0 when count is 0. `AverageAtLeastMinimum` bounds it from below. |
| Bench.CombineAssociative | eden/fs/benchharness/Bench.h:18-35 | Combine is associative, wrap-around included (the monoid law). |
| Bench.CombineCommutative | eden/fs/benchharness/Bench.h:31-35 | Combine is commutative. |
| Bench.AddIsCombineWithSingleton | eden/fs/benchharness/Bench.h:25-35 | Adding a value is combining with an accumulator that holds only that value. |
| Bench.AddedAllIsCombineSummary | eden/fs/benchharness/Bench.h:25-35 | Adding a sequence of values is combining with the summary of that sequence. |
| Bench.AddsFromEmpty | eden/fs/benchharness/Bench.h:25-29 | From a default accumulator, adds give: the minimum of the values (or max `uint64_t`); their sum mod 2^64; their count mod 2^64. |
| Bench.SummaryOfConcat | eden/fs/benchharness/Bench.h:18-35 | The summary of a concatenation is the combination of the summaries. |
| Bench.CountTimesMinAtMostSum | eden/fs/benchharness/Bench.h:37-43 | The count times the minimum is at most the sum. |
| Bench.AverageAtLeastMinimum | eden/fs/benchharness/Bench.h:37-43 | Without wrap-around, the reported average of some values is at least their minimum. |
| Bench.StatAccumulator.constructor | eden/fs/benchharness/Bench.h:46-48 | A new accumulator holds max `uint64_t` as minimum, and zero total and count. |
| Bench.StatAccumulator.Add | eden/fs/benchharness/Bench.h:25-29 | `add` lowers the minimum to the value if smaller, and adds the value to the total and one to the count, both wrapping. |
| Bench.StatAccumulator.Combine | eden/fs/benchharness/Bench.h:31-35 | `combine` merges the other accumulator's state into this one (correct also when the other is this one, as the by-value argument is a copy), leaving a distinct other unchanged. |
| Bench.StatAccumulator.GetMinimum | eden/fs/benchharness/Bench.h:37-39 | Returns the stored minimum, which fits in `uint64_t`. |
| Bench.StatAccumulator.GetAverage | eden/fs/benchharness/Bench.h:41-43 | 0 with no data; otherwise the largest `avg` with `avg * count <= total`. |
| Lexicographic.StrLessTransitive | eden/hg-server/edenscm/hgext/gitlookup.py:407 | The string order that `sorted` uses is transitive (with irreflexivity and totality, a strict total order). |
| Lexicographic.PathLessTransitive | eden/mononoke/derived_data/deleted_files_manifest/derive.rs:534 | The path order of the `BTreeMap` is transitive (with irreflexivity and totality, a strict total order). |
| Lexicographic.InsertSorted | eden/hg-server/edenscm/hgext/gitlookup.py:407 | Inserting into a strictly sorted list keeps it strictly sorted, and adds exactly the new element. |
| Lexicographic.SortedListingUnique | eden/hg-server/edenscm/hgext/gitlookup.py:407 | A set has only one strictly sorted listing, so `sorted` order is determined. |

## Left out

- **Execution model in derive.rs.**
  - `bounded_traversal` runs the unfold and fold steps concurrently. The model visits children sequentially, in an arbitrary order of names, so no ordering between siblings is captured.
  - The mpsc channel, the mutex and the asynchronous blobstore write queue are modelled by `Deriver.created` and `Deriver.queued`. Futures, error propagation across tasks, and storage failures are not modelled.
- **Storage and ids in derive.rs.**
  - Blobstore reads (`Loadable::load`) are not modelled: a parent id carries its manifest.
  - Content-addressed ids are modelled as collision-free (`Id(m)` holds `m`).
- **Inputs to derive.rs.**
  - Unode derivation, the changeset's file listing and the manifest diff are parameters (`listing` and `Diff` entries).
  - `copy_and_update_subentries` is not part of this model's source and is modelled by `CopyAndUpdate`. It is assumed to copy the parent's subentries, set the linknode and apply the updates.
- **gitlookup.py.**
  - `gitnodemap` and the `useindex` configuration path are not modelled (the flat map file is always scanned).
  - Reading configuration, `locallookup`, `gitgetmeta` and `debugbuildgitnodemap` are not modelled.
  - `_getbundlegithgmappart` is not modelled: it queries the repository for heads and missing hashes.
  - `_writefile` and atomic file writing are not modelled: files are maps from names to line sets.
  - JSON text serialization is not modelled: the payload round trip is stated on dictionaries.
- **GitMetaParts.** The client's bundle capabilities are a set of strings. The `bundlecaps=None` default of `_getbundlegitmetapart` (gitlookup.py:396), for which `"fb_gitmeta" in bundlecaps` raises `TypeError`, is not modelled.
- **Value.** A payload dictionary value is either a flag or a list of strings. Other JSON values are not captured: a string in `newheads` or `missinglines`, which Python's `set` would split into its characters, a number or `null`, for which `set` raises `TypeError`, and a JSON object or a list of values other than strings. `_fromdict` keeps a `needfullsync` value as it is; the model keeps only its truth value, which is all the handler's `if data.needfullsync:` (gitlookup.py:452) reads.
- **ReceiveGitHgMap, ReceiveGitMeta.** Files are modelled as sets of lines, so line order, duplicates and raw bytes of the written data are not captured.
- **DoLookup.**
  - A revision-lookup error other than "unknown revision" is modelled as `Failure(RepoLookupFailed)`, standing for the re-raise; the exception's type and message are not modelled.
  - The map file is `Some(lines)`: read and decoded. The errors `open(mapfile, "rb")` raises for an unreadable file, and those `pycompat.decodeutf8` raises for bytes that are not UTF-8, are not modelled.
- **GetMissingLines.** The map file's `content` is already read and decoded. The error `pycompat.decodeutf8` raises for bytes that are not UTF-8 (gitlookup.py:301) is not modelled.
- **ReceiveGitHgMap.** The part payload is an already decoded dictionary and the current map file an already decoded set of lines. The errors `pycompat.decodeutf8` raises for bytes that are not UTF-8, on the payload (gitlookup.py:445) and on the current map lines (gitlookup.py:458), are not modelled.
- **ProcUtil.cpp.**
  - `trim`'s default delimiter is declared in `ProcUtil.h`, which is not part of this model. The model assumes the C whitespace set `" \t\n\v\f\r"` (`WHITESPACE`); `getKeyValuePair` trims with it.
  - These are not modelled: the platform readers `readMemoryStats`, `readMemoryStatsApple` and `readMemoryStatsWin`, file reading (`readStatmFile`, `loadProcSmaps`), `sysconf(_SC_PAGESIZE)`, the no-argument `calculatePrivateBytes` and XLOG logging. Page size and file contents are parameters.
  - `std::stoull` exceptions are modelled as a `Failure` result. The model covers leading whitespace, an optional sign (a minus negates modulo 2^64) and decimal digits. It does not cover locale-dependent whitespace.
- **Bench.h.** `getTime`, `measureClockOverhead` and the benchmark drivers are not modelled: they read clocks.
- **AverageAtLeastMinimum.** Stated only when total and count have not wrapped. Once `total_` wraps, the reported average can be smaller than the minimum.
