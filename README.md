# Fixity inventories of audit-tool, in Dafny

audit-tool keeps one *inventory* per directory of a file system. An inventory is the directory's logical path, the set of its sub-directory names, and a map from each of its file names to the file's SHA-256 digest. Change detection walks a directory tree, inventories every directory, and diffs each inventory against the stored one. The differences go into a timestamped report. Updating the store folds a report's diffs back into the stored inventories.

This project models that core and proves its laws:

- the *diff* of two inventories and the *update* that inverts it;
- the oriented `InventoryDiff`, its emptiness test, and the JSON records of diffs, reports and inventories;
- the storage locations derived from a path digest and from a report timestamp;
- the recursive walk over an abstract directory tree;
- the manager's detection and update over a store of records, including "detect, update, detect again finds nothing";
- the two path helpers of the command-line front end.

Files:

- `common.dfy`: names, digests, logical paths (`seq<Name>`, the base being `[]`), ISO timestamps, `Option` and `Result`.
- `sorting.dfy`: Python's string order and `sorted(list(set))`.
- `storage_keys.dfy`: `_generate_inventory_filepath` and `report_filepath`.
- `file_tree.dfy`: the file system as a tree of listings.
- `inventories.dfy`: the `Inventory` class: `diff`, `update`, `perform_inventory`, `perform_recursive_inventory`, `as_dict`, `read`. The pure functions `DiffOf`, `Applies` and `Applied` specify `diff` and `update`.
- `reports.dfy`: `InventoryDiff` and `InventoryReport`, their records, and `generate_inventory_diff`.
- `manager.dfy`: `InventoryManager.detect_change` and `update_inventory` over the store, plus `find_base_path` and `check_json_report`. inventory_manager.py repeats the manager of audit_tool.py almost line for line, and both are modelled by this one class.

## Behaviour worth knowing

Three behaviours of the code that a reader might not expect, all modelled as the code has them:

- **`update`'s check on mismatches.** For each mismatch, `update` asserts only that the current digest differs from the *new* digest (inventory.py:128-130). It never compares against the recorded "before" digest, so no stale-baseline error exists. `Blames` and `UpdateIgnoresBeforeDigests` state this behaviour.
- **Detection from a deleted directory.** Here `os.listdir` raises. The model returns `Err(NotADirectory(rel))`; it does not report the directory as missing from its parent. A deletion shows up only when the detection starts at or above the parent.
- **Failed updates.** When one `update` raises, `update_inventory` has already written the records of the earlier diffs (audit_tool.py:47-60). `ApplyDiffs` keeps those writes.

## Model

| member | source | states |
|---|---|---|
| Sorting.SortedNames | inventory.py:67 | `sorted(list(dirs))`: a strictly increasing list, in Python string order, of exactly the set's elements, each once |
| Sorting.BelowTotal | inventory.py:67 | Python's string order is total on distinct strings (with BelowIrreflexive and BelowTransitive, a strict total order) |
| Sorting.BelowTransitive | inventory.py:67 | Python's string order is transitive |
| Sorting.BelowIrreflexive | inventory.py:67 | no string is below itself |
| StorageKeys.Shards | inventory.py:62 | the list comprehension yields 8 - k pieces; piece i is the digest's characters 8(k+i) up to 8(k+i)+8 |
| StorageKeys.InventoryFilepath | inventory.py:60-62 | the location is 141 characters: eight 8-character slices of the digest, in order, each followed by '/', then the digest and ".json" |
| StorageKeys.ShardsSplitDigest | inventory.py:62 | every shard has 8 characters, and the shards concatenate back to the digest |
| StorageKeys.InventoryFilepathInjective | inventory.py:60-62 | distinct path digests never share an inventory location |
| StorageKeys.ReportFilepath | inventory.py:184 | the report location is year '/' month '/' day '/' (sliced from the ISO text), then the timestamp and ".json" |
| StorageKeys.ReportFilepathInjective | inventory.py:184 | distinct report timestamps never share a report file |
| FileTree.FindEntry | inventory.py:28 | `os.path.join(dir, name)` resolves to an entry exactly when the listing has one of that name, and to that entry's node |
| FileTree.LookupParent | audit_tool.py:33-36 | a listable directory other than the base has a listable `dirname`, in whose listing it appears as that directory |
| Inventories.Inventory.constructor | inventory.py:16-21 | `Inventory(path, dirs, files)` holds the path, the set of the listed dirs and the files, and is stamped now |
| Inventories.Inventory.PerformInventory | inventory.py:24-33 | the listing loop records every sub-directory in `dirs` and every regular file with its digest in `files`, nothing else (with ShallowMembers) |
| Inventories.ShallowMembers | inventory.py:27-32 | a name is in `dirs` iff the listing has it as a directory, in `files` iff the listing has it as a regular file, with that file's digest |
| Inventories.ShallowDisjoint | inventory.py:29-32 | with unique names, no name is both a directory and a file of one inventory |
| Inventories.Inventory.PerformRecursiveInventory | inventory.py:36-40 | the inventories are the pre-order walk: the directory itself, then each sub-directory's walk, in listing order |
| Inventories.WalkPaths | inventory.py:36-40 | the walk starts at the directory's own path, stays at or below it, and never inventories a path twice |
| Inventories.DescendPaths | inventory.py:38-39 | every sub-directory walk lies below one of the directory's sub-directories, and their paths are distinct |
| Inventories.Inventory.FilesMissingFromThat | inventory.py:96-100 | the result holds exactly the names of `this_files` absent from `that_files`, each with its digest in `this_files` |
| Inventories.Inventory.Diff | inventory.py:80-93 | on inventories of one path, the five collections are exactly `DiffOf` of their values; the mismatch loop collects every shared name whose digests differ |
| Inventories.DiffClassifies | inventory.py:80-93 | each collection holds exactly its differences with the right digests (`that`'s for files missing from this, `self`'s for files missing from that, the pair for a mismatch); mismatch and missing-file keys are pairwise disjoint |
| Inventories.NoChangeIffSameContents | inventory.py:80-93 | all five collections are empty iff both inventories have the same directories and the same files |
| Inventories.DiffWithSelfIsEmpty | inventory.py:80-93 | an inventory diffed with itself has no differences |
| Inventories.DiffAgainstEmpty | inventory.py:80-93 | against an empty inventory of the same path, every directory and file is missing from this, and nothing else differs |
| Inventories.Inventory.Update | inventory.py:110-132 | directories are added, then removed. The update completes iff `Applies` (every name to delete is present; every mismatch name is then present with a digest other than the new one). When it completes, the inventory is `Applied` and the timestamp is the given one or now. Otherwise the timestamp is unchanged and the error names a file that `Blames` identifies |
| Inventories.Inventory.DeleteFiles | inventory.py:123-125 | the deletion loop succeeds iff every name to delete is present, leaving the added files minus those names; otherwise a KeyError names an absent one |
| Inventories.Inventory.OverwriteDigests | inventory.py:127-130 | the overwrite loop succeeds iff every mismatch name is present with a different digest, writing each new digest; otherwise a KeyError or AssertionError names the offending file |
| Inventories.DeleteFails | inventory.py:124-125 | deleting an absent name makes `update` fail with a KeyError on that name |
| Inventories.MismatchFails | inventory.py:128-130 | an absent mismatch name is a KeyError; one already carrying the new digest fails the assertion |
| Inventories.OverwriteStep | inventory.py:130 | writing one more mismatch digest is a single-key override of the files so far |
| Inventories.OverwrittenAll | inventory.py:128-130 | once every mismatch is written, the files are the pruned files overridden by the new digests |
| Inventories.UpdateInvertsDiff | inventory.py:110-131 | the inverse law: `self.update(*self.diff(that))` always completes and leaves `that`'s directories and files under `self`'s path |
| Inventories.PrunedIsCommonAndNew | inventory.py:121-125 | after adding and deleting during that update, the files are exactly the names kept by `that`, with `self`'s digest unless newly added |
| Inventories.UpdateIgnoresBeforeDigests | inventory.py:128-130 | whether and how `update` completes does not depend on the recorded "before" digests |
| Inventories.AppliedKeepsDisjointness | inventory.py:110-131 | an update by a diff keeps directory and file names disjoint when both inputs had them disjoint |
| Inventories.DiffExample | tests/test_inventory.py:97-109 | the test's two inventories of "test" give exactly the expected five collections |
| Inventories.UpdateExample | tests/test_inventory.py:111-113 | updating the first test inventory with that diff gives the second |
| Inventories.Inventory.AsDict | inventory.py:64-70 | the record lists the directories sorted, carries the same path, files and timestamp, and reads back as the same inventory |
| Inventories.Inventory.Read | inventory.py:102-108 | `read` finds a record iff one is stored under the path, and rebuilds its path, directories and files, with a fresh timestamp, not the stored one |
| Reports.GenerateInventoryDiff | inventory.py:162-163 | the diff is `baseline.diff(fs)` under `fs`'s path: only-on-fs goes to "missing from inventory", only-in-baseline to "missing from fs" |
| Reports.HasDiffsIffDiffer | inventory.py:157-159 | `has_diffs` holds iff the observed and stored inventories differ in directories or files |
| Reports.UpdateWithGeneratedDiff | audit_tool.py:54-59 | passing a generated diff's fields to the baseline's `update`, in the order used, always completes and reproduces the file system's directories and files |
| Reports.GeneratedAgainstEmpty | audit_tool.py:38-42 | against the empty `Inventory(path)`, every observed directory and file is missing from the inventory, and nothing else differs |
| Reports.ListOf | inventory.py:149-150 | `list(set)`: each element of the set exactly once, in some order |
| Reports.DiffAsDict | inventory.py:146-155 | `as_dict` lists each set once, keeps path and timestamp, and `from_dict` of the record restores every field, keeping the constructor's inventory/fs order |
| Reports.ReportAsDict | inventory.py:186-194 | the report record keeps base path and timestamp and has one diff record per diff, in order, and reading it back gives the report |
| Reports.ReadReport | inventory.py:204-212 | `read` rebuilds the report from its record, each diff through `from_dict`, appended in order |
| Manager.ViewOfUpdate | inventory.py:72-78 | writing one record changes what is read back at that path only |
| Manager.InventoryManager.constructor | audit_tool.py:22-25 | a manager over an inventory directory whose records lie at their own paths |
| Manager.InventoryManager.DetectChange | audit_tool.py:27-45 | the report for `rel` holds exactly `Detect`'s diffs: the walked inventories, then the parent's unless `rel` is the base, each diffed against its stored record or an empty one, keeping those with differences in order; NotADirectory when `rel` cannot be listed |
| Manager.InventoryManager.ObserveTree | audit_tool.py:30-36 | the inventories taken are the recursive walk, then, off the base, the parent's non-recursive one |
| Manager.InventoryManager.DiffAgainstStore | audit_tool.py:38-42 | the baseline is the stored record, or an empty `Inventory(path)` when none is stored |
| Manager.InventoryManager.UpdateInventory | audit_tool.py:47-60 | the store becomes `ApplyDiffs` of the report's diffs: each one's baseline (or an empty one) updated and written back in order, stopping at an `update` that raises, whose error `Blames` the baseline it met |
| Manager.InventoryManager.UpdateOne | inventory_manager.py:47-59 | one diff: on success exactly its path's record is replaced by the updated baseline stamped with the diff's timestamp, written with its directories sorted; on failure the store is unchanged |
| Manager.DetectedFilter | inventory_manager.py:36-43 | a diff is in the report iff it is some observed inventory's diff and has differences |
| Manager.DetectedDistinct | audit_tool.py:37-44 | distinct observed paths give report diffs of distinct paths |
| Manager.DetectedNone | inventory_manager.py:41-44 | when no observed inventory differs from its stored record, the report has no diffs |
| Manager.ObservedShape | inventory_manager.py:29-35 | the walk comes first and starts at the path; no path is inventoried twice; exactly one more inventory, of the parent, follows iff the path is not the base |
| Manager.ParentScanReportsNewDirectory | audit_tool.py:32-36 | a new directory detected from within is reported as missing from its parent's stored inventory |
| Manager.ApplyDiffsFrame | audit_tool.py:47-60 | `update_inventory` leaves every path no diff names exactly as it was |
| Manager.ApplyDiffsStops | audit_tool.py:50-59 | a failed update failed on one of the report's diffs, which did not apply to the store it met |
| Manager.ApplyDistinct | inventory_manager.py:46-59 | diffs of distinct paths that each apply all complete, and each path holds its baseline updated by its diff |
| Manager.DetectedApplyResult | audit_tool.py:47-59 | applying a detection's diffs completes, each diffed path then holding its stored inventory updated by its diff |
| Manager.CleanAt | audit_tool.py:27-60 | after that update, every observed inventory equals its stored one |
| Manager.DetectThenApplyIsClean | inventory_manager.py:26-59 | updating with a detection's diffs completes, and detecting again on the same inventories finds nothing |
| Manager.DetectUpdateDetect | tests/test_inventory_manager.py:95-97 | on a well-formed tree, `update_inventory(detect_change(p))` completes and a second `detect_change(p)` reports no diffs |
| Manager.PopulatedStoreIsClean | audit_tool.py:210-223 | detecting from the base against an empty store and applying the report leaves a store that the unchanged tree matches |
| Manager.DescendContains | inventory.py:38-39 | each sub-directory's walk is part of the walks `perform_recursive_inventory` appends after the directory itself |
| Manager.WalkContainsSub | inventory.py:36-40 | the walk of any directory below a listing, at its own path, is part of that listing's walk |
| Manager.ObservedInBaseWalk | audit_tool.py:30-36 | every inventory `detect_change` takes, the parent's included, is one of the base walk's inventories |
| Manager.RecordedWalkIsClean | tests/test_inventory_manager.py:41-48 | when the store holds every inventory of the base walk, `detect_change` from any listable directory of the unchanged tree reports no diffs |
| Manager.PopulateThenDetectAnywhere | audit_tool.py:210-228 | after `populate`, `detect_changes` from any listable directory of the unchanged tree reports no diffs |
| Manager.FindBasePath | audit_tool.py:114-118 | the result is the first base path, in order, that is a prefix of the path; it raises exactly when none is |
| Manager.CheckJsonReport | audit_tool.py:120-125 | passes exactly when the path is some stem followed by ".json", and raises otherwise |
| Manager.ReportFilepathIsJson | inventory.py:184 | every report location the tool writes passes the ".json" check that the `excel` command applies (audit_tool.py:270-271) |

## Left out

- E-mail notification, the argument parser and the `__main__` commands: input/output and command-line glue. The `populate` command's deletion and re-creation of the inventory directory is left out too; only its detect-then-update core appears, as `PopulatedStoreIsClean`.
- `InventoryReportsIndex`: a thin wrapper over an SQLite database with a per-thread connection cache.
- File-system access (`os.listdir`, `isdir`, `isfile`, reading files), JSON encoding and file writes. The tree has each file's digest already computed. A store maps a logical path to its record.
- SHA-256. The inventory location takes the path's 64-character digest as an input. The store is keyed by logical path rather than by that location; `InventoryFilepathInjective` shows the two keyings agree whenever distinct paths have distinct digests.
- `datetime`, time zones and ISO-8601 parsing. A timestamp is its ISO text, and formatting and parsing are the identity. Each operation takes one `now` for all the clock reads it makes.
- `os.path` string handling (`relpath`, `join`, `dirname`): paths are sequences of names. A start path outside the base, and trailing separators, are not modelled.
- The `fixity_threads` argument, and `notes`, `applied`, `applied_timestamp` and `write_excel`. audit_tool.py uses them, but the inventory module does not define them. The modelled code is sequential.
- The order in which `perform_recursive_inventory` visits sub-directories. The source iterates a Python set, whose order is unspecified. The model visits them in listing order. Every property proved here except walk order holds for any order.
- `list(set)` in `InventoryDiff.as_dict` has no fixed order. `ListOf` chooses an order nondeterministically.
- After JSON, a fixity-mismatch pair comes back as a two-element list rather than a tuple. `update` unpacks both the same way, so the model keeps pairs.
- Inventories.Inventory.Update: when `update` raises, the contract fixes the directories and the timestamp, but says nothing about the files. Which files were changed by then depends on dictionary iteration order.
- Inventories.Inventory.Diff: `diff`'s `assert self.path == that.path` is a precondition, not an error result. Every caller diffs two inventories of one path.
- Manager.InventoryManager.DetectChange: the store must file each record under its own path, as `write` does (`StoreValid`). A record filed elsewhere would trip `diff`'s path assertion, and that case is not modelled. The order of a record's directories, and repeats in it, are not constrained, since `read` makes them a set.
- Entries that are neither directories nor regular files (`Other`) are skipped, as `perform_inventory` skips them. `os.path.isdir` and `isfile` follow symbolic links, so the tree shows a link as its target (a link to a directory is a `Dir` holding the target's listing). A cycle of directory links, on which `perform_recursive_inventory` recurses until the operating system or Python gives up, is not modelled: a `Node` is a finite tree.
