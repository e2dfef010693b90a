/**
 * `InventoryManager` (audit_tool.py, and its near-copy inventory_manager.py): change
 * detection over a directory tree against a store of per-directory inventory
 * records, and the update that folds a report's diffs back into the store; plus the
 * two path helpers of the command-line front end.
 *
 * The store is the inventory directory: a map from a directory's logical path to
 * the record `Inventory.write` put there. The file system is the listing of the base
 * directory, passed to each detection.
 */
module Manager {
  import opened Common
  import opened FileTree
  import opened Sorting
  import opened Inventories
  import opened Reports

  /** What the store holds for one path: the record's directories, files and timestamp. */
  datatype Stored = Stored(dirs: set<Name>, files: map<Name, Digest>, timestamp: Timestamp)

  type StoreView = map<Path, Stored>

  /** The store as the inventory code reads it back. */
  function ViewOf(store: map<Path, InventoryRecord>): StoreView
  {
    map p | p in store :: Stored((set d | d in store[p].dirs), store[p].files, store[p].timestamp)
  }

  /**
   * Every record is filed under its own path, as `write` files it. The order of a
   * record's directories is not constrained: `read` turns them into a set.
   */
  predicate StoreValid(store: map<Path, InventoryRecord>)
  {
    forall p :: p in store ==> store[p].path == p
  }

  /** `Inventory.read(p)`, or the empty `Inventory(p)` when the store has no record for `p`. */
  function Baseline(view: StoreView, p: Path): Snapshot
  {
    if p in view then Snapshot(p, view[p].dirs, view[p].files) else EmptySnapshot(p)
  }

  /** Writing one record changes the view at that path only. */
  lemma ViewOfUpdate(store: map<Path, InventoryRecord>, p: Path, rec: InventoryRecord)
    ensures ViewOf(store[p := rec]) == ViewOf(store)[p := Stored((set d | d in rec.dirs), rec.files, rec.timestamp)]
  {
  }

  // ---------------------------------------------------------------------------
  // Specification of `detect_change`
  // ---------------------------------------------------------------------------

  /**
   * The inventories `detect_change` takes of the file system: the recursive walk from
   * `rel`, then, unless `rel` is the base, the non-recursive inventory of its parent.
   * None when `rel` is not a directory that can be listed.
   */
  function Observed(root: seq<Entry>, rel: Path): Option<seq<Snapshot>>
  {
    match Lookup(root, rel)
    case None => None
    case Some(l) =>
      if rel == [] then Some(Walk(l, rel))
      else
        LookupParent(root, rel);
        var parent := rel[..|rel| - 1];
        Some(Walk(l, rel) + [Shallow(Lookup(root, parent).value, parent)])
  }

  /** The diff of one observed inventory against its baseline in the store. */
  function DiffAt(view: StoreView, fs: Snapshot, now: Timestamp): InventoryDiff
  {
    GeneratedDiff(fs, Baseline(view, fs.path), now)
  }

  /** The diffs that have differences, in the order of the observed inventories. */
  function Detected(view: StoreView, obs: seq<Snapshot>, now: Timestamp): seq<InventoryDiff>
  {
    if obs == [] then []
    else
      var d := DiffAt(view, obs[|obs| - 1], now);
      Detected(view, obs[..|obs| - 1], now) + (if d.HasDiffs() then [d] else [])
  }

  /** Why `detect_change` raised: `os.listdir` of something that is not a directory. */
  datatype DetectError = NotADirectory(path: Path)

  function Detect(view: StoreView, root: seq<Entry>, rel: Path, now: Timestamp): Result<InventoryReport, DetectError>
  {
    match Observed(root, rel)
    case None => Err(NotADirectory(rel))
    case Some(obs) => Ok(InventoryReport(rel, Detected(view, obs, now), now))
  }

  // ---------------------------------------------------------------------------
  // Specification of `update_inventory`
  // ---------------------------------------------------------------------------

  /** The store after `update_inventory` and, if an `update` raised, the diff it raised on. */
  datatype Outcome = Outcome(view: StoreView, failed: Option<InventoryDiff>)

  /** The record written for `d`: its baseline updated by it, stamped with its timestamp. */
  function AppliedStored(view: StoreView, d: InventoryDiff): Stored
  {
    var after := Applied(Baseline(view, d.path), d.UpdateArgs());
    Stored(after.dirs, after.files, d.timestamp)
  }

  /** The diffs applied in order; the records written before a failing `update` stay written. */
  function ApplyDiffs(view: StoreView, diffs: seq<InventoryDiff>): Outcome
    decreases |diffs|
  {
    if diffs == [] then Outcome(view, None)
    else if Applies(Baseline(view, diffs[0].path), diffs[0].UpdateArgs()) then
      ApplyDiffs(view[diffs[0].path := AppliedStored(view, diffs[0])], diffs[1..])
    else Outcome(view, Some(diffs[0]))
  }

  // ---------------------------------------------------------------------------
  // The manager
  // ---------------------------------------------------------------------------

  class InventoryManager {
    var store: map<Path, InventoryRecord>

    predicate Valid()
      reads this
    {
      StoreValid(store)
    }

    /** A manager over an inventory directory holding `store`. */
    constructor (store: map<Path, InventoryRecord>)
      requires StoreValid(store)
      ensures Valid() && this.store == store
    {
      this.store := store;
    }

    /**
     * `detect_change(path)`: inventories the tree at `rel` (and its parent unless `rel`
     * is the base), diffs each against its stored baseline and keeps the diffs that
     * have differences, in that order.
     */
    method DetectChange(root: seq<Entry>, rel: Path, now: Timestamp) returns (r: Result<InventoryReport, DetectError>)
      requires Valid()
      ensures r == Detect(ViewOf(store), root, rel, now)
    {
      var listing := Lookup(root, rel);
      if listing.None? {
        return Err(NotADirectory(rel));
      }
      var fsInventories := ObserveTree(root, rel, listing.value, now);
      ghost var obs := Observed(root, rel).value;
      var diffs := [];
      var i := 0;
      while i < |fsInventories|
        invariant 0 <= i <= |fsInventories|
        invariant Values(fsInventories) == obs
        invariant diffs == Detected(ViewOf(store), obs[..i], now)
      {
        assert fsInventories[i].Value() == obs[i];
        var d := DiffAgainstStore(fsInventories[i], now);
        if d.HasDiffs() {
          diffs := diffs + [d];
        }
        assert obs[..i + 1][..i] == obs[..i];
        i := i + 1;
      }
      assert obs[..|obs|] == obs;
      return Ok(InventoryReport(rel, diffs, now));
    }

    /** The inventories `detect_change` takes: the recursive walk, then the parent's unless at the base. */
    static method ObserveTree(root: seq<Entry>, rel: Path, listing: seq<Entry>, now: Timestamp)
      returns (fsInventories: seq<Inventory>)
      requires Lookup(root, rel) == Some(listing)
      ensures Observed(root, rel).Some? && Values(fsInventories) == Observed(root, rel).value
    {
      fsInventories := Inventory.PerformRecursiveInventory(listing, rel, now);
      if rel != [] {
        LookupParent(root, rel);
        var parent := rel[..|rel| - 1];
        var parentInventory := Inventory.PerformInventory(Lookup(root, parent).value, parent, now);
        ValuesAppend(fsInventories, [parentInventory]);
        fsInventories := fsInventories + [parentInventory];
      }
    }

    /**
     * One pass of `detect_change`'s loop: reads the stored baseline of the observed
     * inventory's path (an empty `Inventory(path)` when there is none) and diffs it.
     */
    method DiffAgainstStore(fsInventory: Inventory, now: Timestamp) returns (d: InventoryDiff)
      requires Valid()
      ensures d == DiffAt(ViewOf(store), fsInventory.Value(), now)
    {
      var stored := Inventory.Read(store, fsInventory.path, now);
      var inventoryInventory: Inventory;
      if stored.Some? {
        inventoryInventory := stored.value;
      } else {
        inventoryInventory := new Inventory(fsInventory.path, [], map[], now);
      }
      assert inventoryInventory.Value() == Baseline(ViewOf(store), fsInventory.path);
      d := GenerateInventoryDiff(fsInventory, inventoryInventory, now);
    }

    /**
     * `update_inventory(report)`: for each diff in order, reads the baseline (or an
     * empty one), updates it with the diff's collections and timestamp and writes it
     * back; an `update` that raises ends the loop with the earlier records written.
     */
    method UpdateInventory(report: InventoryReport, now: Timestamp) returns (err: Option<UpdateError>)
      requires Valid()
      modifies this
      ensures Valid()
      ensures ViewOf(store) == ApplyDiffs(ViewOf(old(store)), report.inventoryDiffs).view
      ensures err.None? <==> ApplyDiffs(ViewOf(old(store)), report.inventoryDiffs).failed.None?
      ensures err.Some? ==>
        var d := ApplyDiffs(ViewOf(old(store)), report.inventoryDiffs).failed.value;
        Blames(Baseline(ViewOf(store), d.path), d.UpdateArgs(), err.value)
    {
      var diffs := report.inventoryDiffs;
      var i := 0;
      while i < |diffs|
        invariant 0 <= i <= |diffs|
        invariant Valid()
        invariant ApplyDiffs(ViewOf(old(store)), diffs) == ApplyDiffs(ViewOf(store), diffs[i..])
      {
        var d := diffs[i];
        assert diffs[i..][0] == d && diffs[i..][1..] == diffs[i + 1..];
        var e := UpdateOne(d, now);
        if e.Some? {
          return e;
        }
        i := i + 1;
      }
      return None;
    }

    /** One pass of `update_inventory`'s loop: read (or empty), `update`, `write`. */
    method UpdateOne(d: InventoryDiff, now: Timestamp) returns (err: Option<UpdateError>)
      requires Valid()
      modifies this
      ensures Valid()
      ensures err.None? <==> Applies(Baseline(ViewOf(old(store)), d.path), d.UpdateArgs())
      ensures err.None? ==> ViewOf(store) == ViewOf(old(store))[d.path := AppliedStored(ViewOf(old(store)), d)]
      ensures err.None? ==> d.path in store && StrictlySorted(store[d.path].dirs)
      ensures err.Some? ==> store == old(store) && Blames(Baseline(ViewOf(store), d.path), d.UpdateArgs(), err.value)
    {
      ghost var view := ViewOf(store);
      var stored := Inventory.Read(store, d.path, now);
      var inventoryInventory: Inventory;
      if stored.Some? {
        inventoryInventory := stored.value;
      } else {
        inventoryInventory := new Inventory(d.path, [], map[], now);
      }
      assert inventoryInventory.Value() == Baseline(view, d.path);
      err := inventoryInventory.Update(d.UpdateArgs(), Some(d.timestamp), now);
      if err.Some? {
        return;
      }
      var rec := inventoryInventory.AsDict();
      ViewOfUpdate(store, d.path, rec);
      store := store[inventoryInventory.path := rec];
    }
  }

  // ---------------------------------------------------------------------------
  // Properties of detection
  // ---------------------------------------------------------------------------

  /** The report holds exactly the observed inventories' diffs that have differences. */
  lemma {:induction false} DetectedFilter(view: StoreView, obs: seq<Snapshot>, now: Timestamp)
    ensures forall d :: d in Detected(view, obs, now) <==>
      exists i :: 0 <= i < |obs| && d == DiffAt(view, obs[i], now) && d.HasDiffs()
  {
    if obs != [] {
      var init := obs[..|obs| - 1];
      DetectedFilter(view, init, now);
      assert forall i :: 0 <= i < |init| ==> init[i] == obs[i];
    }
  }

  /** Observed inventories of distinct paths give diffs of distinct paths. */
  lemma {:induction false} DetectedDistinct(view: StoreView, obs: seq<Snapshot>, now: Timestamp)
    requires DistinctPaths(obs)
    ensures forall j, k :: 0 <= j < k < |Detected(view, obs, now)| ==>
      Detected(view, obs, now)[j].path != Detected(view, obs, now)[k].path
  {
    if obs != [] {
      var init := obs[..|obs| - 1];
      var front := Detected(view, init, now);
      DetectedDistinct(view, init, now);
      DetectedFilter(view, init, now);
      var last := DiffAt(view, obs[|obs| - 1], now);
      forall j | 0 <= j < |front| ensures front[j].path != last.path {
        assert front[j] in front;
        var i :| 0 <= i < |init| && front[j] == DiffAt(view, init[i], now) && front[j].HasDiffs();
        assert init[i] == obs[i];
      }
    }
  }

  /** When no observed inventory differs from its baseline, the report is empty. */
  lemma {:induction false} DetectedNone(view: StoreView, obs: seq<Snapshot>, now: Timestamp)
    requires forall i :: 0 <= i < |obs| ==> !DiffAt(view, obs[i], now).HasDiffs()
    ensures Detected(view, obs, now) == []
  {
    if obs != [] {
      var init := obs[..|obs| - 1];
      assert forall i :: 0 <= i < |init| ==> init[i] == obs[i];
      DetectedNone(view, init, now);
    }
  }

  /**
   * The walk from `rel` comes first and starts at `rel`; no path is inventoried twice;
   * when `rel` is not the base, exactly one more inventory follows, of its parent.
   */
  lemma ObservedShape(root: seq<Entry>, rel: Path)
    requires WellFormed(root) && Observed(root, rel).Some?
    ensures var obs := Observed(root, rel).value;
      && DistinctPaths(obs)
      && obs[0].path == rel
      && (rel == [] ==> obs == Walk(Lookup(root, rel).value, rel))
      && (rel != [] ==>
            && obs == Walk(Lookup(root, rel).value, rel) + [obs[|obs| - 1]]
            && Lookup(root, rel[..|rel| - 1]).Some?
            && obs[|obs| - 1] == Shallow(Lookup(root, rel[..|rel| - 1]).value, rel[..|rel| - 1]))
  {
    var l := Lookup(root, rel).value;
    LookupWellFormed(root, rel);
    WalkPaths(l, rel);
    if rel != [] {
      var parent := rel[..|rel| - 1];
      LookupParent(root, rel);
      var up := [Shallow(Lookup(root, parent).value, parent)];
      DistinctConcat(Walk(l, rel), up);
    }
  }

  /**
   * The reason for the parent scan: a new directory detected from within reappears
   * in the report as a directory missing from its parent's inventory.
   */
  lemma ParentScanReportsNewDirectory(view: StoreView, root: seq<Entry>, rel: Path, now: Timestamp)
    requires WellFormed(root) && rel != [] && Lookup(root, rel).Some?
    requires rel[|rel| - 1] !in Baseline(view, rel[..|rel| - 1]).dirs
    ensures Detect(view, root, rel, now).Ok?
    ensures exists d :: (d in Detect(view, root, rel, now).value.inventoryDiffs &&
      d.path == rel[..|rel| - 1] && rel[|rel| - 1] in d.directoriesMissingFromInventory)
  {
    var parent := rel[..|rel| - 1];
    var name := rel[|rel| - 1];
    LookupParent(root, rel);
    var pl := Lookup(root, parent).value;
    var obs := Observed(root, rel).value;
    var up := Shallow(pl, parent);
    assert obs[|obs| - 1] == up;
    ShallowMembers(pl);
    var k :| 0 <= k < |pl| && pl[k].name == name && pl[k].node == Dir(Lookup(root, rel).value);
    assert name in up.dirs;
    var d := DiffAt(view, up, now);
    assert name in d.directoriesMissingFromInventory;
    DetectedFilter(view, obs, now);
    assert d in Detected(view, obs, now);
  }

  // ---------------------------------------------------------------------------
  // Properties of the update
  // ---------------------------------------------------------------------------

  /** `update_inventory` leaves every path that no diff names as it was. */
  lemma {:induction false} ApplyDiffsFrame(view: StoreView, diffs: seq<InventoryDiff>, p: Path)
    requires forall i :: 0 <= i < |diffs| ==> diffs[i].path != p
    ensures p in ApplyDiffs(view, diffs).view <==> p in view
    ensures p in view ==> ApplyDiffs(view, diffs).view[p] == view[p]
    decreases |diffs|
  {
    if diffs != [] && Applies(Baseline(view, diffs[0].path), diffs[0].UpdateArgs()) {
      ApplyDiffsFrame(view[diffs[0].path := AppliedStored(view, diffs[0])], diffs[1..], p);
    }
  }

  /** An update that raised raised on one of the report's diffs, which did not apply to the store it met. */
  lemma {:induction false} ApplyDiffsStops(view: StoreView, diffs: seq<InventoryDiff>)
    ensures var o := ApplyDiffs(view, diffs);
      o.failed.Some? ==> o.failed.value in diffs && !Applies(Baseline(o.view, o.failed.value.path), o.failed.value.UpdateArgs())
    decreases |diffs|
  {
    if diffs != [] && Applies(Baseline(view, diffs[0].path), diffs[0].UpdateArgs()) {
      ApplyDiffsStops(view[diffs[0].path := AppliedStored(view, diffs[0])], diffs[1..]);
    }
  }

  /**
   * Diffs of distinct paths, each applying to its baseline, all complete; each path
   * ends up holding its baseline updated by its diff.
   */
  lemma {:induction false} ApplyDistinct(view: StoreView, diffs: seq<InventoryDiff>)
    requires forall j, k :: 0 <= j < k < |diffs| ==> diffs[j].path != diffs[k].path
    requires forall i :: 0 <= i < |diffs| ==> Applies(Baseline(view, diffs[i].path), diffs[i].UpdateArgs())
    ensures ApplyDiffs(view, diffs).failed.None?
    ensures forall i :: 0 <= i < |diffs| ==>
      diffs[i].path in ApplyDiffs(view, diffs).view &&
      ApplyDiffs(view, diffs).view[diffs[i].path] == AppliedStored(view, diffs[i])
    decreases |diffs|
  {
    if diffs != [] {
      var d := diffs[0];
      var next := view[d.path := AppliedStored(view, d)];
      var rest := diffs[1..];
      assert forall i :: 0 <= i < |rest| ==> rest[i] == diffs[i + 1] && rest[i].path != d.path;
      assert forall i :: 0 <= i < |rest| ==> Baseline(next, rest[i].path) == Baseline(view, rest[i].path);
      ApplyDistinct(next, rest);
      ApplyDiffsFrame(next, rest, d.path);
      forall i | 1 <= i < |diffs|
        ensures ApplyDiffs(view, diffs).view[diffs[i].path] == AppliedStored(view, diffs[i])
      {
        assert diffs[i] == rest[i - 1];
      }
    }
  }

  /** Applying a detection's diffs completes; each diffed path then holds the observed inventory. */
  lemma {:induction false} DetectedApplyResult(view: StoreView, obs: seq<Snapshot>, now: Timestamp)
    requires DistinctPaths(obs)
    ensures ApplyDiffs(view, Detected(view, obs, now)).failed.None?
    ensures forall d :: d in Detected(view, obs, now) ==>
      d.path in ApplyDiffs(view, Detected(view, obs, now)).view &&
      ApplyDiffs(view, Detected(view, obs, now)).view[d.path] == AppliedStored(view, d)
  {
    var diffs := Detected(view, obs, now);
    DetectedFilter(view, obs, now);
    DetectedDistinct(view, obs, now);
    forall j | 0 <= j < |diffs| ensures Applies(Baseline(view, diffs[j].path), diffs[j].UpdateArgs()) {
      assert diffs[j] in diffs;
      var i :| 0 <= i < |obs| && diffs[j] == DiffAt(view, obs[i], now) && diffs[j].HasDiffs();
      UpdateWithGeneratedDiff(obs[i], Baseline(view, obs[i].path), now);
    }
    ApplyDistinct(view, diffs);
  }

  /** After applying a detection's diffs, the `k`-th observed inventory matches its baseline. */
  lemma {:induction false} CleanAt(view: StoreView, obs: seq<Snapshot>, now: Timestamp, later: Timestamp, k: nat)
    requires DistinctPaths(obs) && k < |obs|
    ensures !DiffAt(ApplyDiffs(view, Detected(view, obs, now)).view, obs[k], later).HasDiffs()
  {
    var diffs := Detected(view, obs, now);
    var after := ApplyDiffs(view, diffs).view;
    var p := obs[k].path;
    var d := DiffAt(view, obs[k], now);
    DetectedFilter(view, obs, now);
    HasDiffsIffDiffer(obs[k], Baseline(view, p), now);
    HasDiffsIffDiffer(obs[k], Baseline(after, p), later);
    if d.HasDiffs() {
      assert d in diffs;
      DetectedApplyResult(view, obs, now);
      UpdateWithGeneratedDiff(obs[k], Baseline(view, p), now);
      assert after[p] == AppliedStored(view, d);
    } else {
      forall j | 0 <= j < |diffs| ensures diffs[j].path != p {
        assert diffs[j] in diffs;
        var i :| 0 <= i < |obs| && diffs[j] == DiffAt(view, obs[i], now) && diffs[j].HasDiffs();
        assert i != k;
      }
      ApplyDiffsFrame(view, diffs, p);
      assert Baseline(after, p) == Baseline(view, p);
    }
  }

  /**
   * Idempotence on the model: updating the store with a detection's diffs completes,
   * and detecting again on the unchanged inventories finds nothing.
   */
  lemma {:induction false} DetectThenApplyIsClean(view: StoreView, obs: seq<Snapshot>, now: Timestamp, later: Timestamp)
    requires DistinctPaths(obs)
    ensures ApplyDiffs(view, Detected(view, obs, now)).failed.None?
    ensures Detected(ApplyDiffs(view, Detected(view, obs, now)).view, obs, later) == []
  {
    DetectedApplyResult(view, obs, now);
    forall k | 0 <= k < |obs| ensures !DiffAt(ApplyDiffs(view, Detected(view, obs, now)).view, obs[k], later).HasDiffs() {
      CleanAt(view, obs, now, later, k);
    }
    DetectedNone(ApplyDiffs(view, Detected(view, obs, now)).view, obs, later);
  }

  /**
   * `update_inventory(detect_change(p))` completes, and a second `detect_change(p)` on
   * the unchanged tree reports no diffs.
   */
  lemma DetectUpdateDetect(view: StoreView, root: seq<Entry>, rel: Path, now: Timestamp, later: Timestamp)
    requires WellFormed(root) && Lookup(root, rel).Some?
    ensures Detect(view, root, rel, now).Ok?
    ensures var o := ApplyDiffs(view, Detect(view, root, rel, now).value.inventoryDiffs);
      && o.failed.None?
      && Detect(o.view, root, rel, later) == Ok(InventoryReport(rel, [], later))
  {
    ObservedShape(root, rel);
    DetectThenApplyIsClean(view, Observed(root, rel).value, now, later);
  }

  /**
   * `populate`: detecting from the base against an empty inventory directory and
   * applying the report leaves a store against which the tree shows no change.
   */
  lemma PopulatedStoreIsClean(root: seq<Entry>, now: Timestamp, later: Timestamp)
    requires WellFormed(root)
    ensures var o := ApplyDiffs(map[], Detect(map[], root, [], now).value.inventoryDiffs);
      && o.failed.None?
      && Detect(o.view, root, [], later) == Ok(InventoryReport([], [], later))
  {
    DetectUpdateDetect(map[], root, [], now, later);
  }

  /** A sub-directory's walk is part of the walks of its listing's sub-directories. */
  lemma {:induction false} DescendContains(l: seq<Entry>, at: Path, k: nat)
    requires k < |l| && l[k].node.Dir?
    ensures forall x :: x in Walk(l[k].node.listing, at + [l[k].name]) ==> x in Descend(l, at)
    decreases |l|
  {
    if k < |l| - 1 {
      var init := l[..|l| - 1];
      assert init[k] == l[k];
      DescendContains(init, at, k);
    }
  }

  /** The walk of a directory below `l` is part of the walk of `l`. */
  lemma {:induction false} WalkContainsSub(l: seq<Entry>, at: Path, rel: Path)
    requires Lookup(l, rel).Some?
    ensures forall x :: x in Walk(Lookup(l, rel).value, at + rel) ==> x in Walk(l, at)
    decreases |rel|
  {
    if rel == [] {
      assert at + rel == at;
    } else {
      var sub := FindEntry(l, rel[0]).value.listing;
      var k :| 0 <= k < |l| && l[k].name == rel[0] && l[k].node == Dir(sub);
      WalkContainsSub(sub, at + [rel[0]], rel[1..]);
      assert at + [rel[0]] + rel[1..] == at + rel;
      DescendContains(l, at, k);
    }
  }

  /** Every inventory `detect_change` takes, the parent's included, is one of the base walk's. */
  lemma ObservedInBaseWalk(root: seq<Entry>, rel: Path)
    requires Observed(root, rel).Some?
    ensures forall x :: x in Observed(root, rel).value ==> x in Walk(root, [])
  {
    WalkContainsSub(root, [], rel);
    assert [] + rel == rel;
    if rel != [] {
      var parent := rel[..|rel| - 1];
      LookupParent(root, rel);
      var pl := Lookup(root, parent).value;
      WalkContainsSub(root, [], parent);
      assert [] + parent == parent;
      assert Walk(pl, parent)[0] == Shallow(pl, parent);
    }
  }

  /**
   * A store holding every inventory of the base walk, as writing each of
   * `perform_recursive_inventory`'s inventories leaves it: detecting from any
   * directory of the unchanged tree reports no diffs.
   */
  lemma RecordedWalkIsClean(view: StoreView, root: seq<Entry>, rel: Path, now: Timestamp)
    requires Lookup(root, rel).Some?
    requires forall x :: x in Walk(root, []) ==> Baseline(view, x.path) == x
    ensures Detect(view, root, rel, now) == Ok(InventoryReport(rel, [], now))
  {
    var obs := Observed(root, rel).value;
    ObservedInBaseWalk(root, rel);
    forall i | 0 <= i < |obs| ensures !DiffAt(view, obs[i], now).HasDiffs() {
      assert obs[i] in obs;
      HasDiffsIffDiffer(obs[i], Baseline(view, obs[i].path), now);
    }
    DetectedNone(view, obs, now);
  }

  /**
   * `populate`, then `detect_changes` from any directory of the unchanged tree: the
   * populated store holds the base walk, so the report has no diffs.
   */
  lemma PopulateThenDetectAnywhere(root: seq<Entry>, rel: Path, now: Timestamp, later: Timestamp)
    requires WellFormed(root) && Lookup(root, rel).Some?
    ensures var populated := ApplyDiffs(map[], Detect(map[], root, [], now).value.inventoryDiffs).view;
      Detect(populated, root, rel, later) == Ok(InventoryReport(rel, [], later))
  {
    var walk := Walk(root, []);
    assert Observed(root, []).value == walk;
    ObservedShape(root, []);
    var populated := ApplyDiffs(map[], Detected(map[], walk, now)).view;
    forall x | x in walk ensures Baseline(populated, x.path) == x {
      var k :| 0 <= k < |walk| && walk[k] == x;
      CleanAt(map[], walk, now, later, k);
      HasDiffsIffDiffer(x, Baseline(populated, x.path), later);
    }
    RecordedWalkIsClean(populated, root, rel, later);
  }

  // ---------------------------------------------------------------------------
  // Path helpers of the command-line front end
  // ---------------------------------------------------------------------------

  /** Why `find_base_path` raised: no configured base path is a prefix of `path`. */
  datatype NotContained = NotContained(path: string, basePaths: seq<string>)

  /** `find_base_path`: the first of `basePaths`, in order, of which `path` is an extension. */
  method FindBasePath(basePaths: seq<string>, path: string) returns (r: Result<string, NotContained>)
    ensures r.Ok? ==> exists i :: (0 <= i < |basePaths| && r.value == basePaths[i] && basePaths[i] <= path &&
      forall j :: 0 <= j < i ==> !(basePaths[j] <= path))
    ensures r.Err? <==> forall i :: 0 <= i < |basePaths| ==> !(basePaths[i] <= path)
    ensures r.Err? ==> r.error == NotContained(path, basePaths)
  {
    var i := 0;
    while i < |basePaths|
      invariant 0 <= i <= |basePaths|
      invariant forall j :: 0 <= j < i ==> !(basePaths[j] <= path)
    {
      if basePaths[i] <= path {
        return Ok(basePaths[i]);
      }
      i := i + 1;
    }
    return Err(NotContained(path, basePaths));
  }

  /** Why `check_json_report` raised. */
  datatype NotAJsonReport = NotAJsonReport(path: string)

  /** `check_json_report`: passes (None) exactly for a path ending in ".json". */
  function CheckJsonReport(path: string): (r: Option<NotAJsonReport>)
    ensures r.None? <==> exists stem :: path == stem + ".json"
    ensures r.Some? ==> r.value == NotAJsonReport(path)
  {
    if |path| >= 5 && path[|path| - 5..] == ".json" then
      assert path == path[..|path| - 5] + ".json";
      None
    else
      Some(NotAJsonReport(path))
  }

  /** Every report the tool writes passes the check that the `excel` command applies to its argument. */
  lemma ReportFilepathIsJson(report: InventoryReport)
    ensures CheckJsonReport(report.Filepath()).None?
  {
    var f := report.Filepath();
    assert f == f[..11] + (report.timestamp + ".json");
    assert f == (f[..11] + report.timestamp) + ".json";
  }
}
