/**
 * `InventoryDiff` and `InventoryReport` in inventory.py: one directory's oriented
 * difference between the file system and the stored inventory, and the timestamped
 * list of such differences that `detect_change` produces and `update_inventory`
 * consumes, together with their JSON records.
 */
module Reports {
  import opened Common
  import opened Inventories
  import opened StorageKeys

  /**
   * An `InventoryDiff`, fields in the constructor's order: what only the file system
   * has ("missing from inventory"), then what only the stored inventory has
   * ("missing from fs"), then the digest mismatches as (stored, observed).
   */
  datatype InventoryDiff = InventoryDiff(
    path: Path,
    directoriesMissingFromInventory: set<Name>,
    directoriesMissingFromFs: set<Name>,
    filesMissingFromInventory: map<Name, Digest>,
    filesMissingFromFs: map<Name, Digest>,
    fileFixityMismatch: map<Name, FixityPair>,
    timestamp: Timestamp)
  {
    /** `has_diffs`: Python truthiness of the `or` of the five collections. */
    predicate HasDiffs()
    {
      || directoriesMissingFromFs != {}
      || directoriesMissingFromInventory != {}
      || filesMissingFromFs != map[]
      || filesMissingFromInventory != map[]
      || fileFixityMismatch != map[]
    }

    /** The five positional arguments `update_inventory` passes to `Inventory.update`. */
    function UpdateArgs(): Changes
    {
      Changes(directoriesMissingFromInventory, directoriesMissingFromFs,
        filesMissingFromInventory, filesMissingFromFs, fileFixityMismatch)
    }
  }

  /** `generate_inventory_diff(fs, baseline)`: `baseline.diff(fs)`, under `fs`'s path, stamped `now`. */
  function GeneratedDiff(fs: Snapshot, baseline: Snapshot, now: Timestamp): InventoryDiff
  {
    var ch := DiffOf(baseline, fs);
    InventoryDiff(fs.path, ch.dirsMissingFromThis, ch.dirsMissingFromThat,
      ch.filesMissingFromThis, ch.filesMissingFromThat, ch.fixityMismatch, now)
  }

  /** `InventoryDiff.generate_inventory_diff`; `diff` asserts that both inventories are of one path. */
  method GenerateInventoryDiff(fsInventory: Inventory, inventoryInventory: Inventory, now: Timestamp)
    returns (d: InventoryDiff)
    requires fsInventory.path == inventoryInventory.path
    ensures d == GeneratedDiff(fsInventory.Value(), inventoryInventory.Value(), now)
  {
    var ch := inventoryInventory.Diff(fsInventory);
    d := InventoryDiff(fsInventory.path, ch.dirsMissingFromThis, ch.dirsMissingFromThat,
      ch.filesMissingFromThis, ch.filesMissingFromThat, ch.fixityMismatch, now);
  }

  /** The diff has differences exactly when the file system and the baseline disagree. */
  lemma {:induction false} HasDiffsIffDiffer(fs: Snapshot, baseline: Snapshot, now: Timestamp)
    ensures GeneratedDiff(fs, baseline, now).HasDiffs() <==> baseline.dirs != fs.dirs || baseline.files != fs.files
  {
    NoChangeIffSameContents(baseline, fs);
    assert GeneratedDiff(fs, baseline, now).HasDiffs() <==> AnyChange(DiffOf(baseline, fs));
  }

  /**
   * The orientation `update_inventory` relies on: handing the diff's fields to
   * `baseline.update` always completes and leaves the file system's directories and
   * files under the baseline's path.
   */
  lemma UpdateWithGeneratedDiff(fs: Snapshot, baseline: Snapshot, now: Timestamp)
    ensures Applies(baseline, GeneratedDiff(fs, baseline, now).UpdateArgs())
    ensures Applied(baseline, GeneratedDiff(fs, baseline, now).UpdateArgs()) == Snapshot(baseline.path, fs.dirs, fs.files)
  {
    assert GeneratedDiff(fs, baseline, now).UpdateArgs() == DiffOf(baseline, fs);
    UpdateInvertsDiff(baseline, fs);
  }

  /** Against a missing record, everything observed is missing from the inventory and nothing else differs. */
  lemma GeneratedAgainstEmpty(fs: Snapshot, now: Timestamp)
    ensures GeneratedDiff(fs, EmptySnapshot(fs.path), now)
      == InventoryDiff(fs.path, fs.dirs, {}, fs.files, map[], map[], now)
  {
    DiffAgainstEmpty(fs);
  }

  // ---------------------------------------------------------------------------
  // JSON records
  // ---------------------------------------------------------------------------

  /** The dictionary of `InventoryDiff.as_dict`: sets become lists, the timestamp its ISO text. */
  datatype DiffRecord = DiffRecord(
    path: Path,
    directoriesMissingFromFs: seq<Name>,
    directoriesMissingFromInventory: seq<Name>,
    filesMissingFromFs: map<Name, Digest>,
    filesMissingFromInventory: map<Name, Digest>,
    fileFixityMismatch: map<Name, FixityPair>,
    timestamp: Timestamp)

  /** Each element once, in no particular order. */
  ghost predicate ListsSet(l: seq<Name>, s: set<Name>)
  {
    && |l| == |s|
    && (forall x :: x in l <==> x in s)
  }

  /** `list(s)` of a Python set, whose order is unspecified. */
  method ListOf(s: set<Name>) returns (l: seq<Name>)
    ensures ListsSet(l, s)
    ensures forall i, j :: 0 <= i < j < |l| ==> l[i] != l[j]
  {
    l := [];
    var rest := s;
    while rest != {}
      invariant rest <= s
      invariant forall x :: x in l <==> x in s && x !in rest
      invariant forall i, j :: 0 <= i < j < |l| ==> l[i] != l[j]
      invariant |l| + |rest| == |s|
      decreases rest
    {
      var x :| x in rest;
      l := l + [x];
      rest := rest - {x};
    }
  }

  /** `InventoryDiff.from_dict`: lists become sets again, passed in the constructor's order. */
  function DiffFromDict(rec: DiffRecord): InventoryDiff
  {
    InventoryDiff(
      rec.path,
      (set x | x in rec.directoriesMissingFromInventory),
      (set x | x in rec.directoriesMissingFromFs),
      rec.filesMissingFromInventory,
      rec.filesMissingFromFs,
      rec.fileFixityMismatch,
      rec.timestamp)
  }

  /** `InventoryDiff.as_dict`, with `from_dict` as its inverse. */
  method DiffAsDict(d: InventoryDiff) returns (rec: DiffRecord)
    ensures ListsSet(rec.directoriesMissingFromFs, d.directoriesMissingFromFs)
    ensures ListsSet(rec.directoriesMissingFromInventory, d.directoriesMissingFromInventory)
    ensures rec.path == d.path && rec.timestamp == d.timestamp
    ensures DiffFromDict(rec) == d
  {
    var fromFs := ListOf(d.directoriesMissingFromFs);
    var fromInventory := ListOf(d.directoriesMissingFromInventory);
    rec := DiffRecord(d.path, fromFs, fromInventory, d.filesMissingFromFs,
      d.filesMissingFromInventory, d.fileFixityMismatch, d.timestamp);
    assert (set x | x in fromFs) == d.directoriesMissingFromFs;
    assert (set x | x in fromInventory) == d.directoriesMissingFromInventory;
  }

  // ---------------------------------------------------------------------------
  // Reports
  // ---------------------------------------------------------------------------

  /** An `InventoryReport`: the path a detection started from, its diffs and its timestamp. */
  datatype InventoryReport = InventoryReport(basePath: Path, inventoryDiffs: seq<InventoryDiff>, timestamp: Timestamp)
  {
    /** `report_filepath`: where the report is written below the report directory. */
    function Filepath(): string
    {
      ReportFilepath(timestamp)
    }
  }

  /** The dictionary of `InventoryReport.as_dict`. */
  datatype ReportRecord = ReportRecord(basePath: Path, timestamp: Timestamp, inventoryDiffs: seq<DiffRecord>)

  /** `InventoryReport.read` of a record: each diff through `from_dict`, in order. */
  function ReportFromDict(rec: ReportRecord): InventoryReport
  {
    InventoryReport(rec.basePath, seq(|rec.inventoryDiffs|, i requires 0 <= i < |rec.inventoryDiffs| => DiffFromDict(rec.inventoryDiffs[i])), rec.timestamp)
  }

  /** `InventoryReport.as_dict`: the diffs' records in the report's order; reading it back gives the report. */
  method ReportAsDict(report: InventoryReport) returns (rec: ReportRecord)
    ensures rec.basePath == report.basePath && rec.timestamp == report.timestamp
    ensures |rec.inventoryDiffs| == |report.inventoryDiffs|
    ensures forall i :: 0 <= i < |rec.inventoryDiffs| ==> rec.inventoryDiffs[i].path == report.inventoryDiffs[i].path
    ensures ReportFromDict(rec) == report
  {
    var diffs: seq<DiffRecord> := [];
    var i := 0;
    while i < |report.inventoryDiffs|
      invariant 0 <= i <= |report.inventoryDiffs| && |diffs| == i
      invariant forall k :: 0 <= k < i ==> DiffFromDict(diffs[k]) == report.inventoryDiffs[k]
    {
      var d := DiffAsDict(report.inventoryDiffs[i]);
      diffs := diffs + [d];
      i := i + 1;
    }
    rec := ReportRecord(report.basePath, report.timestamp, diffs);
  }

  /** `InventoryReport.read` once the JSON is loaded: the diffs appended one by one. */
  method ReadReport(rec: ReportRecord) returns (report: InventoryReport)
    ensures report == ReportFromDict(rec)
  {
    report := InventoryReport(rec.basePath, [], rec.timestamp);
    var i := 0;
    while i < |rec.inventoryDiffs|
      invariant 0 <= i <= |rec.inventoryDiffs| && |report.inventoryDiffs| == i
      invariant report.basePath == rec.basePath && report.timestamp == rec.timestamp
      invariant forall k :: 0 <= k < i ==> report.inventoryDiffs[k] == DiffFromDict(rec.inventoryDiffs[k])
    {
      report := report.(inventoryDiffs := report.inventoryDiffs + [DiffFromDict(rec.inventoryDiffs[i])]);
      i := i + 1;
    }
  }
}
