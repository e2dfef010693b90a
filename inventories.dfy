/**
 * One directory's fixity inventory (`Inventory` in inventory.py): its logical path,
 * the set of its sub-directory names and the map from its file names to digests.
 * `diff` classifies every difference between two inventories of one path into five
 * collections; `update` folds those collections back in place. The pure functions
 * `DiffOf`, `Applies` and `Applied` specify the two, and the lemmas at the end prove
 * the inverse law that ties them together.
 */
module Inventories {
  import opened Common
  import opened FileTree
  import opened Sorting

  /** The value of an inventory, without its timestamp. */
  datatype Snapshot = Snapshot(path: Path, dirs: set<Name>, files: map<Name, Digest>)

  /** `Inventory(path)`: no directories and no files. */
  function EmptySnapshot(path: Path): Snapshot
  {
    Snapshot(path, {}, map[])
  }

  /** A mismatched file's digests: (as in `self`, as in `that`). */
  type FixityPair = (Digest, Digest)

  /** The five collections `diff` returns and `update` takes, in that order. */
  datatype Changes = Changes(
    dirsMissingFromThis: set<Name>,
    dirsMissingFromThat: set<Name>,
    filesMissingFromThis: map<Name, Digest>,
    filesMissingFromThat: map<Name, Digest>,
    fixityMismatch: map<Name, FixityPair>)

  /** Why `update` raised, with the file name it raised on. */
  datatype UpdateError =
    | KeyError(name: Name)         // `del self.files[name]` or `self.files[name]` on an absent name
    | AssertionError(name: Name)   // `assert self.files[name] != fixity` failed

  /** The record `as_dict` produces and `read` consumes (the JSON object on disk). */
  datatype InventoryRecord = InventoryRecord(path: Path, dirs: seq<Name>, files: map<Name, Digest>, timestamp: Timestamp)

  /** What `Inventory.read` reconstructs from a record, apart from the fresh timestamp. */
  function Recorded(rec: InventoryRecord): Snapshot
  {
    Snapshot(rec.path, (set d | d in rec.dirs), rec.files)
  }

  // ---------------------------------------------------------------------------
  // Specification of `diff` and `update`
  // ---------------------------------------------------------------------------

  /** Names in both maps whose digests differ, with (digest in `self`, digest in `that`). */
  function Mismatch(thisFiles: map<Name, Digest>, thatFiles: map<Name, Digest>): map<Name, FixityPair>
  {
    map k | k in thisFiles && k in thatFiles && thisFiles[k] != thatFiles[k] :: (thisFiles[k], thatFiles[k])
  }

  /** `self.diff(that)`. */
  function DiffOf(self: Snapshot, that: Snapshot): Changes
  {
    Changes(
      that.dirs - self.dirs,
      self.dirs - that.dirs,
      that.files - self.files.Keys,
      self.files - that.files.Keys,
      Mismatch(self.files, that.files))
  }

  /** `self.files` after `self.files.update(files_missing_from_this)`. */
  function FilesAdded(s: Snapshot, ch: Changes): map<Name, Digest>
  {
    s.files + ch.filesMissingFromThis
  }

  /** `self.files` after the deletion loop as well. */
  function FilesPruned(s: Snapshot, ch: Changes): map<Name, Digest>
  {
    FilesAdded(s, ch) - ch.filesMissingFromThat.Keys
  }

  /** The second digest of every mismatch entry: the one `update` writes. */
  function NewDigests(ch: Changes): map<Name, Digest>
  {
    map k | k in ch.fixityMismatch :: ch.fixityMismatch[k].1
  }

  /**
   * `update` runs to completion: every name it deletes is present, and every
   * mismatch name is present with a digest other than the one it writes.
   */
  predicate Applies(s: Snapshot, ch: Changes)
  {
    && ch.filesMissingFromThat.Keys <= FilesAdded(s, ch).Keys
    && forall k :: k in ch.fixityMismatch ==>
         k in FilesPruned(s, ch) && FilesPruned(s, ch)[k] != ch.fixityMismatch[k].1
  }

  /** The inventory after a completed `update`. */
  function Applied(s: Snapshot, ch: Changes): Snapshot
  {
    Snapshot(
      s.path,
      (s.dirs + ch.dirsMissingFromThis) - ch.dirsMissingFromThat,
      FilesPruned(s, ch) + NewDigests(ch))
  }

  /** What an `update` that raised `e` found. */
  predicate Blames(s: Snapshot, ch: Changes, e: UpdateError)
  {
    match e
    case KeyError(k) =>
      || (k in ch.filesMissingFromThat && k !in FilesAdded(s, ch))
      || (ch.filesMissingFromThat.Keys <= FilesAdded(s, ch).Keys
          && k in ch.fixityMismatch && k !in FilesPruned(s, ch))
    case AssertionError(k) =>
      && ch.filesMissingFromThat.Keys <= FilesAdded(s, ch).Keys
      && k in ch.fixityMismatch && k in FilesPruned(s, ch)
      && FilesPruned(s, ch)[k] == ch.fixityMismatch[k].1
  }

  /** `self.files` part-way through the overwrite loop, once the names in `done` are written. */
  function Overwritten(s: Snapshot, ch: Changes, done: set<Name>): map<Name, Digest>
  {
    FilesPruned(s, ch) + map k | k in ch.fixityMismatch && k in done :: ch.fixityMismatch[k].1
  }

  lemma OverwriteStep(s: Snapshot, ch: Changes, done: set<Name>, file: Name)
    requires file in ch.fixityMismatch && file !in done
    ensures file in Overwritten(s, ch, done) <==> file in FilesPruned(s, ch)
    ensures file in FilesPruned(s, ch) ==> Overwritten(s, ch, done)[file] == FilesPruned(s, ch)[file]
    ensures Overwritten(s, ch, done + {file}) == Overwritten(s, ch, done)[file := ch.fixityMismatch[file].1]
  {
  }

  lemma OverwrittenAll(s: Snapshot, ch: Changes)
    ensures Overwritten(s, ch, ch.fixityMismatch.Keys) == FilesPruned(s, ch) + NewDigests(ch)
  {
    assert (map k | k in ch.fixityMismatch && k in ch.fixityMismatch.Keys :: ch.fixityMismatch[k].1) == NewDigests(ch);
  }

  /** A name to delete that is absent makes `update` raise a KeyError. */
  lemma DeleteFails(s: Snapshot, ch: Changes, file: Name)
    requires file in ch.filesMissingFromThat && file !in FilesAdded(s, ch)
    ensures !Applies(s, ch) && Blames(s, ch, KeyError(file))
  {
  }

  /** Once the deletions are done, an absent or already-current mismatch name makes `update` raise. */
  lemma MismatchFails(s: Snapshot, ch: Changes, file: Name)
    requires ch.filesMissingFromThat.Keys <= FilesAdded(s, ch).Keys && file in ch.fixityMismatch
    requires file !in FilesPruned(s, ch) || FilesPruned(s, ch)[file] == ch.fixityMismatch[file].1
    ensures !Applies(s, ch)
    ensures file !in FilesPruned(s, ch) ==> Blames(s, ch, KeyError(file))
    ensures file in FilesPruned(s, ch) ==> Blames(s, ch, AssertionError(file))
  {
  }

  // ---------------------------------------------------------------------------
  // Specification of `perform_inventory` and `perform_recursive_inventory`
  // ---------------------------------------------------------------------------

  /** The names `perform_inventory` adds to `dirs`. */
  function ListingDirs(l: seq<Entry>): set<Name>
  {
    if l == [] then {}
    else ListingDirs(l[..|l| - 1]) + (if l[|l| - 1].node.Dir? then {l[|l| - 1].name} else {})
  }

  /** The digests `perform_inventory` stores in `files`, later entries overwriting earlier ones. */
  function ListingFiles(l: seq<Entry>): map<Name, Digest>
  {
    if l == [] then map[]
    else
      var rest := ListingFiles(l[..|l| - 1]);
      match l[|l| - 1].node
      case File(d) => rest[l[|l| - 1].name := d]
      case _ => rest
  }

  /** The non-recursive inventory of the directory at `at` whose listing is `l`. */
  function Shallow(l: seq<Entry>, at: Path): Snapshot
  {
    Snapshot(at, ListingDirs(l), ListingFiles(l))
  }

  /** `perform_recursive_inventory`: pre-order, the directory first, then each sub-directory's walk. */
  function Walk(l: seq<Entry>, at: Path): seq<Snapshot>
    decreases l, 1
  {
    [Shallow(l, at)] + Descend(l, at)
  }

  /** The walks of the sub-directories of `l`, in listing order. */
  function Descend(l: seq<Entry>, at: Path): seq<Snapshot>
    decreases l, 0
  {
    if l == [] then []
    else
      Descend(l[..|l| - 1], at) +
      match l[|l| - 1].node
      case Dir(sub) => Walk(sub, at + [l[|l| - 1].name])
      case _ => []
  }

  predicate DistinctPaths(obs: seq<Snapshot>)
  {
    forall i, j :: 0 <= i < j < |obs| ==> obs[i].path != obs[j].path
  }

  // ---------------------------------------------------------------------------
  // The inventory object
  // ---------------------------------------------------------------------------

  class Inventory {
    const path: Path
    var dirs: set<Name>
    var files: map<Name, Digest>
    var timestamp: Timestamp

    function Value(): Snapshot
      reads this
    {
      Snapshot(path, dirs, files)
    }

    /** `Inventory(path, dirs, files)`, stamped with the current time `now`. */
    constructor (path: Path, dirs: seq<Name>, files: map<Name, Digest>, now: Timestamp)
      ensures Value() == Snapshot(path, (set d | d in dirs), files) && timestamp == now
    {
      this.path := path;
      this.dirs := set d | d in dirs;
      this.files := files;
      this.timestamp := now;
    }

    /**
     * `perform_inventory`: one pass over the directory's listing, adding each
     * sub-directory to `dirs` and each regular file, with its digest, to `files`.
     */
    static method PerformInventory(listing: seq<Entry>, at: Path, now: Timestamp) returns (inv: Inventory)
      ensures inv.Value() == Shallow(listing, at) && inv.timestamp == now
    {
      inv := new Inventory(at, [], map[], now);
      var i := 0;
      while i < |listing|
        invariant 0 <= i <= |listing|
        invariant inv.Value() == Shallow(listing[..i], at) && inv.timestamp == now
      {
        var child := listing[i];
        match child.node {
          case Dir(_) =>
            inv.dirs := inv.dirs + {child.name};
          case File(d) =>
            inv.files := inv.files[child.name := d];
          case Other =>
        }
        assert listing[..i + 1][..i] == listing[..i];
        i := i + 1;
      }
      assert listing[..|listing|] == listing;
    }

    /** `perform_recursive_inventory`: the directory's inventory, then each sub-directory's, recursively. */
    static method PerformRecursiveInventory(listing: seq<Entry>, at: Path, now: Timestamp)
      returns (inventories: seq<Inventory>)
      ensures Values(inventories) == Walk(listing, at)
      decreases listing
    {
      var first := PerformInventory(listing, at, now);
      inventories := [first];
      var i := 0;
      while i < |listing|
        invariant 0 <= i <= |listing|
        invariant Values(inventories) == [Shallow(listing, at)] + Descend(listing[..i], at)
      {
        assert listing[..i + 1][..i] == listing[..i];
        match listing[i].node {
          case Dir(sub) =>
            var below := PerformRecursiveInventory(sub, at + [listing[i].name], now);
            ValuesAppend(inventories, below);
            inventories := inventories + below;
          case _ =>
        }
        i := i + 1;
      }
      assert listing[..|listing|] == listing;
    }

    /** `_files_missing_from_that`: the entries of `thisFiles` whose names `thatFiles` lacks. */
    static method FilesMissingFromThat(thisFiles: map<Name, Digest>, thatFiles: map<Name, Digest>)
      returns (missing: map<Name, Digest>)
      ensures missing.Keys == thisFiles.Keys - thatFiles.Keys
      ensures forall f :: f in missing ==> missing[f] == thisFiles[f]
    {
      missing := map[];
      var rest := thisFiles.Keys - thatFiles.Keys;
      while rest != {}
        invariant rest <= thisFiles.Keys - thatFiles.Keys
        invariant missing.Keys == thisFiles.Keys - thatFiles.Keys - rest
        invariant forall f :: f in missing ==> missing[f] == thisFiles[f]
        decreases rest
      {
        var file :| file in rest;
        missing := missing[file := thisFiles[file]];
        rest := rest - {file};
      }
    }

    /** `self.diff(that)`; the source asserts that both inventories are of one path. */
    method Diff(that: Inventory) returns (ch: Changes)
      requires path == that.path
      ensures ch == DiffOf(Value(), that.Value())
    {
      var dirsMissingFromThis := that.dirs - dirs;
      var dirsMissingFromThat := dirs - that.dirs;
      var filesMissingFromThis := FilesMissingFromThat(that.files, files);
      var filesMissingFromThat := FilesMissingFromThat(files, that.files);
      var mismatch: map<Name, FixityPair> := map[];
      var rest := files.Keys;
      while rest != {}
        invariant rest <= files.Keys
        invariant forall k :: k in mismatch <==>
          k in files && k !in rest && k in that.files && files[k] != that.files[k]
        invariant forall k :: k in mismatch ==> mismatch[k] == (files[k], that.files[k])
        decreases rest
      {
        var file :| file in rest;
        if file in that.files && files[file] != that.files[file] {
          mismatch := mismatch[file := (files[file], that.files[file])];
        }
        rest := rest - {file};
      }
      assert filesMissingFromThis == that.files - files.Keys;
      assert filesMissingFromThat == files - that.files.Keys;
      assert mismatch == Mismatch(files, that.files);
      ch := Changes(dirsMissingFromThis, dirsMissingFromThat, filesMissingFromThis, filesMissingFromThat, mismatch);
    }

    /**
     * `self.update(...)`: adds and removes directories, adds files, deletes files and
     * overwrites mismatched digests, in that order, then sets the timestamp to `ts`
     * or, when none is given, to `now`. The source raises part-way through when a
     * name to delete or overwrite is absent or already carries its new digest; the
     * directories are updated by then, and which files were by then depends on the
     * iteration order of its dictionaries.
     */
    method Update(ch: Changes, ts: Option<Timestamp>, now: Timestamp) returns (err: Option<UpdateError>)
      modifies this
      ensures dirs == (old(dirs) + ch.dirsMissingFromThis) - ch.dirsMissingFromThat
      ensures err.None? <==> Applies(old(Value()), ch)
      ensures err.None? ==> Value() == Applied(old(Value()), ch)
      ensures err.None? ==> timestamp == (if ts.Some? then ts.value else now)
      ensures err.Some? ==> timestamp == old(timestamp) && Blames(old(Value()), ch, err.value)
    {
      ghost var s := Value();
      dirs := dirs + ch.dirsMissingFromThis;
      dirs := dirs - ch.dirsMissingFromThat;
      files := files + ch.filesMissingFromThis;
      err := DeleteFiles(s, ch);
      if err.Some? {
        return;
      }
      err := OverwriteDigests(s, ch);
      if err.Some? {
        return;
      }
      OverwrittenAll(s, ch);
      timestamp := if ts.Some? then ts.value else now;
    }

    /** The deletion loop of `update`: `del self.files[name]` for each name to delete. */
    method DeleteFiles(ghost s: Snapshot, ch: Changes) returns (err: Option<UpdateError>)
      requires files == FilesAdded(s, ch)
      modifies this
      ensures dirs == old(dirs) && timestamp == old(timestamp)
      ensures err.None? <==> ch.filesMissingFromThat.Keys <= FilesAdded(s, ch).Keys
      ensures err.None? ==> files == FilesPruned(s, ch)
      ensures err.Some? ==> !Applies(s, ch) && Blames(s, ch, err.value)
    {
      var rest := ch.filesMissingFromThat.Keys;
      ghost var deleted: set<Name> := {};
      while rest != {}
        invariant rest + deleted == ch.filesMissingFromThat.Keys && rest !! deleted
        invariant deleted <= FilesAdded(s, ch).Keys
        invariant files == FilesAdded(s, ch) - deleted
        invariant dirs == old(dirs) && timestamp == old(timestamp)
        decreases rest
      {
        var file :| file in rest;
        if file !in files {
          DeleteFails(s, ch, file);
          return Some(KeyError(file));
        }
        files := files - {file};
        rest := rest - {file};
        deleted := deleted + {file};
      }
      return None;
    }

    /**
     * The overwrite loop of `update`: for each mismatch name, checks that it is
     * present with a digest other than the new one, then writes the new one.
     */
    method OverwriteDigests(ghost s: Snapshot, ch: Changes) returns (err: Option<UpdateError>)
      requires ch.filesMissingFromThat.Keys <= FilesAdded(s, ch).Keys
      requires files == FilesPruned(s, ch)
      modifies this
      ensures dirs == old(dirs) && timestamp == old(timestamp)
      ensures err.None? <==> Applies(s, ch)
      ensures err.None? ==> files == Overwritten(s, ch, ch.fixityMismatch.Keys)
      ensures err.Some? ==> Blames(s, ch, err.value)
    {
      var rest := ch.fixityMismatch.Keys;
      ghost var overwritten: set<Name> := {};
      assert files == Overwritten(s, ch, overwritten);
      while rest != {}
        invariant rest + overwritten == ch.fixityMismatch.Keys && rest !! overwritten
        invariant forall k :: k in overwritten ==>
          k in FilesPruned(s, ch) && FilesPruned(s, ch)[k] != ch.fixityMismatch[k].1
        invariant files == Overwritten(s, ch, overwritten)
        invariant dirs == old(dirs) && timestamp == old(timestamp)
        decreases rest
      {
        var file :| file in rest;
        OverwriteStep(s, ch, overwritten, file);
        if file !in files {
          MismatchFails(s, ch, file);
          return Some(KeyError(file));
        }
        if files[file] == ch.fixityMismatch[file].1 {
          MismatchFails(s, ch, file);
          return Some(AssertionError(file));
        }
        files := files[file := ch.fixityMismatch[file].1];
        rest := rest - {file};
        overwritten := overwritten + {file};
      }
      return None;
    }

    /** `as_dict`: the record written to the store, directories in sorted order. */
    method AsDict() returns (rec: InventoryRecord)
      ensures Recorded(rec) == Value() && rec.timestamp == timestamp
      ensures StrictlySorted(rec.dirs)
    {
      var sortedDirs := SortedNames(dirs);
      rec := InventoryRecord(path, sortedDirs, files, timestamp);
      assert (set d | d in sortedDirs) == dirs;
    }

    /**
     * `Inventory.read(path, ...)`: the stored record for `path`, if there is one,
     * with a fresh timestamp; the stored timestamp is not read back.
     */
    static method Read(store: map<Path, InventoryRecord>, path: Path, now: Timestamp) returns (r: Option<Inventory>)
      ensures r.Some? <==> path in store
      ensures r.Some? ==> fresh(r.value) && r.value.Value() == Recorded(store[path]) && r.value.timestamp == now
    {
      if path !in store {
        return None;
      }
      var rec := store[path];
      var inv := new Inventory(rec.path, rec.dirs, rec.files, now);
      return Some(inv);
    }
  }

  /** The values of a sequence of inventories. */
  function Values(inventories: seq<Inventory>): seq<Snapshot>
    reads inventories
  {
    seq(|inventories|, i requires 0 <= i < |inventories| reads inventories => inventories[i].Value())
  }

  lemma ValuesAppend(a: seq<Inventory>, b: seq<Inventory>)
    ensures Values(a + b) == Values(a) + Values(b)
  {
  }

  // ---------------------------------------------------------------------------
  // Properties of `diff` and `update`
  // ---------------------------------------------------------------------------

  /** Every difference lands in exactly one place, with the right digests. */
  lemma DiffClassifies(self: Snapshot, that: Snapshot)
    ensures var ch := DiffOf(self, that);
      && (forall d :: d in ch.dirsMissingFromThis <==> d in that.dirs && d !in self.dirs)
      && (forall d :: d in ch.dirsMissingFromThat <==> d in self.dirs && d !in that.dirs)
      && (forall f :: f in ch.filesMissingFromThis <==> f in that.files && f !in self.files)
      && (forall f :: f in ch.filesMissingFromThis ==> ch.filesMissingFromThis[f] == that.files[f])
      && (forall f :: f in ch.filesMissingFromThat <==> f in self.files && f !in that.files)
      && (forall f :: f in ch.filesMissingFromThat ==> ch.filesMissingFromThat[f] == self.files[f])
      && (forall f :: f in ch.fixityMismatch <==> f in self.files && f in that.files && self.files[f] != that.files[f])
      && (forall f :: f in ch.fixityMismatch ==> ch.fixityMismatch[f] == (self.files[f], that.files[f]))
      && ch.fixityMismatch.Keys !! ch.filesMissingFromThis.Keys
      && ch.fixityMismatch.Keys !! ch.filesMissingFromThat.Keys
      && ch.filesMissingFromThis.Keys !! ch.filesMissingFromThat.Keys
  {
  }

  /** Whether any of the five collections is non-empty. */
  predicate AnyChange(ch: Changes)
  {
    || ch.dirsMissingFromThis != {}
    || ch.dirsMissingFromThat != {}
    || ch.filesMissingFromThis != map[]
    || ch.filesMissingFromThat != map[]
    || ch.fixityMismatch != map[]
  }

  /** The diff is all-empty exactly when the two inventories hold the same directories and files. */
  lemma {:induction false} NoChangeIffSameContents(self: Snapshot, that: Snapshot)
    ensures !AnyChange(DiffOf(self, that)) <==> self.dirs == that.dirs && self.files == that.files
  {
    var ch := DiffOf(self, that);
    if !AnyChange(ch) {
      assert that.dirs - self.dirs == {} && self.dirs - that.dirs == {};
      forall f | f in that.files ensures f in self.files && self.files[f] == that.files[f] {
        assert f !in ch.filesMissingFromThis && f !in ch.fixityMismatch;
      }
      forall f | f in self.files ensures f in that.files {
        assert f !in ch.filesMissingFromThat;
      }
    }
  }

  /**
   * The inverse law: updating `self` with `self.diff(that)` always completes and leaves
   * `that`'s directories and files under `self`'s path.
   */
  lemma {:induction false} UpdateInvertsDiff(self: Snapshot, that: Snapshot)
    ensures Applies(self, DiffOf(self, that))
    ensures Applied(self, DiffOf(self, that)) == Snapshot(self.path, that.dirs, that.files)
  {
    var ch := DiffOf(self, that);
    var added := FilesAdded(self, ch);
    var pruned := FilesPruned(self, ch);
    PrunedIsCommonAndNew(self, that);
    forall k | k in ch.fixityMismatch ensures k in pruned && pruned[k] != ch.fixityMismatch[k].1 {
      assert k in self.files && k in that.files;
    }
    var updated := pruned + NewDigests(ch);
    forall k | k in that.files ensures k in updated && updated[k] == that.files[k] {
      if k in ch.fixityMismatch {
        assert updated[k] == ch.fixityMismatch[k].1;
      } else {
        assert k in pruned;
      }
    }
    assert updated.Keys == that.files.Keys;
    assert updated == that.files;
  }

  /** After the add and delete steps of `update(*self.diff(that))`, the files are `that`'s names with `self`'s digests where it has one. */
  lemma PrunedIsCommonAndNew(self: Snapshot, that: Snapshot)
    ensures var pruned := FilesPruned(self, DiffOf(self, that));
      && pruned.Keys == that.files.Keys
      && forall k :: k in pruned ==> pruned[k] == if k in self.files then self.files[k] else that.files[k]
  {
  }

  /** Which files `update` writes does not depend on the recorded "before" digests. */
  lemma {:induction false} UpdateIgnoresBeforeDigests(s: Snapshot, ch: Changes, before: map<Name, Digest>)
    requires before.Keys == ch.fixityMismatch.Keys
    ensures var ch' := ch.(fixityMismatch := map k | k in ch.fixityMismatch :: (before[k], ch.fixityMismatch[k].1));
      && (Applies(s, ch') <==> Applies(s, ch))
      && Applied(s, ch') == Applied(s, ch)
  {
    var ch' := ch.(fixityMismatch := map k | k in ch.fixityMismatch :: (before[k], ch.fixityMismatch[k].1));
    assert NewDigests(ch') == NewDigests(ch);
  }

  /** An inventory compared with itself has no differences. */
  lemma DiffWithSelfIsEmpty(s: Snapshot)
    ensures !AnyChange(DiffOf(s, s))
  {
    NoChangeIffSameContents(s, s);
  }

  /** Against a missing baseline, every observed directory and file is missing from the inventory. */
  lemma DiffAgainstEmpty(observed: Snapshot)
    ensures DiffOf(EmptySnapshot(observed.path), observed)
      == Changes(observed.dirs, {}, observed.files, map[], map[])
  {
  }

  /** An update that completes keeps the path and, on disjoint input, the dirs/files disjointness. */
  lemma {:induction false} AppliedKeepsDisjointness(s: Snapshot, that: Snapshot)
    requires s.dirs !! s.files.Keys && that.dirs !! that.files.Keys
    ensures Applied(s, DiffOf(s, that)).dirs !! Applied(s, DiffOf(s, that)).files.Keys
  {
    UpdateInvertsDiff(s, that);
  }

  // ---------------------------------------------------------------------------
  // Properties of the walk
  // ---------------------------------------------------------------------------

  /** `perform_inventory` records exactly the listing's directories and regular files. */
  lemma {:induction false} ShallowMembers(l: seq<Entry>)
    ensures forall n :: n in ListingDirs(l) <==> exists i :: 0 <= i < |l| && l[i].name == n && l[i].node.Dir?
    ensures forall n :: n in ListingFiles(l) <==> exists i :: 0 <= i < |l| && l[i].name == n && l[i].node.File?
    ensures forall i :: 0 <= i < |l| && l[i].node.File? && (forall j :: i < j < |l| ==> l[j].name != l[i].name) ==>
      ListingFiles(l)[l[i].name] == l[i].node.digest
  {
    if l != [] {
      var init := l[..|l| - 1];
      ShallowMembers(init);
      assert forall i :: 0 <= i < |init| ==> init[i] == l[i];
    }
  }

  /** In a well-formed listing no name is both a directory and a file. */
  lemma ShallowDisjoint(l: seq<Entry>, at: Path)
    requires UniqueNames(l)
    ensures Shallow(l, at).dirs !! Shallow(l, at).files.Keys
  {
    ShallowMembers(l);
  }

  /** Every path a walk from `at` visits lies at or below `at`; the walk visits each directory once. */
  lemma {:induction false} WalkPaths(l: seq<Entry>, at: Path)
    requires WellFormed(l)
    ensures Walk(l, at)[0].path == at
    ensures forall x :: x in Walk(l, at) ==> at <= x.path
    ensures DistinctPaths(Walk(l, at))
    decreases l, 1
  {
    DescendPaths(l, at);
    var w := Walk(l, at);
    var d := Descend(l, at);
    forall i, j | 0 <= i < j < |w| ensures w[i].path != w[j].path {
      if i == 0 {
        assert w[j] == d[j - 1];
      } else {
        assert w[i] == d[i - 1] && w[j] == d[j - 1];
      }
    }
  }

  lemma {:induction false} DescendPaths(l: seq<Entry>, at: Path)
    requires WellFormed(l)
    ensures forall x :: x in Descend(l, at) ==>
      exists i :: 0 <= i < |l| && l[i].node.Dir? && at + [l[i].name] <= x.path
    ensures DistinctPaths(Descend(l, at))
    decreases l, 0
  {
    if l != [] {
      var init := l[..|l| - 1];
      var last := l[|l| - 1];
      assert forall i :: 0 <= i < |init| ==> init[i] == l[i];
      assert WellFormed(init);
      DescendPaths(init, at);
      var front := Descend(init, at);
      match last.node
      case Dir(sub) =>
        var here := at + [last.name];
        WalkPaths(sub, here);
        var back := Walk(sub, here);
        forall x, y | x in front && y in back ensures x.path != y.path {
          var i :| 0 <= i < |init| && init[i].node.Dir? && at + [init[i].name] <= x.path;
          assert x.path[|at|] == init[i].name;
          assert y.path[|at|] == last.name;
        }
        DistinctConcat(front, back);
      case _ =>
        assert Descend(l, at) == front;
    }
  }

  lemma DistinctConcat(a: seq<Snapshot>, b: seq<Snapshot>)
    requires DistinctPaths(a) && DistinctPaths(b)
    requires forall x, y :: x in a && y in b ==> x.path != y.path
    ensures DistinctPaths(a + b)
  {
    var c := a + b;
    forall i, j | 0 <= i < j < |c| ensures c[i].path != c[j].path {
      if j < |a| {
        assert c[i] == a[i] && c[j] == a[j];
      } else if i >= |a| {
        assert c[i] == b[i - |a|] && c[j] == b[j - |a|];
      } else {
        assert c[i] == a[i] && c[j] == b[j - |a|];
      }
    }
  }

  // ---------------------------------------------------------------------------
  // The diff-and-update example of the test suite
  // ---------------------------------------------------------------------------

  const exampleBefore := Snapshot(["test"], {"dir1", "dir2"}, map["file1.txt" := "12345", "file2.txt" := "23456", "file3.txt" := "34567"])
  const exampleAfter := Snapshot(["test"], {"dir1", "dir3"}, map["file1.txt" := "12345", "file2.txt" := "x23456", "file4.txt" := "45678"])

  /** The five collections the test expects for its two inventories of "test". */
  lemma DiffExample()
    ensures DiffOf(exampleBefore, exampleAfter)
      == Changes({"dir3"}, {"dir2"}, map["file4.txt" := "45678"], map["file3.txt" := "34567"],
                 map["file2.txt" := ("23456", "x23456")])
  {
    assert "dir1"[3] != "dir2"[3] && "dir1"[3] != "dir3"[3] && "dir2"[3] != "dir3"[3];
    assert "file1.txt"[4] != "file2.txt"[4] && "file1.txt"[4] != "file3.txt"[4] && "file1.txt"[4] != "file4.txt"[4];
    assert "file2.txt"[4] != "file3.txt"[4] && "file2.txt"[4] != "file4.txt"[4] && "file3.txt"[4] != "file4.txt"[4];
    assert "23456"[0] != "x23456"[0];
    assert Mismatch(exampleBefore.files, exampleAfter.files) == map["file2.txt" := ("23456", "x23456")];
  }

  /** Updating the first inventory with that diff gives the second, as the test asserts. */
  lemma UpdateExample()
    ensures Applies(exampleBefore, DiffOf(exampleBefore, exampleAfter))
    ensures Applied(exampleBefore, DiffOf(exampleBefore, exampleAfter)) == exampleAfter
  {
    UpdateInvertsDiff(exampleBefore, exampleAfter);
  }
}
