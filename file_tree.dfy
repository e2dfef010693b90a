/**
 * The file system seen by the inventory code, as an abstract tree. A directory is
 * its listing in `os.listdir` order; a file carries the SHA-256 digest of its
 * contents (what `Inventory._generate_fixity` computes); an entry that is neither a
 * directory nor a regular file (a broken link, a device) is `Other`.
 */
module FileTree {
  import opened Common

  datatype Node = File(digest: Digest) | Dir(listing: seq<Entry>) | Other

  datatype Entry = Entry(name: Name, node: Node)

  /** No two entries of one listing share a name. */
  predicate UniqueNames(l: seq<Entry>)
  {
    forall i, j :: 0 <= i < j < |l| ==> l[i].name != l[j].name
  }

  /** Names are unique in this listing and in every listing below it, as on a real file system. */
  predicate WellFormed(l: seq<Entry>)
    decreases l
  {
    && UniqueNames(l)
    && forall i :: 0 <= i < |l| ==> (l[i].node.Dir? ==> WellFormed(l[i].node.listing))
  }

  /** The entry `name` of a listing, as `os.path.join(dir, name)` resolves it. */
  function FindEntry(l: seq<Entry>, name: Name): (r: Option<Node>)
    ensures r.Some? <==> exists i :: 0 <= i < |l| && l[i].name == name
    ensures r.Some? ==> exists i :: 0 <= i < |l| && l[i].name == name && l[i].node == r.value
  {
    if |l| == 0 then None
    else if l[0].name == name then Some(l[0].node)
    else
      var r := FindEntry(l[1..], name);
      assert forall i :: 0 < i < |l| ==> l[i] == l[1..][i - 1];
      r
  }

  /**
   * The listing of the directory at `rel` below the directory listed by `l`, or None
   * when `rel` names nothing or a non-directory (where `os.listdir` raises).
   */
  function Lookup(l: seq<Entry>, rel: Path): Option<seq<Entry>>
    decreases |rel|
  {
    if rel == [] then Some(l)
    else
      match FindEntry(l, rel[0])
      case Some(Dir(sub)) => Lookup(sub, rel[1..])
      case _ => None
  }

  /**
   * A directory that can be listed has a listable parent (`os.path.dirname`), in
   * whose listing it appears as a directory.
   */
  lemma {:induction false} LookupParent(l: seq<Entry>, rel: Path)
    requires rel != [] && Lookup(l, rel).Some?
    ensures Lookup(l, rel[..|rel| - 1]).Some?
    ensures FindEntry(Lookup(l, rel[..|rel| - 1]).value, rel[|rel| - 1]) == Some(Dir(Lookup(l, rel).value))
    decreases |rel|
  {
    var sub := FindEntry(l, rel[0]).value.listing;
    if |rel| > 1 {
      LookupParent(sub, rel[1..]);
      assert rel[1..][..|rel| - 2] == rel[..|rel| - 1][1..];
    }
  }

  /** Below a well-formed listing, every listable directory is well-formed. */
  lemma {:induction false} LookupWellFormed(l: seq<Entry>, rel: Path)
    requires WellFormed(l) && Lookup(l, rel).Some?
    ensures WellFormed(Lookup(l, rel).value)
    decreases |rel|
  {
    if rel != [] {
      var sub := FindEntry(l, rel[0]).value.listing;
      LookupWellFormed(sub, rel[1..]);
    }
  }
}
