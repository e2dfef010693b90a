/**
 * The storage locations the tool derives from digests and timestamps:
 * `Inventory._generate_inventory_filepath` and `InventoryReport.report_filepath`.
 * Both are pure string functions; the SHA-256 of the logical path is an input here.
 */
module StorageKeys {
  import opened Common

  /** `os.path.join` of relative, non-empty components: '/'-separated. */
  function JoinPath(parts: seq<string>): string
  {
    if |parts| == 0 then ""
    else if |parts| == 1 then parts[0]
    else parts[0] + "/" + JoinPath(parts[1..])
  }

  /** `[digest[i:i + 8] for i in range(0, 64, 8)]`, from the `k`-th shard on. */
  function Shards(digest: string, k: nat): (r: seq<string>)
    requires |digest| == 64 && k <= 8
    ensures |r| == 8 - k
    ensures forall i :: 0 <= i < |r| ==> r[i] == digest[8 * (k + i) .. 8 * (k + i) + 8]
    decreases 8 - k
  {
    if k == 8 then [] else [digest[8 * k .. 8 * k + 8]] + Shards(digest, k + 1)
  }

  /** The nested directory part of an inventory's location, without the file name. */
  function ShardDirectory(digest: string): string
    requires |digest| == 64
  {
    JoinPath(Shards(digest, 0))
  }

  lemma {:induction false} JoinedShards(digest: string, k: nat)
    requires |digest| == 64 && k < 8
    ensures |JoinPath(Shards(digest, k))| == 9 * (8 - k) - 1
    ensures forall i :: 0 <= i < 8 - k ==>
      JoinPath(Shards(digest, k))[9 * i .. 9 * i + 8] == digest[8 * (k + i) .. 8 * (k + i) + 8]
    ensures forall i :: 0 <= i < 7 - k ==> JoinPath(Shards(digest, k))[9 * i + 8] == '/'
    decreases 8 - k
  {
    var parts := Shards(digest, k);
    var head := digest[8 * k .. 8 * k + 8];
    if k < 7 {
      JoinedShards(digest, k + 1);
      var rest := JoinPath(Shards(digest, k + 1));
      assert parts[1..] == Shards(digest, k + 1);
      var s := JoinPath(parts);
      assert s == head + "/" + rest;
      forall i | 0 <= i < 8 - k
        ensures s[9 * i .. 9 * i + 8] == digest[8 * (k + i) .. 8 * (k + i) + 8]
      {
        if i > 0 {
          assert s[9 * i .. 9 * i + 8] == rest[9 * (i - 1) .. 9 * (i - 1) + 8];
        }
      }
      forall i | 0 <= i < 7 - k ensures s[9 * i + 8] == '/' {
        if i > 0 {
          assert s[9 * i + 8] == rest[9 * (i - 1) + 8];
        }
      }
    }
  }

  /**
   * `_generate_inventory_filepath`: eight '/'-separated 8-character shards of the
   * path's digest, then `<digest>.json`.
   */
  function InventoryFilepath(digest: string): (r: string)
    requires |digest| == 64
    ensures |r| == 141
    ensures forall i :: 0 <= i < 8 ==> r[9 * i .. 9 * i + 8] == digest[8 * i .. 8 * i + 8]
    ensures forall i :: 0 <= i < 8 ==> r[9 * i + 8] == '/'
    ensures r[72..] == digest + ".json"
  {
    JoinedShards(digest, 0);
    var parts := [ShardDirectory(digest), digest + ".json"];
    assert JoinPath(parts) == parts[0] + "/" + JoinPath(parts[1..]);
    assert JoinPath(parts[1..]) == digest + ".json";
    JoinPath(parts)
  }

  /** The shards are eight 8-character strings whose concatenation is the digest. */
  lemma {:induction false} ShardsSplitDigest(digest: string, k: nat)
    requires |digest| == 64 && k <= 8
    ensures forall i :: 0 <= i < |Shards(digest, k)| ==> |Shards(digest, k)[i]| == 8
    ensures Concat(Shards(digest, k)) == digest[8 * k..]
    decreases 8 - k
  {
    if k < 8 {
      ShardsSplitDigest(digest, k + 1);
      assert Shards(digest, k)[1..] == Shards(digest, k + 1);
      assert digest[8 * k..] == digest[8 * k .. 8 * k + 8] + digest[8 * (k + 1)..];
    }
  }

  function Concat(parts: seq<string>): string
  {
    if parts == [] then "" else parts[0] + Concat(parts[1..])
  }

  /** Distinct path digests never share a storage location. */
  lemma InventoryFilepathInjective(d1: string, d2: string)
    requires |d1| == 64 && |d2| == 64
    requires InventoryFilepath(d1) == InventoryFilepath(d2)
    ensures d1 == d2
  {
    assert d1 == (d1 + ".json")[..64] && d2 == (d2 + ".json")[..64];
  }

  /** `InventoryReport.report_filepath`: `YYYY/MM/DD/<timestamp>.json`. */
  function ReportFilepath(ts: Timestamp): (r: string)
    ensures |r| == |ts| + 16
    ensures r[..4] == ts[..4] && r[5..7] == ts[5..7] && r[8..10] == ts[8..10]
    ensures r[4] == '/' && r[7] == '/' && r[10] == '/'
    ensures r[11..] == ts + ".json"
  {
    var parts := [ts[0..4], ts[5..7], ts[8..10], ts + ".json"];
    assert parts[1..][1..][1..] == [ts + ".json"];
    assert JoinPath(parts) == ts[0..4] + "/" + ts[5..7] + "/" + ts[8..10] + "/" + ts + ".json" by {
      assert JoinPath(parts) == parts[0] + "/" + JoinPath(parts[1..]);
      assert JoinPath(parts[1..]) == parts[1] + "/" + JoinPath(parts[1..][1..]);
      assert JoinPath(parts[1..][1..]) == parts[2] + "/" + JoinPath(parts[1..][1..][1..]);
    }
    JoinPath(parts)
  }

  /** Distinct report timestamps never share a report file. */
  lemma ReportFilepathInjective(t1: Timestamp, t2: Timestamp)
    requires ReportFilepath(t1) == ReportFilepath(t2)
    ensures t1 == t2
  {
    var r1, r2 := ReportFilepath(t1), ReportFilepath(t2);
    assert t1 == r1[11..][..|t1|] && t2 == r2[11..][..|t2|];
  }
}
