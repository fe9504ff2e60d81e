/**
 * `ScalableStorage` of examples/o1_scalable_storage.rs: files cut into
 * 4 KiB blocks, block `i` of a file named with hash `h` stored under id
 * `h * 1000 + i` on consensus group `id % 3`, a placement table recording
 * each block's group, and the file's metadata kept by group 0.
 *
 * The clock readings in the metadata, the timings in the statistics and
 * the printed output are not modelled. Each group takes a lease on a block
 * scope before storing a block, and a block scope never conflicts
 * (`LeaseState.BlockScopesNeverBlocked`), so storing always succeeds here.
 * Ids are `u64`; a name's hash is the sum of its bytes, so ids stay far
 * below 2^64 for any name of realistic length and are `nat` here.
 */
module O1Storage {
  import opened Wrappers
  import opened Bytes
  import opened BlockSplit
  import VariableBlockStorage

  /** `BLOCK_SIZE`. */
  const BlockSize: nat := 4096

  /** The three groups: local, edge and cloud. */
  const GroupCount: nat := 3

  /** One group's block store, keyed by `BlockId`. */
  type Group = map<nat, seq<Byte>>

  /** `FileMetadata` without its two clock readings. */
  datatype FileMetadata = FileMetadata(name: string, size: nat, blocks: seq<nat>)

  /** Why a read failed: "File not found", or "Block {id} not found". */
  datatype StorageError = FileNotFound | BlockNotFound(id: nat)

  /** `place_block`: the id modulo the number of groups. */
  function PlaceBlock(id: nat): (g: nat)
    ensures g < GroupCount
  {
    id % GroupCount
  }

  /** Ids that differ by a multiple of three share a group; consecutive ids do not. */
  lemma PlacementCycles(id: nat, k: nat)
    ensures PlaceBlock(id + 3 * k) == PlaceBlock(id)
    ensures PlaceBlock(id + 1) != PlaceBlock(id)
  {
    assert id + 3 * k == (id / 3 + k) * 3 + id % 3;
  }

  /** `hash_filename`: the sum of the name's bytes, as in examples/variable_block_storage.rs. */
  function HashFilename(name: string): nat
  {
    VariableBlockStorage.HashFilename(name)
  }

  /** The id of block `i` of a file with hash `fileId`. */
  function BlockIdOf(fileId: nat, i: nat): nat
  {
    fileId * 1000 + i
  }

  /** The ids `write` gives the `n` blocks of a file, in order. */
  function FileIds(fileId: nat, n: nat): (r: seq<nat>)
    ensures |r| == n
  {
    seq(n, i requires 0 <= i < n => BlockIdOf(fileId, i))
  }

  predicate Distinct(ids: seq<nat>)
  {
    forall a, b :: 0 <= a < b < |ids| ==> ids[a] != ids[b]
  }

  /** A file's ids are distinct. */
  lemma FileIdsDistinct(fileId: nat, n: nat)
    ensures Distinct(FileIds(fileId, n))
  {
  }

  /** Files with different hashes and at most 1000 blocks each share no id. */
  lemma FileIdsDisjoint(h1: nat, n1: nat, h2: nat, n2: nat)
    requires h1 != h2 && n1 <= 1000 && n2 <= 1000
    ensures forall j, k :: 0 <= j < n1 && 0 <= k < n2 ==> FileIds(h1, n1)[j] != FileIds(h2, n2)[k]
  {
    forall j, k | 0 <= j < n1 && 0 <= k < n2
      ensures BlockIdOf(h1, j) != BlockIdOf(h2, k)
    {
      if h1 < h2 {
        assert h1 * 1000 + 1000 <= h2 * 1000;
      } else {
        assert h2 * 1000 + 1000 <= h1 * 1000;
      }
    }
  }

  /** Past 1000 blocks a file's ids run into those of the file whose hash is one larger. */
  lemma IdsOverflowIntoNextFile(h: nat, i: nat)
    ensures BlockIdOf(h, 1000 + i) == BlockIdOf(h + 1, i)
  {
  }

  /** Store one block on its group. */
  function Put(groups: seq<Group>, id: nat, block: seq<Byte>): (r: seq<Group>)
    requires |groups| == GroupCount
    ensures |r| == GroupCount
  {
    var g: Group := groups[PlaceBlock(id)][id := block];
    groups[PlaceBlock(id) := g]
  }

  /** The groups after storing each block in turn. */
  function Stored(groups: seq<Group>, ids: seq<nat>, blocks: seq<seq<Byte>>): (r: seq<Group>)
    requires |groups| == GroupCount && |ids| == |blocks|
    ensures |r| == GroupCount
    decreases |ids|
  {
    if ids == [] then groups
    else Put(Stored(groups, ids[..|ids| - 1], blocks[..|blocks| - 1]), ids[|ids| - 1], blocks[|blocks| - 1])
  }

  lemma StoredSnoc(groups: seq<Group>, ids: seq<nat>, blocks: seq<seq<Byte>>, id: nat, b: seq<Byte>)
    requires |groups| == GroupCount && |ids| == |blocks|
    ensures Stored(groups, ids + [id], blocks + [b]) == Put(Stored(groups, ids, blocks), id, b)
  {
    assert (ids + [id])[..|ids|] == ids;
    assert (blocks + [b])[..|blocks|] == blocks;
  }

  /** The placement table after recording each id's group in turn. */
  function Placed(placement: map<nat, nat>, ids: seq<nat>): map<nat, nat>
    decreases |ids|
  {
    if ids == [] then placement
    else Placed(placement, ids[..|ids| - 1])[ids[|ids| - 1] := PlaceBlock(ids[|ids| - 1])]
  }

  /** Every recorded group is the one `place_block` gives. */
  predicate PlacementAgrees(placement: map<nat, nat>)
  {
    forall id {:trigger placement[id]} :: id in placement ==> placement[id] == PlaceBlock(id)
  }

  /** Recording groups keeps the table in agreement with `place_block`, and records every id. */
  lemma {:induction false} PlacedAgrees(placement: map<nat, nat>, ids: seq<nat>)
    requires PlacementAgrees(placement)
    ensures PlacementAgrees(Placed(placement, ids))
    ensures forall j :: 0 <= j < |ids| ==> ids[j] in Placed(placement, ids)
    decreases |ids|
  {
    if ids != [] {
      PlacedAgrees(placement, ids[..|ids| - 1]);
      forall j | 0 <= j < |ids| - 1
        ensures ids[j] in Placed(placement, ids[..|ids| - 1])
      {
        assert ids[j] == ids[..|ids| - 1][j];
      }
    }
  }

  /** The group `read` looks in: the recorded one, else the one `place_block` gives. */
  function Locate(placement: map<nat, nat>, id: nat): nat
  {
    if id in placement then placement[id] else PlaceBlock(id)
  }

  /** With an agreeing table, the lookup is `place_block` whatever was recorded. */
  lemma LocateAgrees(placement: map<nat, nat>, id: nat)
    requires PlacementAgrees(placement)
    ensures Locate(placement, id) == PlaceBlock(id)
  {
  }

  /** `read_block` on the group the block is located on. */
  function ReadBlock(placement: map<nat, nat>, groups: seq<Group>, id: nat): Option<seq<Byte>>
    requires |groups| == GroupCount && PlacementAgrees(placement)
  {
    var g := Locate(placement, id);
    if id in groups[g] then Some(groups[g][id]) else None
  }

  /** The read loop: the blocks in order, or the first one that is missing. */
  function Collect(placement: map<nat, nat>, groups: seq<Group>, ids: seq<nat>): Result<seq<Byte>, StorageError>
    requires |groups| == GroupCount && PlacementAgrees(placement)
    decreases |ids|
  {
    if ids == [] then Ok([])
    else
      match Collect(placement, groups, ids[..|ids| - 1])
      case Err(e) => Err(e)
      case Ok(acc) =>
        var id := ids[|ids| - 1];
        match ReadBlock(placement, groups, id)
        case None => Err(BlockNotFound(id))
        case Some(b) => Ok(acc + b)
  }

  /** `read(filename)` on the metadata, the placement table and the groups. */
  function ReadOutcome(cache: map<string, FileMetadata>, placement: map<nat, nat>, groups: seq<Group>,
                       name: string): Result<seq<Byte>, StorageError>
    requires |groups| == GroupCount && PlacementAgrees(placement)
  {
    if name !in cache then Err(FileNotFound) else Collect(placement, groups, cache[name].blocks)
  }

  /** The ids of a file of `len` bytes with hash `fileId`. */
  function FileIdsFor(fileId: nat, len: nat): seq<nat>
  {
    FileIds(fileId, BlocksNeeded(len, BlockSize))
  }

  /** The groups after storing the 4 KiB blocks of `data` of a file with hash `fileId`. */
  function StoredFile(groups: seq<Group>, fileId: nat, data: seq<Byte>): (r: seq<Group>)
    requires |groups| == GroupCount
    ensures |r| == GroupCount
  {
    SplitCount(data, BlockSize);
    Stored(groups, FileIdsFor(fileId, |data|), Split(data, BlockSize))
  }

  /** A block stored under an id no later block reuses is still there. */
  lemma {:induction false} StoredHolds(placement: map<nat, nat>, groups: seq<Group>, ids: seq<nat>,
                                       blocks: seq<seq<Byte>>, j: nat)
    requires |groups| == GroupCount && PlacementAgrees(placement)
    requires |ids| == |blocks| && j < |ids| && forall k :: j < k < |ids| ==> ids[k] != ids[j]
    ensures ReadBlock(placement, Stored(groups, ids, blocks), ids[j]) == Some(blocks[j])
    decreases |ids|
  {
    var n := |ids|;
    if j < n - 1 {
      StoredHolds(placement, groups, ids[..n - 1], blocks[..n - 1], j);
    }
  }

  /** Storing blocks leaves every other id's lookup as it was. */
  lemma {:induction false} StoredLeavesOthers(placement: map<nat, nat>, groups: seq<Group>, ids: seq<nat>,
                                              blocks: seq<seq<Byte>>, x: nat)
    requires |groups| == GroupCount && PlacementAgrees(placement) && |ids| == |blocks| && x !in ids
    ensures ReadBlock(placement, Stored(groups, ids, blocks), x) == ReadBlock(placement, groups, x)
    decreases |ids|
  {
    if ids != [] {
      StoredLeavesOthers(placement, groups, ids[..|ids| - 1], blocks[..|blocks| - 1], x);
    }
  }

  /** Reading the first `k` distinct ids back collects the first `k` blocks. */
  lemma {:induction false} CollectStored(placement: map<nat, nat>, groups: seq<Group>, ids: seq<nat>,
                                         blocks: seq<seq<Byte>>, k: nat)
    requires |groups| == GroupCount && PlacementAgrees(placement)
    requires |ids| == |blocks| && k <= |ids| && Distinct(ids)
    ensures Collect(placement, Stored(groups, ids, blocks), ids[..k]) == Ok(Flatten(blocks[..k]))
    decreases k
  {
    if k == 0 {
      assert ids[..0] == [];
      assert blocks[..0] == [];
    } else {
      CollectStored(placement, groups, ids, blocks, k - 1);
      assert ids[..k][..k - 1] == ids[..k - 1];
      StoredHolds(placement, groups, ids, blocks, k - 1);
      FlattenSnoc(blocks, k - 1);
    }
  }

  /** Once the read loop has failed, reading further ids keeps that first failure. */
  lemma {:induction false} CollectErrPrefix(placement: map<nat, nat>, groups: seq<Group>, ids: seq<nat>, k: nat)
    requires |groups| == GroupCount && PlacementAgrees(placement)
    requires k <= |ids| && Collect(placement, groups, ids[..k]).Err?
    ensures Collect(placement, groups, ids) == Collect(placement, groups, ids[..k])
    decreases |ids| - k
  {
    if k < |ids| {
      assert ids[..k + 1][..k] == ids[..k];
      CollectErrPrefix(placement, groups, ids, k + 1);
    } else {
      assert ids[..k] == ids;
    }
  }

  /** The read loop fails exactly when some listed block is missing. */
  lemma {:induction false} CollectFails(placement: map<nat, nat>, groups: seq<Group>, ids: seq<nat>)
    requires |groups| == GroupCount && PlacementAgrees(placement)
    ensures Collect(placement, groups, ids).Err? <==>
      exists j :: 0 <= j < |ids| && ReadBlock(placement, groups, ids[j]).None?
    decreases |ids|
  {
    if ids != [] {
      var n := |ids|;
      CollectFails(placement, groups, ids[..n - 1]);
      if Collect(placement, groups, ids[..n - 1]).Err? {
        var j :| 0 <= j < n - 1 && ReadBlock(placement, groups, ids[..n - 1][j]).None?;
        assert ReadBlock(placement, groups, ids[j]).None?;
      }
      if exists j :: 0 <= j < n && ReadBlock(placement, groups, ids[j]).None? {
        var j :| 0 <= j < n && ReadBlock(placement, groups, ids[j]).None?;
        if j < n - 1 {
          assert ReadBlock(placement, groups, ids[..n - 1][j]).None?;
        }
      }
    }
  }

  /** Two stores that answer alike for every listed id collect alike. */
  lemma {:induction false} CollectAlike(placement: map<nat, nat>, g1: seq<Group>, g2: seq<Group>, ids: seq<nat>)
    requires |g1| == GroupCount && |g2| == GroupCount && PlacementAgrees(placement)
    requires forall j :: 0 <= j < |ids| ==> ReadBlock(placement, g1, ids[j]) == ReadBlock(placement, g2, ids[j])
    ensures Collect(placement, g1, ids) == Collect(placement, g2, ids)
    decreases |ids|
  {
    if ids != [] {
      CollectAlike(placement, g1, g2, ids[..|ids| - 1]);
    }
  }

  /** Lookups through two agreeing tables are the same. */
  lemma {:induction false} CollectAnyTable(p1: map<nat, nat>, p2: map<nat, nat>, groups: seq<Group>, ids: seq<nat>)
    requires |groups| == GroupCount && PlacementAgrees(p1) && PlacementAgrees(p2)
    ensures Collect(p1, groups, ids) == Collect(p2, groups, ids)
    decreases |ids|
  {
    if ids != [] {
      var id := ids[|ids| - 1];
      LocateAgrees(p1, id);
      LocateAgrees(p2, id);
      CollectAnyTable(p1, p2, groups, ids[..|ids| - 1]);
    }
  }

  /**
   * Writing a file and reading it back gives its data: its blocks are the
   * `(len + 4095) / 4096` pieces of the data, stored under distinct ids.
   */
  lemma WriteThenRead(cache: map<string, FileMetadata>, placement: map<nat, nat>, groups: seq<Group>,
                      name: string, data: seq<Byte>)
    requires |groups| == GroupCount && PlacementAgrees(placement)
    ensures var ids := FileIdsFor(HashFilename(name), |data|);
            PlacementAgrees(Placed(placement, ids)) &&
            ReadOutcome(cache[name := FileMetadata(name, |data|, ids)], Placed(placement, ids),
                        StoredFile(groups, HashFilename(name), data), name) == Ok(data)
  {
    var ids := FileIdsFor(HashFilename(name), |data|);
    var blocks := Split(data, BlockSize);
    SplitCount(data, BlockSize);
    PlacedAgrees(placement, ids);
    CollectStored(placement, groups, ids, blocks, |ids|);
    CollectAnyTable(placement, Placed(placement, ids), StoredFile(groups, HashFilename(name), data), ids);
    assert ids[..|ids|] == ids;
    assert blocks[..|ids|] == blocks;
    FlattenSplit(data, BlockSize);
  }

  /** Storing blocks under ids another file does not use leaves what that file reads. */
  lemma WriteKeepsOtherFiles(placement: map<nat, nat>, groups: seq<Group>, ids: seq<nat>, blocks: seq<seq<Byte>>,
                             others: seq<nat>)
    requires |groups| == GroupCount && PlacementAgrees(placement) && |ids| == |blocks|
    requires forall j :: 0 <= j < |others| ==> others[j] !in ids
    ensures Collect(placement, Stored(groups, ids, blocks), others) == Collect(placement, groups, others)
  {
    forall j | 0 <= j < |others|
      ensures ReadBlock(placement, Stored(groups, ids, blocks), others[j]) == ReadBlock(placement, groups, others[j])
    {
      StoredLeavesOthers(placement, groups, ids, blocks, others[j]);
    }
    CollectAlike(placement, Stored(groups, ids, blocks), groups, others);
  }

  /**
   * Block ids overlap across files: the block after the first 1000 of a
   * file is overwritten when the file whose hash is one larger is written,
   * and then reads as that file's first block.
   */
  lemma LaterFileTakesOverBlock(placement: map<nat, nat>, groups: seq<Group>, h: nat, data: seq<Byte>)
    requires |groups| == GroupCount && PlacementAgrees(placement) && 0 < |data|
    ensures ReadBlock(placement, StoredFile(groups, h + 1, data), BlockIdOf(h, 1000)) ==
            Some(Split(data, BlockSize)[0])
  {
    var ids := FileIdsFor(h + 1, |data|);
    SplitCount(data, BlockSize);
    IdsOverflowIntoNextFile(h, 0);
    StoredHolds(placement, groups, ids, Split(data, BlockSize), 0);
  }

  /**
   * Names with one hash share ids: after `a` and then `b` are written with
   * data of one length, reading `a` returns the data of `b`. Names that
   * differ only in the order of two parts hash alike
   * (`VariableBlockStorage.SwapHash`).
   */
  lemma SameHashServesLaterData(cache: map<string, FileMetadata>, placement: map<nat, nat>, groups: seq<Group>,
                                a: string, b: string, dataA: seq<Byte>, dataB: seq<Byte>)
    requires |groups| == GroupCount && PlacementAgrees(placement)
    requires HashFilename(a) == HashFilename(b) && |dataA| == |dataB|
    ensures var h := HashFilename(a);
            var ids := FileIdsFor(h, |dataA|);
            var cache2 := cache[a := FileMetadata(a, |dataA|, ids)][b := FileMetadata(b, |dataB|, ids)];
            var placement2 := Placed(Placed(placement, ids), ids);
            PlacementAgrees(placement2) &&
            ReadOutcome(cache2, placement2, StoredFile(StoredFile(groups, h, dataA), h, dataB), a) == Ok(dataB)
  {
    var h := HashFilename(a);
    var ids := FileIdsFor(h, |dataA|);
    PlacedAgrees(placement, ids);
    var cache1 := cache[a := FileMetadata(a, |dataA|, ids)];
    WriteThenRead(cache1, Placed(placement, ids), StoredFile(groups, h, dataA), b, dataB);
  }

  /** `ScalableStorage`. */
  class ScalableStorage {
    /** The block stores of the three groups. */
    var groups: seq<Group>
    /** `block_placement`. */
    var blockPlacement: map<nat, nat>
    /** The metadata cache of group 0, the only one `write` and `read` use. */
    var metadataCache: map<string, FileMetadata>
    /** The integer counters of `StorageStats`. */
    var readCount: nat
    var writeCount: nat

    ghost predicate Valid()
      reads this
    {
      |groups| == GroupCount && PlacementAgrees(blockPlacement)
    }

    /** `ScalableStorage::new()`: three empty groups, no placements, no files. */
    constructor ()
      ensures Valid()
      ensures groups == [map[], map[], map[]] && blockPlacement == map[] && metadataCache == map[]
      ensures readCount == 0 && writeCount == 0
    {
      groups := [map[], map[], map[]];
      blockPlacement := map[];
      metadataCache := map[];
      readCount, writeCount := 0, 0;
    }

    /**
     * `write(filename, data)`: block `i` holds bytes
     * `[i * 4096, min((i + 1) * 4096, len))`, gets id `hash * 1000 + i`, is
     * recorded in the placement table and stored on group `id % 3`; group 0
     * then lists the file with its ids.
     */
    method Write(filename: string, data: seq<Byte>) returns (r: Result<(), string>)
      requires Valid()
      modifies this
      ensures Valid() && r == Ok(())
      ensures var ids := FileIdsFor(HashFilename(filename), |data|);
              groups == StoredFile(old(groups), HashFilename(filename), data) &&
              blockPlacement == Placed(old(blockPlacement), ids) &&
              metadataCache == old(metadataCache)[filename := FileMetadata(filename, |data|, ids)]
      ensures writeCount == old(writeCount) + 1 && readCount == old(readCount)
    {
      var fileId := HashFilename(filename);
      var blockIds := WriteBlocks(fileId, data);
      metadataCache := metadataCache[filename := FileMetadata(filename, |data|, blockIds)];
      writeCount := writeCount + 1;
      r := Ok(());
    }

    /** The block loop of `write`. */
    method WriteBlocks(fileId: nat, data: seq<Byte>) returns (blockIds: seq<nat>)
      requires Valid()
      modifies this
      ensures Valid()
      ensures blockIds == FileIdsFor(fileId, |data|)
      ensures groups == StoredFile(old(groups), fileId, data)
      ensures blockPlacement == Placed(old(blockPlacement), blockIds)
      ensures metadataCache == old(metadataCache) && readCount == old(readCount) && writeCount == old(writeCount)
    {
      var blocksNeeded := (|data| + BlockSize - 1) / BlockSize;
      ghost var blocks := Split(data, BlockSize);
      SplitCount(data, BlockSize);
      blockIds := [];
      var i := 0;
      while i < blocksNeeded
        invariant 0 <= i <= blocksNeeded && |groups| == GroupCount
        invariant |blockIds| == i && forall j :: 0 <= j < i ==> blockIds[j] == BlockIdOf(fileId, j)
        invariant groups == Stored(old(groups), blockIds, blocks[..i])
        invariant blockPlacement == Placed(old(blockPlacement), blockIds)
        invariant metadataCache == old(metadataCache) && readCount == old(readCount) && writeCount == old(writeCount)
      {
        BlockAt(data, BlockSize, i);
        var id := BlockIdOf(fileId, i);
        var start := i * BlockSize;
        var end := Min((i + 1) * BlockSize, |data|);
        var cgIndex := PlaceBlock(id);
        assert (blockIds + [id])[..i] == blockIds;
        blockPlacement := blockPlacement[id := cgIndex];
        StoredSnoc(old(groups), blockIds, blocks[..i], id, blocks[i]);
        assert blocks[..i + 1] == blocks[..i] + [blocks[i]];
        var g: Group := groups[cgIndex][id := data[start..end]];
        groups := groups[cgIndex := g];
        blockIds := blockIds + [id];
        i := i + 1;
      }
      assert blocks[..i] == blocks;
      PlacedAgrees(old(blockPlacement), blockIds);
    }

    /**
     * `read(filename)`: "File not found" unless group 0 lists the file,
     * else its blocks read from the groups the placement table names
     * (`place_block` for an unrecorded id) and concatenated, failing at the
     * first one that is missing.
     */
    method Read(filename: string) returns (r: Result<seq<Byte>, StorageError>)
      requires Valid()
      modifies this
      ensures Valid()
      ensures r == ReadOutcome(metadataCache, blockPlacement, groups, filename)
      ensures groups == old(groups) && blockPlacement == old(blockPlacement) && metadataCache == old(metadataCache)
      ensures writeCount == old(writeCount)
      ensures readCount == if r.Ok? then old(readCount) + 1 else old(readCount)
    {
      if filename !in metadataCache {
        return Err(FileNotFound);
      }
      var blocks := metadataCache[filename].blocks;
      var resultData: seq<Byte> := [];
      var i := 0;
      while i < |blocks|
        invariant 0 <= i <= |blocks| && unchanged(this)
        invariant Collect(blockPlacement, groups, blocks[..i]) == Ok(resultData)
      {
        assert blocks[..i + 1][..i] == blocks[..i];
        var id := blocks[i];
        var cgIndex := if id in blockPlacement then blockPlacement[id] else PlaceBlock(id);
        if id in groups[cgIndex] {
          resultData := resultData + groups[cgIndex][id];
        } else {
          CollectErrPrefix(blockPlacement, groups, blocks, i + 1);
          return Err(BlockNotFound(id));
        }
        i := i + 1;
      }
      assert blocks[..i] == blocks;
      readCount := readCount + 1;
      r := Ok(resultData);
    }
  }
}
