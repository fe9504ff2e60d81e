/**
 * examples/store_rip_manifesto.rs: a film cut into 1 MiB blocks, each block
 * stored uncompressed in one of four tiered consensus groups chosen by its
 * index, and the first thirteen blocks read back in order for playback.
 *
 * The file comes from the filesystem in the source; here its bytes are a
 * parameter. Timings, progress output and the float compression ratio are
 * not modelled. Each group takes a lease on a block scope before storing,
 * and a block scope never conflicts (`LeaseState.BlockScopesNeverBlocked`),
 * so `write_block` always succeeds here.
 */
module StoreRip {
  import opened Wrappers
  import opened Bytes
  import opened BlockSplit

  /** `BlockSize`, with the added `Mega` of 1 MiB. */
  datatype BlockSize = Tiny | Small | Standard | Large | Huge | Mega

  /** `as_usize`. */
  function SizeBytes(s: BlockSize): (r: nat)
    ensures r >= 512
  {
    match s
    case Tiny => 512
    case Small => 1024
    case Standard => 4096
    case Large => 16384
    case Huge => 65536
    case Mega => 1048576
  }

  /** The place of a size in the order Tiny < Small < ... < Mega. */
  function Rank(s: BlockSize): nat
  {
    match s
    case Tiny => 0
    case Small => 1
    case Standard => 2
    case Large => 3
    case Huge => 4
    case Mega => 5
  }

  /** Listing the sizes in rank order lists them by length. */
  lemma RankOrdersLength(a: BlockSize, b: BlockSize)
    ensures Rank(a) <= Rank(b) <==> SizeBytes(a) <= SizeBytes(b)
  {
  }

  /** `optimal_for_size`: the block size a file of `fileSize` bytes gets. */
  function OptimalForSize(fileSize: nat): BlockSize
  {
    if fileSize <= 2048 then Tiny
    else if fileSize <= 16384 then Small
    else if fileSize <= 65536 then Standard
    else if fileSize <= 524288 then Large
    else if fileSize <= 10485760 then Huge
    else Mega
  }

  /** The smallest file size each block size is chosen for. */
  function LowerBound(s: BlockSize): nat
  {
    match s
    case Tiny => 0
    case Small => 2049
    case Standard => 16385
    case Large => 65537
    case Huge => 524289
    case Mega => 10485761
  }

  /**
   * Each block size is chosen for one band of file sizes: those from its
   * own lower bound up to just below the next size's.
   */
  lemma OptimalBands(fileSize: nat, s: BlockSize)
    ensures OptimalForSize(fileSize) == s <==>
      LowerBound(s) <= fileSize && (s == Mega || fileSize < LowerBound(Succ(s)))
  {
  }

  /** The next larger size; Mega has none and is its own. */
  function Succ(s: BlockSize): (r: BlockSize)
    ensures s != Mega ==> Rank(r) == Rank(s) + 1
  {
    match s
    case Tiny => Small
    case Small => Standard
    case Standard => Large
    case Large => Huge
    case Huge => Mega
    case Mega => Mega
  }

  /** A larger file never gets a smaller block size. */
  lemma OptimalMonotone(a: nat, b: nat)
    requires a <= b
    ensures Rank(OptimalForSize(a)) <= Rank(OptimalForSize(b))
    ensures SizeBytes(OptimalForSize(a)) <= SizeBytes(OptimalForSize(b))
  {
  }

  /** `VariableBlockId`. */
  datatype BlockId = BlockId(fileHash: nat, blockIndex: nat, blockSize: BlockSize)

  /** `CompressedBlock`: video is not compressed, so the bytes are kept as they are. */
  datatype CompressedBlock = CompressedBlock(data: seq<Byte>, originalSize: nat)

  /** `CompressedBlock::new`. */
  function NewBlock(data: seq<Byte>): (r: CompressedBlock)
    ensures r.data == data && r.originalSize == |data|
  {
    CompressedBlock(data, |data|)
  }

  /** A group's block map. */
  type Storage = map<BlockId, CompressedBlock>

  /** `read_block` on a block map: the stored bytes, if the id is present. */
  function Lookup(m: Storage, id: BlockId): Option<seq<Byte>>
  {
    if id in m then Some(m[id].data) else None
  }

  /** Storing a block and reading it back gives its bytes; other ids read as before. */
  lemma WriteThenLookup(m: Storage, id: BlockId, data: seq<Byte>, other: BlockId)
    ensures Lookup(m[id := NewBlock(data)], id) == Some(data)
    ensures other != id ==> Lookup(m[id := NewBlock(data)], other) == Lookup(m, other)
  {
  }

  /** `storage_bytes`: the lengths of the stored blocks, added up. */
  ghost function TotalBytes(m: Storage): nat
    decreases |m|
  {
    if m == map[] then 0
    else
      var k :| k in m;
      assert |m - {k}| < |m| by { assert m.Keys == (m - {k}).Keys + {k}; }
      |m[k].data| + TotalBytes(m - {k})
  }

  /** The total does not depend on the key taken out first. */
  lemma {:induction false} TotalWithout(m: Storage, k: BlockId)
    requires k in m
    ensures TotalBytes(m) == |m[k].data| + TotalBytes(m - {k})
    decreases |m|
  {
    var k' :| k' in m && TotalBytes(m) == |m[k'].data| + TotalBytes(m - {k'});
    if k' != k {
      assert m.Keys == (m - {k}).Keys + {k};
      assert (m - {k}).Keys == ((m - {k}) - {k'}).Keys + {k'};
      TotalWithout(m - {k'}, k);
      TotalWithout(m - {k}, k');
      assert (m - {k'}) - {k} == (m - {k}) - {k'};
    }
  }

  /** Storing a block adds its length to the total, less that of the block it replaces. */
  lemma TotalAfterWrite(m: Storage, id: BlockId, b: CompressedBlock)
    ensures TotalBytes(m[id := b]) == TotalBytes(m) - (if id in m then |m[id].data| else 0) + |b.data|
    ensures id in m ==> |m[id].data| <= TotalBytes(m)
  {
    TotalWithout(m[id := b], id);
    assert m[id := b] - {id} == m - {id};
    if id in m {
      TotalWithout(m, id);
    } else {
      assert m - {id} == m;
    }
  }

  /** `ConsensusGroup`: one storage tier and its block map. */
  class ConsensusGroup {
    var blockStorage: Storage

    /** `ConsensusGroup::new`: an empty block map. */
    constructor ()
      ensures blockStorage == map[]
    {
      blockStorage := map[];
    }

    /** `write_block`: the block is stored as it is and returned. */
    method WriteBlock(id: BlockId, data: seq<Byte>) returns (r: Result<CompressedBlock, string>)
      modifies this
      ensures r == Ok(NewBlock(data))
      ensures blockStorage == old(blockStorage)[id := NewBlock(data)]
    {
      var block := NewBlock(data);
      blockStorage := blockStorage[id := block];
      r := Ok(block);
    }

    /** `read_block`. */
    function ReadBlock(id: BlockId): (r: Option<seq<Byte>>)
      reads this
      ensures r == Lookup(blockStorage, id)
    {
      if id in blockStorage then Some(blockStorage[id].data) else None
    }

    /** `block_count`. */
    function BlockCount(): nat
      reads this
    {
      |blockStorage|
    }

    /** `storage_bytes`. */
    ghost function StorageBytes(): nat
      reads this
    {
      TotalBytes(blockStorage)
    }
  }

  /** The film's file hash, "RiPFilm" read as a number. */
  const MovieHash: nat := 0x52695046696C6D

  /** The number of groups the film is spread over: NVMe, SSD, HDD and cloud. */
  const TierCount: nat := 4

  /** The placement in `main`: the first 10 blocks on NVMe, the next 90 on SSD, the rest on HDD. */
  function CgIndex(i: nat): (g: nat)
    ensures g < TierCount - 1
  {
    if i < 10 then 0 else if i < 100 then 1 else 2
  }

  /** A later block never sits on a faster tier than an earlier one. */
  lemma CgIndexMonotone(i: nat, j: nat)
    requires i <= j
    ensures CgIndex(i) <= CgIndex(j)
    ensures CgIndex(j) == 0 ==> j < 10
    ensures CgIndex(i) == 2 ==> i >= 100
  {
  }

  /** The group an entry of `stored_blocks` names holds the block under the entry's id. */
  predicate Holds(groups: seq<Storage>, entry: (BlockId, nat), block: seq<Byte>)
  {
    entry.1 < |groups| && entry.0 in groups[entry.1] && groups[entry.1][entry.0] == NewBlock(block)
  }

  /** The bytes all groups store. */
  ghost function GroupsBytes(groups: seq<Storage>): nat
    decreases |groups|
  {
    if groups == [] then 0 else GroupsBytes(groups[..|groups| - 1]) + TotalBytes(groups[|groups| - 1])
  }

  /** Storing a block under a new id in one group adds its length to the total of all groups. */
  lemma {:induction false} GroupsBytesAfterWrite(groups: seq<Storage>, g: nat, id: BlockId, b: CompressedBlock)
    requires g < |groups| && id !in groups[g]
    ensures GroupsBytes(groups[g := groups[g][id := b]]) == GroupsBytes(groups) + |b.data|
    decreases |groups|
  {
    var n := |groups|;
    var after := groups[g := groups[g][id := b]];
    assert after[..n - 1] == if g < n - 1 then groups[..n - 1][g := groups[g][id := b]] else groups[..n - 1];
    if g < n - 1 {
      GroupsBytesAfterWrite(groups[..n - 1], g, id, b);
    } else {
      TotalAfterWrite(groups[g], id, b);
    }
  }

  /** Groups that hold nothing store no bytes. */
  lemma {:induction false} EmptyGroupsBytes(groups: seq<Storage>)
    requires forall g :: 0 <= g < |groups| ==> groups[g] == map[]
    ensures GroupsBytes(groups) == 0
    decreases |groups|
  {
    if groups != [] {
      EmptyGroupsBytes(groups[..|groups| - 1]);
    }
  }

  /** Every entry is an id of the film and a tier index below 3, as `main` lists them. */
  predicate Listed(storedBlocks: seq<(BlockId, nat)>, n: nat)
  {
    |storedBlocks| == n &&
    forall j :: 0 <= j < n ==> storedBlocks[j] == (BlockId(MovieHash, j, Mega), CgIndex(j))
  }

  /** After `i` turns of the store loop: the first `i` blocks are stored and listed, and nothing else. */
  predicate StoredUpTo(groups: seq<Storage>, storedBlocks: seq<(BlockId, nat)>, blocks: seq<seq<Byte>>, i: nat)
  {
    |groups| == TierCount && groups[3] == map[] && i <= |blocks| && Listed(storedBlocks, i) &&
    (forall j :: 0 <= j < i ==> Holds(groups, storedBlocks[j], blocks[j])) &&
    (forall g, id :: 0 <= g < TierCount && id in groups[g] ==> id.blockIndex < i)
  }

  /** One turn of the store loop: block `i` goes to group `CgIndex(i)` under its own id. */
  lemma StoreStep(groups: seq<Storage>, storedBlocks: seq<(BlockId, nat)>, blocks: seq<seq<Byte>>, i: nat)
    requires StoredUpTo(groups, storedBlocks, blocks, i) && i < |blocks|
    ensures var id := BlockId(MovieHash, i, Mega);
      var groups' := groups[CgIndex(i) := groups[CgIndex(i)][id := NewBlock(blocks[i])]];
      StoredUpTo(groups', storedBlocks + [(id, CgIndex(i))], blocks, i + 1) &&
      GroupsBytes(groups') == GroupsBytes(groups) + |blocks[i]|
  {
    var id := BlockId(MovieHash, i, Mega);
    var g := CgIndex(i);
    var groups' := groups[g := groups[g][id := NewBlock(blocks[i])]];
    var stored' := storedBlocks + [(id, g)];
    assert id !in groups[g];
    GroupsBytesAfterWrite(groups, g, id, NewBlock(blocks[i]));
    forall j | 0 <= j < i + 1
      ensures Holds(groups', stored'[j], blocks[j])
    {
      if j < i {
        assert stored'[j] == storedBlocks[j];
        assert Holds(groups, storedBlocks[j], blocks[j]);
      }
    }
  }

  /**
   * The store loop of `main`: block `i` of the file, 1 MiB blocks, goes to
   * group `CgIndex(i)` and is listed in `stored_blocks` with that group.
   * Every byte of the file is stored once, and the cloud tier stays empty.
   */
  method StoreMovie(fileData: seq<Byte>) returns (groups: seq<Storage>, storedBlocks: seq<(BlockId, nat)>, totalStoredSize: nat)
    ensures |groups| == TierCount && groups[3] == map[]
    ensures Listed(storedBlocks, BlocksNeeded(|fileData|, SizeBytes(Mega)))
    ensures |Split(fileData, SizeBytes(Mega))| == |storedBlocks|
    ensures forall j :: 0 <= j < |storedBlocks| ==> Holds(groups, storedBlocks[j], Split(fileData, SizeBytes(Mega))[j])
    ensures totalStoredSize == |fileData| == GroupsBytes(groups)
  {
    groups := [map[], map[], map[], map[]];
    var bs := SizeBytes(Mega);
    var blocksNeeded := (|fileData| + bs - 1) / bs;
    ghost var blocks := Split(fileData, bs);
    SplitCount(fileData, bs);
    EmptyGroupsBytes(groups);
    storedBlocks := [];
    totalStoredSize := 0;
    var i := 0;
    while i < blocksNeeded
      invariant i <= blocksNeeded == |blocks|
      invariant StoredUpTo(groups, storedBlocks, blocks, i)
      invariant totalStoredSize == |Flatten(blocks[..i])| == GroupsBytes(groups)
    {
      BlockAt(fileData, bs, i);
      var start := i * bs;
      var end := Min((i + 1) * bs, |fileData|);
      var id := BlockId(MovieHash, i, Mega);
      var cgIndex := CgIndex(i);
      var block := NewBlock(fileData[start..end]);
      StoreStep(groups, storedBlocks, blocks, i);
      FlattenSnoc(blocks, i);
      groups := groups[cgIndex := groups[cgIndex][id := block]];
      totalStoredSize := totalStoredSize + |block.data|;
      storedBlocks := storedBlocks + [(id, cgIndex)];
      i := i + 1;
    }
    assert blocks[..i] == blocks;
    FlattenSplit(fileData, bs);
  }

  /** Every entry names one of the groups, so indexing the groups by it cannot fail. */
  predicate InRange(groups: seq<Storage>, entries: seq<(BlockId, nat)>)
  {
    forall j :: 0 <= j < |entries| ==> entries[j].1 < |groups|
  }

  /** The playback loop: the listed blocks' bytes in order, or none if one is missing. */
  function Retrieved(groups: seq<Storage>, entries: seq<(BlockId, nat)>): Option<seq<Byte>>
    requires InRange(groups, entries)
    decreases |entries|
  {
    if entries == [] then Some([])
    else
      var last := entries[|entries| - 1];
      match Retrieved(groups, entries[..|entries| - 1])
      case None => None
      case Some(acc) => if last.0 in groups[last.1] then Some(acc + groups[last.1][last.0].data) else None
  }

  /** Reading back entries whose blocks are all held gives the blocks laid end to end. */
  lemma {:induction false} RetrievedHeld(groups: seq<Storage>, entries: seq<(BlockId, nat)>, blocks: seq<seq<Byte>>)
    requires |entries| == |blocks|
    requires forall j :: 0 <= j < |entries| ==> Holds(groups, entries[j], blocks[j])
    ensures InRange(groups, entries)
    ensures Retrieved(groups, entries) == Some(Flatten(blocks))
    decreases |entries|
  {
    if entries != [] {
      var n := |entries|;
      assert Holds(groups, entries[n - 1], blocks[n - 1]);
      RetrievedHeld(groups, entries[..n - 1], blocks[..n - 1]);
    }
  }

  /** Playback fails exactly when some listed block is missing from its group. */
  lemma {:induction false} RetrievedFails(groups: seq<Storage>, entries: seq<(BlockId, nat)>)
    requires InRange(groups, entries)
    ensures Retrieved(groups, entries).None? <==> exists j :: 0 <= j < |entries| && entries[j].0 !in groups[entries[j].1]
    decreases |entries|
  {
    if entries != [] {
      var n := |entries|;
      RetrievedFails(groups, entries[..n - 1]);
      if Retrieved(groups, entries[..n - 1]).None? {
        var j :| 0 <= j < n - 1 && entries[..n - 1][j].0 !in groups[entries[..n - 1][j].1];
        assert entries[j] == entries[..n - 1][j];
      } else {
        forall j | 0 <= j < n - 1
          ensures entries[j].0 in groups[entries[j].1]
        {
          assert entries[j] == entries[..n - 1][j];
        }
      }
    }
  }

  /** Once a prefix of the entries fails to read back, so does every longer one. */
  lemma {:induction false} RetrievedNoneExtends(groups: seq<Storage>, entries: seq<(BlockId, nat)>, k: nat)
    requires InRange(groups, entries) && k <= |entries|
    requires Retrieved(groups, entries[..k]).None?
    ensures Retrieved(groups, entries).None?
    decreases |entries|
  {
    if k < |entries| {
      var n := |entries|;
      assert entries[..n - 1][..k] == entries[..k];
      RetrievedNoneExtends(groups, entries[..n - 1], k);
    } else {
      assert entries[..k] == entries;
    }
  }

  /** `playback_blocks`: at most thirteen blocks, about ten seconds of video. */
  const PlaybackBlocks: nat := 13

  /** The playback loop of `main` over the first `min(13, stored_blocks.len())` entries. */
  method Playback(groups: seq<Storage>, storedBlocks: seq<(BlockId, nat)>) returns (r: Option<seq<Byte>>)
    requires InRange(groups, storedBlocks)
    ensures r == Retrieved(groups, storedBlocks[..Min(PlaybackBlocks, |storedBlocks|)])
  {
    var playbackBlocks := Min(PlaybackBlocks, |storedBlocks|);
    var retrievedData: seq<Byte> := [];
    var i := 0;
    while i < playbackBlocks
      invariant 0 <= i <= playbackBlocks
      invariant Retrieved(groups, storedBlocks[..i]) == Some(retrievedData)
    {
      var (id, cgIndex) := storedBlocks[i];
      assert storedBlocks[..i + 1][..i] == storedBlocks[..i];
      if id !in groups[cgIndex] {
        RetrievedNoneExtends(groups, storedBlocks[..playbackBlocks], i + 1);
        assert storedBlocks[..playbackBlocks][..i + 1] == storedBlocks[..i + 1];
        return None;
      }
      retrievedData := retrievedData + groups[cgIndex][id].data;
      i := i + 1;
    }
    r := Some(retrievedData);
  }

  /**
   * `main` on the film's bytes: the playback returns the first thirteen
   * MiB of the file (or all of it, if shorter), so the integrity check
   * against the file's prefix of the same length passes.
   */
  method Manifesto(fileData: seq<Byte>) returns (retrieved: seq<Byte>, intact: bool)
    ensures retrieved == fileData[..Min(PlaybackBlocks * SizeBytes(Mega), |fileData|)]
    ensures intact
  {
    var groups, storedBlocks, _ := StoreMovie(fileData);
    var blocks := Split(fileData, SizeBytes(Mega));
    var k := Min(PlaybackBlocks, |storedBlocks|);
    RetrievedHeld(groups, storedBlocks[..k], blocks[..k]);
    FlattenPrefix(fileData, SizeBytes(Mega), k);
    var r := Playback(groups, storedBlocks);
    retrieved := r.value;
    if k < PlaybackBlocks {
      CoverLength(|fileData|, SizeBytes(Mega));
      MulMonotone(k, PlaybackBlocks, SizeBytes(Mega));
    }
    intact := |retrieved| <= |fileData| && retrieved == fileData[..|retrieved|];
  }

  lemma MulMonotone(a: nat, b: nat, c: nat)
    requires a <= b
    ensures a * c <= b * c
  {
    assert b * c == a * c + (b - a) * c;
  }

  /** `blocks_needed` blocks of `bs` bytes cover the file. */
  lemma CoverLength(len: nat, bs: nat)
    requires bs > 0
    ensures BlocksNeeded(len, bs) * bs >= len
  {
    var q, r := (len + bs - 1) / bs, (len + bs - 1) % bs;
    assert q * bs + r == len + bs - 1;
  }
}
