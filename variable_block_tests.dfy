/**
 * The test suite tests/variable_block_storage_tests.rs. It carries its own
 * copies of `BlockSize`, the null-byte codec and the block-size tracker,
 * identical to those of examples/variable_block_storage.rs, so the
 * definitions of `VariableBlockStorage` serve it; what it adds is a
 * consensus group of its own, a placement that sends every 4 KiB block to
 * the HDD group, and the scenarios its tests run, which are stated here as
 * lemmas and as methods that run the scenario on fresh objects.
 *
 * The lease each group takes before storing a block is on a block scope,
 * which never conflicts, so every block write succeeds. The ten concurrent
 * writers of `test_concurrent_access_with_leases` write distinct ids, so
 * every order of their writes leaves the same store; they run here in
 * index order.
 */
module VariableBlockTests {
  import opened Wrappers
  import opened Bytes
  import opened BlockSplit
  import opened VariableBlockStorage

  /** `TestConsensusGroup`: one group's block store. */
  class TestConsensusGroup {
    var blockStorage: Group

    constructor ()
      ensures blockStorage == map[]
    {
      blockStorage := map[];
    }

    /** `write_block(block_id, data)`: store the compressed block under its id and return it. */
    method WriteBlock(id: BlockId, data: seq<Byte>) returns (r: Result<CompressedBlock, string>)
      modifies this
      ensures r == Ok(Compressed(data))
      ensures blockStorage == old(blockStorage)[id := Compressed(data)]
    {
      var block := NewCompressedBlock(data);
      blockStorage := blockStorage[id := block];
      r := Ok(block);
    }

    /** `read_block(block_id)`: the decompressed block, if one is stored under the id. */
    method ReadBlock(id: BlockId) returns (r: Option<seq<Byte>>)
      ensures id in blockStorage ==> r == Some(Decompressed(blockStorage[id]))
      ensures id !in blockStorage ==> r == None
    {
      if id in blockStorage {
        var data := Decompress(blockStorage[id]);
        r := Some(data);
      } else {
        r := None;
      }
    }

    /** `block_count()`. */
    function BlockCount(): nat
      reads this
    {
      |blockStorage|
    }
  }

  /** The placement `test_block_size_affects_storage_placement` checks: 4 KiB blocks always on the HDD group. */
  function TierOf(size: BlockSize): (g: nat)
    ensures g < GroupCount
  {
    match size
    case Tiny => 0
    case Small => 0
    case Standard => 1
    case Large => 2
    case Huge => 2
  }

  /**
   * The test's placement agrees with `place_block` of the storage except
   * for 4 KiB blocks, which `place_block` sends to the HDD group only when
   * the file hash is odd.
   */
  lemma TierOfAgreesExceptStandard(id: BlockId)
    ensures id.blockSize != Standard ==> TierOf(id.blockSize) == PlaceBlock(id)
    ensures id.blockSize == Standard ==> (TierOf(id.blockSize) == PlaceBlock(id) <==> id.fileHash % 2 == 1)
  {
  }

  /** The placement of `test_store_and_retrieve_real_file`: 4 KiB blocks alternate by block index. */
  function RetrieveTier(size: BlockSize, i: nat): (g: nat)
    ensures g < GroupCount
  {
    match size
    case Tiny => 0
    case Small => 0
    case Standard => i % 2
    case Large => 2
    case Huge => 2
  }

  /** The block size `test_store_and_retrieve_real_file` picks for its content. */
  function RetrieveSize(len: nat, sparse: bool): (s: BlockSize)
  {
    if len < 2048 then Tiny
    else if len < 16384 then Small
    else if sparse then Standard
    else Large
  }

  /** The test never picks the biggest size, and picks small blocks for anything under 16 KiB. */
  lemma RetrieveSizeRange(len: nat, sparse: bool)
    ensures RetrieveSize(len, sparse) != Huge
    ensures len < 16384 <==> SizeBytes(RetrieveSize(len, sparse)) <= 1024
  {
  }

  /**
   * `test_store_and_retrieve_real_file`: cut the content into blocks of the
   * chosen size, write each to its tier under id `(0x52694646, i, size)`,
   * then read the blocks back in order; the content comes back whole.
   */
  method StoreAndRetrieve(content: seq<Byte>, sparse: bool) returns (retrieved: seq<Byte>, blocksNeeded: nat)
    ensures retrieved == content
    ensures blocksNeeded == BlocksNeeded(|content|, SizeBytes(RetrieveSize(|content|, sparse)))
  {
    var storageGroups: seq<Group> := [map[], map[], map[]];
    var size := RetrieveSize(|content|, sparse);
    var fileHash := 0x52694646;
    var bs := SizeBytes(size);
    blocksNeeded := (|content| + bs - 1) / bs;
    ghost var blocks := Split(content, bs);
    SplitCount(content, bs);
    var storedBlocks: seq<(BlockId, nat)> := [];
    var i := 0;
    while i < blocksNeeded
      invariant 0 <= i <= blocksNeeded && |storageGroups| == GroupCount
      invariant |storedBlocks| == i
      invariant forall j :: 0 <= j < i ==> storedBlocks[j] == (BlockId(fileHash, j, size), RetrieveTier(size, j))
      invariant forall j :: 0 <= j < i ==> Holds(storageGroups, storedBlocks[j], blocks[j])
    {
      BlockAt(content, bs, i);
      var start := i * bs;
      var end := Min((i + 1) * bs, |content|);
      var id := BlockId(fileHash, i, size);
      var cgIndex := RetrieveTier(size, i);
      var block := NewCompressedBlock(content[start..end]);
      storageGroups := storageGroups[cgIndex := storageGroups[cgIndex][id := block]];
      storedBlocks := storedBlocks + [(id, cgIndex)];
      i := i + 1;
    }
    retrieved := [];
    var k := 0;
    while k < |storedBlocks|
      invariant 0 <= k <= |storedBlocks|
      invariant retrieved == Flatten(blocks[..k])
    {
      var (id, cgIndex) := storedBlocks[k];
      assert Holds(storageGroups, storedBlocks[k], blocks[k]);
      var blockData := Decompress(storageGroups[cgIndex][id]);
      BlockRoundTrip(blocks[k]);
      FlattenSnoc(blocks, k);
      retrieved := retrieved + blockData;
      k := k + 1;
    }
    assert blocks[..k] == blocks;
    FlattenSplit(content, bs);
  }

  /** The group a stored entry names holds the compressed block under the entry's id. */
  predicate Holds(groups: seq<Group>, entry: (BlockId, nat), block: seq<Byte>)
  {
    entry.1 < |groups| && entry.0 in groups[entry.1] && groups[entry.1][entry.0] == Compressed(block)
  }

  /**
   * `test_variable_block_sizes_are_consistent`: the same 8 KiB of 0x42
   * written under four ids that differ in size and index reads back
   * unchanged under each, and the group then holds four blocks.
   */
  method BlockSizesConsistent() returns (readBack: seq<Option<seq<Byte>>>, count: nat)
    ensures |readBack| == 4
    ensures forall k :: 0 <= k < 4 ==> readBack[k] == Some(seq(8192, _ => 0x42))
    ensures count == 4
  {
    var cg := new TestConsensusGroup();
    var testData: seq<Byte> := seq(8192, _ => 0x42);
    BlockRoundTrip(testData);
    var sizes := [Tiny, Small, Standard, Large];
    readBack := [];
    var i := 0;
    while i < 4
      invariant 0 <= i <= 4 && |readBack| == i
      invariant forall k :: 0 <= k < i ==> readBack[k] == Some(testData)
      invariant |cg.blockStorage| == i
      invariant forall id :: id in cg.blockStorage ==> id.blockIndex < i
    {
      var id := BlockId(12345, i, sizes[i]);
      assert id !in cg.blockStorage;
      var _ := cg.WriteBlock(id, testData);
      var r := cg.ReadBlock(id);
      readBack := readBack + [r];
      i := i + 1;
    }
    count := cg.BlockCount();
  }

  /**
   * `test_concurrent_access_with_leases`: ten writers store block `i` of
   * file 99999, 4096 bytes of value `i`; every write succeeds and the group
   * holds ten blocks.
   */
  method ConcurrentWrites() returns (successes: nat, count: nat)
    ensures successes == 10 && count == 10
  {
    var cg := new TestConsensusGroup();
    successes := 0;
    var i := 0;
    while i < 10
      invariant 0 <= i <= 10 && successes == i
      invariant |cg.blockStorage| == i
      invariant forall id :: id in cg.blockStorage ==> id.blockIndex < i
    {
      var id := BlockId(99999, i, Standard);
      assert id !in cg.blockStorage;
      var result := cg.WriteBlock(id, seq(4096, _ => i));
      if result.Ok? {
        successes := successes + 1;
      }
      i := i + 1;
    }
    count := cg.BlockCount();
  }

  /**
   * `test_block_size_affects_storage_placement`: one block of each size,
   * with its tier as block index, sent to its tier in the order of the
   * test's table; the SSD group ends with two blocks, the HDD group with
   * one and the cloud group with two.
   */
  method PlacementCounts() returns (ssdCount: nat, hddCount: nat, cloudCount: nat)
    ensures ssdCount == 2 && hddCount == 1 && cloudCount == 2
  {
    var ssd := new TestConsensusGroup();
    var hdd := new TestConsensusGroup();
    var cloud := new TestConsensusGroup();
    var testData: seq<Byte> := seq(1024, _ => 0x55);
    assert TierOf(Tiny) == 0 && TierOf(Small) == 0 && TierOf(Standard) == 1;
    assert TierOf(Large) == 2 && TierOf(Huge) == 2;
    var _ := ssd.WriteBlock(BlockId(88888, TierOf(Tiny), Tiny), testData);
    var _ := ssd.WriteBlock(BlockId(88888, TierOf(Small), Small), testData);
    var _ := hdd.WriteBlock(BlockId(88888, TierOf(Standard), Standard), testData);
    var _ := cloud.WriteBlock(BlockId(88888, TierOf(Large), Large), testData);
    var _ := cloud.WriteBlock(BlockId(88888, TierOf(Huge), Huge), testData);
    ssdCount := ssd.BlockCount();
    hddCount := hdd.BlockCount();
    cloudCount := cloud.BlockCount();
  }

  /**
   * `test_bitvec_encoding_efficiency`: a tracker started at 4 KiB and
   * changed to Tiny, Huge, Large and Small holds five changes in fifteen
   * bits, three per change, and reports the last size at its last bit.
   */
  method FiveChanges() returns (bits: nat, changes: nat, current: BlockSize)
    ensures bits == 15 && changes == 5
    ensures bits == 3 * changes
    ensures current == Small
  {
    var tracker := new BlockSizeTracker(Standard);
    tracker.ChangeBlockSize(Tiny);
    tracker.ChangeBlockSize(Huge);
    tracker.ChangeBlockSize(Large);
    tracker.ChangeBlockSize(Small);
    bits := |tracker.sizeChanges|;
    changes := |tracker.changePositions|;
    current := tracker.CurrentSize();
  }

  /** A buffer of zeros. */
  function Zeros(n: nat): (r: seq<Byte>)
    ensures |r| == n && forall i :: 0 <= i < n ==> r[i] == 0
  {
    seq(n, _ => 0)
  }

  lemma {:induction false} NonzeroOfZeros(n: nat)
    ensures Nonzero(Zeros(n)) == []
    decreases n
  {
    if n > 0 {
      assert Zeros(n)[..n - 1] == Zeros(n - 1);
      NonzeroOfZeros(n - 1);
    }
  }

  lemma {:induction false} NonzeroAppend(a: seq<Byte>, b: seq<Byte>)
    ensures Nonzero(a + b) == Nonzero(a) + Nonzero(b)
    decreases |b|
  {
    if b == [] {
      assert a + b == a;
    } else {
      var ab := a + b;
      assert ab[..|ab| - 1] == a + b[..|b| - 1];
      NonzeroAppend(a, b[..|b| - 1]);
    }
  }

  /**
   * `test_extreme_data_patterns`, zeros: a buffer of two or more zeros
   * compresses to an empty payload and a bitmap of all ones; a single zero
   * is kept as it is.
   */
  lemma ZeroBufferCompresses(n: nat)
    ensures n >= 2 ==> NullCompressed(Zeros(n)) == ([], Some(seq(n, _ => true)))
    ensures n < 2 ==> NullCompressed(Zeros(n)) == (Zeros(n), None)
  {
    NonzeroOfZeros(n);
    if n >= 1 {
      assert Zeros(n)[0] == 0;
    }
    if n >= 2 {
      assert ZeroMap(Zeros(n)) == seq(n, _ => true);
    }
  }

  /** `test_extreme_data_patterns`, ones: data with no zero byte is stored as it is. */
  lemma DenseBufferKept(d: seq<Byte>)
    requires forall i :: 0 <= i < |d| ==> d[i] != 0
    ensures Compressed(d) == CompressedBlock(d, |d|, None)
  {
  }

  /**
   * `test_extreme_data_patterns`, a single byte: one nonzero byte among at
   * least three zeros compresses to a one-byte payload, and decompresses back.
   */
  lemma SingleByteCompresses(before: nat, b: Byte, after: nat)
    requires b != 0 && before + after >= 3
    ensures NullCompressed(Zeros(before) + [b] + Zeros(after)).0 == [b]
    ensures Decompressed(Compressed(Zeros(before) + [b] + Zeros(after))) == Zeros(before) + [b] + Zeros(after)
  {
    var d := Zeros(before) + [b] + Zeros(after);
    NonzeroAppend(Zeros(before) + [b], Zeros(after));
    NonzeroAppend(Zeros(before), [b]);
    NonzeroOfZeros(before);
    NonzeroOfZeros(after);
    assert Nonzero([b]) == Nonzero([]) + [b];
    assert !NoZero(d) by {
      if before > 0 { assert d[0] == 0; } else { assert d[|d| - 1] == 0; }
    }
    BlockRoundTrip(d);
  }
}
