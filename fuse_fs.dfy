/**
 * The block layer of `LisFS` in src/fuse_fs.rs: inode numbering, block
 * placement over three consensus groups, and the block arithmetic of `read`
 * and `write`.
 *
 * A file's data lives in 4096-byte blocks; block `index` of inode `ino` has
 * id `ino * 1000 + index`. Each block is stored in the group `id % 3` and
 * the placement is recorded in `block_to_cg`. A `BlockStore` is the
 * per-group block maps, group by group.
 */
module FuseFs {
  import opened Wrappers
  import opened Bytes

  /** `BLOCK_SIZE`. */
  const BlockSize: nat := 4096

  /** `ROOT_INO`. */
  const RootIno: nat := 1

  /** The number of consensus groups `new` creates. */
  const GroupCount: nat := 3

  /** `libc::ENOENT`. */
  const ENOENT: int := 2

  /** `place_block(id)`: the group of a block. */
  function PlaceBlock(id: nat): (g: nat)
    ensures g < GroupCount
    ensures (id - g) % GroupCount == 0
  {
    id % 3
  }

  /** `BlockId(ino * 1000 + block_idx)`. */
  function BlockId(ino: nat, index: nat): nat
  {
    ino * 1000 + index
  }

  /** 4096 zero bytes, what a missing block reads as. */
  function Zeros(): (z: seq<Byte>)
    ensures |z| == BlockSize && forall k :: 0 <= k < |z| ==> z[k] == 0
  {
    seq(4096, _ => 0)
  }

  type BlockStore = seq<map<nat, seq<Byte>>>

  /** Three groups, and every stored block is a full block. */
  predicate Placed(groups: BlockStore)
  {
    |groups| == GroupCount &&
    forall g, b :: 0 <= g < |groups| && b in groups[g] ==> |groups[g][b]| == BlockSize
  }

  /** `read_block(id)` when placements are recorded where `place_block` puts them. */
  function Stored(groups: BlockStore, b: nat): Option<seq<Byte>>
    requires |groups| == GroupCount
  {
    if b in groups[PlaceBlock(b)] then Some(groups[PlaceBlock(b)][b]) else None
  }

  /** The bytes a partial block write starts from: the stored block, else zeros. */
  function Existing(groups: BlockStore, b: nat): (e: seq<Byte>)
    requires Placed(groups)
    ensures |e| == BlockSize
  {
    var s := Stored(groups, b);
    if s.Some? then s.value else Zeros()
  }

  /** Byte `k` of block `b` as `read` sees it: missing blocks read as zeros. */
  function ByteAt(groups: BlockStore, b: nat, k: nat): Byte
    requires Placed(groups) && k < BlockSize
  {
    Existing(groups, b)[k]
  }

  /** `write_block(id, data)` on the block maps: the block goes to its group. */
  function StoreBlock(groups: BlockStore, b: nat, data: seq<Byte>): (g: BlockStore)
    requires Placed(groups) && |data| == BlockSize
    ensures Placed(g)
  {
    var p := PlaceBlock(b);
    var blocks: map<nat, seq<Byte>> := groups[p][b := data];
    groups[p := blocks]
  }

  /** `read_block` finds a stored block in the group `write_block` placed it in. */
  lemma StoredAfterStore(groups: BlockStore, b: nat, data: seq<Byte>)
    requires Placed(groups) && |data| == BlockSize
    ensures Stored(StoreBlock(groups, b, data), b) == Some(data)
  {
  }

  /** After storing block `b`, `read` finds the new bytes in `b` and the old ones everywhere else. */
  lemma StoreBlockByte(groups: BlockStore, b: nat, data: seq<Byte>, c: nat, k: nat)
    requires Placed(groups) && |data| == BlockSize && k < BlockSize
    ensures ByteAt(StoreBlock(groups, b, data), c, k) == if c == b then data[k] else ByteAt(groups, c, k)
  {
  }

  function Min(a: int, b: int): int { if a < b then a else b }

  function Max(a: int, b: int): int { if a < b then b else a }

  /** The first file position of block `index` that a write at `offset` covers. */
  function Lo(offset: nat, len: nat, index: nat): nat
  {
    Max(offset, Min(offset + len, index * 4096))
  }

  /** One past the last file position of block `index` that the write covers. */
  function Hi(offset: nat, len: nat, index: nat): nat
  {
    Min(offset + len, (index + 1) * 4096)
  }

  /**
   * One step of `write`'s loop, at block `index` with `written` bytes done:
   * the source's offsets are those of the covered part `[lo, hi)` of the
   * block, and the next step starts where this one ends.
   */
  lemma StepOffsets(offset: nat, len: nat, index: nat, written: nat)
    requires offset / 4096 <= index && index * 4096 < offset + len
    requires offset + written == Lo(offset, len, index)
    ensures var lo, hi := Lo(offset, len, index), Hi(offset, len, index);
            var blockOffset := (offset + written) % 4096;
            var blockEnd := Min(blockOffset + (len - written), 4096);
            written <= len && lo <= hi &&
            blockOffset == lo - index * 4096 && blockEnd == hi - index * 4096 &&
            Min(written + (blockEnd - blockOffset), len) == hi - offset &&
            Lo(offset, len, index + 1) == hi
  {
    DivMod(offset);
    InBlock(offset + written, index);
  }

  /** The blocks `[start, end)` that `write` and `read` walk for a range. */
  function StartBlock(offset: nat): nat { offset / 4096 }

  function EndBlock(offset: nat, len: nat): nat
    requires offset + len >= 1
  {
    (offset + len - 1) / 4096 + 1
  }

  /** The walk starts at the block holding `offset` and ends with the block holding the range's last byte. */
  lemma BlockRange(offset: nat, len: nat)
    requires offset + len >= 1
    ensures StartBlock(offset) * 4096 <= offset < StartBlock(offset) * 4096 + 4096
    ensures (EndBlock(offset, len) - 1) * 4096 < offset + len <= EndBlock(offset, len) * 4096
    ensures StartBlock(offset) <= EndBlock(offset, len)
  {
    DivMod(offset);
    DivMod(offset + len - 1);
  }

  /**
   * The block that one step of `write` stores for block `index`: the data
   * byte at every position of the block that the write covers, the byte
   * `read` finds there before at every other.
   */
  function NewBlock(groups: BlockStore, ino: nat, offset: nat, data: seq<Byte>, index: nat): (nb: seq<Byte>)
    requires Placed(groups)
    ensures |nb| == BlockSize
  {
    seq<Byte>(4096, k requires 0 <= k < 4096 =>
      var p := index * 4096 + k;
      if offset <= p < offset + |data| then data[p - offset] else ByteAt(groups, BlockId(ino, index), k))
  }

  /** Byte `k` of `base[..bo] + chunk + base[be..]`, for a chunk that exactly replaces `base[bo..be]`. */
  lemma SpliceAt(base: seq<Byte>, bo: nat, chunk: seq<Byte>, be: nat, k: nat)
    requires bo <= be <= |base| && |chunk| == be - bo && k < |base|
    ensures |base[..bo] + chunk + base[be..]| == |base|
    ensures (base[..bo] + chunk + base[be..])[k] == if bo <= k < be then chunk[k - bo] else base[k]
  {
  }

  /**
   * The source's splice, `base[..bo] + chunk + base[be..]`, for the covered
   * part `[lo, hi)` of block `index`, is that block: outside the covered
   * part the base is the existing block, and a base of zeros is used only
   * when the whole block is covered.
   */
  lemma Splice(groups: BlockStore, ino: nat, offset: nat, data: seq<Byte>, index: nat, base: seq<Byte>,
               bo: nat, be: nat, ds: nat, de: nat)
    requires Placed(groups)
    requires offset <= (index + 1) * 4096 && index * 4096 < offset + |data|
    requires bo == Lo(offset, |data|, index) - index * 4096 && be == Hi(offset, |data|, index) - index * 4096
    requires ds == Lo(offset, |data|, index) - offset && de == Hi(offset, |data|, index) - offset
    requires base == if bo > 0 || be < 4096 then Existing(groups, BlockId(ino, index)) else Zeros()
    ensures base[..bo] + data[ds..de] + base[be..] == NewBlock(groups, ino, offset, data, index)
  {
    var chunk := data[ds..de];
    var nb := NewBlock(groups, ino, offset, data, index);
    SpliceAt(base, bo, chunk, be, 0);
    forall k | 0 <= k < 4096
      ensures (base[..bo] + chunk + base[be..])[k] == nb[k]
    {
      SpliceAt(base, bo, chunk, be, k);
    }
  }

  /**
   * The block maps after `write` has walked blocks `start .. index`, in
   * order. Each step splices into the block as it was before the write,
   * which is what the walk finds, since no earlier step stores that block
   * (`WalkLeavesLaterBlocks`).
   */
  function WrittenUpTo(groups: BlockStore, ino: nat, offset: nat, data: seq<Byte>, start: nat, index: nat): (g: BlockStore)
    requires Placed(groups) && start <= index
    ensures Placed(g)
    decreases index - start
  {
    if index == start then groups
    else
      var w := WrittenUpTo(groups, ino, offset, data, start, index - 1);
      StoreBlock(w, BlockId(ino, index - 1), NewBlock(groups, ino, offset, data, index - 1))
  }

  /** Storing one block leaves what `read_block` finds for every other block. */
  lemma StoreBlockOthers(groups: BlockStore, b: nat, data: seq<Byte>, c: nat)
    requires Placed(groups) && |data| == BlockSize && c != b
    ensures Stored(StoreBlock(groups, b, data), c) == Stored(groups, c)
  {
  }

  /** The walk up to block `index` has not stored block `index` or any later block of the file. */
  lemma {:induction false} WalkLeavesLaterBlocks(groups: BlockStore, ino: nat, offset: nat, data: seq<Byte>, start: nat, index: nat, j: nat)
    requires Placed(groups) && start <= index <= j
    ensures Stored(WrittenUpTo(groups, ino, offset, data, start, index), BlockId(ino, j)) == Stored(groups, BlockId(ino, j))
    decreases index - start
  {
    if index > start {
      var w := WrittenUpTo(groups, ino, offset, data, start, index - 1);
      WalkLeavesLaterBlocks(groups, ino, offset, data, start, index - 1, j);
      StoreBlockOthers(w, BlockId(ino, index - 1), NewBlock(groups, ino, offset, data, index - 1), BlockId(ino, j));
    }
  }

  /** The block maps after `write(ino, offset, data)`. */
  function Written(groups: BlockStore, ino: nat, offset: nat, data: seq<Byte>): (g: BlockStore)
    requires Placed(groups) && offset + |data| >= 1
    ensures Placed(g)
  {
    BlockRange(offset, |data|);
    WrittenUpTo(groups, ino, offset, data, StartBlock(offset), EndBlock(offset, |data|))
  }

  /** `block_to_cg` after the walk over blocks `start .. index` of `ino` has recorded each placement. */
  function Placements(m: map<nat, nat>, ino: nat, start: nat, index: nat): map<nat, nat>
    requires start <= index
    decreases index - start
  {
    if index == start then m
    else Placements(m, ino, start, index - 1)[BlockId(ino, index - 1) := PlaceBlock(BlockId(ino, index - 1))]
  }

  /**
   * The walk records a placement for exactly the blocks it visits, each where
   * `place_block` puts it, and keeps every other placement.
   */
  lemma {:induction false} PlacementsEffect(m: map<nat, nat>, ino: nat, start: nat, index: nat, b: nat)
    requires start <= index
    ensures var p := Placements(m, ino, start, index);
            (b in p <==> b in m || BlockId(ino, start) <= b < BlockId(ino, index)) &&
            (b in p ==> p[b] == if BlockId(ino, start) <= b < BlockId(ino, index) then PlaceBlock(b) else m[b])
    decreases index - start
  {
    if index > start {
      PlacementsEffect(m, ino, start, index - 1, b);
    }
  }

  /** The file position of `ino` that byte `k` of block `b` holds, if `b` is one of its blocks. */
  function Position(ino: nat, b: nat, k: nat): int
  {
    (b - ino * 1000) * 4096 + k
  }

  /** Byte `k` of block `b` holds a position of `ino` in the range `[offset, offset + len)`. */
  predicate Covered(ino: nat, offset: nat, len: nat, b: nat, k: nat)
  {
    b >= ino * 1000 && offset <= Position(ino, b, k) < offset + len
  }

  /** `p` split into its block and its offset in the block. */
  lemma DivMod(p: nat)
    ensures p == p / 4096 * 4096 + p % 4096 && p % 4096 < 4096
  {
  }

  /** Position arithmetic: `q * 4096 + r` is byte `r` of block `q`. */
  lemma InBlock(p: nat, q: nat)
    requires q * 4096 <= p < q * 4096 + 4096
    ensures p / 4096 == q && p % 4096 == p - q * 4096
  {
  }

  /** Walking blocks `start .. index` writes exactly the covered bytes of those blocks. */
  lemma {:induction false} WrittenByte(groups: BlockStore, ino: nat, offset: nat, data: seq<Byte>, start: nat, index: nat, b: nat, k: nat)
    requires Placed(groups) && k < BlockSize && start <= index
    ensures ByteAt(WrittenUpTo(groups, ino, offset, data, start, index), b, k) ==
            if Covered(ino, offset, |data|, b, k) && start <= b - ino * 1000 < index
            then data[Position(ino, b, k) - offset] else ByteAt(groups, b, k)
    decreases index - start
  {
    if index > start {
      var i := index - 1;
      var w := WrittenUpTo(groups, ino, offset, data, start, i);
      var nb := NewBlock(groups, ino, offset, data, i);
      var g := WrittenUpTo(groups, ino, offset, data, start, index);
      assert g == StoreBlock(w, BlockId(ino, i), nb);
      StoreBlockByte(w, BlockId(ino, i), nb, b, k);
      if b == BlockId(ino, i) {
        var p := i * 4096 + k;
        assert Position(ino, b, k) == p;
        assert ByteAt(g, b, k) == nb[k];
        assert nb[k] == if offset <= p < offset + |data| then data[p - offset] else ByteAt(groups, b, k);
      } else {
        WrittenByte(groups, ino, offset, data, start, i, b, k);
        assert ByteAt(g, b, k) == ByteAt(w, b, k);
      }
    }
  }

  /**
   * The whole effect of `write(ino, offset, data)` on the bytes `read`
   * sees, for data of any length: a byte of block `b` at file
   * position `pos` of `ino` that the range covers holds `data[pos - offset]`,
   * and every other byte of every block keeps its value.
   */
  lemma WriteEffect(groups: BlockStore, ino: nat, offset: nat, data: seq<Byte>, b: nat, k: nat)
    requires Placed(groups) && k < BlockSize && offset + |data| >= 1
    ensures ByteAt(Written(groups, ino, offset, data), b, k) == if Covered(ino, offset, |data|, b, k) then data[Position(ino, b, k) - offset] else ByteAt(groups, b, k)
  {
    var start, end := StartBlock(offset), EndBlock(offset, |data|);
    BlockRange(offset, |data|);
    WrittenByte(groups, ino, offset, data, start, end, b, k);
    if b >= ino * 1000 {
      var i := b - ino * 1000;
      var pos := i * 4096 + k;
      if offset <= pos < offset + |data| {
        InBlock(pos, i);
        assert start <= i < end;
      }
    }
  }

  /** `read(ino, offset, size)` of a file that exists: the bytes at each position of the range. */
  function ReadBytes(groups: BlockStore, ino: nat, offset: nat, size: nat): (r: seq<Byte>)
    requires Placed(groups)
    ensures |r| == size
  {
    seq<Byte>(size, i requires 0 <= i < size => ByteAt(groups, BlockId(ino, (offset + i) / 4096), (offset + i) % 4096))
  }

  /** Byte `i` of a read at `offset` is byte `rem` of block `q`, when `offset + i` is `q * 4096 + rem`. */
  lemma ReadBytesAt(groups: BlockStore, ino: nat, offset: nat, size: nat, i: nat, q: nat, rem: nat)
    requires Placed(groups) && i < size && rem < 4096 && offset + i == q * 4096 + rem
    ensures ReadBytes(groups, ino, offset, size)[i] == ByteAt(groups, BlockId(ino, q), rem)
  {
    InBlock(offset + i, q);
  }

  /** Blocks `start .. index` of `ino` end to end, missing ones as zeros: what `read` collects. */
  function Collected(groups: BlockStore, ino: nat, start: nat, index: nat): (r: seq<Byte>)
    requires Placed(groups) && start <= index
    ensures |r| == (index - start) * 4096
    decreases index - start
  {
    if index == start then [] else Collected(groups, ino, start, index - 1) + Existing(groups, BlockId(ino, index - 1))
  }

  /** Byte `j` of the collected blocks is byte `j % 4096` of block `start + j / 4096`. */
  lemma {:induction false} CollectedAt(groups: BlockStore, ino: nat, start: nat, index: nat, j: nat)
    requires Placed(groups) && start <= index && j < (index - start) * 4096
    ensures Collected(groups, ino, start, index)[j] == ByteAt(groups, BlockId(ino, start + j / 4096), j % 4096)
    decreases index - start
  {
    var front := Collected(groups, ino, start, index - 1);
    if j < |front| {
      CollectedAt(groups, ino, start, index - 1, j);
    } else {
      InBlock(j, index - 1 - start);
    }
  }

  /**
   * `read`'s trim: from the blocks `offset / 4096 .. end` collected, the
   * `size` bytes at `offset % 4096` are the bytes of the range.
   */
  lemma Trim(groups: BlockStore, ino: nat, offset: nat, size: nat)
    requires Placed(groups) && offset + size >= 1
    ensures var c := Collected(groups, ino, StartBlock(offset), EndBlock(offset, size));
            offset % 4096 + size <= |c| && c[offset % 4096..offset % 4096 + size] == ReadBytes(groups, ino, offset, size)
  {
    BlockRange(offset, size);
    DivMod(offset);
    var start, end := StartBlock(offset), EndBlock(offset, size);
    var c := Collected(groups, ino, start, end);
    var fileOffset := offset % 4096;
    forall i | 0 <= i < size
      ensures c[fileOffset + i] == ReadBytes(groups, ino, offset, size)[i]
    {
      var j := fileOffset + i;
      CollectedAt(groups, ino, start, end, j);
      DivMod(j);
      var q, rem := j / 4096, j % 4096;
      assert offset + i == (start + q) * 4096 + rem;
      ReadBytesAt(groups, ino, offset, size, i, start + q, rem);
    }
  }

  /** Reading back the range just written returns the written bytes. */
  lemma WriteThenRead(groups: BlockStore, ino: nat, offset: nat, data: seq<Byte>)
    requires Placed(groups) && offset + |data| >= 1
    ensures ReadBytes(Written(groups, ino, offset, data), ino, offset, |data|) == data
  {
    var g := Written(groups, ino, offset, data);
    forall i | 0 <= i < |data|
      ensures ReadBytes(g, ino, offset, |data|)[i] == data[i]
    {
      var p := offset + i;
      var b, k := BlockId(ino, p / 4096), p % 4096;
      WriteEffect(groups, ino, offset, data, b, k);
      DivMod(p);
      assert Covered(ino, offset, |data|, b, k);
    }
  }

  /**
   * Files keep to themselves while they stay under 1000 blocks: a write to
   * one inode that ends by byte 4 096 000 leaves every byte that `read` finds
   * in the first 1000 blocks of any other inode.
   */
  lemma WriteIsolation(groups: BlockStore, ino: nat, offset: nat, data: seq<Byte>, other: nat, o: nat, size: nat)
    requires Placed(groups) && offset + |data| >= 1
    requires ino != other && offset + |data| <= 4096000 && o + size <= 4096000
    ensures ReadBytes(Written(groups, ino, offset, data), other, o, size) ==
            ReadBytes(groups, other, o, size)
  {
    var g := Written(groups, ino, offset, data);
    forall i | 0 <= i < size
      ensures ReadBytes(g, other, o, size)[i] == ReadBytes(groups, other, o, size)[i]
    {
      var p := o + i;
      var b, k := BlockId(other, p / 4096), p % 4096;
      assert p / 4096 < 1000;
      WriteEffect(groups, ino, offset, data, b, k);
      if ino < other {
        assert (b - ino * 1000) * 4096 >= 4096000;
      }
    }
  }

  /**
   * Past 1000 blocks the ids run into the next inode's: writing at byte
   * 4 096 000 of `ino` changes the first byte that `read` finds for `ino + 1`.
   */
  lemma LargeWriteReachesNextInode(groups: BlockStore, ino: nat, data: seq<Byte>)
    requires Placed(groups) && |data| >= 1
    ensures ReadBytes(Written(groups, ino, 4096000, data), ino + 1, 0, 1) == [data[0]]
  {
    var g := Written(groups, ino, 4096000, data);
    WriteEffect(groups, ino, 4096000, data, BlockId(ino + 1, 0), 0);
    assert ReadBytes(g, ino + 1, 0, 1)[0] == ByteAt(g, BlockId(ino + 1, 0), 0);
  }

  /** `FileMetadata`, less its two HLC timestamps. */
  datatype FileMetadata = FileMetadata(
    ino: nat,
    name: string,
    size: nat,
    isDir: bool,
    leaseHolder: Option<string>,
    blocks: seq<nat>)

  /** The root directory `new` installs. */
  function RootMetadata(): FileMetadata
  {
    FileMetadata(RootIno, "/", 0, true, Some("cg-0"), [])
  }

  /** `LisFS`: the metadata map, the inode counter, the placements and the groups' blocks. */
  class LisFs {
    var files: map<nat, FileMetadata>
    var inodes: nat
    var blockToCg: map<nat, nat>
    var groups: BlockStore

    /**
     * The counter is past every inode in use, so it never hands out root's
     * 1 again; every placement is where `place_block` puts the block.
     */
    predicate Valid()
      reads this
    {
      Placed(groups) && RootIno in files && inodes >= 2 &&
      (forall i :: i in files ==> i < inodes) &&
      (forall b {:trigger blockToCg[b]} :: b in blockToCg ==> blockToCg[b] == PlaceBlock(b))
    }

    /** `LisFS::new()`: root inode 1 as a directory, the counter at 2, three empty groups. */
    constructor ()
      ensures Valid()
      ensures files == map[RootIno := RootMetadata()] && inodes == 2
      ensures blockToCg == map[] && groups == [map[], map[], map[]]
    {
      files := map[RootIno := RootMetadata()];
      inodes := 2;
      blockToCg := map[];
      groups := [map[], map[], map[]];
    }

    /** `next_ino()`: the counter, which then moves on by one. */
    method NextIno() returns (ino: nat)
      requires Valid()
      modifies this
      ensures ino == old(inodes) && inodes == ino + 1
      ensures ino !in files && ino != RootIno
      ensures files == old(files) && blockToCg == old(blockToCg) && groups == old(groups)
    {
      ino := inodes;
      inodes := inodes + 1;
    }

    /**
     * `lookup(parent, name)`: under the root, any name but "." and ".."
     * creates a new empty regular file, even when the name is already there;
     * anything else is `ENOENT`.
     */
    method Lookup(parent: nat, name: string) returns (r: Result<FileMetadata, int>)
      requires Valid()
      modifies this
      ensures Valid()
      ensures r.Ok? <==> parent == RootIno && name != "." && name != ".."
      ensures r.Err? ==> r.error == ENOENT && files == old(files) && inodes == old(inodes)
      ensures r.Ok? ==> r.value == FileMetadata(old(inodes), name, 0, false, None, []) &&
                        r.value.ino !in old(files) &&
                        files == old(files)[r.value.ino := r.value] && inodes == old(inodes) + 1
      ensures blockToCg == old(blockToCg) && groups == old(groups)
    {
      if parent == RootIno && name != "." && name != ".." {
        var ino := NextIno();
        var metadata := FileMetadata(ino, name, 0, false, None, []);
        files := files[ino := metadata];
        return Ok(metadata);
      }
      r := Err(ENOENT);
    }

    /** `read_block(id)`: the recorded group, else `place_block`'s, then that group's block. */
    method ReadBlock(b: nat) returns (r: Option<seq<Byte>>)
      requires Valid()
      ensures r == Stored(groups, b)
    {
      var cg := if b in blockToCg then blockToCg[b] else PlaceBlock(b);
      if cg < |groups| && b in groups[cg] {
        return Some(groups[cg][b]);
      }
      r := None;
    }

    /**
     * `write_block(id, data)`: record the placement and store the block. The
     * block-scope lease the group takes first is always granted.
     */
    method WriteBlock(b: nat, data: seq<Byte>)
      requires Valid() && |data| == BlockSize
      modifies this
      ensures Valid()
      ensures blockToCg == old(blockToCg)[b := PlaceBlock(b)]
      ensures groups == StoreBlock(old(groups), b, data)
      ensures files == old(files) && inodes == old(inodes)
    {
      var cg := PlaceBlock(b);
      blockToCg := blockToCg[b := cg];
      var blocks: map<nat, seq<Byte>> := groups[cg][b := data];
      groups := groups[cg := blocks];
    }

    /**
     * The body of `write`'s loop for block `index`, with `written` bytes of
     * the data stored so far: splice the next part of the data into the
     * block (the stored one, or zeros) and store it.
     */
    method WriteStep(ino: nat, offset: nat, data: seq<Byte>, index: nat, written: nat, ghost g0: BlockStore, ghost start: nat, ghost m0: map<nat, nat>)
      returns (written': nat)
      requires Valid() && offset + |data| >= 1
      requires StartBlock(offset) <= index < EndBlock(offset, |data|)
      requires offset + written == Lo(offset, |data|, index)
      requires Placed(g0) && start <= index && groups == WrittenUpTo(g0, ino, offset, data, start, index)
      modifies this
      ensures Valid()
      ensures groups == WrittenUpTo(g0, ino, offset, data, start, index + 1)
      ensures blockToCg == old(blockToCg)[BlockId(ino, index) := PlaceBlock(BlockId(ino, index))]
      ensures old(blockToCg) == Placements(m0, ino, start, index) ==> blockToCg == Placements(m0, ino, start, index + 1)
      ensures offset + written' == Lo(offset, |data|, index + 1)
      ensures files == old(files) && inodes == old(inodes)
    {
      var b := ino * 1000 + index;
      assert b == BlockId(ino, index);
      BlockRange(offset, |data|);
      StepOffsets(offset, |data|, index, written);
      ghost var lo, hi := Lo(offset, |data|, index), Hi(offset, |data|, index);
      ghost var nb := NewBlock(g0, ino, offset, data, index);
      var blockOffset := (offset + written) % 4096;
      var blockEnd := Min(blockOffset + (|data| - written), 4096);
      assert blockOffset == lo - index * 4096 && blockEnd == hi - index * 4096;
      var blockData: seq<Byte>;
      if blockOffset > 0 || blockEnd < 4096 {
        var existing := ReadBlock(b);
        WalkLeavesLaterBlocks(g0, ino, offset, data, start, index, index);
        assert existing == Stored(g0, b);
        blockData := if existing.Some? then existing.value else Zeros();
        assert blockData == Existing(g0, b);
      } else {
        blockData := Zeros();
      }
      var dataStart := written;
      var dataEnd := Min(dataStart + (blockEnd - blockOffset), |data|);
      assert dataStart == lo - offset && dataEnd == hi - offset;
      Splice(g0, ino, offset, data, index, blockData, blockOffset, blockEnd, dataStart, dataEnd);
      blockData := blockData[..blockOffset] + data[dataStart..dataEnd] + blockData[blockEnd..];
      assert blockData == nb;
      WriteBlock(b, blockData);
      assert groups == StoreBlock(old(groups), BlockId(ino, index), nb);
      written' := written + (dataEnd - dataStart);
    }

    /** The block loop of `write`: splice and store every block the range touches, in order. */
    method WriteBlocks(ino: nat, offset: nat, data: seq<Byte>)
      requires Valid() && offset + |data| >= 1
      modifies this
      ensures Valid()
      ensures groups == Written(old(groups), ino, offset, data)
      ensures blockToCg == Placements(old(blockToCg), ino, StartBlock(offset), EndBlock(offset, |data|))
      ensures files == old(files) && inodes == old(inodes)
    {
      var start, end := offset / 4096, (offset + |data| - 1) / 4096 + 1;
      assert start == StartBlock(offset) && end == EndBlock(offset, |data|);
      ghost var g0 := groups;
      var written: nat := 0;
      var index := start;
      while index < end
        invariant Valid() && files == old(files) && inodes == old(inodes)
        invariant start <= index <= end
        invariant offset + written == Lo(offset, |data|, index)
        invariant groups == WrittenUpTo(g0, ino, offset, data, start, index)
        invariant blockToCg == Placements(old(blockToCg), ino, start, index)
      {
        written := WriteStep(ino, offset, data, index, written, g0, start, old(blockToCg));
        index := index + 1;
      }
    }

    /**
     * `write(ino, offset, data)`: every block the range touches is spliced and
     * stored, then the file's size grows to cover the range. The reply is
     * the length of the data. `offset + data.len() - 1` must not underflow.
     */
    method Write(ino: nat, offset: nat, data: seq<Byte>) returns (written: nat)
      requires Valid() && offset + |data| >= 1
      modifies this
      ensures Valid()
      ensures written == |data|
      ensures groups == Written(old(groups), ino, offset, data)
      ensures blockToCg == Placements(old(blockToCg), ino, StartBlock(offset), EndBlock(offset, |data|))
      ensures files == if ino in old(files)
                       then old(files)[ino := old(files)[ino].(size := Max(old(files)[ino].size, offset + |data|))]
                       else old(files)
      ensures inodes == old(inodes)
    {
      WriteBlocks(ino, offset, data);
      if ino in files {
        var metadata := files[ino];
        files := files[ino := metadata.(size := Max(metadata.size, offset + |data|))];
      }
      written := |data|;
    }

    /** The block loop of `read`: blocks `start .. end` of `ino` end to end, missing ones as zeros. */
    method CollectBlocks(ino: nat, start: nat, end: nat) returns (resultData: seq<Byte>)
      requires Valid() && start <= end
      ensures resultData == Collected(groups, ino, start, end)
    {
      resultData := [];
      var index := start;
      while index < end
        invariant start <= index <= end
        invariant resultData == Collected(groups, ino, start, index)
      {
        var block := ReadBlock(ino * 1000 + index);
        var blockData := if block.Some? then block.value else Zeros();
        assert blockData == Existing(groups, BlockId(ino, index));
        resultData := resultData + blockData;
        index := index + 1;
      }
    }

    /**
     * `read(ino, offset, size)`: `ENOENT` for an unknown inode; otherwise the
     * touched blocks end to end, missing ones as zeros, trimmed to the range.
     * The file's size is not consulted. For a known inode,
     * `offset + size - 1` must not underflow.
     */
    method Read(ino: nat, offset: nat, size: nat) returns (r: Result<seq<Byte>, int>)
      requires Valid() && (ino in files ==> offset + size >= 1)
      ensures ino !in files ==> r == Err(ENOENT)
      ensures ino in files ==> r == Ok(ReadBytes(groups, ino, offset, size))
    {
      if ino !in files {
        return Err(ENOENT);
      }
      var start, end := offset / 4096, (offset + size - 1) / 4096 + 1;
      assert start == StartBlock(offset) && end == EndBlock(offset, size);
      BlockRange(offset, size);
      var resultData := CollectBlocks(ino, start, end);
      Trim(groups, ino, offset, size);
      var fileOffset := offset % 4096;
      var endPos := Min(fileOffset + size, |resultData|);
      assert endPos == fileOffset + size;
      var data := if fileOffset < |resultData| then resultData[fileOffset..endPos] else [];
      assert data == ReadBytes(groups, ino, offset, size);
      r := Ok(data);
    }
  }
}
