/**
 * The variable block storage of examples/variable_block_storage.rs: files
 * cut into blocks of one of five sizes chosen from the file's extension and
 * length, each block compressed by dropping its zero bytes behind a bitmap,
 * placed on one of three consensus groups by its size, and a tracker that
 * records every change of block size in three bits.
 *
 * The two clock readings a file's metadata carries and the float statistics
 * (compression ratios, timings) are not modelled. `has_sparse_pattern` is a
 * float heuristic; its answer is a parameter of `Write`. Each group takes a
 * lease on a block scope before storing a block, and a block scope never
 * conflicts (`LeaseState.BlockScopesNeverBlocked`), so storing a block
 * always succeeds here and the leases it takes are not modelled.
 */
module VariableBlockStorage {
  import opened Wrappers
  import opened Bytes
  import Utf8
  import opened BlockSplit

  /** `BlockSize`, with its size in bytes. */
  datatype BlockSize = Tiny | Small | Standard | Large | Huge

  /** `as_usize`: the block's length in bytes. */
  function SizeBytes(s: BlockSize): (r: nat)
    ensures r >= 512
  {
    match s
    case Tiny => 512
    case Small => 1024
    case Standard => 4096
    case Large => 16384
    case Huge => 65536
  }

  /** The five sizes are five different lengths. */
  lemma SizeBytesInjective(a: BlockSize, b: BlockSize)
    requires SizeBytes(a) == SizeBytes(b)
    ensures a == b
  {
  }

  const VmExtensions: set<string> := {"vm", "qcow2", "vdi", "vmdk"}
  const VideoExtensions: set<string> := {"mp4", "mkv", "avi", "mov", "webm"}
  const AudioExtensions: set<string> := {"mp3", "flac", "wav", "ogg"}
  const ImageExtensions: set<string> := {"jpg", "png", "tiff", "bmp"}
  const ConfigExtensions: set<string> := {"txt", "json", "yaml", "toml", "conf"}

  /** The extensions the table of `from_data_pattern` lists. */
  predicate Listed(ext: string)
  {
    ext in VmExtensions || ext in VideoExtensions || ext in AudioExtensions ||
    ext in ImageExtensions || ext in ConfigExtensions
  }

  /**
   * `BlockSize::from_data_pattern(data, extension)` for data of `len` bytes
   * whose sparse-pattern test answered `sparse`.
   */
  function FromDataPattern(len: nat, ext: string, sparse: bool): BlockSize
  {
    if ext in VmExtensions then Standard
    else if ext in VideoExtensions then Huge
    else if ext in AudioExtensions then Large
    else if ext in ImageExtensions then Large
    else if ext in ConfigExtensions then Tiny
    else if len < 2048 then Tiny
    else if len < 8192 then Small
    else if sparse then Standard
    else if len > 1024 * 1024 then Large
    else Standard
  }

  /**
   * A listed extension decides the size whatever the data; for any other
   * extension the size depends on the length alone below 8 KiB, the sparse
   * test only picks between 4 KiB and 16 KiB blocks, and it is 16 KiB only
   * for data over 1 MiB.
   */
  lemma FromDataPatternCases(len: nat, ext: string, sparse: bool, len': nat, sparse': bool)
    ensures Listed(ext) ==> FromDataPattern(len, ext, sparse) == FromDataPattern(len', ext, sparse')
    ensures !Listed(ext) && len < 8192 ==> FromDataPattern(len, ext, sparse) == FromDataPattern(len, ext, sparse')
    ensures !Listed(ext) && len >= 8192 ==> FromDataPattern(len, ext, sparse) in {Standard, Large}
    ensures !Listed(ext) && FromDataPattern(len, ext, sparse) == Large ==> len > 1024 * 1024 && !sparse
  {
  }

  /** For one extension and one sparse verdict, more data never gets a smaller block. */
  lemma FromDataPatternMonotone(len: nat, len': nat, ext: string, sparse: bool)
    requires len <= len'
    ensures SizeBytes(FromDataPattern(len, ext, sparse)) <= SizeBytes(FromDataPattern(len', ext, sparse))
  {
  }

  /**
   * `filename.split('.').last()`: the text after the last '.', or the
   * whole name when it has none.
   */
  function Extension(name: string): (r: string)
    ensures '.' !in r
    ensures |r| <= |name| && r == name[|name| - |r|..]
    ensures |r| < |name| ==> name[|name| - |r| - 1] == '.'
    decreases |name|
  {
    if name == [] then []
    else
      var init, c := name[..|name| - 1], name[|name| - 1];
      if c == '.' then []
      else
        var e := Extension(init);
        assert name[|name| - |e| - 1..] == init[|init| - |e|..] + [c];
        e + [c]
  }

  /** The extension of a name is what follows its last dot. */
  lemma {:induction false} ExtensionAfterLastDot(stem: string, ext: string)
    requires '.' !in ext
    ensures Extension(stem + ['.'] + ext) == ext
    decreases |ext|
  {
    var name := stem + ['.'] + ext;
    if ext == [] {
      assert name[|name| - 1] == '.';
    } else {
      assert name[..|name| - 1] == stem + ['.'] + ext[..|ext| - 1];
      assert ext[..|ext| - 1] + [ext[|ext| - 1]] == ext;
      ExtensionAfterLastDot(stem, ext[..|ext| - 1]);
    }
  }

  // The null-byte codec.

  /** The nonzero bytes of `d`, in order. */
  function Nonzero(d: seq<Byte>): (r: seq<Byte>)
    ensures |r| <= |d|
    ensures forall i :: 0 <= i < |r| ==> r[i] != 0
    decreases |d|
  {
    if d == [] then []
    else Nonzero(d[..|d| - 1]) + (if d[|d| - 1] != 0 then [d[|d| - 1]] else [])
  }

  /** The bitmap of the zero bytes of `d`: bit `i` is set iff `d[i]` is zero. */
  function ZeroMap(d: seq<Byte>): (r: seq<bool>)
    ensures |r| == |d|
    ensures forall i :: 0 <= i < |d| ==> (r[i] <==> d[i] == 0)
    decreases |d|
  {
    if d == [] then [] else ZeroMap(d[..|d| - 1]) + [d[|d| - 1] == 0]
  }

  predicate NoZero(d: seq<Byte>)
  {
    forall i :: 0 <= i < |d| ==> d[i] != 0
  }

  /**
   * `null_compress(data)`: data without a zero byte is kept as it is;
   * otherwise the nonzero bytes and the zero bitmap are kept when that
   * payload is under three quarters of the data, and the data as it is when
   * it is not.
   */
  function NullCompressed(d: seq<Byte>): (seq<Byte>, Option<seq<bool>>)
  {
    if NoZero(d) then (d, None)
    else if |Nonzero(d)| < |d| * 3 / 4 then (Nonzero(d), Some(ZeroMap(d)))
    else (d, None)
  }

  /**
   * The bytes the decompression loop writes over the positions of `bitmap`,
   * and how many payload bytes it has used: a set bit writes 0, a clear bit
   * the next payload byte, or leaves the 0 in place once the payload is used up.
   */
  function Expand(payload: seq<Byte>, bitmap: seq<bool>): (r: (seq<Byte>, nat))
    ensures |r.0| == |bitmap| && r.1 <= |payload|
    decreases |bitmap|
  {
    if bitmap == [] then ([], 0)
    else
      var prev := Expand(payload, bitmap[..|bitmap| - 1]);
      Step(payload, prev, bitmap[|bitmap| - 1])
  }

  /** One turn of the decompression loop, from the bytes written so far and the payload bytes used. */
  function Step(payload: seq<Byte>, prev: (seq<Byte>, nat), isNull: bool): (r: (seq<Byte>, nat))
    requires prev.1 <= |payload|
    ensures |r.0| == |prev.0| + 1 && r.1 <= |payload|
  {
    if isNull then (prev.0 + [0], prev.1)
    else if prev.1 < |payload| then (prev.0 + [payload[prev.1]], prev.1 + 1)
    else (prev.0 + [0], prev.1)
  }

  /**
   * `null_decompress(compressed, original_size, bitmap)`: without a bitmap the
   * payload as it is; with one, `original_size` bytes, of which those past
   * the bitmap stay 0.
   */
  function NullDecompressed(payload: seq<Byte>, originalSize: nat, bitmap: Option<seq<bool>>): seq<Byte>
  {
    match bitmap
    case None => payload
    case Some(bm) =>
      var k := Min(|bm|, originalSize);
      Expand(payload, bm[..k]).0 + seq(originalSize - k, i => 0)
  }

  lemma {:induction false} NonzeroOfNoZero(d: seq<Byte>)
    requires NoZero(d)
    ensures Nonzero(d) == d
    decreases |d|
  {
    if d != [] {
      NonzeroOfNoZero(d[..|d| - 1]);
    }
  }

  lemma ExpandSnoc(payload: seq<Byte>, bitmap: seq<bool>, b: bool)
    ensures Expand(payload, bitmap + [b]) == Step(payload, Expand(payload, bitmap), b)
  {
    assert (bitmap + [b])[..|bitmap|] == bitmap;
  }

  /**
   * The loop rebuilds any data `e` from its zero bitmap and a payload that
   * starts with the nonzero bytes of `e`, using exactly those bytes.
   */
  lemma {:induction false} ExpandZeroMap(payload: seq<Byte>, e: seq<Byte>)
    requires |Nonzero(e)| <= |payload| && payload[..|Nonzero(e)|] == Nonzero(e)
    ensures Expand(payload, ZeroMap(e)) == (e, |Nonzero(e)|)
    decreases |e|
  {
    if e != [] {
      var e', b := e[..|e| - 1], e[|e| - 1];
      assert e == e' + [b];
      var n := |Nonzero(e')|;
      assert payload[..n] == Nonzero(e)[..n];
      ExpandZeroMap(payload, e');
      ExpandSnoc(payload, ZeroMap(e'), b == 0);
      if b != 0 {
        assert payload[n] == Nonzero(e)[n];
      }
    }
  }

  /**
   * Compression round-trips: the compressed form, decompressed with the
   * original length, is the original data.
   */
  lemma NullRoundTrip(d: seq<Byte>)
    ensures NullDecompressed(NullCompressed(d).0, |d|, NullCompressed(d).1) == d
  {
    if NullCompressed(d).1.Some? {
      var p := Nonzero(d);
      assert p[..|p|] == p;
      ExpandZeroMap(p, d);
      assert ZeroMap(d)[..|d|] == ZeroMap(d);
    }
  }

  /**
   * The shape of the compressed form: data without a zero byte is kept
   * without a bitmap; a bitmap is used exactly when the nonzero bytes are
   * fewer than three quarters of the data, and then it marks the zero bytes
   * and the payload is the nonzero bytes in order; the payload is never
   * longer than the data.
   */
  lemma NullCompressShape(d: seq<Byte>)
    ensures NoZero(d) ==> NullCompressed(d) == (d, None)
    ensures NullCompressed(d).1.Some? <==> |Nonzero(d)| < |d| * 3 / 4
    ensures NullCompressed(d).1.Some? ==>
              NullCompressed(d).0 == Nonzero(d) &&
              (forall i :: 0 <= i < |d| ==> (NullCompressed(d).1.value[i] <==> d[i] == 0)) &&
              |NullCompressed(d).1.value| == |d|
    ensures NullCompressed(d).1.None? ==> NullCompressed(d).0 == d
    ensures |NullCompressed(d).0| <= |d|
  {
    if NoZero(d) {
      NonzeroOfNoZero(d);
    }
  }

  /** With a bitmap the decompressed length is the original length. */
  lemma DecompressedLength(payload: seq<Byte>, originalSize: nat, bitmap: seq<bool>)
    ensures |NullDecompressed(payload, originalSize, Some(bitmap))| == originalSize
  {
  }

  /** `null_compress`, with its loop over the bytes. */
  method NullCompress(data: seq<Byte>) returns (payload: seq<Byte>, bitmap: Option<seq<bool>>)
    ensures (payload, bitmap) == NullCompressed(data)
  {
    if forall i | 0 <= i < |data| :: data[i] != 0 {
      return data, None;
    }
    var compressed: seq<Byte> := [];
    var nulls := new bool[|data|](i => false);
    var i := 0;
    while i < |data|
      invariant 0 <= i <= |data|
      invariant compressed == Nonzero(data[..i])
      invariant forall j :: 0 <= j < i ==> (nulls[j] <==> data[j] == 0)
      invariant forall j :: i <= j < |data| ==> !nulls[j]
    {
      assert data[..i + 1][..i] == data[..i];
      if data[i] == 0 {
        nulls[i] := true;
      } else {
        compressed := compressed + [data[i]];
      }
      i := i + 1;
    }
    assert data[..i] == data;
    assert nulls[..] == ZeroMap(data);
    if |compressed| < |data| * 3 / 4 {
      return compressed, Some(nulls[..]);
    }
    return data, None;
  }

  /** `null_decompress`, with its loop over the bitmap. */
  method NullDecompress(payload: seq<Byte>, originalSize: nat, bitmap: Option<seq<bool>>) returns (r: seq<Byte>)
    ensures r == NullDecompressed(payload, originalSize, bitmap)
  {
    if bitmap.None? {
      return payload;
    }
    var bm := bitmap.value;
    var result := new Byte[originalSize](i => 0);
    var idx := 0;
    var i := 0;
    while i < |bm|
      invariant 0 <= i <= |bm| && i <= originalSize
      invariant (result[..i], idx) == Expand(payload, bm[..i])
      invariant forall j :: i <= j < originalSize ==> result[j] == 0
    {
      if i >= originalSize {
        break;
      }
      assert bm[..i + 1][..i] == bm[..i];
      if bm[i] {
        result[i] := 0;
      } else if idx < |payload| {
        result[i] := payload[idx];
        idx := idx + 1;
      }
      assert result[..i + 1] == result[..i] + [result[i]];
      i := i + 1;
    }
    assert i == Min(|bm|, originalSize);
    assert result[..] == result[..i] + result[i..];
    assert result[i..] == seq(originalSize - i, j => 0);
    r := result[..];
  }

  /** `CompressedBlock` without its float ratio. */
  datatype CompressedBlock = CompressedBlock(data: seq<Byte>, originalSize: nat, nullBitmap: Option<seq<bool>>)

  /** What `CompressedBlock::new(data, _)` builds. */
  function Compressed(d: seq<Byte>): CompressedBlock
  {
    CompressedBlock(NullCompressed(d).0, |d|, NullCompressed(d).1)
  }

  /** What `decompress` returns. */
  function Decompressed(b: CompressedBlock): seq<Byte>
  {
    NullDecompressed(b.data, b.originalSize, b.nullBitmap)
  }

  /** A block decompresses to the data it was made from, and never holds more bytes than that data. */
  lemma BlockRoundTrip(d: seq<Byte>)
    ensures Decompressed(Compressed(d)) == d
    ensures |Compressed(d).data| <= |d| && Compressed(d).originalSize == |d|
  {
    NullRoundTrip(d);
    NullCompressShape(d);
  }

  /** `CompressedBlock::new`. */
  method NewCompressedBlock(data: seq<Byte>) returns (b: CompressedBlock)
    ensures b == Compressed(data)
  {
    var payload, bitmap := NullCompress(data);
    b := CompressedBlock(payload, |data|, bitmap);
  }

  /** `CompressedBlock::decompress`. */
  method Decompress(b: CompressedBlock) returns (r: seq<Byte>)
    ensures r == Decompressed(b)
  {
    r := NullDecompress(b.data, b.originalSize, b.nullBitmap);
  }

  // The block-size tracker.

  /** The 3-bit code of each size: 000, 001, 010, 011 and 100. */
  function SizeBits(s: BlockSize): (r: seq<bool>)
    ensures |r| == 3
  {
    match s
    case Tiny => [false, false, false]
    case Small => [false, false, true]
    case Standard => [false, true, false]
    case Large => [false, true, true]
    case Huge => [true, false, false]
  }

  /** The size three bits stand for; the three unused codes read as `Standard`. */
  function DecodeBits(b0: bool, b1: bool, b2: bool): BlockSize
  {
    match (b0, b1, b2)
    case (false, false, false) => Tiny
    case (false, false, true) => Small
    case (false, true, false) => Standard
    case (false, true, true) => Large
    case (true, false, false) => Huge
    case _ => Standard
  }

  /** Every code decodes to the size it encodes. */
  lemma SizeBitsRoundTrip(s: BlockSize)
    ensures DecodeBits(SizeBits(s)[0], SizeBits(s)[1], SizeBits(s)[2]) == s
  {
  }

  /** The k-th change starts at bit `3 * k`. */
  predicate EveryThird(positions: seq<nat>)
  {
    forall k :: 0 <= k < |positions| ==> positions[k] == 3 * k
  }

  /** Three bits per recorded change, each change starting where the previous one ended. */
  predicate WellTracked(bits: seq<bool>, positions: seq<nat>)
  {
    |bits| == 3 * |positions| && EveryThird(positions)
  }

  /** `change_positions.iter().rev().find(|pos| pos <= position).unwrap_or(0)`. */
  function LastChangeAtOrBefore(positions: seq<nat>, position: nat): (r: nat)
    ensures r == 0 || (r in positions && r <= position)
    decreases |positions|
  {
    if positions == [] then 0
    else if positions[|positions| - 1] <= position then positions[|positions| - 1]
    else LastChangeAtOrBefore(positions[..|positions| - 1], position)
  }

  /** `get_block_size_at(position)` on a tracker's two fields. */
  function SizeAt(bits: seq<bool>, positions: seq<nat>, position: nat): BlockSize
  {
    var c := LastChangeAtOrBefore(positions, position);
    if c + 3 <= |bits| then DecodeBits(bits[c], bits[c + 1], bits[c + 2]) else Standard
  }

  /** On a well-tracked list, the change in force at bit `p` starts at `p` rounded down to a multiple of 3. */
  lemma {:induction false} LastChangeOfThirds(positions: seq<nat>, p: nat)
    requires EveryThird(positions) && p < 3 * |positions|
    ensures LastChangeAtOrBefore(positions, p) == 3 * (p / 3)
    decreases |positions|
  {
    var n := |positions|;
    if positions[n - 1] > p {
      LastChangeOfThirds(positions[..n - 1], p);
    }
  }

  /**
   * On a well-tracked tracker every bit position inside the k-th change
   * reports the size the k-th change encoded.
   */
  lemma SizeAtChange(bits: seq<bool>, positions: seq<nat>, k: nat, p: nat)
    requires WellTracked(bits, positions) && k < |positions| && 3 * k <= p < 3 * k + 3
    ensures SizeAt(bits, positions, p) == DecodeBits(bits[3 * k], bits[3 * k + 1], bits[3 * k + 2])
  {
    LastChangeOfThirds(positions, p);
    assert p / 3 == k;
  }

  /**
   * `encode_block_size` keeps a tracker well tracked, and the size at the
   * last bit afterwards is the size just encoded.
   */
  lemma LastEncodedWins(bits: seq<bool>, positions: seq<nat>, s: BlockSize)
    requires WellTracked(bits, positions)
    ensures WellTracked(bits + SizeBits(s), positions + [|bits|])
    ensures SizeAt(bits + SizeBits(s), positions + [|bits|], |bits| + 2) == s
  {
    var bits', positions' := bits + SizeBits(s), positions + [|bits|];
    assert EveryThird(positions');
    SizeAtChange(bits', positions', |positions|, |bits| + 2);
  }

  /** `BlockSizeTracker`. */
  class BlockSizeTracker {
    var sizeChanges: seq<bool>
    var changePositions: seq<nat>

    ghost predicate Valid()
      reads this
    {
      WellTracked(sizeChanges, changePositions)
    }

    /** `get_block_size_at(position)`. */
    function GetBlockSizeAt(position: nat): (r: BlockSize)
      reads this
      ensures r == SizeAt(sizeChanges, changePositions, position)
    {
      var c := LastChangeAtOrBefore(changePositions, position);
      if c + 3 <= |sizeChanges| then DecodeBits(sizeChanges[c], sizeChanges[c + 1], sizeChanges[c + 2])
      else Standard
    }

    /** The size at the last bit, `get_block_size_at(len.saturating_sub(1))`. */
    function CurrentSize(): BlockSize
      reads this
    {
      GetBlockSizeAt(if |sizeChanges| > 0 then |sizeChanges| - 1 else 0)
    }

    /** `BlockSizeTracker::new(initial_size)`: one change, the initial size, at bit 0. */
    constructor (initialSize: BlockSize)
      ensures Valid()
      ensures sizeChanges == SizeBits(initialSize) && changePositions == [0]
      ensures CurrentSize() == initialSize
    {
      sizeChanges := [];
      changePositions := [];
      new;
      var _ := EncodeBlockSize(initialSize);
    }

    /**
     * `encode_block_size(size)`: append the size's three bits and record
     * where they start; that start is returned.
     */
    method EncodeBlockSize(size: BlockSize) returns (pos: nat)
      requires Valid()
      modifies this
      ensures Valid()
      ensures pos == |old(sizeChanges)|
      ensures sizeChanges == old(sizeChanges) + SizeBits(size)
      ensures changePositions == old(changePositions) + [pos]
      ensures CurrentSize() == size
    {
      LastEncodedWins(sizeChanges, changePositions, size);
      pos := |sizeChanges|;
      sizeChanges := sizeChanges + SizeBits(size);
      changePositions := changePositions + [pos];
    }

    /** `change_block_size(new_size)`. */
    method ChangeBlockSize(newSize: BlockSize)
      requires Valid()
      modifies this
      ensures Valid()
      ensures sizeChanges == old(sizeChanges) + SizeBits(newSize)
      ensures changePositions == old(changePositions) + [|old(sizeChanges)|]
      ensures CurrentSize() == newSize
    {
      var _ := EncodeBlockSize(newSize);
    }
  }

  /** A tracker's bit count is three times its change count. */
  lemma TrackerBitsPerChange(bits: seq<bool>, positions: seq<nat>)
    requires WellTracked(bits, positions)
    ensures |bits| == 3 * |positions|
    ensures forall k :: 0 <= k < |positions| ==> positions[k] + 3 <= |bits|
  {
  }

  // Blocks, placement and the file table.

  /** `VariableBlockId`. */
  datatype BlockId = BlockId(fileHash: nat, blockIndex: nat, blockSize: BlockSize)

  /** One consensus group's block store. */
  type Group = map<BlockId, CompressedBlock>

  /** The three groups: SSD, HDD and cloud. */
  const GroupCount: nat := 3

  /** `FileMetadata` without its two clock readings. */
  datatype FileMetadata = FileMetadata(name: string, size: nat, blocks: seq<BlockId>,
                                       blocksizeTrack: seq<bool>, currentBlockSize: BlockSize)

  /** Why a read failed. */
  datatype StorageError = FileNotFound | BlockNotFound(fileHash: nat, blockIndex: nat)

  /** `place_block`: small blocks on the SSD group, 4 KiB blocks by the parity of the file hash, large ones in the cloud. */
  function PlaceBlock(id: BlockId): (g: nat)
    ensures g < GroupCount
  {
    match id.blockSize
    case Tiny => 0
    case Small => 0
    case Standard => id.fileHash % 2
    case Large => 2
    case Huge => 2
  }

  /** Placement by block length: up to 1 KiB on group 0, from 16 KiB on group 2, 4 KiB blocks never in the cloud. */
  lemma PlacementBySize(id: BlockId)
    ensures SizeBytes(id.blockSize) <= 1024 ==> PlaceBlock(id) == 0
    ensures SizeBytes(id.blockSize) >= 16384 ==> PlaceBlock(id) == 2
    ensures SizeBytes(id.blockSize) == 4096 ==> PlaceBlock(id) < 2 && PlaceBlock(id) == id.fileHash % 2
  {
  }

  function ByteSum(b: seq<Byte>): nat
    decreases |b|
  {
    if b == [] then 0 else b[0] + ByteSum(b[1..])
  }

  lemma {:induction false} ByteSumAppend(a: seq<Byte>, b: seq<Byte>)
    ensures ByteSum(a + b) == ByteSum(a) + ByteSum(b)
    decreases |a|
  {
    if a == [] {
      assert a + b == b;
    } else {
      assert (a + b)[1..] == a[1..] + b;
      ByteSumAppend(a[1..], b);
    }
  }

  /** `hash_filename`: the sum of the name's UTF-8 bytes. */
  function HashFilename(name: string): nat
  {
    ByteSum(Utf8.Encode(name))
  }

  /**
   * The hash of a name is the sum of the hashes of its parts, so two names
   * made of the same parts in another order hash alike, and their blocks of
   * one size share ids.
   */
  lemma HashOfParts(a: string, b: string)
    ensures HashFilename(a + b) == HashFilename(a) + HashFilename(b)
    ensures HashFilename(a + b) == HashFilename(b + a)
  {
    Utf8.EncodeAppend(a, b);
    Utf8.EncodeAppend(b, a);
    ByteSumAppend(Utf8.Encode(a), Utf8.Encode(b));
    ByteSumAppend(Utf8.Encode(b), Utf8.Encode(a));
  }

  /** The ids `write` gives a file's blocks, in order. */
  function BlockIds(hash: nat, size: BlockSize, n: nat): (r: seq<BlockId>)
    ensures |r| == n
  {
    seq(n, i requires 0 <= i < n => BlockId(hash, i, size))
  }

  predicate Distinct(ids: seq<BlockId>)
  {
    forall a, b :: 0 <= a < b < |ids| ==> ids[a] != ids[b]
  }

  /** Store one block on the group that `place_block` picks for it. */
  function Put(groups: seq<Group>, id: BlockId, block: CompressedBlock): (r: seq<Group>)
    requires |groups| == GroupCount
    ensures |r| == GroupCount
  {
    groups[PlaceBlock(id) := groups[PlaceBlock(id)][id := block]]
  }

  /** The groups after compressing and storing each block in turn. */
  function Stored(groups: seq<Group>, ids: seq<BlockId>, blocks: seq<seq<Byte>>): (r: seq<Group>)
    requires |groups| == GroupCount && |ids| == |blocks|
    ensures |r| == GroupCount
    decreases |ids|
  {
    if ids == [] then groups
    else Put(Stored(groups, ids[..|ids| - 1], blocks[..|blocks| - 1]), ids[|ids| - 1], Compressed(blocks[|blocks| - 1]))
  }

  lemma StoredSnoc(groups: seq<Group>, ids: seq<BlockId>, blocks: seq<seq<Byte>>, id: BlockId, b: seq<Byte>)
    requires |groups| == GroupCount && |ids| == |blocks|
    ensures Stored(groups, ids + [id], blocks + [b]) == Put(Stored(groups, ids, blocks), id, Compressed(b))
  {
    assert (ids + [id])[..|ids|] == ids;
    assert (blocks + [b])[..|blocks|] == blocks;
  }

  /** `read_block` on the group that `place_block` picks: the decompressed block, if stored. */
  function ReadBlock(groups: seq<Group>, id: BlockId): Option<seq<Byte>>
    requires |groups| == GroupCount
  {
    if id in groups[PlaceBlock(id)] then Some(Decompressed(groups[PlaceBlock(id)][id])) else None
  }

  /** The read loop: the blocks in order, or the first one that is missing. */
  function Collect(groups: seq<Group>, ids: seq<BlockId>): Result<seq<Byte>, StorageError>
    requires |groups| == GroupCount
    decreases |ids|
  {
    if ids == [] then Ok([])
    else
      match Collect(groups, ids[..|ids| - 1])
      case Err(e) => Err(e)
      case Ok(acc) =>
        var id := ids[|ids| - 1];
        match ReadBlock(groups, id)
        case None => Err(BlockNotFound(id.fileHash, id.blockIndex))
        case Some(b) => Ok(acc + b)
  }

  /** `read(filename)` on a file table and the groups. */
  function ReadOutcome(files: map<string, FileMetadata>, groups: seq<Group>, name: string): Result<seq<Byte>, StorageError>
    requires |groups| == GroupCount
  {
    if name !in files then Err(FileNotFound) else Collect(groups, files[name].blocks)
  }

  /** The ids of the blocks of `len` bytes of a file with hash `hash`, cut at `size`. */
  function FileIds(hash: nat, size: BlockSize, len: nat): seq<BlockId>
  {
    BlockIds(hash, size, BlocksNeeded(len, SizeBytes(size)))
  }

  /** The groups after storing the blocks of `data`, cut at `size`, of a file with hash `hash`. */
  function StoredFile(groups: seq<Group>, hash: nat, size: BlockSize, data: seq<Byte>): (r: seq<Group>)
    requires |groups| == GroupCount
  {
    SplitCount(data, SizeBytes(size));
    Stored(groups, FileIds(hash, size, |data|), Split(data, SizeBytes(size)))
  }

  /** A block stored under an id no later block reuses is still there. */
  lemma {:induction false} StoredHolds(groups: seq<Group>, ids: seq<BlockId>, blocks: seq<seq<Byte>>, j: nat)
    requires |groups| == GroupCount && |ids| == |blocks| && j < |ids| && Distinct(ids)
    ensures ReadBlock(Stored(groups, ids, blocks), ids[j]) == Some(Decompressed(Compressed(blocks[j])))
    decreases |ids|
  {
    var n := |ids|;
    if j < n - 1 {
      StoredHolds(groups, ids[..n - 1], blocks[..n - 1], j);
    }
  }

  /** Storing blocks leaves every other id's lookup as it was. */
  lemma {:induction false} StoredLeavesOthers(groups: seq<Group>, ids: seq<BlockId>, blocks: seq<seq<Byte>>, x: BlockId)
    requires |groups| == GroupCount && |ids| == |blocks| && x !in ids
    ensures ReadBlock(Stored(groups, ids, blocks), x) == ReadBlock(groups, x)
    decreases |ids|
  {
    var n := |ids|;
    if n > 0 {
      StoredLeavesOthers(groups, ids[..n - 1], blocks[..n - 1], x);
    }
  }

  /** Reading the first `k` ids back collects the first `k` blocks. */
  lemma {:induction false} CollectStored(groups: seq<Group>, ids: seq<BlockId>, blocks: seq<seq<Byte>>, k: nat)
    requires |groups| == GroupCount && |ids| == |blocks| && k <= |ids| && Distinct(ids)
    ensures Collect(Stored(groups, ids, blocks), ids[..k]) == Ok(Flatten(blocks[..k]))
    decreases k
  {
    var s := Stored(groups, ids, blocks);
    if k == 0 {
      assert ids[..0] == [];
      assert blocks[..0] == [];
    } else {
      CollectStored(groups, ids, blocks, k - 1);
      assert ids[..k][..k - 1] == ids[..k - 1];
      StoredHolds(groups, ids, blocks, k - 1);
      BlockRoundTrip(blocks[k - 1]);
      FlattenSnoc(blocks, k - 1);
    }
  }

  /** Once the read loop has failed, reading further ids keeps that first failure. */
  lemma {:induction false} CollectErrPrefix(groups: seq<Group>, ids: seq<BlockId>, k: nat)
    requires |groups| == GroupCount && k <= |ids| && Collect(groups, ids[..k]).Err?
    ensures Collect(groups, ids) == Collect(groups, ids[..k])
    decreases |ids| - k
  {
    if k < |ids| {
      assert ids[..k + 1][..k] == ids[..k];
      CollectErrPrefix(groups, ids, k + 1);
    } else {
      assert ids[..k] == ids;
    }
  }

  /** Two stores that answer alike for every listed id collect alike. */
  lemma {:induction false} CollectAlike(g1: seq<Group>, g2: seq<Group>, ids: seq<BlockId>)
    requires |g1| == GroupCount && |g2| == GroupCount
    requires forall j :: 0 <= j < |ids| ==> ReadBlock(g1, ids[j]) == ReadBlock(g2, ids[j])
    ensures Collect(g1, ids) == Collect(g2, ids)
    decreases |ids|
  {
    if ids != [] {
      CollectAlike(g1, g2, ids[..|ids| - 1]);
    }
  }

  /** The read loop fails exactly when some listed block is missing. */
  lemma {:induction false} CollectFails(groups: seq<Group>, ids: seq<BlockId>)
    requires |groups| == GroupCount
    ensures Collect(groups, ids).Err? <==> exists j :: 0 <= j < |ids| && ReadBlock(groups, ids[j]).None?
    decreases |ids|
  {
    if ids != [] {
      var n := |ids|;
      CollectFails(groups, ids[..n - 1]);
      if Collect(groups, ids[..n - 1]).Err? {
        var j :| 0 <= j < n - 1 && ReadBlock(groups, ids[..n - 1][j]).None?;
        assert ReadBlock(groups, ids[j]).None?;
      }
      if exists j :: 0 <= j < n && ReadBlock(groups, ids[j]).None? {
        var j :| 0 <= j < n && ReadBlock(groups, ids[j]).None?;
        if j < n - 1 {
          assert ReadBlock(groups, ids[..n - 1][j]).None?;
        }
      }
    }
  }

  /**
   * Writing a file and reading it back gives its data: its blocks are the
   * `(len + bs - 1) / bs` pieces of the data, stored under distinct ids.
   */
  lemma WriteThenRead(files: map<string, FileMetadata>, groups: seq<Group>, name: string, data: seq<Byte>,
                      size: BlockSize, track: seq<bool>)
    requires |groups| == GroupCount
    ensures var ids := FileIds(HashFilename(name), size, |data|);
            ReadOutcome(files[name := FileMetadata(name, |data|, ids, track, size)],
                        StoredFile(groups, HashFilename(name), size, data), name) == Ok(data)
  {
    var bs := SizeBytes(size);
    var ids := FileIds(HashFilename(name), size, |data|);
    var blocks := Split(data, bs);
    SplitCount(data, bs);
    CollectStored(groups, ids, blocks, |ids|);
    assert ids[..|ids|] == ids;
    assert blocks[..|ids|] == blocks;
    FlattenSplit(data, bs);
  }

  /**
   * Writing a file whose ids another file does not use leaves what that
   * other file reads. Ids carry the file hash, so this holds whenever the
   * two names hash differently, and can fail when they hash alike.
   */
  lemma WriteKeepsOtherFiles(groups: seq<Group>, ids: seq<BlockId>, blocks: seq<seq<Byte>>, others: seq<BlockId>)
    requires |groups| == GroupCount && |ids| == |blocks|
    requires forall j :: 0 <= j < |others| ==> others[j] !in ids
    ensures Collect(Stored(groups, ids, blocks), others) == Collect(groups, others)
  {
    forall j | 0 <= j < |others|
      ensures ReadBlock(Stored(groups, ids, blocks), others[j]) == ReadBlock(groups, others[j])
    {
      StoredLeavesOthers(groups, ids, blocks, others[j]);
    }
    CollectAlike(Stored(groups, ids, blocks), groups, others);
  }

  /**
   * Names that hash alike give blocks of one size the same ids: after `a`
   * is written and then `b`, with data of one length at one block size,
   * reading `a` returns the data of `b`.
   */
  lemma SameHashServesLaterData(files: map<string, FileMetadata>, groups: seq<Group>, a: string, b: string,
                                dataA: seq<Byte>, dataB: seq<Byte>, size: BlockSize, trackA: seq<bool>, trackB: seq<bool>)
    requires |groups| == GroupCount && HashFilename(a) == HashFilename(b) && |dataA| == |dataB|
    ensures var h := HashFilename(a);
            var ids := FileIds(h, size, |dataA|);
            var files2 := files[a := FileMetadata(a, |dataA|, ids, trackA, size)]
                               [b := FileMetadata(b, |dataB|, ids, trackB, size)];
            ReadOutcome(files2, StoredFile(StoredFile(groups, h, size, dataA), h, size, dataB), a) == Ok(dataB)
  {
    var h := HashFilename(a);
    var ids := FileIds(h, size, |dataA|);
    var files1 := files[a := FileMetadata(a, |dataA|, ids, trackA, size)];
    WriteThenRead(files1, StoredFile(groups, h, size, dataA), b, dataB, size, trackB);
  }

  /**
   * Swapping two parts of a name's stem keeps its hash and its extension,
   * so "ab.txt" and "ba.txt" hash alike, get the same block size, and the
   * second one written takes over the first one's blocks.
   */
  lemma SwappedStemsCollide(x: string, y: string, ext: string)
    requires '.' !in ext
    ensures HashFilename(x + y + ['.'] + ext) == HashFilename(y + x + ['.'] + ext)
    ensures Extension(x + y + ['.'] + ext) == Extension(y + x + ['.'] + ext) == ext
  {
    var rest := ['.'] + ext;
    assert x + y + ['.'] + ext == (x + y) + rest;
    assert y + x + ['.'] + ext == (y + x) + rest;
    SwapHash(x, y, rest);
    ExtensionAfterLastDot(x + y, ext);
    ExtensionAfterLastDot(y + x, ext);
  }

  lemma SwapHash(x: string, y: string, z: string)
    ensures HashFilename((x + y) + z) == HashFilename((y + x) + z)
  {
    HashOfParts(x, y);
    HashOfParts(x + y, z);
    HashOfParts(y + x, z);
  }

  /** `VariableBlockStorage`. */
  class VariableBlockStorage {
    var groups: seq<Group>
    var files: map<string, FileMetadata>
    const tracker: BlockSizeTracker
    /** The integer counters of `StorageStats`. */
    var readCount: nat
    var writeCount: nat
    var blockSizeChanges: nat

    ghost predicate Valid()
      reads this, tracker
    {
      |groups| == GroupCount && tracker.Valid()
    }

    /** `VariableBlockStorage::new()`: three empty groups and a tracker starting at 4 KiB. */
    constructor ()
      ensures Valid() && fresh(tracker)
      ensures groups == [map[], map[], map[]] && files == map[]
      ensures tracker.sizeChanges == SizeBits(Standard) && tracker.changePositions == [0]
      ensures readCount == 0 && writeCount == 0 && blockSizeChanges == 0
    {
      groups := [map[], map[], map[]];
      files := map[];
      tracker := new BlockSizeTracker(Standard);
      readCount, writeCount, blockSizeChanges := 0, 0, 0;
    }

    /**
     * `write(filename, data)`, with the answer of `has_sparse_pattern(data)`
     * as `sparse`: the tracker records the chosen size when it differs
     * from the last one; block `i` holds bytes `[i * bs, min((i + 1) * bs, len))`
     * and is stored compressed on its group; the file is then listed with
     * its blocks and the tracker's bits.
     */
    method Write(filename: string, data: seq<Byte>, sparse: bool)
      requires Valid()
      modifies this, tracker
      ensures Valid()
      ensures WriteEffect(filename, data, FromDataPattern(|data|, Extension(filename), sparse), old(groups), old(files))
      ensures TrackerEffect(FromDataPattern(|data|, Extension(filename), sparse),
                            old(tracker.sizeChanges), old(tracker.changePositions), old(blockSizeChanges))
      ensures writeCount == old(writeCount) + 1 && readCount == old(readCount)
    {
      var size := FromDataPattern(|data|, Extension(filename), sparse);
      WriteSized(filename, data, size);
    }

    /**
     * The new state after a write of `data` at a chosen `size`: the blocks
     * are stored and the file is listed with its ids and the tracker's bits.
     */
    ghost predicate WriteEffect(filename: string, data: seq<Byte>, size: BlockSize,
                                groups0: seq<Group>, files0: map<string, FileMetadata>)
      requires |groups0| == GroupCount
      reads this, tracker
    {
      groups == StoredFile(groups0, HashFilename(filename), size, data) &&
      files == files0[filename := FileMetadata(filename, |data|, FileIds(HashFilename(filename), size, |data|),
                                               tracker.sizeChanges, size)]
    }

    /** The tracker after `size` was chosen: it records `size` unless that was already the last size. */
    ghost predicate TrackerEffect(size: BlockSize, bits0: seq<bool>, positions0: seq<nat>, changes0: nat)
      reads this, tracker
    {
      tracker.CurrentSize() == size &&
      (SizeAt(bits0, positions0, if |bits0| > 0 then |bits0| - 1 else 0) == size ==>
         tracker.sizeChanges == bits0 && tracker.changePositions == positions0 && blockSizeChanges == changes0) &&
      (SizeAt(bits0, positions0, if |bits0| > 0 then |bits0| - 1 else 0) != size ==>
         tracker.sizeChanges == bits0 + SizeBits(size) && tracker.changePositions == positions0 + [|bits0|] &&
         blockSizeChanges == changes0 + 1)
    }

    /** `write` once the block size is chosen. */
    method WriteSized(filename: string, data: seq<Byte>, size: BlockSize)
      requires Valid()
      modifies this, tracker
      ensures Valid()
      ensures WriteEffect(filename, data, size, old(groups), old(files))
      ensures TrackerEffect(size, old(tracker.sizeChanges), old(tracker.changePositions), old(blockSizeChanges))
      ensures writeCount == old(writeCount) + 1 && readCount == old(readCount)
    {
      RecordSize(size);
      var blockIds := WriteBlocks(HashFilename(filename), size, data);
      files := files[filename := FileMetadata(filename, |data|, blockIds, tracker.sizeChanges, size)];
      writeCount := writeCount + 1;
    }

    /** The tracker step of `write`: change the block size when the chosen one differs from the last. */
    method RecordSize(size: BlockSize)
      requires Valid()
      modifies this, tracker
      ensures Valid()
      ensures TrackerEffect(size, old(tracker.sizeChanges), old(tracker.changePositions), old(blockSizeChanges))
      ensures groups == old(groups) && files == old(files)
      ensures writeCount == old(writeCount) && readCount == old(readCount)
    {
      var current := tracker.GetBlockSizeAt(if |tracker.sizeChanges| > 0 then |tracker.sizeChanges| - 1 else 0);
      if current != size {
        tracker.ChangeBlockSize(size);
        blockSizeChanges := blockSizeChanges + 1;
      }
    }

    /**
     * The block loop of `write`: block `i` holds bytes
     * `[i * bs, min((i + 1) * bs, len))` and is stored compressed on its group
     * under id `(hash, i, size)`; the ids are returned in order.
     */
    method WriteBlocks(fileHash: nat, size: BlockSize, data: seq<Byte>) returns (blockIds: seq<BlockId>)
      requires |groups| == GroupCount
      modifies this
      ensures blockIds == FileIds(fileHash, size, |data|)
      ensures groups == StoredFile(old(groups), fileHash, size, data)
      ensures files == old(files) && readCount == old(readCount) && writeCount == old(writeCount)
      ensures blockSizeChanges == old(blockSizeChanges)
    {
      var bs := SizeBytes(size);
      var blocksNeeded := (|data| + bs - 1) / bs;
      ghost var blocks := Split(data, bs);
      SplitCount(data, bs);
      blockIds := [];
      var i := 0;
      while i < blocksNeeded
        invariant 0 <= i <= blocksNeeded && |groups| == GroupCount
        invariant |blockIds| == i && forall j :: 0 <= j < i ==> blockIds[j] == BlockId(fileHash, j, size)
        invariant groups == Stored(old(groups), blockIds, blocks[..i])
        invariant files == old(files) && readCount == old(readCount) && writeCount == old(writeCount)
        invariant blockSizeChanges == old(blockSizeChanges)
      {
        BlockAt(data, bs, i);
        var start := i * bs;
        var end := Min((i + 1) * bs, |data|);
        var id := BlockId(fileHash, i, size);
        var cg := PlaceBlock(id);
        var block := NewCompressedBlock(data[start..end]);
        StoredSnoc(old(groups), blockIds, blocks[..i], id, blocks[i]);
        assert blocks[..i + 1] == blocks[..i] + [blocks[i]];
        groups := groups[cg := groups[cg][id := block]];
        blockIds := blockIds + [id];
        i := i + 1;
      }
      assert blocks[..i] == blocks;
      assert blockIds == FileIds(fileHash, size, |data|);
    }

    /**
     * `read(filename)`: "File not found" for a name never written, else the
     * file's blocks read from their groups and concatenated, failing at the
     * first one that is missing.
     */
    method Read(filename: string) returns (r: Result<seq<Byte>, StorageError>)
      requires Valid()
      modifies this
      ensures Valid()
      ensures r == ReadOutcome(files, groups, filename)
      ensures groups == old(groups) && files == old(files) && writeCount == old(writeCount)
      ensures blockSizeChanges == old(blockSizeChanges)
      ensures readCount == if r.Ok? then old(readCount) + 1 else old(readCount)
    {
      if filename !in files {
        return Err(FileNotFound);
      }
      var blocks := files[filename].blocks;
      var resultData: seq<Byte> := [];
      var i := 0;
      while i < |blocks|
        invariant 0 <= i <= |blocks| && unchanged(this)
        invariant Collect(groups, blocks[..i]) == Ok(resultData)
      {
        assert blocks[..i + 1][..i] == blocks[..i];
        var id := blocks[i];
        var cg := PlaceBlock(id);
        if id in groups[cg] {
          var blockData := Decompress(groups[cg][id]);
          resultData := resultData + blockData;
        } else {
          CollectErrPrefix(groups, blocks, i + 1);
          return Err(BlockNotFound(id.fileHash, id.blockIndex));
        }
        i := i + 1;
      }
      assert blocks[..i] == blocks;
      readCount := readCount + 1;
      r := Ok(resultData);
    }
  }
}
