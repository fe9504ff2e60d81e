/**
 * The chunked file object of src/objects/file.rs. A file's bytes live in the
 * numbered chunks of a chunks document; the file's metadata records how many
 * chunks there are and the size each chunk is meant to have, and the
 * `Chunks` handle keeps a second, in-memory chunk count of its own.
 *
 * A document is a map from chunk number to bytes (its `.type` entry is not
 * modelled) and reading or writing it does not fail. Where the source
 * panics (a slice bound out of range, a division by a zero chunk size) the
 * model returns the error `Panicked`.
 */
module ObjectsFile {
  import opened Wrappers
  import opened Bytes

  /** `ObjectAttributes`: the file variant, or any other. */
  datatype ObjectAttributes = FileAttributes(chunks: nat, chunkSize: nat) | OtherAttributes

  /** The errors of `LisFile` and `Chunks`. */
  datatype FileError =
    | IncorrectAttributes
    | MissingChunk(id: nat)
    | InvalidOffset
    | OffsetPastEnd
    | ChunkOffsetTooLarge
    | Panicked

  type ChunkDoc = map<nat, seq<Byte>>

  function Min(a: int, b: int): int { if a < b then a else b }

  function Max(a: int, b: int): int { if a < b then b else a }

  /** A chunk's bytes, empty when the chunk is missing (`unwrap_or_default`). */
  function ChunkOf(doc: ChunkDoc, id: nat): seq<Byte>
  {
    if id in doc then doc[id] else []
  }

  /** The chunk `Chunks::write` builds: `bytes` laid over `prior` from position `off`. */
  function Spliced(prior: seq<Byte>, off: nat, bytes: seq<Byte>): (r: seq<Byte>)
    requires off <= |prior|
    ensures |r| == Max(|prior|, off + |bytes|)
  {
    prior[..off] + bytes + (if |prior| > off + |bytes| then prior[off + |bytes|..] else [])
  }

  /** `Chunks::write(id, off, bytes)` on the document. */
  function WriteChunk(doc: ChunkDoc, id: nat, off: nat, bytes: seq<Byte>): Result<ChunkDoc, FileError>
  {
    if off > |ChunkOf(doc, id)| then Err(ChunkOffsetTooLarge)
    else Ok(doc[id := Spliced(ChunkOf(doc, id), off, bytes)])
  }

  /**
   * `Chunks::write` refuses an offset past the end of the chunk, a missing
   * chunk counting as empty; otherwise only that chunk changes, to the
   * bytes laid over the old ones, and it never shrinks.
   */
  lemma WriteChunkEffect(doc: ChunkDoc, id: nat, off: nat, bytes: seq<Byte>, j: nat)
    ensures var r := WriteChunk(doc, id, off, bytes);
            (r.Err? <==> off > |ChunkOf(doc, id)|) &&
            (r.Err? ==> r.error == ChunkOffsetTooLarge) &&
            (r.Ok? ==> id in r.value && |r.value[id]| == Max(|ChunkOf(doc, id)|, off + |bytes|) &&
                       r.value[id][off..off + |bytes|] == bytes &&
                       r.value[id][..off] == ChunkOf(doc, id)[..off] &&
                       (|ChunkOf(doc, id)| > off + |bytes| ==> r.value[id][off + |bytes|..] == ChunkOf(doc, id)[off + |bytes|..]) &&
                       (j != id ==> ChunkOf(r.value, j) == ChunkOf(doc, j)))
  {
    var r := WriteChunk(doc, id, off, bytes);
    if r.Ok? {
      SplicedEffect(ChunkOf(doc, id), off, bytes);
    }
  }

  /** The three parts of a three-part concatenation, cut back out. */
  lemma ConcatParts(a: seq<Byte>, b: seq<Byte>, c: seq<Byte>)
    ensures (a + b + c)[..|a|] == a && (a + b + c)[|a|..|a| + |b|] == b && (a + b + c)[|a| + |b|..] == c
  {
    var s := a + b + c;
    assert forall k :: 0 <= k < |a| ==> s[..|a|][k] == a[k];
    assert forall k :: 0 <= k < |b| ==> s[|a|..|a| + |b|][k] == b[k];
    assert forall k :: 0 <= k < |c| ==> s[|a| + |b|..][k] == c[k];
  }

  /**
   * Laying `bytes` over `prior` from `off` keeps the bytes before `off`,
   * puts `bytes` at `off`, and keeps the old bytes past the end of `bytes`.
   */
  lemma SplicedEffect(prior: seq<Byte>, off: nat, bytes: seq<Byte>)
    requires off <= |prior|
    ensures var r := Spliced(prior, off, bytes);
            r[..off] == prior[..off] && r[off..off + |bytes|] == bytes &&
            (|prior| > off + |bytes| ==> r[off + |bytes|..] == prior[off + |bytes|..])
  {
    ConcatParts(prior[..off], bytes, if |prior| > off + |bytes| then prior[off + |bytes|..] else []);
  }

  /** Byte `k` of a spliced chunk: from `bytes` inside the laid-over range, else from `prior`. */
  lemma SplicedAt(prior: seq<Byte>, off: nat, bytes: seq<Byte>, k: nat)
    requires off <= |prior| && k < Max(|prior|, off + |bytes|)
    ensures Spliced(prior, off, bytes)[k] == if off <= k < off + |bytes| then bytes[k - off] else prior[k]
  {
  }

  /** Laying nothing over a chunk leaves it as it was. */
  lemma SplicedNothing(prior: seq<Byte>, off: nat)
    requires off <= |prior|
    ensures Spliced(prior, off, []) == prior
  {
    assert prior[..off] + prior[off..] == prior;
  }

  /**
   * Laying the next part `b[w..w']` of the data over the middle piece of
   * `p + prior + q`, which already holds `c0` with `b[..w]` laid over
   * from `off`, gives `c0` with `b[..w']` laid over from `off`. The part
   * starts where the earlier one ended and, unless `q` is empty, ends
   * within `prior`.
   */
  lemma OverlayStep(p: seq<Byte>, prior: seq<Byte>, q: seq<Byte>, c0: seq<Byte>, off: nat, b: seq<Byte>, w: nat, w': nat)
    requires off <= |c0| && w <= w' <= |b|
    requires |p| <= off + w <= |p| + |prior|
    requires |q| > 0 ==> off + w' <= |p| + |prior|
    requires p + prior + q == Spliced(c0, off, b[..w])
    ensures p + Spliced(prior, off + w - |p|, b[w..w']) + q == Spliced(c0, off, b[..w'])
  {
    var x := p + prior + q;
    var c := Spliced(prior, off + w - |p|, b[w..w']);
    var l, r := p + c + q, Spliced(c0, off, b[..w']);
    assert |l| == |r|;
    forall k | 0 <= k < |r|
      ensures l[k] == r[k]
    {
      SplicedAt(c0, off, b[..w'], k);
      if k < |p| {
        assert l[k] == x[k];
        SplicedAt(c0, off, b[..w], k);
      } else if k < |p| + |c| {
        SplicedAt(prior, off + w - |p|, b[w..w'], k - |p|);
        if k < off + w || k >= off + w' {
          assert l[k] == x[k];
          SplicedAt(c0, off, b[..w], k);
        }
      } else {
        assert l[k] == x[k];
        SplicedAt(c0, off, b[..w], k);
      }
    }
  }

  /** `LisFile::size`: every chunk before the last counts as full, then the last chunk's bytes. */
  function SizeOf(doc: ChunkDoc, attrs: ObjectAttributes): Result<nat, FileError>
  {
    match attrs
    case OtherAttributes => Err(IncorrectAttributes)
    case FileAttributes(n, cs) =>
      if n == 0 then Ok(0)
      else if n - 1 in doc then Ok((n - 1) * cs + |doc[n - 1]|)
      else Err(MissingChunk(n - 1))
  }

  /** Chunks `lo .. hi` end to end, or the first one missing. */
  function Gathered(doc: ChunkDoc, lo: nat, hi: nat): Result<seq<Byte>, FileError>
    decreases hi
  {
    if hi <= lo then Ok([])
    else
      match Gathered(doc, lo, hi - 1)
      case Err(e) => Err(e)
      case Ok(b) => if hi - 1 in doc then Ok(b + doc[hi - 1]) else Err(MissingChunk(hi - 1))
  }

  /** `LisFile::read(offset, size)`. */
  function ReadResult(doc: ChunkDoc, attrs: ObjectAttributes, offset: nat, size: nat): Result<seq<Byte>, FileError>
  {
    if size == 0 then Ok([])
    else
      match attrs
      case OtherAttributes => Err(IncorrectAttributes)
      case FileAttributes(n, cs) =>
        match SizeOf(doc, attrs)
        case Err(e) => Err(e)
        case Ok(s) =>
          if offset > s then Err(InvalidOffset)
          else if cs == 0 then Err(Panicked)
          else
            var start, end := ChunkIndex(offset, cs), ReadEnd(offset, size, n, cs);
            match Gathered(doc, start, end + 1)
            case Err(e) => Err(e)
            case Ok(b) =>
              var first := InChunk(offset, cs);
              if first + size > |b| then Err(Panicked) else Ok(b[first..first + size])
  }

  /** The last chunk `read` visits: the one holding the range's last byte, clamped to the last chunk. */
  function ReadEnd(offset: nat, size: nat, n: nat, cs: nat): nat
    requires size >= 1 && cs > 0
  {
    var e := ChunkIndex(offset + size - 1, cs);
    if e >= n then (if n == 0 then 0 else n - 1) else e
  }

  /**
   * A file whose document holds exactly the chunks `0 .. n`, each of `cs`
   * bytes but the last, which holds at most `cs`. A file in this shape is
   * what the size and read arithmetic assumes.
   */
  ghost predicate WellFormed(doc: ChunkDoc, n: nat, cs: nat)
  {
    cs > 0 &&
    (forall j: nat :: j in doc <==> j < n) &&
    (forall j :: 0 <= j < n - 1 ==> |doc[j]| == cs) &&
    (n > 0 ==> |doc[n - 1]| <= cs)
  }

  /** The whole contents of a file with `n` chunks. */
  function Contents(doc: ChunkDoc, n: nat): seq<Byte>
    requires forall j :: 0 <= j < n ==> j in doc
    decreases n
  {
    if n == 0 then [] else Contents(doc, n - 1) + doc[n - 1]
  }

  /** `a * c` grows with `a`. */
  lemma MulMono(a: nat, b: nat, c: nat)
    requires a <= b
    ensures c * a <= c * b
  {
    assert c * b == c * a + c * (b - a);
  }

  /** `c * (a + 1)` is `c * a + c`. */
  lemma MulSucc(a: nat, c: nat)
    ensures c * (a + 1) == c * a + c
  {
  }

  /**
   * The chunk holding byte `pos` of a file of `cs`-byte chunks, and the
   * byte's place in that chunk: `pos / cs` and `pos % cs`, counted out by
   * subtracting whole chunks (`ChunkIndexIsDivision` shows they agree).
   */
  function ChunkIndex(pos: nat, cs: nat): nat
    requires cs > 0
    decreases pos
  {
    if pos < cs then 0 else ChunkIndex(pos - cs, cs) + 1
  }

  /** The place of byte `pos` within its chunk. */
  function InChunk(pos: nat, cs: nat): nat
    requires cs > 0
    decreases pos
  {
    if pos < cs then pos else InChunk(pos - cs, cs)
  }

  /** Where `x` falls among the multiples of `c`. */
  lemma {:induction false} DivBounds(x: nat, c: nat)
    requires c > 0
    ensures c * ChunkIndex(x, c) <= x < c * (ChunkIndex(x, c) + 1)
    ensures x == c * ChunkIndex(x, c) + InChunk(x, c) && InChunk(x, c) < c
    decreases x
  {
    if x >= c {
      DivBounds(x - c, c);
      MulSucc(ChunkIndex(x - c, c), c);
      MulSucc(ChunkIndex(x - c, c) + 1, c);
    }
  }

  /** The chunk index and the place in the chunk are the quotient and the remainder. */
  lemma ChunkIndexIsDivision(x: nat, c: nat)
    requires c > 0
    ensures ChunkIndex(x, c) == x / c && InChunk(x, c) == x % c
  {
    DivBounds(x, c);
    QuotientUnique(x, c, ChunkIndex(x, c), InChunk(x, c), x / c, x % c);
  }

  /** Two ways of writing `x` as whole chunks of `c` plus less than a chunk are the same. */
  lemma QuotientUnique(x: nat, c: nat, q: nat, r: nat, q': nat, r': nat)
    requires c > 0 && r < c && r' < c && x == c * q + r && x == c * q' + r'
    ensures q == q' && r == r'
  {
    if q < q' {
      MulMono(q + 1, q', c);
      MulSucc(q, c);
    } else if q > q' {
      MulMono(q' + 1, q, c);
      MulSucc(q', c);
    }
  }

  /** The first `k` chunks of a well-formed file are full; all of them make up the file's size. */
  lemma {:induction false} ContentsLength(doc: ChunkDoc, n: nat, cs: nat, k: nat)
    requires WellFormed(doc, n, cs) && k <= n
    ensures k < n ==> |Contents(doc, k)| == cs * k
    ensures k == n && n > 0 ==> |Contents(doc, k)| == cs * (n - 1) + |doc[n - 1]|
    decreases k
  {
    if k > 0 {
      ContentsLength(doc, n, cs, k - 1);
      assert |Contents(doc, k)| == |Contents(doc, k - 1)| + |doc[k - 1]|;
      MulSucc(k - 1, cs);
    }
  }

  /** On a well-formed file `size` is the length of its contents. */
  lemma SizeIsLength(doc: ChunkDoc, n: nat, cs: nat)
    requires WellFormed(doc, n, cs)
    ensures SizeOf(doc, FileAttributes(n, cs)) == Ok(|Contents(doc, n)|)
  {
    ContentsLength(doc, n, cs, n);
  }

  /** Gathering chunks `lo .. hi` extends the contents up to `lo` to the contents up to `hi`. */
  lemma {:induction false} GatheredExtends(doc: ChunkDoc, lo: nat, hi: nat)
    requires lo <= hi && forall j :: 0 <= j < hi ==> j in doc
    ensures Gathered(doc, lo, hi).Ok?
    ensures Contents(doc, hi) == Contents(doc, lo) + Gathered(doc, lo, hi).value
    decreases hi
  {
    if hi > lo {
      GatheredExtends(doc, lo, hi - 1);
      var b := Gathered(doc, lo, hi - 1).value;
      assert Gathered(doc, lo, hi) == Ok(b + doc[hi - 1]);
      assert Contents(doc, hi) == Contents(doc, hi - 1) + doc[hi - 1];
      assert Contents(doc, lo) + (b + doc[hi - 1]) == (Contents(doc, lo) + b) + doc[hi - 1];
    }
  }

  /** A slice of `a + b` that lies inside `b`. */
  lemma SliceInSecond(a: seq<Byte>, b: seq<Byte>, i: nat, j: nat)
    requires i <= j <= |b|
    ensures (a + b)[|a| + i..|a| + j] == b[i..j]
  {
    assert forall k :: 0 <= k < j - i ==> (a + b)[|a| + i..|a| + j][k] == b[i..j][k];
  }

  /** A slice of `a + b` that lies inside `a`. */
  lemma SliceInFirst(a: seq<Byte>, b: seq<Byte>, i: nat, j: nat)
    requires i <= j <= |a|
    ensures (a + b)[i..j] == a[i..j]
  {
    assert forall k :: 0 <= k < j - i ==> (a + b)[i..j][k] == a[i..j][k];
  }

  /**
   * The chunks `read` visits for a range inside a file of `total` bytes in
   * `n` chunks: from the chunk of the first byte to that of the last, which
   * needs no clamping, and the last of them reaches the end of the range.
   */
  lemma ReadSpan(offset: nat, size: nat, n: nat, cs: nat, total: nat)
    requires cs > 0 && size >= 1 && offset + size <= total <= cs * n
    ensures var start, e := ChunkIndex(offset, cs), ChunkIndex(offset + size - 1, cs);
            start <= e < n && ReadEnd(offset, size, n, cs) == e &&
            cs * start + InChunk(offset, cs) == offset && cs * (e + 1) >= offset + size
  {
    var start, e := ChunkIndex(offset, cs), ChunkIndex(offset + size - 1, cs);
    DivBounds(offset, cs);
    DivBounds(offset + size - 1, cs);
    if e >= n {
      MulMono(n, e, cs);
    }
    if start > e {
      MulMono(e + 1, start, cs);
    }
  }

  /** `read` once its checks have passed and the chunks are gathered into `g`. */
  lemma ReadUnfold(doc: ChunkDoc, n: nat, cs: nat, offset: nat, size: nat, g: seq<Byte>)
    requires cs > 0 && size >= 1
    requires SizeOf(doc, FileAttributes(n, cs)).Ok? && offset <= SizeOf(doc, FileAttributes(n, cs)).value
    requires Gathered(doc, ChunkIndex(offset, cs), ReadEnd(offset, size, n, cs) + 1) == Ok(g)
    ensures ReadResult(doc, FileAttributes(n, cs), offset, size) ==
            if InChunk(offset, cs) + size > |g| then Err(Panicked) else Ok(g[InChunk(offset, cs)..InChunk(offset, cs) + size])
  {
  }

  /**
   * `read` on a well-formed file returns exactly the requested range of its
   * contents when the range lies inside the file.
   */
  lemma ReadInside(doc: ChunkDoc, n: nat, cs: nat, offset: nat, size: nat)
    requires WellFormed(doc, n, cs) && size >= 1 && offset + size <= |Contents(doc, n)|
    ensures ReadResult(doc, FileAttributes(n, cs), offset, size) == Ok(Contents(doc, n)[offset..offset + size])
  {
    var c := Contents(doc, n);
    SizeIsLength(doc, n, cs);
    ContentsLength(doc, n, cs, n);
    assert n > 0;
    MulSucc(n - 1, cs);
    ReadSpan(offset, size, n, cs, |c|);
    var start, e := ChunkIndex(offset, cs), ChunkIndex(offset + size - 1, cs);
    GatheredExtends(doc, start, e + 1);
    GatheredExtends(doc, e + 1, n);
    var front, g, upTo := Contents(doc, start), Gathered(doc, start, e + 1).value, Contents(doc, e + 1);
    ContentsLength(doc, n, cs, start);
    ContentsLength(doc, n, cs, e + 1);
    assert |upTo| >= offset + size;
    var first := InChunk(offset, cs);
    ReadUnfold(doc, n, cs, offset, size, g);
    SliceInSecond(front, g, first, first + size);
    SliceInFirst(upTo, Gathered(doc, e + 1, n).value, offset, offset + size);
  }

  /**
   * A range that starts inside a well-formed file but runs past its end is
   * an error (the source's slice panics), and a range that starts past the
   * end is `InvalidOffset`.
   */
  lemma ReadOutside(doc: ChunkDoc, n: nat, cs: nat, offset: nat, size: nat)
    requires WellFormed(doc, n, cs) && size >= 1 && offset + size > |Contents(doc, n)|
    ensures ReadResult(doc, FileAttributes(n, cs), offset, size).Err?
    ensures offset > |Contents(doc, n)| ==> ReadResult(doc, FileAttributes(n, cs), offset, size) == Err(InvalidOffset)
  {
    var c := Contents(doc, n);
    SizeIsLength(doc, n, cs);
    if offset <= |c| && n == 0 {
      assert Gathered(doc, 0, 1) == Err(MissingChunk(0));
    } else if offset <= |c| {
      var start, end := ChunkIndex(offset, cs), ReadEnd(offset, size, n, cs);
      DivBounds(offset, cs);
      if start <= end {
        GatheredExtends(doc, start, end + 1);
        GatheredExtends(doc, end + 1, n);
        ContentsLength(doc, n, cs, start);
        var g := Gathered(doc, start, end + 1).value;
        assert |Contents(doc, start)| == cs * start;
        assert |Contents(doc, end + 1)| == cs * start + |g|;
        assert |c| >= cs * start + |g|;
        ReadUnfold(doc, n, cs, offset, size, g);
      } else {
        ReadUnfold(doc, n, cs, offset, size, []);
      }
    }
  }

  /** `read_all`: the whole file, from offset 0 for its size in bytes. */
  function ReadAll(doc: ChunkDoc, attrs: ObjectAttributes): Result<seq<Byte>, FileError>
  {
    match SizeOf(doc, attrs)
    case Err(e) => Err(e)
    case Ok(s) => ReadResult(doc, attrs, 0, s)
  }

  /** `read_all` on a well-formed file is its contents. */
  lemma ReadAllContents(doc: ChunkDoc, n: nat, cs: nat)
    requires WellFormed(doc, n, cs)
    ensures ReadAll(doc, FileAttributes(n, cs)) == Ok(Contents(doc, n))
  {
    SizeIsLength(doc, n, cs);
    var c := Contents(doc, n);
    if |c| > 0 {
      ReadInside(doc, n, cs, 0, |c|);
      assert c[0..|c|] == c;
    }
  }

  /** `read` stops at the first missing chunk and reports it. */
  lemma {:induction false} GatheredMissing(doc: ChunkDoc, lo: nat, id: nat, hi: nat)
    requires lo <= id < hi && Gathered(doc, lo, id).Ok? && id !in doc
    ensures Gathered(doc, lo, hi) == Err(MissingChunk(id))
    decreases hi
  {
    if hi - 1 > id {
      GatheredMissing(doc, lo, id, hi - 1);
    }
  }

  /** The document's state that `LisFile` sees: the chunks, the handle's count, the metadata. */
  datatype FileState = FileState(doc: ChunkDoc, size: nat, attrs: ObjectAttributes)

  /**
   * How the write loop cuts the data for chunk `i`. `AsWritten` is the
   * source's cut: data positions `cs * i .. min(cs * (i + 1), len)`, written
   * at `offset` into the first chunk and at 0 into the others, which
   * indexes the data as if it started at the beginning of the file.
   * `Intended` cuts the part of the data that falls in chunk `i` and writes
   * it at its own position within the chunk.
   */
  datatype Slicing = AsWritten | Intended

  /** The cut for chunk `i`: the data range `from .. to` and the offset within the chunk. */
  function Cut(slicing: Slicing, cs: nat, offset: nat, len: nat, start: nat, i: nat): (int, int, int)
  {
    match slicing
    case AsWritten => (cs * i, Min(cs * (i + 1), len), if i == start then offset else 0)
    case Intended => (Max(offset, cs * i) - offset, Min(offset + len, cs * (i + 1)) - offset, Max(offset, cs * i) - cs * i)
  }

  /**
   * One pass of `LisFile::write`'s loop, at chunk `i`: the cut (a panic when
   * its range is reversed), a new chunk counted on both counters when `i`
   * is at or past the handle's count, then the chunk write.
   */
  function Step(st: FileState, offset: nat, bytes: seq<Byte>, start: nat, i: nat, slicing: Slicing): (Result<(), FileError>, FileState)
    requires st.attrs.FileAttributes?
  {
    var (from, to, chunkOffset) := Cut(slicing, st.attrs.chunkSize, offset, |bytes|, start, i);
    if !(0 <= from <= to <= |bytes|) || chunkOffset < 0 then (Err(Panicked), st)
    else
      var st1 := if i >= st.size then st.(size := st.size + 1, attrs := st.attrs.(chunks := st.attrs.chunks + 1)) else st;
      match WriteChunk(st1.doc, i, chunkOffset, bytes[from..to])
      case Err(e) => (Err(e), st1)
      case Ok(d) => (Ok(()), st1.(doc := d))
  }

  /** The loop's passes over chunks `start .. stop`, stopping at the first error. */
  function Steps(st: FileState, offset: nat, bytes: seq<Byte>, start: nat, stop: nat, slicing: Slicing): (out: (Result<(), FileError>, FileState))
    requires st.attrs.FileAttributes?
    ensures out.1.attrs.FileAttributes? && out.1.attrs.chunkSize == st.attrs.chunkSize
    decreases stop
  {
    if stop <= start then (Ok(()), st)
    else
      var (r, s) := Steps(st, offset, bytes, start, stop - 1, slicing);
      if r.Err? then (r, s) else Step(s, offset, bytes, start, stop - 1, slicing)
  }

  /** Once a pass fails, the later passes do not run. */
  lemma {:induction false} StepsStopAtError(st: FileState, offset: nat, bytes: seq<Byte>, start: nat, k: nat, stop: nat, slicing: Slicing)
    requires st.attrs.FileAttributes? && k <= stop && Steps(st, offset, bytes, start, k, slicing).0.Err?
    ensures Steps(st, offset, bytes, start, stop, slicing) == Steps(st, offset, bytes, start, k, slicing)
    decreases stop
  {
    if stop > k {
      StepsStopAtError(st, offset, bytes, start, k, stop - 1, slicing);
    }
  }

  /** `LisFile::write(offset, bytes)` with the given cut: its result and the new state. */
  function WriteOutcome(st: FileState, offset: nat, bytes: seq<Byte>, slicing: Slicing): (Result<nat, FileError>, FileState)
  {
    if |bytes| == 0 then (Ok(0), st)
    else
      match SizeOf(st.doc, st.attrs)
      case Err(e) => (Err(e), st)
      case Ok(s) =>
        if offset > s then (Err(InvalidOffset), st)
        else
          var cs := st.attrs.chunkSize;
          if cs == 0 then (Err(Panicked), st)
          else if ChunkIndex(offset, cs) > st.size then (Err(OffsetPastEnd), st)
          else
            var (r, st') := Steps(st, offset, bytes, ChunkIndex(offset, cs), ChunkIndex(offset + |bytes| - 1, cs) + 1, slicing);
            if r.Err? then (Err(r.error), st') else (Ok(|bytes|), st')
  }

  /** `write` once its checks have passed: the loop's outcome, with the data's length on success. */
  lemma WriteOutcomeLoop(st: FileState, offset: nat, bytes: seq<Byte>, slicing: Slicing, s: nat)
    requires |bytes| > 0 && SizeOf(st.doc, st.attrs) == Ok(s) && offset <= s
    requires st.attrs.chunkSize > 0 && ChunkIndex(offset, st.attrs.chunkSize) <= st.size
    ensures var cs := st.attrs.chunkSize;
            var out := Steps(st, offset, bytes, ChunkIndex(offset, cs), ChunkIndex(offset + |bytes| - 1, cs) + 1, slicing);
            WriteOutcome(st, offset, bytes, slicing) == (if out.0.Err? then Err(out.0.error) else Ok(|bytes|), out.1)
  {
  }

  /**
   * The early exits of `write`: empty data writes nothing and returns 0; an
   * offset past the file size, or whose chunk is past the handle's count,
   * is refused without any change; a write that succeeds returns the
   * length of the data.
   */
  lemma WriteResult(st: FileState, offset: nat, bytes: seq<Byte>, slicing: Slicing)
    ensures var (r, st') := WriteOutcome(st, offset, bytes, slicing);
            (|bytes| == 0 ==> r == Ok(0) && st' == st) &&
            (st.attrs.OtherAttributes? && |bytes| > 0 ==> r == Err(IncorrectAttributes) && st' == st) &&
            (SizeOf(st.doc, st.attrs).Ok? && offset > SizeOf(st.doc, st.attrs).value && |bytes| > 0 ==>
               r == Err(InvalidOffset) && st' == st) &&
            (SizeOf(st.doc, st.attrs).Ok? && offset <= SizeOf(st.doc, st.attrs).value && |bytes| > 0 &&
             st.attrs.chunkSize > 0 && ChunkIndex(offset, st.attrs.chunkSize) > st.size ==>
               r == Err(OffsetPastEnd) && st' == st) &&
            (r.Ok? ==> r.value == |bytes|)
  {
  }

  /**
   * Chunk counting: passing over chunks `start .. stop` without an error,
   * from a start within the handle's count, leaves that count at
   * `max(count, stop)` and raises the metadata's count by the same amount.
   */
  lemma {:induction false} StepsCount(st: FileState, offset: nat, bytes: seq<Byte>, start: nat, stop: nat, slicing: Slicing)
    requires st.attrs.FileAttributes? && start <= st.size
    ensures var (r, st') := Steps(st, offset, bytes, start, stop, slicing);
            r.Ok? ==> st'.size == Max(st.size, stop) && st'.attrs.chunks == st.attrs.chunks + (st'.size - st.size)
    decreases stop
  {
    if stop > start {
      StepsCount(st, offset, bytes, start, stop - 1, slicing);
    }
  }

  /**
   * `write` counts chunks on both counters alike: after a write that
   * succeeds, the handle's count and the metadata's count have grown by the
   * same amount, to cover the chunk holding the last byte written.
   */
  lemma WriteCount(st: FileState, offset: nat, bytes: seq<Byte>, slicing: Slicing)
    requires st.attrs.FileAttributes? && st.attrs.chunkSize > 0 && |bytes| > 0
    ensures var (r, st') := WriteOutcome(st, offset, bytes, slicing);
            r.Ok? ==> st'.size == Max(st.size, ChunkIndex(offset + |bytes| - 1, st.attrs.chunkSize) + 1) &&
                      st'.attrs.chunks == st.attrs.chunks + (st'.size - st.size)
  {
    var cs := st.attrs.chunkSize;
    var size := SizeOf(st.doc, st.attrs);
    if size.Ok? && offset <= size.value && ChunkIndex(offset, cs) <= st.size {
      WriteOutcomeLoop(st, offset, bytes, slicing, size.value);
      StepsCount(st, offset, bytes, ChunkIndex(offset, cs), ChunkIndex(offset + |bytes| - 1, cs) + 1, slicing);
    } else {
      assert WriteOutcome(st, offset, bytes, slicing).0.Err?;
    }
  }

  /**
   * The source's cut on two small files with 4-byte chunks. Writing 4 bytes
   * at offset 2 of a 2-byte file succeeds but leaves 6 bytes in chunk 0 and
   * an empty chunk 1, so `size` then reports 4 bytes where the file now
   * ends at byte 6. Writing 3 bytes at offset 3 of a 3-byte file panics, on
   * the reversed range `4 .. 3` for chunk 1.
   */
  lemma AsWrittenCutMisplacesData()
    ensures var st := FileState(map[0 := [1, 2]], 1, FileAttributes(1, 4));
            var (r, st') := WriteOutcome(st, 2, [3, 4, 5, 6], AsWritten);
            r == Ok(4) && st'.doc == map[0 := [1, 2, 3, 4, 5, 6], 1 := []] &&
            SizeOf(st'.doc, st'.attrs) == Ok(4) && !WellFormed(st'.doc, st'.size, 4)
    ensures WriteOutcome(FileState(map[0 := [1, 2, 3]], 1, FileAttributes(1, 4)), 3, [7, 8, 9], AsWritten).0 == Err(Panicked)
  {
    var st := FileState(map[0 := [1, 2]], 1, FileAttributes(1, 4));
    var data: seq<Byte> := [3, 4, 5, 6];
    assert Cut(AsWritten, 4, 2, 4, 0, 0) == (0, 4, 2);
    assert data[0..4] == data;
    assert Spliced([1, 2], 2, data) == [1, 2, 3, 4, 5, 6];
    assert ChunkOf(st.doc, 0) == [1, 2];
    assert st.doc[0 := [1, 2, 3, 4, 5, 6]] == map[0 := [1, 2, 3, 4, 5, 6]];
    assert WriteChunk(st.doc, 0, 2, data) == Ok(map[0 := [1, 2, 3, 4, 5, 6]]);
    var st1 := Steps(st, 2, data, 0, 1, AsWritten).1;
    assert st1 == FileState(map[0 := [1, 2, 3, 4, 5, 6]], 1, FileAttributes(1, 4));
    assert Cut(AsWritten, 4, 2, 4, 0, 1) == (4, 4, 0);
    assert data[4..4] == [];
    assert Spliced([], 0, []) == [];
    var st2 := Steps(st, 2, [3, 4, 5, 6], 0, 2, AsWritten).1;
    assert st2 == FileState(map[0 := [1, 2, 3, 4, 5, 6], 1 := []], 2, FileAttributes(2, 4));
    assert |st2.doc[0]| == 6;
    var su := FileState(map[0 := [1, 2, 3]], 1, FileAttributes(1, 4));
    assert Spliced([1, 2, 3], 3, [7, 8, 9]) == [1, 2, 3, 7, 8, 9];
    assert Steps(su, 3, [7, 8, 9], 0, 1, AsWritten).0 == Ok(());
  }

  /** A well-formed state of `m` chunks on both counters, holding `total` bytes. */
  ghost predicate Shaped(st: FileState, m: nat, cs: nat, total: nat)
  {
    st.size == m && st.attrs == FileAttributes(m, cs) && WellFormed(st.doc, m, cs) &&
    total == (if m == 0 then 0 else cs * (m - 1) + |st.doc[m - 1]|)
  }

  /** The intended pass at chunk `i` when its cut is in range: the counters, then the chunk laid over. */
  lemma IntendedStepUnfold(st: FileState, offset: nat, bytes: seq<Byte>, start: nat, i: nat, cs: nat, lo: nat, hi: nat)
    requires st.attrs.FileAttributes? && st.attrs.chunkSize == cs
    requires lo == Max(offset, cs * i) && hi == Min(offset + |bytes|, cs * (i + 1))
    requires offset <= lo <= hi <= offset + |bytes| && cs * i <= lo && lo - cs * i <= |ChunkOf(st.doc, i)|
    ensures Step(st, offset, bytes, start, i, Intended).0 == Ok(())
    ensures var st' := Step(st, offset, bytes, start, i, Intended).1;
            st'.doc == st.doc[i := Spliced(ChunkOf(st.doc, i), lo - cs * i, bytes[lo - offset..hi - offset])] &&
            (i >= st.size ==> st'.size == st.size + 1 && st'.attrs == st.attrs.(chunks := st.attrs.chunks + 1)) &&
            (i < st.size ==> st'.size == st.size && st'.attrs == st.attrs)
  {
    var co: nat := lo - cs * i;
    assert Cut(Intended, cs, offset, |bytes|, start, i) == (lo - offset, hi - offset, co);
    var st1 := if i >= st.size then st.(size := st.size + 1, attrs := st.attrs.(chunks := st.attrs.chunks + 1)) else st;
    assert ChunkOf(st1.doc, i) == ChunkOf(st.doc, i);
    var piece := bytes[lo - offset..hi - offset];
    assert WriteChunk(st1.doc, i, co, piece) == Ok(st.doc[i := Spliced(ChunkOf(st.doc, i), co, piece)]);
  }

  /**
   * Replacing chunk `i` of a well-formed file of `m` chunks, where `i` is
   * at most one past the last, by a chunk of at most `cs` bytes, full when
   * it is not the last: the file stays well formed, with `max(m, i + 1)`
   * chunks, provided the old last chunk was full when a chunk is added.
   */
  lemma ShapeUpdate(doc: ChunkDoc, m: nat, cs: nat, i: nat, c: seq<Byte>)
    requires WellFormed(doc, m, cs) && i <= m && |c| <= cs
    requires i < m - 1 ==> |c| == cs
    requires i == m && m > 0 ==> |doc[m - 1]| == cs
    ensures WellFormed(doc[i := c], Max(m, i + 1), cs)
  {
    var d, m' := doc[i := c], Max(m, i + 1);
    assert forall j :: 0 <= j < m' - 1 ==> |d[j]| == cs by {
      forall j | 0 <= j < m' - 1
        ensures |d[j]| == cs
      {
        if j != i {
          assert d[j] == doc[j];
        }
      }
    }
  }

  /** The state after chunk `i` of a well-formed state is replaced and the counters follow. */
  lemma ShapedAfterChunk(st: FileState, st': FileState, m: nat, cs: nat, i: nat, c: seq<Byte>)
    requires WellFormed(st.doc, m, cs) && i <= m && |c| <= cs
    requires i < m - 1 ==> |c| == cs
    requires i == m && m > 0 ==> |st.doc[m - 1]| == cs
    requires st'.doc == st.doc[i := c] && st'.size == Max(m, i + 1) && st'.attrs == FileAttributes(Max(m, i + 1), cs)
    ensures i >= m - 1 ==> Shaped(st', Max(m, i + 1), cs, cs * i + |c|)
    ensures i < m - 1 ==> Shaped(st', m, cs, cs * (m - 1) + |st.doc[m - 1]|)
  {
    ShapeUpdate(st.doc, m, cs, i, c);
    if i < m - 1 {
      assert st'.doc[m - 1] == st.doc[m - 1];
    } else {
      assert Max(m, i + 1) - 1 == i;
    }
  }

  /** Where the data falls in chunk `i`: a non-empty range within the chunk, starting at or after `offset`. */
  lemma CutBounds(offset: nat, len: nat, start: nat, i: nat, cs: nat)
    requires cs > 0 && len >= 1 && start == ChunkIndex(offset, cs) && start <= i && cs * i < offset + len
    ensures var a, lo, hi := cs * i, Max(offset, cs * i), Min(offset + len, cs * (i + 1));
            lo <= hi && a <= lo && hi - a <= cs && cs * (i + 1) == a + cs
  {
    MulSucc(i, cs);
    DivBounds(offset, cs);
    MulMono(start + 1, i + 1, cs);
  }

  /** How much of the data lies before chunk `i` and before chunk `i + 1`, for a chunk the write visits. */
  lemma CutReach(offset: nat, len: nat, start: nat, i: nat, cs: nat)
    requires cs > 0 && len >= 1 && start == ChunkIndex(offset, cs) && start <= i && cs * i < offset + len
    ensures Reach(offset, len, cs * i) == Max(offset, cs * i) - offset
    ensures Reach(offset, len, cs * (i + 1)) == Min(offset + len, cs * (i + 1)) - offset
  {
    DivBounds(offset, cs);
    MulMono(start + 1, i + 1, cs);
  }

  /** The intended pass at a chunk before the last: it stays full and the size stays. */
  lemma IntendedStepInside(st: FileState, offset: nat, bytes: seq<Byte>, start: nat, i: nat, n: nat, cs: nat, s0: nat)
    requires cs > 0 && |bytes| >= 1 && start == ChunkIndex(offset, cs) && start <= i && cs * i < offset + |bytes|
    requires offset <= s0 <= cs * n && (n > 0 ==> cs * (n - 1) <= s0)
    requires Shaped(st, Max(n, i), cs, Max(s0, Min(offset + |bytes|, cs * i)))
    requires i < Max(n, i) - 1
    ensures Step(st, offset, bytes, start, i, Intended).0 == Ok(())
    ensures Shaped(Step(st, offset, bytes, start, i, Intended).1, Max(n, i + 1), cs, Max(s0, Min(offset + |bytes|, cs * (i + 1))))
  {
    CutBounds(offset, |bytes|, start, i, cs);
    var m, a := Max(n, i), cs * i;
    var lo, hi := Max(offset, a), Min(offset + |bytes|, cs * (i + 1));
    MulMono(i + 1, n - 1, cs);
    var prior := ChunkOf(st.doc, i);
    assert |prior| == cs;
    IntendedStepUnfold(st, offset, bytes, start, i, cs, lo, hi);
    var c := Spliced(prior, lo - a, bytes[lo - offset..hi - offset]);
    ShapedAfterChunk(st, Step(st, offset, bytes, start, i, Intended).1, m, cs, i, c);
  }

  /** The intended pass at the last chunk: it grows to where the data reaches, within the chunk. */
  lemma IntendedStepLast(st: FileState, offset: nat, bytes: seq<Byte>, start: nat, i: nat, n: nat, cs: nat, s0: nat)
    requires cs > 0 && |bytes| >= 1 && start == ChunkIndex(offset, cs) && start <= i && cs * i < offset + |bytes|
    requires offset <= s0 <= cs * n && (n > 0 ==> cs * (n - 1) <= s0)
    requires Shaped(st, Max(n, i), cs, Max(s0, Min(offset + |bytes|, cs * i)))
    requires i == Max(n, i) - 1
    ensures Step(st, offset, bytes, start, i, Intended).0 == Ok(())
    ensures Shaped(Step(st, offset, bytes, start, i, Intended).1, Max(n, i + 1), cs, Max(s0, Min(offset + |bytes|, cs * (i + 1))))
  {
    CutBounds(offset, |bytes|, start, i, cs);
    var m, a := Max(n, i), cs * i;
    var lo, hi := Max(offset, a), Min(offset + |bytes|, cs * (i + 1));
    var total := Max(s0, a);
    var prior := ChunkOf(st.doc, i);
    assert |prior| == total - a;
    IntendedStepUnfold(st, offset, bytes, start, i, cs, lo, hi);
    var c := Spliced(prior, lo - a, bytes[lo - offset..hi - offset]);
    assert |c| == Max(total, hi) - a;
    ShapedAfterChunk(st, Step(st, offset, bytes, start, i, Intended).1, m, cs, i, c);
  }

  /** The intended pass at the chunk after the last: a new chunk, the old last one being full. */
  lemma IntendedStepNew(st: FileState, offset: nat, bytes: seq<Byte>, start: nat, i: nat, n: nat, cs: nat, s0: nat)
    requires cs > 0 && |bytes| >= 1 && start == ChunkIndex(offset, cs) && start <= i && cs * i < offset + |bytes|
    requires offset <= s0 <= cs * n && (n > 0 ==> cs * (n - 1) <= s0)
    requires Shaped(st, Max(n, i), cs, Max(s0, Min(offset + |bytes|, cs * i)))
    requires i == Max(n, i)
    ensures Step(st, offset, bytes, start, i, Intended).0 == Ok(())
    ensures Shaped(Step(st, offset, bytes, start, i, Intended).1, Max(n, i + 1), cs, Max(s0, Min(offset + |bytes|, cs * (i + 1))))
  {
    CutBounds(offset, |bytes|, start, i, cs);
    var m, a := Max(n, i), cs * i;
    var lo, hi := Max(offset, a), Min(offset + |bytes|, cs * (i + 1));
    var prior := ChunkOf(st.doc, i);
    assert prior == [];
    MulMono(n, i, cs);
    assert lo == a && Max(s0, a) == a;
    if m > 0 {
      MulSucc(m - 1, cs);
      assert |st.doc[m - 1]| == cs;
    }
    IntendedStepUnfold(st, offset, bytes, start, i, cs, lo, hi);
    var c := Spliced(prior, 0, bytes[lo - offset..hi - offset]);
    assert |c| == hi - a;
    ShapedAfterChunk(st, Step(st, offset, bytes, start, i, Intended).1, m, cs, i, c);
  }

  /**
   * One intended pass keeps the file well formed: from `max(n, i)` chunks
   * holding the original bytes or up to where the data reaches chunk `i`,
   * whichever is further, to `max(n, i + 1)` chunks holding them up to
   * where the data reaches chunk `i + 1`.
   */
  lemma IntendedStep(st: FileState, offset: nat, bytes: seq<Byte>, start: nat, i: nat, n: nat, cs: nat, s0: nat)
    requires cs > 0 && |bytes| >= 1 && start == ChunkIndex(offset, cs) && start <= i && cs * i < offset + |bytes|
    requires offset <= s0 <= cs * n && (n > 0 ==> cs * (n - 1) <= s0)
    requires Shaped(st, Max(n, i), cs, Max(s0, Min(offset + |bytes|, cs * i)))
    ensures Step(st, offset, bytes, start, i, Intended).0 == Ok(())
    ensures Shaped(Step(st, offset, bytes, start, i, Intended).1, Max(n, i + 1), cs, Max(s0, Min(offset + |bytes|, cs * (i + 1))))
  {
    if i < Max(n, i) - 1 {
      IntendedStepInside(st, offset, bytes, start, i, n, cs, s0);
    } else if i == Max(n, i) - 1 {
      IntendedStepLast(st, offset, bytes, start, i, n, cs, s0);
    } else {
      IntendedStepNew(st, offset, bytes, start, i, n, cs, s0);
    }
  }

  /**
   * The intended passes over chunks `start .. stop` all succeed and keep
   * the file well formed, holding the original bytes or up to where the
   * data reaches chunk `stop`, whichever is further.
   */
  lemma {:induction false} IntendedSteps(st: FileState, offset: nat, bytes: seq<Byte>, start: nat, stop: nat, n: nat, cs: nat, s0: nat)
    requires cs > 0 && |bytes| >= 1 && start == ChunkIndex(offset, cs) && start <= stop
    requires stop > start ==> cs * (stop - 1) < offset + |bytes|
    requires offset <= s0 <= cs * n && (n > 0 ==> cs * (n - 1) <= s0)
    requires Shaped(st, n, cs, s0)
    ensures Steps(st, offset, bytes, start, stop, Intended).0 == Ok(())
    ensures Shaped(Steps(st, offset, bytes, start, stop, Intended).1, Max(n, stop), cs, Max(s0, Min(offset + |bytes|, cs * stop)))
    decreases stop
  {
    if stop == start {
      DivBounds(offset, cs);
      if start > n {
        MulMono(n + 1, start, cs);
        MulSucc(n, cs);
      }
      assert Max(n, stop) == n && Max(s0, Min(offset + |bytes|, cs * stop)) == s0;
    } else {
      var i := stop - 1;
      if i > start {
        MulMono(i - 1, i, cs);
      }
      IntendedSteps(st, offset, bytes, start, i, n, cs, s0);
      var s := Steps(st, offset, bytes, start, i, Intended).1;
      assert Steps(st, offset, bytes, start, stop, Intended) == Step(s, offset, bytes, start, i, Intended);
      IntendedStep(s, offset, bytes, start, i, n, cs, s0);
      assert i + 1 == stop;
    }
  }

  /** Contents over chunks on which two documents agree are the same. */
  lemma {:induction false} ContentsSame(doc: ChunkDoc, doc': ChunkDoc, k: nat)
    requires forall j :: 0 <= j < k ==> j in doc && j in doc' && doc'[j] == doc[j]
    ensures Contents(doc', k) == Contents(doc, k)
    decreases k
  {
    if k > 0 {
      ContentsSame(doc, doc', k - 1);
    }
  }

  /** Gathering chunks on which two documents agree gives the same answer. */
  lemma {:induction false} GatheredSame(doc: ChunkDoc, doc': ChunkDoc, lo: nat, hi: nat)
    requires forall j :: lo <= j < hi ==> (j in doc <==> j in doc') && (j in doc ==> doc'[j] == doc[j])
    ensures Gathered(doc', lo, hi) == Gathered(doc, lo, hi)
    decreases hi
  {
    if hi > lo {
      GatheredSame(doc, doc', lo, hi - 1);
    }
  }

  /** Chunks `lo .. hi` end to end, or nothing when one is missing. */
  function Rest(doc: ChunkDoc, lo: nat, hi: nat): seq<Byte>
  {
    match Gathered(doc, lo, hi)
    case Ok(b) => b
    case Err(_) => []
  }

  /**
   * Replacing chunk `i` of a document holding exactly chunks `0 .. m`,
   * where `i` is at most one past the last: the contents are the chunks
   * before `i`, then chunk `i`, then the chunks after it, and only the
   * middle piece changes.
   */
  lemma ChunkReplaced(doc: ChunkDoc, m: nat, i: nat, c: seq<Byte>)
    requires (forall j: nat :: j in doc <==> j < m) && i <= m
    ensures Contents(doc, m) == Contents(doc, i) + ChunkOf(doc, i) + Rest(doc, i + 1, m)
    ensures Contents(doc[i := c], Max(m, i + 1)) == Contents(doc, i) + c + Rest(doc, i + 1, m)
  {
    var d := doc[i := c];
    ContentsSame(doc, d, i);
    if i < m {
      GatheredExtends(doc, i + 1, m);
      GatheredExtends(d, i + 1, m);
      GatheredSame(doc, d, i + 1, m);
      var g := Rest(doc, i + 1, m);
      assert Contents(doc, m) == (Contents(doc, i) + doc[i]) + g;
      assert Contents(d, m) == (Contents(d, i) + c) + g;
    } else {
      assert Rest(doc, i + 1, m) == [];
      assert ChunkOf(doc, i) == [];
    }
  }

  /** How many bytes of a write of `len` bytes at `offset` lie before `bound`. */
  function Reach(offset: nat, len: nat, bound: int): (r: nat)
    ensures r <= len && (offset <= bound <= offset + len ==> r == bound - offset)
  {
    Min(offset + len, Max(offset, bound)) - offset
  }

  /**
   * What the intended pass at chunk `i` meets in a shaped file: the chunks
   * before `i` hold `cs * i` bytes, the part of the data for the chunk
   * starts within the old chunk, a chunk before the last is full, and no
   * chunk follows the last one.
   */
  lemma StepPiece(st: FileState, offset: nat, bytes: seq<Byte>, start: nat, i: nat, n: nat, cs: nat, s0: nat)
    requires cs > 0 && |bytes| >= 1 && start == ChunkIndex(offset, cs) && start <= i && cs * i < offset + |bytes|
    requires offset <= s0 <= cs * n && (n > 0 ==> cs * (n - 1) <= s0)
    requires Shaped(st, Max(n, i), cs, Max(s0, Min(offset + |bytes|, cs * i)))
    ensures var a, lo, hi := cs * i, Max(offset, cs * i), Min(offset + |bytes|, cs * (i + 1));
            var prior, m := ChunkOf(st.doc, i), Max(n, i);
            (forall j :: 0 <= j < i ==> j in st.doc) &&
            |Contents(st.doc, i)| == a && a <= lo <= hi <= a + cs && lo - a <= |prior| &&
            (i + 1 < m ==> |prior| == cs) && (i + 1 >= m ==> Rest(st.doc, i + 1, m) == [])
  {
    CutBounds(offset, |bytes|, start, i, cs);
    var m := Max(n, i);
    if i < m {
      ContentsLength(st.doc, m, cs, i);
    } else {
      MulMono(n, i, cs);
      if m > 0 {
        MulSucc(m - 1, cs);
      }
      assert i !in st.doc;
    }
    ContentsLength(st.doc, m, cs, m);
    if i + 1 >= m {
      assert Gathered(st.doc, i + 1, m) == Ok([]);
    }
  }

  /**
   * Laying the data's part `lo .. hi` over chunk `i`, at its place `lo - a`
   * in the chunk, where the chunks before `i` hold `a` bytes: if the file
   * held `c0` with the data up to `lo` laid over from `offset`, it then
   * holds `c0` with the data up to `hi` laid over. The part starts within
   * the old chunk and, unless the chunk is the last, ends within it.
   */
  lemma ChunkLaidOver(doc: ChunkDoc, m: nat, i: nat, a: nat, c0: seq<Byte>, offset: nat, bytes: seq<Byte>, lo: nat, hi: nat)
    requires (forall j: nat :: j in doc <==> j < m) && i <= m
    requires offset <= |c0| && offset <= lo <= hi <= offset + |bytes|
    requires |Contents(doc, i)| == a <= lo && lo - a <= |ChunkOf(doc, i)|
    requires i + 1 < m ==> hi - a <= |ChunkOf(doc, i)|
    requires Contents(doc, m) == Spliced(c0, offset, bytes[..lo - offset])
    ensures Contents(doc[i := Spliced(ChunkOf(doc, i), lo - a, bytes[lo - offset..hi - offset])], Max(m, i + 1)) ==
            Spliced(c0, offset, bytes[..hi - offset])
  {
    var prior := ChunkOf(doc, i);
    var c := Spliced(prior, lo - a, bytes[lo - offset..hi - offset]);
    ChunkReplaced(doc, m, i, c);
    var p, q := Contents(doc, i), Rest(doc, i + 1, m);
    assert i + 1 >= m ==> q == [] by {
      if i + 1 >= m {
        assert Gathered(doc, i + 1, m) == Ok([]);
      }
    }
    OverlayStep(p, prior, q, c0, offset, bytes, lo - offset, hi - offset);
  }

  /**
   * One intended pass at chunk `i` lays the part of the data that falls in
   * the chunk over the file: if the file held `c0` with the data up to
   * chunk `i` laid over from `offset`, it then holds `c0` with the data up
   * to chunk `i + 1` laid over.
   */
  lemma IntendedStepContents(st: FileState, offset: nat, bytes: seq<Byte>, start: nat, i: nat, n: nat, cs: nat, s0: nat, c0: seq<Byte>)
    requires cs > 0 && |bytes| >= 1 && start == ChunkIndex(offset, cs) && start <= i && cs * i < offset + |bytes|
    requires offset <= s0 <= cs * n && (n > 0 ==> cs * (n - 1) <= s0) && |c0| == s0
    requires Shaped(st, Max(n, i), cs, Max(s0, Min(offset + |bytes|, cs * i)))
    requires Contents(st.doc, Max(n, i)) == Spliced(c0, offset, bytes[..Reach(offset, |bytes|, cs * i)])
    ensures var st' := Step(st, offset, bytes, start, i, Intended).1;
            (forall j :: 0 <= j < Max(n, i + 1) ==> j in st'.doc) &&
            Contents(st'.doc, Max(n, i + 1)) == Spliced(c0, offset, bytes[..Reach(offset, |bytes|, cs * (i + 1))])
  {
    var m, a := Max(n, i), cs * i;
    var lo, hi := Max(offset, a), Min(offset + |bytes|, cs * (i + 1));
    StepPiece(st, offset, bytes, start, i, n, cs, s0);
    StepLaidOver(st, offset, bytes, start, i, m, cs, a, lo, hi, c0);
    assert Max(m, i + 1) == Max(n, i + 1);
  }

  /**
   * The same pass, stated for a file of `m` chunks whose first `i` chunks
   * hold `a` bytes and whose chunk `i` is long enough for the cut.
   */
  lemma StepLaidOver(st: FileState, offset: nat, bytes: seq<Byte>, start: nat, i: nat, m: nat, cs: nat, a: nat, lo: nat, hi: nat, c0: seq<Byte>)
    requires st.attrs.FileAttributes? && st.attrs.chunkSize == cs
    requires cs > 0 && |bytes| >= 1 && start == ChunkIndex(offset, cs) && start <= i && cs * i < offset + |bytes|
    requires a == cs * i && lo == Max(offset, a) && hi == Min(offset + |bytes|, cs * (i + 1))
    requires (forall j: nat :: j in st.doc <==> j < m) && i <= m
    requires offset <= |c0| && offset <= lo <= hi <= offset + |bytes|
    requires |Contents(st.doc, i)| == a <= lo && lo - a <= |ChunkOf(st.doc, i)|
    requires i + 1 < m ==> hi - a <= |ChunkOf(st.doc, i)|
    requires Contents(st.doc, m) == Spliced(c0, offset, bytes[..Reach(offset, |bytes|, a)])
    ensures var d := Step(st, offset, bytes, start, i, Intended).1.doc;
            (forall j :: 0 <= j < Max(m, i + 1) ==> j in d) &&
            Contents(d, Max(m, i + 1)) == Spliced(c0, offset, bytes[..Reach(offset, |bytes|, cs * (i + 1))])
  {
    CutReach(offset, |bytes|, start, i, cs);
    IntendedStepUnfold(st, offset, bytes, start, i, cs, lo, hi);
    ChunkLaidOver(st.doc, m, i, a, c0, offset, bytes, lo, hi);
  }

  /** Before any pass the file holds its original contents, with nothing laid over. */
  lemma IntendedStepsNone(st: FileState, offset: nat, bytes: seq<Byte>, start: nat, n: nat, cs: nat, s0: nat)
    requires cs > 0 && |bytes| >= 1 && start == ChunkIndex(offset, cs)
    requires offset <= s0 <= cs * n && (n > 0 ==> cs * (n - 1) <= s0)
    requires Shaped(st, n, cs, s0)
    ensures |Contents(st.doc, n)| == s0 && Max(n, start) == n && Reach(offset, |bytes|, cs * start) == 0
    ensures Contents(st.doc, n) == Spliced(Contents(st.doc, n), offset, bytes[..0])
  {
    ContentsLength(st.doc, n, cs, n);
    if n > 0 {
      MulSucc(n - 1, cs);
    }
    StartInFile(offset, cs, n, |bytes|);
    SplicedNothing(Contents(st.doc, n), offset);
  }

  /** A place within `n` chunks lies in one of them, and nothing of the data comes before its chunk. */
  lemma StartInFile(offset: nat, cs: nat, n: nat, len: nat)
    requires cs > 0 && offset <= cs * n
    ensures ChunkIndex(offset, cs) <= n && Reach(offset, len, cs * ChunkIndex(offset, cs)) == 0
  {
    var start := ChunkIndex(offset, cs);
    DivBounds(offset, cs);
    if start > n {
      MulMono(n + 1, start, cs);
      MulSucc(n, cs);
    }
  }

  /**
   * The intended passes over chunks `start .. stop` lay the data up to
   * chunk `stop` over the file's original contents, from `offset`.
   */
  lemma {:induction false} IntendedStepsContents(st: FileState, offset: nat, bytes: seq<Byte>, start: nat, stop: nat, n: nat, cs: nat, s0: nat)
    requires cs > 0 && |bytes| >= 1 && start == ChunkIndex(offset, cs) && start <= stop
    requires stop > start ==> cs * (stop - 1) < offset + |bytes|
    requires offset <= s0 <= cs * n && (n > 0 ==> cs * (n - 1) <= s0)
    requires Shaped(st, n, cs, s0)
    ensures |Contents(st.doc, n)| == s0
    ensures var st' := Steps(st, offset, bytes, start, stop, Intended).1;
            (forall j :: 0 <= j < Max(n, stop) ==> j in st'.doc) &&
            Contents(st'.doc, Max(n, stop)) == Spliced(Contents(st.doc, n), offset, bytes[..Reach(offset, |bytes|, cs * stop)])
    decreases stop
  {
    IntendedStepsNone(st, offset, bytes, start, n, cs, s0);
    if stop > start {
      var i := stop - 1;
      assert i > start ==> cs * (i - 1) < offset + |bytes| by {
        if i > start {
          MulMono(i - 1, i, cs);
        }
      }
      IntendedStepsContents(st, offset, bytes, start, i, n, cs, s0);
      IntendedSteps(st, offset, bytes, start, i, n, cs, s0);
      IntendedStepsNext(st, offset, bytes, start, stop, n, cs, s0, Contents(st.doc, n));
    }
  }

  /** The inductive step of `IntendedStepsContents`: one more intended pass after passes that all succeed. */
  lemma IntendedStepsNext(st: FileState, offset: nat, bytes: seq<Byte>, start: nat, stop: nat, n: nat, cs: nat, s0: nat, c0: seq<Byte>)
    requires st.attrs.FileAttributes?
    requires cs > 0 && |bytes| >= 1 && start == ChunkIndex(offset, cs) && start < stop && cs * (stop - 1) < offset + |bytes|
    requires offset <= s0 <= cs * n && (n > 0 ==> cs * (n - 1) <= s0) && |c0| == s0
    requires Steps(st, offset, bytes, start, stop - 1, Intended).0 == Ok(())
    requires var s := Steps(st, offset, bytes, start, stop - 1, Intended).1;
             Shaped(s, Max(n, stop - 1), cs, Max(s0, Min(offset + |bytes|, cs * (stop - 1)))) &&
             Contents(s.doc, Max(n, stop - 1)) == Spliced(c0, offset, bytes[..Reach(offset, |bytes|, cs * (stop - 1))])
    ensures var st' := Steps(st, offset, bytes, start, stop, Intended).1;
            (forall j :: 0 <= j < Max(n, stop) ==> j in st'.doc) &&
            Contents(st'.doc, Max(n, stop)) == Spliced(c0, offset, bytes[..Reach(offset, |bytes|, cs * stop)])
  {
    var i := stop - 1;
    StepsLast(st, offset, bytes, start, stop, Intended);
    IntendedStepContents(Steps(st, offset, bytes, start, i, Intended).1, offset, bytes, start, i, n, cs, s0, c0);
  }

  /** After passes that all succeed, one more pass is the next step on the state they leave. */
  lemma StepsLast(st: FileState, offset: nat, bytes: seq<Byte>, start: nat, stop: nat, slicing: Slicing)
    requires st.attrs.FileAttributes? && start < stop
    requires Steps(st, offset, bytes, start, stop - 1, slicing).0 == Ok(())
    ensures Steps(st, offset, bytes, start, stop, slicing) == Step(Steps(st, offset, bytes, start, stop - 1, slicing).1, offset, bytes, start, stop - 1, slicing)
  {
  }

  /**
   * The chunks `write` visits for `len` bytes at `offset` in a file of
   * `total` bytes in `n` chunks: the first is within the file's chunks,
   * the last holds the last byte written.
   */
  lemma WriteSpan(offset: nat, len: nat, n: nat, cs: nat, total: nat)
    requires cs > 0 && len >= 1 && offset <= total <= cs * n
    ensures var start, e := ChunkIndex(offset, cs), ChunkIndex(offset + len - 1, cs);
            start <= n && start <= e && cs * e < offset + len && Min(offset + len, cs * (e + 1)) == offset + len
  {
    var start, e := ChunkIndex(offset, cs), ChunkIndex(offset + len - 1, cs);
    DivBounds(offset, cs);
    DivBounds(offset + len - 1, cs);
    if start > n {
      MulMono(n + 1, start, cs);
      MulSucc(n, cs);
    }
    if start > e {
      MulMono(e + 1, start, cs);
    }
  }

  /** The size of a shaped state is its byte count. */
  lemma ShapedSize(st: FileState, m: nat, cs: nat, total: nat)
    requires Shaped(st, m, cs, total)
    ensures SizeOf(st.doc, st.attrs) == Ok(total)
  {
  }

  /** The intended write on a shaped state whose write starts within the file. */
  lemma IntendedWriteShaped(st: FileState, n: nat, cs: nat, s0: nat, offset: nat, bytes: seq<Byte>)
    requires Shaped(st, n, cs, s0) && offset <= s0 <= cs * n && (n > 0 ==> cs * (n - 1) <= s0) && |bytes| >= 1
    ensures var (r, st') := WriteOutcome(st, offset, bytes, Intended);
            var m := Max(n, ChunkIndex(offset + |bytes| - 1, cs) + 1);
            r == Ok(|bytes|) && Shaped(st', m, cs, Max(s0, offset + |bytes|))
  {
    var start, e := ChunkIndex(offset, cs), ChunkIndex(offset + |bytes| - 1, cs);
    var out := Steps(st, offset, bytes, start, e + 1, Intended);
    WriteSpan(offset, |bytes|, n, cs, s0);
    assert out.0 == Ok(()) && Shaped(out.1, Max(n, e + 1), cs, Max(s0, offset + |bytes|)) by {
      IntendedSteps(st, offset, bytes, start, e + 1, n, cs, s0);
    }
    var len: nat := |bytes|;
    assert WriteOutcome(st, offset, bytes, Intended) == (Ok(len), out.1) by {
      ShapedSize(st, n, cs, s0);
      WriteOutcomeLoop(st, offset, bytes, Intended, s0);
    }
  }

  /**
   * The intended write on a well-formed file whose handle counts its
   * chunks: it returns the length of the data, leaves a well-formed file
   * covering the chunk of the last byte written, with both counters equal
   * to its chunks, and `size` becomes the larger of the old size and the
   * end of the write. The data is laid over the old contents at `offset`:
   * the bytes before it and the old bytes past the end of the write stay,
   * and `read` of the written range gives the data back.
   */
  lemma IntendedWrite(st: FileState, n: nat, cs: nat, offset: nat, bytes: seq<Byte>)
    requires WellFormed(st.doc, n, cs) && st.size == n && st.attrs == FileAttributes(n, cs)
    requires offset <= |Contents(st.doc, n)| && |bytes| >= 1
    ensures var (r, st') := WriteOutcome(st, offset, bytes, Intended);
            var m := Max(n, ChunkIndex(offset + |bytes| - 1, cs) + 1);
            r == Ok(|bytes|) && st'.size == m && st'.attrs == FileAttributes(m, cs) && WellFormed(st'.doc, m, cs) &&
            SizeOf(st'.doc, st'.attrs) == Ok(Max(|Contents(st.doc, n)|, offset + |bytes|))
    ensures var st' := WriteOutcome(st, offset, bytes, Intended).1;
            var m := Max(n, ChunkIndex(offset + |bytes| - 1, cs) + 1);
            var before, after := Contents(st.doc, n), Contents(st'.doc, m);
            after == Spliced(before, offset, bytes) &&
            after[..offset] == before[..offset] && after[offset..offset + |bytes|] == bytes &&
            (|before| > offset + |bytes| ==> after[offset + |bytes|..] == before[offset + |bytes|..]) &&
            ReadResult(st'.doc, st'.attrs, offset, |bytes|) == Ok(bytes)
  {
    var s0 := |Contents(st.doc, n)|;
    ContentsLength(st.doc, n, cs, n);
    if n > 0 {
      MulSucc(n - 1, cs);
    }
    IntendedWriteShaped(st, n, cs, s0, offset, bytes);
    var m := Max(n, ChunkIndex(offset + |bytes| - 1, cs) + 1);
    var st' := WriteOutcome(st, offset, bytes, Intended).1;
    ShapedSize(st', m, cs, Max(s0, offset + |bytes|));
    IntendedWriteContents(st, n, cs, s0, offset, bytes);
    SplicedEffect(Contents(st.doc, n), offset, bytes);
    ReadInside(st'.doc, m, cs, offset, |bytes|);
  }

  /** The intended write lays the data over the file's contents from `offset`. */
  lemma IntendedWriteContents(st: FileState, n: nat, cs: nat, s0: nat, offset: nat, bytes: seq<Byte>)
    requires Shaped(st, n, cs, s0) && offset <= s0 <= cs * n && (n > 0 ==> cs * (n - 1) <= s0) && |bytes| >= 1
    ensures |Contents(st.doc, n)| == s0
    ensures var st' := WriteOutcome(st, offset, bytes, Intended).1;
            var m := Max(n, ChunkIndex(offset + |bytes| - 1, cs) + 1);
            (forall j :: 0 <= j < m ==> j in st'.doc) &&
            Contents(st'.doc, m) == Spliced(Contents(st.doc, n), offset, bytes)
  {
    var start, e := ChunkIndex(offset, cs), ChunkIndex(offset + |bytes| - 1, cs);
    WriteSpan(offset, |bytes|, n, cs, s0);
    IntendedStepsContents(st, offset, bytes, start, e + 1, n, cs, s0);
    assert Reach(offset, |bytes|, cs * (e + 1)) == |bytes|;
    assert bytes[..|bytes|] == bytes;
    assert WriteOutcome(st, offset, bytes, Intended).1 == Steps(st, offset, bytes, start, e + 1, Intended).1 by {
      ShapedSize(st, n, cs, s0);
      WriteOutcomeLoop(st, offset, bytes, Intended, s0);
    }
  }

  /** `Chunks`: the chunks document and the handle's own count of chunks. */
  class Chunks {
    var doc: ChunkDoc
    var size: nat

    /** `Chunks::new`: an empty document, counted as no chunks. */
    constructor ()
      ensures doc == map[] && size == 0
    {
      doc := map[];
      size := 0;
    }

    /** `Chunks::read(chunk_id)`: the chunk's bytes, or `MissingChunk` when there is none. */
    method Read(id: nat) returns (r: Result<seq<Byte>, FileError>)
      ensures r.Ok? <==> id in doc
      ensures r.Ok? ==> r.value == doc[id]
      ensures r.Err? ==> r.error == MissingChunk(id)
    {
      if id !in doc {
        return Err(MissingChunk(id));
      }
      r := Ok(doc[id]);
    }

    /**
     * `Chunks::write(chunk_id, chunk_offset, bytes)`: the new chunk is built
     * from the old bytes before the offset, the data, then any old bytes
     * past the data's end; the result is the data's length.
     */
    method Write(id: nat, off: nat, bytes: seq<Byte>) returns (r: Result<nat, FileError>)
      modifies this
      ensures size == old(size)
      ensures r.Err? <==> WriteChunk(old(doc), id, off, bytes).Err?
      ensures r.Err? ==> r.error == ChunkOffsetTooLarge && doc == old(doc)
      ensures r.Ok? ==> r.value == |bytes| && doc == WriteChunk(old(doc), id, off, bytes).value
    {
      var prior := if id in doc then doc[id] else [];
      if off > |prior| {
        return Err(ChunkOffsetTooLarge);
      }
      var buffer: seq<Byte> := [];
      if off > 0 {
        buffer := buffer + prior[..off];
      }
      assert buffer == prior[..off];
      buffer := buffer + bytes;
      var remaining := off + |bytes|;
      if |prior| > remaining {
        buffer := buffer + prior[remaining..];
      }
      assert buffer == prior[..off] + bytes + (if |prior| > remaining then prior[remaining..] else []);
      doc := doc[id := buffer];
      r := Ok(|bytes|);
    }
  }

  /** `LisFile`: the file's metadata attributes and its chunks. */
  class LisFile {
    const chunks: Chunks
    var attrs: ObjectAttributes

    /** `LisFile::new`: no chunks yet, of the crate's default chunk size. */
    constructor (defaultChunkSize: nat)
      ensures fresh(chunks) && chunks.doc == map[] && chunks.size == 0
      ensures attrs == FileAttributes(0, defaultChunkSize)
    {
      chunks := new Chunks();
      attrs := FileAttributes(0, defaultChunkSize);
    }

    /** What the file's operations read and change. */
    function State(): FileState
      reads this, chunks
    {
      FileState(chunks.doc, chunks.size, attrs)
    }

    /** `size()`. */
    method Size() returns (r: Result<nat, FileError>)
      ensures r == SizeOf(chunks.doc, attrs)
    {
      if attrs.OtherAttributes? {
        return Err(IncorrectAttributes);
      }
      var n, cs := attrs.chunks, attrs.chunkSize;
      if n == 0 {
        return Ok(0);
      }
      var last := chunks.Read(n - 1);
      if last.Err? {
        return Err(last.error);
      }
      r := Ok((n - 1) * cs + |last.value|);
    }

    /** `read(offset, size)`: it gathers the chunks from the first byte's to the last's. */
    method Read(offset: nat, size: nat) returns (r: Result<seq<Byte>, FileError>)
      ensures r == ReadResult(chunks.doc, attrs, offset, size)
    {
      if size == 0 {
        return Ok([]);
      }
      if attrs.OtherAttributes? {
        return Err(IncorrectAttributes);
      }
      var n, cs := attrs.chunks, attrs.chunkSize;
      var s := Size();
      if s.Err? {
        return Err(s.error);
      }
      if offset > s.value {
        return Err(InvalidOffset);
      }
      if cs == 0 {
        return Err(Panicked);
      }
      var start := offset / cs;
      var end := (offset + size - 1) / cs;
      ChunkIndexIsDivision(offset, cs);
      ChunkIndexIsDivision(offset + size - 1, cs);
      if end >= n {
        end := if n == 0 then 0 else n - 1;
      }
      assert end == ReadEnd(offset, size, n, cs);
      var g := GatherChunks(start, end + 1);
      if g.Err? {
        return Err(g.error);
      }
      var first := offset % cs;
      if first + size > |g.value| {
        return Err(Panicked);
      }
      r := Ok(g.value[first..first + size]);
    }

    /** The loop of `read`: chunks `start .. stop` end to end, or the first one missing. */
    method GatherChunks(start: nat, stop: nat) returns (r: Result<seq<Byte>, FileError>)
      ensures r == Gathered(chunks.doc, start, stop)
    {
      var bytes: seq<Byte> := [];
      var id := start;
      while id < stop
        invariant start <= id <= Max(start, stop)
        invariant Gathered(chunks.doc, start, id) == Ok(bytes)
        decreases stop - id
      {
        var c := chunks.Read(id);
        if c.Err? {
          GatheredMissing(chunks.doc, start, id, stop);
          return Err(c.error);
        }
        bytes := bytes + c.value;
        id := id + 1;
      }
      r := Ok(bytes);
    }

    /**
     * `write(offset, bytes)`, with the intended cut of the data: the part
     * that falls in chunk `i` is written at its own position in the chunk.
     */
    method Write(offset: nat, bytes: seq<Byte>) returns (r: Result<nat, FileError>)
      modifies this, chunks
      ensures (r, State()) == WriteOutcome(old(State()), offset, bytes, Intended)
    {
      if |bytes| == 0 {
        return Ok(0);
      }
      var s := Size();
      if s.Err? {
        return Err(s.error);
      }
      if offset > s.value {
        return Err(InvalidOffset);
      }
      var cs := attrs.chunkSize;
      if cs == 0 {
        return Err(Panicked);
      }
      var start := offset / cs;
      ChunkIndexIsDivision(offset, cs);
      if start > chunks.size {
        return Err(OffsetPastEnd);
      }
      var end := (offset + |bytes| - 1) / cs;
      ChunkIndexIsDivision(offset + |bytes| - 1, cs);
      var w := WriteChunks(offset, bytes, start, end + 1);
      if w.Err? {
        return Err(w.error);
      }
      r := Ok(|bytes|);
    }

    /** The loop of `write`: the passes over chunks `start .. stop`, stopping at the first error. */
    method WriteChunks(offset: nat, bytes: seq<Byte>, start: nat, stop: nat) returns (r: Result<(), FileError>)
      requires attrs.FileAttributes?
      modifies this, chunks
      ensures (r, State()) == Steps(old(State()), offset, bytes, start, stop, Intended)
    {
      ghost var st0 := State();
      var i := start;
      while i < stop
        invariant start <= i <= Max(start, stop)
        invariant attrs.FileAttributes? && attrs.chunkSize == st0.attrs.chunkSize
        invariant Steps(st0, offset, bytes, start, i, Intended) == (Ok(()), State())
        decreases stop - i
      {
        var w := WriteStep(offset, bytes, start, i);
        assert Steps(st0, offset, bytes, start, i + 1, Intended) == (w, State());
        if w.Err? {
          StepsStopAtError(st0, offset, bytes, start, i + 1, stop, Intended);
          return w;
        }
        i := i + 1;
      }
      r := Ok(());
    }

    /** One pass of `write`'s loop, at chunk `i`. */
    method WriteStep(offset: nat, bytes: seq<Byte>, start: nat, i: nat) returns (r: Result<(), FileError>)
      requires attrs.FileAttributes?
      modifies this, chunks
      ensures (r, State()) == Step(old(State()), offset, bytes, start, i, Intended)
    {
      var (from, to, chunkOffset) := Cut(Intended, attrs.chunkSize, offset, |bytes|, start, i);
      if !(0 <= from <= to <= |bytes|) || chunkOffset < 0 {
        return Err(Panicked);
      }
      if i >= chunks.size {
        chunks.size := chunks.size + 1;
        attrs := attrs.(chunks := attrs.chunks + 1);
      }
      var w := chunks.Write(i, chunkOffset, bytes[from..to]);
      if w.Err? {
        return Err(w.error);
      }
      r := Ok(());
    }
  }
}
