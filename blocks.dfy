/**
 * Cutting a byte string into fixed-size blocks and putting it back together,
 * as the storage examples do: block `i` of a file cut into blocks of `bs`
 * bytes covers the bytes from `i * bs` up to `min((i + 1) * bs, len)`, and a
 * file of `len` bytes takes `(len + bs - 1) / bs` blocks.
 */
module BlockSplit {
  function Min(a: int, b: int): int { if a <= b then a else b }

  /** The blocks of `data`, in order: every block but the last is `bs` long. */
  function Split<T>(data: seq<T>, bs: nat): (r: seq<seq<T>>)
    requires bs > 0
    decreases |data|
  {
    if data == [] then []
    else [data[..Min(bs, |data|)]] + Split(data[Min(bs, |data|)..], bs)
  }

  /** The blocks laid end to end. */
  function Flatten<T>(blocks: seq<seq<T>>): seq<T>
  {
    if blocks == [] then [] else Flatten(blocks[..|blocks| - 1]) + blocks[|blocks| - 1]
  }

  /** `(len + bs - 1) / bs`, the number of blocks the examples compute. */
  function BlocksNeeded(len: nat, bs: nat): nat
    requires bs > 0
  {
    (len + bs - 1) / bs
  }

  lemma MulAtLeast(k: int, bs: nat)
    requires k >= 1
    ensures k * bs >= bs
    decreases k
  {
    if k > 1 {
      MulAtLeast(k - 1, bs);
      assert k * bs == (k - 1) * bs + bs;
    }
  }

  /** Division is determined by a quotient and a remainder below the divisor. */
  lemma DivUnique(x: int, bs: nat, q: int, r: int)
    requires bs > 0 && 0 <= r < bs && x == q * bs + r
    ensures x / bs == q
  {
    var q', r' := x / bs, x % bs;
    assert (q - q') * bs == r' - r;
    if q > q' {
      MulAtLeast(q - q', bs);
    } else if q < q' {
      MulAtLeast(q' - q, bs);
    }
  }

  lemma DivStep(x: nat, bs: nat)
    requires bs > 0
    ensures (x + bs) / bs == x / bs + 1
  {
    var q, r := x / bs, x % bs;
    assert x + bs == (q + 1) * bs + r;
    DivUnique(x + bs, bs, q + 1, r);
  }

  lemma MulStep(i: nat, bs: nat)
    ensures (i + 1) * bs == i * bs + bs
  {
  }

  /** The number of blocks is `(len + bs - 1) / bs`. */
  lemma {:induction false} SplitCount<T>(data: seq<T>, bs: nat)
    requires bs > 0
    ensures |Split(data, bs)| == BlocksNeeded(|data|, bs)
    decreases |data|
  {
    if data == [] {
      DivUnique(bs - 1, bs, 0, bs - 1);
    } else if |data| <= bs {
      assert data[..|data|] == data;
      assert Split(data, bs) == [data] + Split(data[|data|..], bs);
      assert data[|data|..] == [];
      DivUnique(|data| + bs - 1, bs, 1, |data| - 1);
    } else {
      SplitCount(data[bs..], bs);
      DivStep(|data| - bs + bs - 1, bs);
    }
  }

  /** Block `i` covers the bytes `[i * bs, min((i + 1) * bs, len))`. */
  lemma {:induction false} SplitBlock<T>(data: seq<T>, bs: nat, i: nat)
    requires bs > 0 && i < |Split(data, bs)|
    ensures i * bs < |data|
    ensures Split(data, bs)[i] == data[i * bs .. Min((i + 1) * bs, |data|)]
    decreases |data|
  {
    if i > 0 {
      assert |data| > bs;
      var rest := data[bs..];
      assert Split(data, bs)[i] == Split(rest, bs)[i - 1];
      SplitBlock(rest, bs, i - 1);
      var lo, hi := (i - 1) * bs, Min(i * bs, |rest|);
      MulStep(i - 1, bs);
      MulStep(i, bs);
      assert i * bs == lo + bs && Min((i + 1) * bs, |data|) == hi + bs;
      SliceOfRest(data, bs, lo, hi);
    }
  }

  /** A slice of `data[k..]` is the slice of `data` shifted by `k`. */
  lemma SliceOfRest<T>(data: seq<T>, k: nat, lo: nat, hi: nat)
    requires k <= |data| && lo <= hi <= |data| - k
    ensures data[k..][lo..hi] == data[k + lo..k + hi]
  {
  }

  /** The bounds and contents of block `i` of `(len + bs - 1) / bs`, in one place. */
  lemma BlockAt<T>(data: seq<T>, bs: nat, i: nat)
    requires bs > 0 && i < BlocksNeeded(|data|, bs)
    ensures |Split(data, bs)| == BlocksNeeded(|data|, bs)
    ensures i * bs <= Min((i + 1) * bs, |data|) <= |data|
    ensures Split(data, bs)[i] == data[i * bs .. Min((i + 1) * bs, |data|)]
  {
    SplitCount(data, bs);
    SplitBlock(data, bs, i);
    MulStep(i, bs);
  }

  lemma {:induction false} FlattenCons<T>(b: seq<T>, rest: seq<seq<T>>)
    ensures Flatten([b] + rest) == b + Flatten(rest)
    decreases |rest|
  {
    if rest == [] {
      assert [b] + rest == [b];
      assert Flatten([b]) == Flatten([]) + b;
    } else {
      var l := [b] + rest;
      assert l[..|l| - 1] == [b] + rest[..|rest| - 1];
      FlattenCons(b, rest[..|rest| - 1]);
    }
  }

  /** Reading the blocks back in order gives the data that was cut. */
  lemma {:induction false} FlattenSplit<T>(data: seq<T>, bs: nat)
    requires bs > 0
    ensures Flatten(Split(data, bs)) == data
    decreases |data|
  {
    if data != [] {
      var m := Min(bs, |data|);
      FlattenCons(data[..m], Split(data[m..], bs));
      FlattenSplit(data[m..], bs);
      assert data[..m] + data[m..] == data;
    }
  }

  /** Extending a prefix of the blocks by the next one extends its flattening. */
  lemma FlattenSnoc<T>(blocks: seq<seq<T>>, i: nat)
    requires i < |blocks|
    ensures Flatten(blocks[..i + 1]) == Flatten(blocks[..i]) + blocks[i]
  {
    assert blocks[..i + 1][..i] == blocks[..i];
  }

  /** The first `k` blocks cover the first `min(k * bs, len)` bytes. */
  lemma {:induction false} FlattenPrefix<T>(data: seq<T>, bs: nat, k: nat)
    requires bs > 0 && k <= |Split(data, bs)|
    ensures Flatten(Split(data, bs)[..k]) == data[..Min(k * bs, |data|)]
    decreases k
  {
    var blocks := Split(data, bs);
    if k == 0 {
      assert blocks[..0] == [];
    } else {
      FlattenPrefix(data, bs, k - 1);
      FlattenSnoc(blocks, k - 1);
      SplitBlock(data, bs, k - 1);
      MulStep(k - 1, bs);
      assert data[..(k - 1) * bs] + data[(k - 1) * bs .. Min(k * bs, |data|)] == data[..Min(k * bs, |data|)];
    }
  }
}
