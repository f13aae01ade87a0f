/** A byte device cut into blocks (ext2_read_block and ext2_write_block, src/ext2.c:6-16). */
module Blocks {
  import opened Machine
  import opened PointerTree

  lemma BlockFits(len: nat, bs: nat, n: nat)
    requires bs > 0 && n < len / bs
    ensures bs * n + bs <= len && bs * n >= 0
  {
    DivRange(len, bs);
    MulMono(n + 1, len / bs, bs);
    assert (n + 1) * bs == bs * n + bs;
  }

  /** Block `n` of a byte run. */
  function BlockOf(bytes: seq<byte>, bs: nat, n: nat): (r: seq<byte>)
    requires bs > 0
    ensures |r| <= bs
  {
    if |bytes| < bs then bytes else if n == 0 then bytes[..bs] else BlockOf(bytes[bs..], bs, n - 1)
  }

  lemma MulNext(bs: nat, n: nat) returns (k: nat)
    requires n > 0
    ensures k == bs * (n - 1) && bs * n == k + bs
  {
    k := bs * (n - 1);
  }

  lemma SliceShift(bytes: seq<byte>, m: nat, k: nat, n: nat)
    requires m + k + n <= |bytes|
    ensures bytes[m..][k..k + n] == bytes[k + m..k + m + n]
  {
  }

  /** It is bytes [bs * n, bs * n + bs). */
  lemma {:induction false} BlockIs(bytes: seq<byte>, bs: nat, n: nat)
    requires bs > 0 && bs * n + bs <= |bytes|
    ensures BlockOf(bytes, bs, n) == bytes[bs * n..bs * n + bs]
  {
    if n > 0 {
      var k := MulNext(bs, n);
      BlockIs(bytes[bs..], bs, n - 1);
      SliceShift(bytes, bs, k, bs);
    }
  }

  /** The device as a sequence of blocks. */
  function BlocksOf(bytes: seq<byte>, bs: nat): (r: Disk)
    requires bs > 0
    ensures |r| == BlockCount(bytes, bs)
    ensures forall n :: 0 <= n < |r| ==> |r[n]| == bs
  {
    var count := BlockCount(bytes, bs);
    assert forall n: nat :: n < count ==> |BlockOf(bytes, bs, n)| == bs by {
      forall n: nat | n < count ensures |BlockOf(bytes, bs, n)| == bs {
        CountIs(bytes, bs);
        BlockFits(|bytes|, bs, n);
        BlockIs(bytes, bs, n);
      }
    }
    seq(count, n requires 0 <= n < count => BlockOf(bytes, bs, n))
  }

  function BlockCount(bytes: seq<byte>, bs: nat): nat
    requires bs > 0
  {
    if |bytes| < bs then 0 else 1 + BlockCount(bytes[bs..], bs)
  }

  lemma {:induction false} CountIs(bytes: seq<byte>, bs: nat)
    requires bs > 0
    ensures BlockCount(bytes, bs) == |bytes| / bs
  {
    DivRange(|bytes|, bs);
    if |bytes| < bs {
      DivUnique(0, |bytes|, bs);
    } else {
      CountIs(bytes[bs..], bs);
      var q := (|bytes| - bs) / bs;
      DivRange(|bytes| - bs, bs);
      assert (q + 1) * bs == q * bs + bs;
      DivUnique(q + 1, |bytes| - bs - q * bs, bs);
    }
  }

  lemma BlocksApart(bs: nat, n: nat, m: nat)
    ensures n < m ==> bs * n + bs <= bs * m
  {
    if n < m {
      MulMono(n + 1, m, bs);
      assert (n + 1) * bs == bs * n + bs && m * bs == bs * m;
    }
  }

  lemma BlockHere(bytes: seq<byte>, bs: nat, n: nat)
    requires bs > 0 && n < BlockCount(bytes, bs)
    ensures 0 <= bs * n && bs * n + bs <= |bytes| && BlockOf(bytes, bs, n) == bytes[bs * n..bs * n + bs]
  {
    CountIs(bytes, bs);
    BlockFits(|bytes|, bs, n);
    BlockIs(bytes, bs, n);
  }

  /** Block-level read-over-write: a block write changes that block and no other. */
  lemma BlockWrite(bytes: seq<byte>, bs: nat, n: nat, buf: seq<byte>)
    requires bs > 0 && n < BlockCount(bytes, bs) && |buf| == bs
    ensures 0 <= bs * n && bs * n + bs <= |bytes|
    ensures BlocksOf(Splice(bytes, bs * n, buf), bs) == BlocksOf(bytes, bs)[n := buf]
  {
    BlockHere(bytes, bs, n);
    var bytes' := Splice(bytes, bs * n, buf);
    CountIs(bytes, bs);
    CountIs(bytes', bs);
    forall m | 0 <= m < BlockCount(bytes, bs)
      ensures BlockOf(bytes', bs, m) == if m == n then buf else BlockOf(bytes, bs, m)
    {
      BlockHere(bytes, bs, m);
      BlockHere(bytes', bs, m);
      BlocksApart(bs, n, m);
      BlocksApart(bs, m, n);
    }
  }
}
