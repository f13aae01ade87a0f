/** ip_calc_checksum (src/net.c:180-196): the Internet checksum of section 1 of RFC 1071. */
module Checksum {
  import opened Machine

  /** Big-endian words; an odd last byte counts as the high byte of a word. */
  function WordSum(pack: seq<byte>): nat {
    if pack == [] then 0
    else if |pack| == 1 then 0x100 * pack[0]
    else 0x100 * pack[0] + pack[1] + WordSum(pack[2..])
  }

  /** The folding loop. */
  function Fold(sum: nat): (r: nat)
    ensures r < 0x1_0000
  {
    if sum < 0x1_0000 then sum else Fold(sum % 0x1_0000 + sum / 0x1_0000)
  }

  /** Folding is addition modulo 65535, with 0 only for 0: the one's-complement sum. */
  lemma {:induction false} FoldIs(sum: nat)
    ensures Fold(sum) % 0xFFFF == sum % 0xFFFF
    ensures Fold(sum) == 0 <==> sum == 0
  {
    if sum >= 0x1_0000 {
      var next := sum % 0x1_0000 + sum / 0x1_0000;
      FoldIs(next);
      assert sum == next + 0xFFFF * (sum / 0x1_0000);
      ModPlus(next, sum / 0x1_0000);
    }
  }

  lemma ModPlus(x: nat, k: nat)
    ensures (x + 0xFFFF * k) % 0xFFFF == x % 0xFFFF
  {
  }

  /** `htonw`: the two bytes change places. Each 0x100 of the word counts 1 in the result. */
  function Htonw(w: u16): (r: u16)
    ensures r == w % 0x100 * 0x100 + w / 0x100
  {
    if w < 0x100 then 0x100 * w else 1 + Htonw(w - 0x100)
  }

  function Not16(w: u16): u16 {
    0xFFFF - w
  }

  function Checksum(sum: nat, pack: seq<byte>): u16 {
    Not16(Htonw(Fold((sum + WordSum(pack)) % WORD_LIMIT)))
  }

  lemma {:induction false} WordSumFrom(pack: seq<byte>, k: nat)
    requires k % 2 == 0 && k <= |pack|
    ensures WordSum(pack) == WordSum(pack[..k]) + WordSum(pack[k..])
  {
    if k == 0 {
      assert pack[0..] == pack;
    } else {
      WordSumFrom(pack[2..], k - 2);
      assert pack[2..][..k - 2] == pack[..k][2..] && pack[2..][k - 2..] == pack[k..];
    }
  }

  /** The big-endian words at bytes 0 and 1, 2 and 3, ..., `n` of them, added up. */
  function IndexSum(pack: seq<byte>, n: nat): nat
    requires 2 * n <= |pack|
  {
    if n == 0 then 0 else IndexSum(pack, n - 1) + (0x100 * pack[2 * n - 2] as int + pack[2 * n - 1])
  }

  lemma {:induction false} SumByIndexUpTo(pack: seq<byte>, n: nat)
    requires 2 * n <= |pack|
    ensures WordSum(pack[..2 * n]) == IndexSum(pack, n)
  {
    if n > 0 {
      var head, k := pack[..2 * n], 2 * n - 2;
      SumByIndexUpTo(pack, n - 1);
      WordSumFrom(head, k);
      assert head[..k] == pack[..k] && head[k..] == [pack[k], pack[k + 1]];
      assert WordSum(head[k..][2..]) == 0;
    }
  }

  /** A packet of even length is summed word by word. */
  lemma SumByIndex(pack: seq<byte>)
    requires |pack| % 2 == 0
    ensures WordSum(pack) == IndexSum(pack, |pack| / 2)
  {
    assert pack[..2 * (|pack| / 2)] == pack;
    SumByIndexUpTo(pack, |pack| / 2);
  }

  /** A packet of odd length counts as if a zero byte followed. */
  lemma {:induction false} OddPadded(sum: nat, pack: seq<byte>)
    requires |pack| % 2 == 1
    ensures WordSum(pack + [0]) == WordSum(pack) && Checksum(sum, pack) == Checksum(sum, pack + [0])
  {
    if |pack| == 1 {
      assert (pack + [0])[2..] == [];
    } else {
      OddPadded(sum, pack[2..]);
      assert (pack + [0])[2..] == pack[2..] + [0];
    }
  }

  function Padded(pack: seq<byte>): (r: seq<byte>)
    ensures |r| % 2 == 0 && pack <= r && |r| <= |pack| + 1 && (|r| > |pack| ==> r[|pack|] == 0)
  {
    if |pack| % 2 == 0 then pack else pack + [0]
  }

  /** What the result is, byte by byte: its complement, the two bytes swapped, is the one's-complement sum of the 32-bit
      sum of all words. No other value of 16 bits has this property. */
  lemma ChecksumExact(sum: nat, pack: seq<byte>, c: u16)
    ensures var s := (sum + IndexSum(Padded(pack), |Padded(pack)| / 2)) % WORD_LIMIT;
      var x := 0x100 * ((0xFFFF - c) % 0x100) + (0xFFFF - c) / 0x100;
      c == Checksum(sum, pack) <==> x % 0xFFFF == s % 0xFFFF && (x == 0 <==> s == 0)
  {
    if |pack| % 2 == 1 {
      OddPadded(sum, pack);
    }
    SumByIndex(Padded(pack));
    var s := (sum + WordSum(Padded(pack))) % WORD_LIMIT;
    FoldIs(s);
    SwapExact(s, Fold(s), c);
  }

  lemma SwapBytes(a: byte, b: byte, c: byte, d: byte)
    ensures 0x100 * a as int + b == 0x100 * c as int + d <==> a == c && b == d
  {
  }

  lemma SwapBack(f: u16, c: u16)
    ensures c == Not16(Htonw(f)) <==> 0x100 * ((0xFFFF - c) % 0x100) + (0xFFFF - c) / 0x100 == f
  {
    var w := 0xFFFF - c;
    var h: byte, l: byte, fh: byte, fl: byte := w / 0x100, w % 0x100, f / 0x100, f % 0x100;
    assert f == 0x100 * fh as int + fl && w == 0x100 * h as int + l;
    SwapBytes(h, l, fl, fh);
    SwapBytes(l, h, fh, fl);
  }

  lemma OnesUnique(x: u16, f: u16, s: nat)
    requires f % 0xFFFF == s % 0xFFFF && (f == 0 <==> s == 0)
    ensures x == f <==> x % 0xFFFF == s % 0xFFFF && (x == 0 <==> s == 0)
  {
  }

  lemma SwapExact(s: nat, f: u16, c: u16)
    requires f % 0xFFFF == s % 0xFFFF && (f == 0 <==> s == 0)
    ensures var x := 0x100 * ((0xFFFF - c) % 0x100) + (0xFFFF - c) / 0x100;
      c == Not16(Htonw(f)) <==> x % 0xFFFF == s % 0xFFFF && (x == 0 <==> s == 0)
  {
    SwapBack(f, c);
    OnesUnique(0x100 * ((0xFFFF - c) % 0x100) + (0xFFFF - c) / 0x100, f, s);
  }

  /** Equal modulo 2^32. */
  ghost predicate Wrapped(a: nat, b: nat) {
    exists k: int :: a == b + WORD_LIMIT * k
  }

  lemma WrapNext(a: nat, sum: u32, x: nat, rest: nat)
    requires Wrapped(a, sum + x + rest) && x < WORD_LIMIT
    ensures Wrapped(a, Add32(sum, x) + rest)
  {
    var k: int :| a == sum + x + rest + WORD_LIMIT * k;
    var c := if sum + x < WORD_LIMIT then 0 else 1;
    assert Add32(sum, x) == sum + x - WORD_LIMIT * c;
    assert a == Add32(sum, x) + rest + WORD_LIMIT * (k + c);
  }

  lemma WrapEnd(a: nat, sum: u32)
    requires Wrapped(a, sum)
    ensures sum == a % WORD_LIMIT
  {
  }

  /** The second loop: it ends, and what is left fits in 16 bits. */
  method FoldLoop(sum0: u32) returns (sum: u32)
    ensures sum == Fold(sum0)
  {
    sum := sum0;
    while sum / 0x1_0000 != 0
      invariant Fold(sum) == Fold(sum0)
      decreases sum
    {
      sum := Add32(sum % 0x1_0000, sum / 0x1_0000);
    }
  }

  /** ip_calc_checksum */
  method IpCalcChecksum(sum0: u32, pack: seq<byte>) returns (r: u16)
    ensures r == Checksum(sum0, pack)
  {
    var sum: u32, i, len := sum0, 0, |pack|;
    assert pack[0..] == pack;
    assert sum0 + WordSum(pack) == sum + WordSum(pack[i..]) + WORD_LIMIT * 0;
    while len >= 2
      invariant 0 <= i && i + len == |pack| && len >= 0
      invariant Wrapped(sum0 + WordSum(pack), sum + WordSum(pack[i..]))
    {
      assert pack[i..][2..] == pack[i + 2..];
      WrapNext(sum0 + WordSum(pack), sum, 0x100 * pack[i] as int + pack[i + 1], WordSum(pack[i + 2..]));
      sum := Add32(sum, 0x100 * pack[i] as int + pack[i + 1]);
      i := i + 2;
      len := len - 2;
    }
    if len > 0 {
      WrapNext(sum0 + WordSum(pack), sum, 0x100 * pack[i] as int, 0);
      sum := Add32(sum, 0x100 * pack[i] as int);
    }
    WrapEnd(sum0 + WordSum(pack), sum);
    var folded := FoldLoop(sum);
    r := Not16(Htonw(folded));
  }
  lemma HtonwOf(h: byte, l: byte)
    ensures Htonw(0x100 * h as int + l) == 0x100 * l as int + h
  {
  }

  lemma SwapTwice(x: u16)
    ensures Not16(Htonw(x)) == 0 <==> x == 0xFFFF
    ensures Htonw(Not16(Htonw(x))) == 0xFFFF - x
  {
    var h, l := x / 0x100, x % 0x100;
    HtonwOf(h, l);
    HtonwOf(0xFF - l, 0xFF - h);
  }

  lemma OnesZero(s: nat, x: u16, c: u16)
    requires s % 0xFFFF == x % 0xFFFF && (x == 0 <==> s == 0) && (c == 0 <==> x == 0xFFFF)
    ensures c == 0 <==> s > 0 && s % 0xFFFF == 0
  {
  }

  lemma ChecksumIs(s: nat, sum: nat, pack: seq<byte>)
    requires s == sum + WordSum(pack) < WORD_LIMIT
    ensures Checksum(sum, pack) == Not16(Htonw(Fold(s)))
  {
    SmallSum(s);
    assert Fold((sum + WordSum(pack)) % WORD_LIMIT) == Fold(s);
  }

  lemma SmallSum(s: nat)
    requires s < WORD_LIMIT
    ensures s % WORD_LIMIT == s
  {
  }

  /** The checksum is 0 exactly for packets whose one's-complement sum is the nonzero zero. */
  lemma ZeroMeans(s: nat, sum: nat, pack: seq<byte>)
    requires s == sum + WordSum(pack) < WORD_LIMIT
    ensures Checksum(sum, pack) == 0 <==> s > 0 && s % 0xFFFF == 0
  {
    var x, c := Fold(s), Checksum(sum, pack);
    ChecksumIs(s, sum, pack);
    FoldIs(s);
    SwapTwice(x);
    OnesZero(s, x, c);
  }

  /** The two bytes of a little-endian 16-bit store. */
  function Stored(pack: seq<byte>, f: nat, w: u16): (r: seq<byte>)
    requires f + 2 <= |pack|
    ensures |r| == |pack|
  {
    pack[f := w % 0x100][f + 1 := w / 0x100]
  }

  lemma StoredSum(pack: seq<byte>, f: nat, w: u16)
    requires f % 2 == 0 && f + 2 <= |pack| && pack[f] == 0 && pack[f + 1] == 0
    ensures WordSum(Stored(pack, f, w)) == WordSum(pack) + Htonw(w)
  {
    var now := Stored(pack, f, w);
    WordSumFrom(pack, f);
    WordSumFrom(now, f);
    assert now[..f] == pack[..f] && now[f..][2..] == pack[f..][2..];
  }

  /** Storing the checksum in a zeroed, 16-bit aligned field makes the recomputation return 0. */
  lemma StoreThenVerify(sum: nat, pack: seq<byte>, f: nat)
    requires f % 2 == 0 && f + 2 <= |pack| && pack[f] == 0 && pack[f + 1] == 0
    requires sum + WordSum(pack) + 0xFFFF < WORD_LIMIT
    ensures Checksum(sum, Stored(pack, f, Checksum(sum, pack))) == 0
  {
    var s, c := sum + WordSum(pack), Checksum(sum, pack);
    var x := Fold(s);
    ChecksumIs(s, sum, pack);
    FoldIs(s);
    SwapTwice(x);
    StoredSum(pack, f, c);
    Complement(s, x);
    ZeroMeans(s + (0xFFFF - x), sum, Stored(pack, f, c));
  }

  lemma Complement(s: nat, x: u16)
    requires s % 0xFFFF == x % 0xFFFF && (x == 0 <==> s == 0)
    ensures s + (0xFFFF - x) > 0 && (s + (0xFFFF - x)) % 0xFFFF == 0
  {
    var q, p := s / 0xFFFF, x / 0xFFFF;
    assert s == 0xFFFF * q + s % 0xFFFF && x == 0xFFFF * p + x % 0xFFFF;
    assert s + (0xFFFF - x) == 0xFFFF * (q - p + 1);
  }
}
