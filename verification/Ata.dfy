/** The ATA driver: byte ranges over 512-byte sectors (src/ata.c). The sector
    commands themselves are replaced by an array of sectors. */
module Ata {
  import opened Machine

  const SECTOR_SIZE := 512

  type Sector = s: seq<byte> | |s| == SECTOR_SIZE witness seq(SECTOR_SIZE, _ => 0)

  /** The device seen as one run of bytes. */
  function Flat(sectors: seq<Sector>): (r: seq<byte>)
    ensures |r| == SECTOR_SIZE * |sectors|
    ensures forall k :: 0 <= k < |r| ==> r[k] == sectors[k / SECTOR_SIZE][k % SECTOR_SIZE]
  {
    seq(SECTOR_SIZE * |sectors|,
        k requires 0 <= k < SECTOR_SIZE * |sectors| => sectors[k / SECTOR_SIZE][k % SECTOR_SIZE])
  }

  /** Rewriting a piece of one sector rewrites the same piece of the byte run. */
  lemma FlatSplice(sectors: seq<Sector>, c: nat, off: nat, chunk: seq<byte>)
    requires c < |sectors| && off + |chunk| <= SECTOR_SIZE
    ensures Flat(sectors[c := Splice(sectors[c], off, chunk)]) == Splice(Flat(sectors), SECTOR_SIZE * c + off, chunk)
  {
    var l := Flat(sectors[c := Splice(sectors[c], off, chunk)]);
    var r := Splice(Flat(sectors), SECTOR_SIZE * c + off, chunk);
    forall k | 0 <= k < |l| ensures l[k] == r[k] {
      var q, m := k / SECTOR_SIZE, k % SECTOR_SIZE;
      assert k == SECTOR_SIZE * q + m;
      assert SECTOR_SIZE * c + off <= k < SECTOR_SIZE * c + off + |chunk| <==> q == c && off <= m < off + |chunk|;
    }
  }

  /** A piece of one sector is the same piece of the byte run. */
  lemma FlatSlice(sectors: seq<Sector>, c: nat, off: nat, n: nat)
    requires c < |sectors| && off + n <= SECTOR_SIZE
    ensures sectors[c][off..off + n] == Flat(sectors)[SECTOR_SIZE * c + off..SECTOR_SIZE * c + off + n]
  {
    var at, piece := SECTOR_SIZE * c + off, sectors[c][off..off + n];
    forall k | 0 <= k < n ensures piece[k] == Flat(sectors)[at + k] {
      assert (at + k) / SECTOR_SIZE == c && (at + k) % SECTOR_SIZE == off + k;
    }
  }

  /** The sector in which the driver stops: `(offset + size - 1) / 512` in 32-bit arithmetic. */
  function EndSector(offset: u32, size: u32): u32 {
    Sub32(Add32(offset, size), 1) / SECTOR_SIZE
  }

  /** The driver visits exactly the sectors that hold a byte of the range, unless
      the transfer is empty and starts at byte 0: then it runs over all 2^23 sectors. */
  lemma EndSectorExact(offset: u32, size: u32)
    requires offset + size < WORD_LIMIT
    ensures offset + size > 0 ==>
      forall c: nat :: offset / SECTOR_SIZE <= c ==> (c <= EndSector(offset, size) <==> SECTOR_SIZE * c < offset + size)
    ensures offset + size == 0 ==> EndSector(offset, size) == 0x7F_FFFF
  {
  }

  /** Where the driver's cursor stands when it is about to visit sector `c`. */
  function Cursor(offset: u32, size: u32, c: nat): int {
    Max(offset, Min(SECTOR_SIZE * c, offset + size))
  }

  lemma PieceExact(offset: u32, size: u32, c: u32, off: u32, n: u32)
    requires 0 < offset + size < WORD_LIMIT
    requires offset / SECTOR_SIZE <= c <= EndSector(offset, size)
    requires off == if c == offset / SECTOR_SIZE then offset % SECTOR_SIZE else 0
    requires n == if c == EndSector(offset, size)
                  then Add32(Sub32(Sub32(Add32(offset, size), 1) % SECTOR_SIZE, off), 1)
                  else SECTOR_SIZE - off
    ensures SECTOR_SIZE * c + off == Cursor(offset, size, c)
    ensures SECTOR_SIZE * c + off + n == Cursor(offset, size, c + 1)
    ensures off + n <= SECTOR_SIZE && SECTOR_SIZE * c < offset + size
  {
    var last := offset + size - 1;
    assert Sub32(Add32(offset, size), 1) == last;
    var q, m := last / SECTOR_SIZE, last % SECTOR_SIZE;
    assert EndSector(offset, size) == q && last == SECTOR_SIZE * q + m;
    var q0, m0 := offset / SECTOR_SIZE, offset % SECTOR_SIZE;
    assert offset == SECTOR_SIZE * q0 + m0;
    if c == q {
      assert n == m - off + 1 by {
        assert 0 <= m - off + 1 < WORD_LIMIT;
        WrapBack(m, off);
      }
    }
  }

  lemma WrapBack(m: u32, off: u32)
    requires 0 <= m - off + 1 < WORD_LIMIT
    ensures Add32(Sub32(m, off), 1) == m - off + 1
  {
  }

  /** The piece `[off, off + n)` of sector `cnter` that ata_read and ata_write both compute:
      it starts at the cursor and ends where the next sector's cursor stands. */
  method Piece(offset: u32, size: u32, cnter: u32) returns (off: u32, n: u32)
    requires 0 < offset + size < WORD_LIMIT
    requires offset / SECTOR_SIZE <= cnter <= EndSector(offset, size)
    ensures SECTOR_SIZE * cnter + off == Cursor(offset, size, cnter)
    ensures SECTOR_SIZE * cnter + off + n == Cursor(offset, size, cnter + 1)
    ensures off + n <= SECTOR_SIZE && SECTOR_SIZE * cnter < offset + size
  {
    var startSect := offset / SECTOR_SIZE;
    var startOffset := offset % SECTOR_SIZE;
    var endSect := EndSector(offset, size);
    var endOffset := Sub32(Add32(offset, size), 1) % SECTOR_SIZE;
    off := 0;
    n := SECTOR_SIZE;
    if cnter == startSect {
      off := startOffset;
      n := SECTOR_SIZE - off;
    }
    if cnter == endSect {
      n := Add32(Sub32(endOffset, off), 1);
    }
    PieceExact(offset, size, cnter, off, n);
  }

  lemma WriteStep(sectors: seq<Sector>, before: seq<byte>, offset: nat, src: seq<byte>, total: nat, c: nat, off: nat,
                  len: nat)
    requires offset + |src| <= |before| && total + len <= |src| && c < |sectors| && off + len <= SECTOR_SIZE
    requires Flat(sectors) == Splice(before, offset, src[..total])
    requires offset + total == SECTOR_SIZE * c + off
    ensures Flat(sectors[c := Splice(sectors[c], off, src[total..total + len])])
            == Splice(before, offset, src[..total + len])
  {
    var chunk := src[total..total + len];
    FlatSplice(sectors, c, off, chunk);
    SpliceSplice(before, offset, src[..total], chunk);
    assert src[..total] + chunk == src[..total + len];
  }

  lemma ReadStep(sectors: seq<Sector>, before: seq<byte>, offset: nat, src: seq<byte>, total: nat, c: nat, off: nat,
                 len: nat)
    requires offset + |src| <= SECTOR_SIZE * |sectors| && src == Flat(sectors)[offset..offset + |src|]
    requires |src| <= |before| && total + len <= |src|
    requires c < |sectors| && off + len <= SECTOR_SIZE
    requires offset + total == SECTOR_SIZE * c + off
    ensures Splice(Splice(before, 0, src[..total]), total, sectors[c][off..off + len])
            == Splice(before, 0, src[..total + len])
  {
    FlatSlice(sectors, c, off, len);
    assert sectors[c][off..off + len] == src[total..total + len];
    SpliceSplice(before, 0, src[..total], src[total..total + len]);
    assert src[..total] + src[total..total + len] == src[..total + len];
  }

  class AtaDevice {
    const sectors: array<Sector>

    constructor (sectors: array<Sector>)
      ensures this.sectors == sectors
    {
      this.sectors := sectors;
    }

    ghost function Bytes(): (r: seq<byte>)
      reads sectors
      ensures |r| == SECTOR_SIZE * sectors.Length
    {
      Flat(sectors[..])
    }

    /** A sector is read, changed from byte `off` on and written back. */
    method WriteSector(cnter: nat, off: nat, piece: seq<byte>)
      requires cnter < sectors.Length && off + |piece| <= SECTOR_SIZE
      modifies sectors
      ensures sectors[..] == old(sectors[..])[cnter := Splice(old(sectors[..])[cnter], off, piece)]
    {
      var ret := sectors[cnter];
      ret := Splice(ret, off, piece);
      sectors[cnter] := ret;
    }

    /** ata_write: read-modify-write of every sector the range touches. */
    method Write(offset: u32, size: u32, buff: seq<byte>) returns (total: u32)
      requires 0 < offset + size < WORD_LIMIT && offset + size <= SECTOR_SIZE * sectors.Length
      requires size <= |buff|
      modifies sectors
      ensures Bytes() == Splice(old(Bytes()), offset, buff[..size])
      ensures total == size
    {
      var currBuf := 0;
      var startSect := offset / SECTOR_SIZE;
      var endSect := EndSector(offset, size);
      total := 0;
      var cnter := startSect;
      EndSectorExact(offset, size);
      ghost var before, src := Bytes(), buff[..size];
      SpliceNothing(before, offset);

      while cnter <= endSect
        invariant startSect <= cnter
        invariant total == currBuf && offset + total == Cursor(offset, size, cnter)
        invariant Bytes() == Splice(before, offset, src[..total])
      {
        var off, n := Piece(offset, size, cnter);
        WriteStep(sectors[..], before, offset, src, total, cnter, off, n);
        assert buff[currBuf..currBuf + n] == src[total..total + n];
        WriteSector(cnter, off, buff[currBuf..currBuf + n]);
        currBuf := currBuf + n;
        total := total + n;
        cnter := cnter + 1;
      }
      assert src[..size] == src;
    }

    /** ata_read: copy the wanted piece of every sector the range touches. */
    method Read(offset: u32, size: u32, buff: array<byte>) returns (total: u32)
      requires 0 < offset + size < WORD_LIMIT && offset + size <= SECTOR_SIZE * sectors.Length
      requires size <= buff.Length
      modifies buff
      ensures buff[..] == Splice(old(buff[..]), 0, Bytes()[offset..offset + size])
      ensures total == size
    {
      var currBuf := 0;
      var startSect := offset / SECTOR_SIZE;
      var endSect := EndSector(offset, size);
      total := 0;
      var cnter := startSect;
      EndSectorExact(offset, size);
      ghost var before, src, sects := buff[..], Bytes()[offset..offset + size], sectors[..];
      SpliceNothing(before, 0);

      while cnter <= endSect
        invariant startSect <= cnter
        invariant total == currBuf && offset + total == Cursor(offset, size, cnter)
        invariant sectors[..] == sects && buff[..] == Splice(before, 0, src[..total])
      {
        var off, n := Piece(offset, size, cnter);
        var ret := sectors[cnter];
        ReadStep(sects, before, offset, src, total, cnter, off, n);
        Memcpy(buff, currBuf, ret[off..off + n]);
        currBuf := currBuf + n;
        total := total + n;
        cnter := cnter + 1;
      }
      assert src[..size] == src;
    }
  }

  /** memcpy of src/help_func.c into `dst + at`. */
  method Memcpy(dst: array<byte>, at: nat, src: seq<byte>)
    requires at + |src| <= dst.Length
    modifies dst
    ensures dst[..] == Splice(old(dst[..]), at, src)
  {
    ghost var before := dst[..];
    SpliceNothing(before, at);
    var i := 0;
    while i < |src|
      invariant 0 <= i <= |src|
      invariant dst[..] == Splice(before, at, src[..i])
    {
      SpliceSplice(before, at, src[..i], [src[i]]);
      assert src[..i] + [src[i]] == src[..i + 1];
      dst[at + i] := src[i];
      i := i + 1;
    }
    assert src[..|src|] == src;
  }
}
