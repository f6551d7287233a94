/** Reading a file for the boot loader through its three caches: inode, data block and indirect block. */
module Ufs {

  const VBLKSIZE: int := 4096
  const DEV_BSIZE: int := 512
  const DBPERVBLK: int := 8
  const NDADDR: int := 12

  datatype Dinode = Dinode(size: nat, db: seq<nat>, ib0: nat)

  /** The disk by bytes, and what the superblock says of its layout. */
  datatype Fs = Fs(
    disk: int -> int,
    vpb: nat,                      // virtual blocks to a block
    dbpf: nat,                     // sectors to a fragment
    fsize: nat,                    // bytes to a fragment
    nindir: nat,                   // indirect pointers to a virtual block
    inoVba: int -> nat,            // where inodes are
    inoVbo: int -> nat,
    dinode: (seq<int>, nat) -> Dinode,
    pointer: (seq<int>, nat) -> nat)

  predicate FsOk(fs: Fs) {
    && fs.vpb > 0 && fs.dbpf > 0 && fs.nindir > 0
    && fs.fsize > 0 && fs.fsize % DEV_BSIZE == 0 && Bsize(fs) % fs.fsize == 0
  }

  function Bsize(fs: Fs): int {
    fs.vpb * VBLKSIZE
  }

  function Bytes(fs: Fs, from: int, n: nat): (s: seq<int>)
    ensures |s| == n && forall i :: 0 <= i < n ==> s[i] == fs.disk(from + i)
  {
    seq(n, i => fs.disk(from + i))
  }

  /** The virtual block at a sector address. */
  function Vblk(fs: Fs, addr: int): (s: seq<int>)
    ensures |s| == VBLKSIZE
  {
    Bytes(fs, addr * DEV_BSIZE, VBLKSIZE)
  }

  function InodeOf(fs: Fs, inode: int): Dinode {
    fs.dinode(Vblk(fs, fs.inoVba(inode)), fs.inoVbo(inode))
  }

  /** Where the pointer to a block beyond the direct ones is kept: its virtual block of pointers, and its place there. */
  function RightPointer(fs: Fs, dp: Dinode, lbn: nat): nat
    requires FsOk(fs) && lbn >= NDADDR
  {
    var k, n := lbn - NDADDR, fs.nindir;
    fs.pointer(Vblk(fs, dp.ib0 * fs.dbpf + k / n * DBPERVBLK), k % n)
  }

  /** The pointer that is looked up. */
  function PointerRead(fs: Fs, dp: Dinode, lbn: nat): nat
    requires FsOk(fs) && lbn >= NDADDR
  {
    var k, n := lbn - NDADDR, fs.nindir;
    fs.pointer(Vblk(fs, dp.ib0 * fs.dbpf + k / (n * DBPERVBLK)), k % n)
  }

  /** The address of a block of a file, in fragments. */
  function BlockAddr(fs: Fs, dp: Dinode, lbn: nat): nat
    requires FsOk(fs) && |dp.db| == NDADDR
  {
    if lbn < NDADDR then dp.db[lbn] else RightPointer(fs, dp, lbn)
  }

  /** The address that is looked up. */
  function AddrRead(fs: Fs, dp: Dinode, lbn: nat): nat
    requires FsOk(fs) && |dp.db| == NDADDR
  {
    if lbn < NDADDR then dp.db[lbn] else PointerRead(fs, dp, lbn)
  }

  /** The sector address of the v-th virtual block of a file, whose block is at addr. */
  function VbAddr(fs: Fs, addr: nat, v: nat): nat
    requires FsOk(fs)
  {
    addr * fs.dbpf + v % fs.vpb * DBPERVBLK
  }

  function VbRead(fs: Fs, dp: Dinode, v: nat): nat
    requires FsOk(fs) && |dp.db| == NDADDR
  {
    VbAddr(fs, AddrRead(fs, dp, v / fs.vpb), v)
  }

  /** The bytes of a block are consecutive on the disk. */
  ghost function FileByte(fs: Fs, dp: Dinode, o: nat): int
    requires FsOk(fs) && |dp.db| == NDADDR
  {
    fs.disk(BlockAddr(fs, dp, o / Bsize(fs)) * fs.dbpf * DEV_BSIZE + o % Bsize(fs))
  }

  /** The byte at the address that is looked up for its block. */
  ghost function ByteRead(fs: Fs, dp: Dinode, o: nat): int
    requires FsOk(fs) && |dp.db| == NDADDR
  {
    fs.disk(AddrRead(fs, dp, o / Bsize(fs)) * fs.dbpf * DEV_BSIZE + o % Bsize(fs))
  }

  /** n bytes of the file from offset o on. */
  ghost function FileSlice(fs: Fs, dp: Dinode, o: nat, n: nat): (s: seq<int>)
    requires FsOk(fs) && |dp.db| == NDADDR
  {
    seq(n, i requires 0 <= i < n => FileByte(fs, dp, o + i))
  }

  /** n bytes from offset o on, by the addresses that are looked up. */
  ghost function SliceRead(fs: Fs, dp: Dinode, o: nat, n: nat): (s: seq<int>)
    requires FsOk(fs) && |dp.db| == NDADDR
  {
    seq(n, i requires 0 <= i < n => ByteRead(fs, dp, o + i))
  }

  /** Blocks with a pointer in the first indirect block: where the file ends for fsread. */
  function MaxOffset(fs: Fs): int {
    (NDADDR + fs.nindir * fs.vpb) * Bsize(fs)
  }

  /** The offset is in a block with a pointer in the first indirect block. */
  ghost predicate Reachable(fs: Fs, o: nat)
    requires FsOk(fs)
  {
    o / Bsize(fs) < NDADDR + fs.nindir * fs.vpb
  }

  ghost predicate NoHole(fs: Fs, dp: Dinode, v: nat)
    requires FsOk(fs) && |dp.db| == NDADDR
  {
    v * VBLKSIZE < dp.size ==> VbRead(fs, dp, v) != 0
  }

  ghost predicate SameNeed(fs: Fs, dp: Dinode, v: nat, w: nat)
    requires FsOk(fs) && |dp.db| == NDADDR
  {
    v * VBLKSIZE < dp.size && w * VBLKSIZE < dp.size && VbRead(fs, dp, v) == VbRead(fs, dp, w) ==>
      Need(fs, dp.size, v) == Need(fs, dp.size, w)
  }

  /** No holes, and a virtual block that comes twice is needed as far both times. */
  ghost predicate FileOk(fs: Fs, dp: Dinode) {
    && FsOk(fs) && |dp.db| == NDADDR
    && (forall v: nat :: NoHole(fs, dp, v))
    && (forall v: nat, w: nat :: SameNeed(fs, dp, v, w))
    && (dp.size > NDADDR * Bsize(fs) ==> dp.ib0 != 0)
  }

  function FragRoundUp(fs: Fs, n: nat): int
    requires fs.fsize > 0
  {
    (n + fs.fsize - 1) / fs.fsize * fs.fsize
  }

  /** How much of a block is on the disk. */
  function SblkSize(fs: Fs, size: nat, lbn: nat): int
    requires FsOk(fs)
  {
    if lbn >= NDADDR || size >= (lbn + 1) * Bsize(fs) then Bsize(fs) else FragRoundUp(fs, size % Bsize(fs))
  }

  /** How much of a virtual block is read. */
  function Need(fs: Fs, size: nat, v: nat): int
    requires FsOk(fs)
  {
    var n := SblkSize(fs, size, v / fs.vpb) - v % fs.vpb * VBLKSIZE;
    if n > VBLKSIZE then VBLKSIZE else n
  }

  lemma Divides(n: int, q: int, r: int, d: int)
    requires d > 0 && n == q * d + r && 0 <= r < d
    ensures n / d == q && n % d == r
  {
    var k := n / d - q;
    assert k * d == r - n % d by {
      assert n == n / d * d + n % d;
      assert k * d == n / d * d - q * d;
    }
    Small(k, d, r - n % d);
  }

  lemma Small(k: int, d: int, x: int)
    requires d > 0 && k * d == x && -d < x < d
    ensures k == 0
  {
    assert k >= 1 ==> k * d >= d;
    assert k <= -1 ==> (-k) * d >= d;
  }

  lemma Offset(fs: Fs, o: nat)
    requires FsOk(fs)
    ensures var v := o / VBLKSIZE;
      o / Bsize(fs) == v / fs.vpb && o % Bsize(fs) == v % fs.vpb * VBLKSIZE + o % VBLKSIZE
  {
    var v := o / VBLKSIZE;
    var q, h := v / fs.vpb, v % fs.vpb;
    assert v == q * fs.vpb + h;
    assert o == q * Bsize(fs) + (h * VBLKSIZE + o % VBLKSIZE) by {
      assert v * VBLKSIZE == q * fs.vpb * VBLKSIZE + h * VBLKSIZE;
      assert q * fs.vpb * VBLKSIZE == q * Bsize(fs);
    }
    assert h * VBLKSIZE <= (fs.vpb - 1) * VBLKSIZE;
    Divides(o, q, h * VBLKSIZE + o % VBLKSIZE, Bsize(fs));
  }

  /** n rounded up is the next multiple of whole fragments, and so of sectors. */
  lemma RoundedUp(fs: Fs, n: nat)
    requires FsOk(fs) && n < Bsize(fs)
    ensures n <= FragRoundUp(fs, n) <= Bsize(fs) && FragRoundUp(fs, n) % DEV_BSIZE == 0
  {
    var q, d := (n + fs.fsize - 1) / fs.fsize, fs.fsize;
    assert n + d - 1 == q * d + (n + d - 1) % d;
    var b := Bsize(fs) / d;
    assert Bsize(fs) == b * d;
    NotMore(q, b, d, n);
    Multiple(q, d / DEV_BSIZE);
    assert d == d / DEV_BSIZE * DEV_BSIZE;
    assert q * d == q * (d / DEV_BSIZE) * DEV_BSIZE;
  }

  lemma NotMore(q: int, b: int, d: int, n: int)
    requires d > 0 && q * d <= n + d - 1 && n < b * d
    ensures q * d <= b * d
  {
    var k := q - b;
    assert k * d == q * d - b * d;
    assert k >= 1 ==> k * d >= d;
    assert k <= 0 ==> k * d <= 0;
  }

  lemma Multiple(q: int, k: int)
    ensures q * k * DEV_BSIZE % DEV_BSIZE == 0
  {
  }

  /** What is read of the virtual block reaches beyond the offset, and is whole sectors. */
  lemma NeedOk(fs: Fs, size: nat, o: nat)
    requires FsOk(fs) && o < size
    ensures var n := Need(fs, size, o / VBLKSIZE);
      o % VBLKSIZE < n <= VBLKSIZE && n % DEV_BSIZE == 0
  {
    Offset(fs, o);
    var v := o / VBLKSIZE;
    var lbn, b := v / fs.vpb, Bsize(fs);
    assert o == lbn * b + o % b;
    var blk := SblkSize(fs, size, lbn);
    Multiple(fs.vpb, 8);
    assert b == fs.vpb * 8 * DEV_BSIZE;
    if !(lbn >= NDADDR || size >= (lbn + 1) * b) {
      assert (lbn + 1) * b == lbn * b + b;
      Divides(size, lbn, size - lbn * b, b);
      RoundedUp(fs, size % b);
    }
    assert o % b < blk && blk % DEV_BSIZE == 0;
    Sectors(blk, v % fs.vpb);
  }

  lemma Sectors(blk: int, h: int)
    requires blk % DEV_BSIZE == 0
    ensures (blk - h * VBLKSIZE) % DEV_BSIZE == 0
  {
    assert h * VBLKSIZE == h * 8 * DEV_BSIZE;
  }

  /** The buffer holds as much as is needed of the v-th virtual block of the file, which is at blkmap. */
  ghost predicate Cached(fs: Fs, dp: Dinode, blkmap: int, buf: seq<int>, v: nat)
    requires FsOk(fs) && |dp.db| == NDADDR && |buf| == VBLKSIZE
  {
    var n := Need(fs, dp.size, v);
    v * VBLKSIZE < dp.size && blkmap == VbRead(fs, dp, v)
    && 0 <= n <= VBLKSIZE && buf[..n] == Bytes(fs, blkmap * DEV_BSIZE, n)
  }

  ghost predicate SomeCached(fs: Fs, dp: Dinode, blkmap: int, buf: seq<int>)
    requires FsOk(fs) && |dp.db| == NDADDR && |buf| == VBLKSIZE
  {
    exists v: nat :: Cached(fs, dp, blkmap, buf, v)
  }

  ghost predicate Located(fs: Fs, dp: Dinode, o: nat, v: nat, vbaddr: int, vboff: int, n: int)
    requires FsOk(fs) && |dp.db| == NDADDR
  {
    && v * VBLKSIZE < dp.size && vbaddr == VbRead(fs, dp, v) && vboff == o % VBLKSIZE
    && n == Need(fs, dp.size, v) && vboff < n <= VBLKSIZE && n % DEV_BSIZE == 0
  }

  class Reader {
    const fs: Fs
    const blkbuf: array<int>
    const indbuf: array<int>
    var inomap: int
    var dp: Dinode
    var blkmap: int
    var indmap: int
    var fsOff: nat

    /** Each cache that is in use holds what the disk has where the cache says. */
    ghost predicate Valid()
      reads this, blkbuf, indbuf
    {
      && FsOk(fs) && blkbuf.Length == indbuf.Length == VBLKSIZE && blkbuf != indbuf
      && (inomap != 0 ==>
            && dp == InodeOf(fs, inomap) && FileOk(fs, dp) && fsOff <= dp.size
            && (blkmap != 0 ==> SomeCached(fs, dp, blkmap, blkbuf[..]))
            && (indmap != 0 ==> indbuf[..] == Vblk(fs, indmap)))
    }

    constructor (fs: Fs)
      requires FsOk(fs)
      ensures Valid() && this.fs == fs && inomap == 0 && fresh(blkbuf) && fresh(indbuf)
    {
      this.fs, inomap, dp, blkmap, indmap, fsOff := fs, 0, Dinode(0, seq(NDADDR, _ => 0), 0), 0, 0, 0;
      blkbuf := new int[VBLKSIZE];
      indbuf := new int[VBLKSIZE];
    }

    method Dskread(buf: array<int>, addr: int, nblk: nat)
      requires nblk * DEV_BSIZE <= buf.Length
      modifies buf
      ensures buf[..nblk * DEV_BSIZE] == Bytes(fs, addr * DEV_BSIZE, nblk * DEV_BSIZE)
      ensures forall k :: nblk * DEV_BSIZE <= k < buf.Length ==> buf[k] == old(buf[k])
    {
      for k := 0 to nblk * DEV_BSIZE
        invariant buf[..k] == Bytes(fs, addr * DEV_BSIZE, nblk * DEV_BSIZE)[..k]
        invariant forall j :: nblk * DEV_BSIZE <= j < buf.Length ==> buf[j] == old(buf[j])
      {
        buf[k] := fs.disk(addr * DEV_BSIZE + k);
      }
    }

    /** The inode becomes the current one; a new one starts at offset 0 with nothing else cached. */
    method Open(inode: int)
      requires Valid() && inode != 0 && FileOk(fs, InodeOf(fs, inode))
      modifies this, blkbuf
      ensures Valid() && inomap == inode && fsOff == if old(inomap) == inode then old(fsOff) else 0
    {
      if inomap != inode {
        Dskread(blkbuf, fs.inoVba(inode), DBPERVBLK);
        assert blkbuf[..VBLKSIZE] == blkbuf[..];
        dp := fs.dinode(blkbuf[..], fs.inoVbo(inode));
        inomap := inode;
        fsOff := 0;
        blkmap, indmap := 0, 0;
      }
    }

    /** Looks up where a block is. */
    method Bmap(lbn: nat) returns (addr: nat)
      requires Valid() && inomap != 0 && lbn * Bsize(fs) < dp.size
      modifies `indmap, indbuf
      ensures Valid() && addr == AddrRead(fs, dp, lbn)
    {
      if lbn < NDADDR {
        addr := dp.db[lbn];
      } else {
        var n := fs.nindir;
        var u: nat := (lbn - NDADDR) / (n * DBPERVBLK);
        BeyondDirect(fs, dp.size, lbn);
        Nonzero(dp.ib0, fs.dbpf);
        var vbaddr := dp.ib0 * fs.dbpf + u;
        FetchPointers(vbaddr);
        addr := fs.pointer(indbuf[..], (lbn - NDADDR) % n);
      }
    }

    /** The virtual block of pointers comes into its buffer, unless it is there. */
    method FetchPointers(vbaddr: nat)
      requires Valid() && inomap != 0 && vbaddr != 0
      modifies `indmap, indbuf
      ensures Valid() && indbuf[..] == Vblk(fs, vbaddr)
    {
      if indmap != vbaddr {
        ghost var block := blkbuf[..];
        Dskread(indbuf, vbaddr, DBPERVBLK);
        assert indbuf[..VBLKSIZE] == indbuf[..];
        indmap := vbaddr;
        assert blkbuf[..] == block;
      }
    }

    /** Copies up to nb bytes, as far as the virtual block reaches; fails beyond the first indirect block. */
    method Piece(nb: nat) returns (ok: bool, s: seq<int>)
      requires Valid() && inomap != 0 && 0 < nb && fsOff + nb <= dp.size
      modifies this, blkbuf, indbuf
      ensures Valid() && inomap == old(inomap) && dp == old(dp)
      ensures ok <==> Reachable(fs, old(fsOff))
      ensures ok ==> 0 < |s| <= nb && fsOff <= MaxOffset(fs)
      ensures !ok ==> s == []
      ensures s == SliceRead(fs, dp, old(fsOff), |s|) && fsOff == old(fsOff) + |s|
    {
      var vbaddr: nat, vboff: nat, n: nat;
      ok, vbaddr, vboff, n := Locate();
      if !ok {
        return false, [];
      }
      ghost var v := fsOff / VBLKSIZE;
      Fetch(vbaddr, n, v);
      s := Take(nb, vboff, n, v);
    }

    /** Which virtual block the offset is in, where in it, and how much of it there is. */
    method Locate() returns (ok: bool, vbaddr: nat, vboff: nat, n: nat)
      requires Valid() && inomap != 0 && fsOff < dp.size
      modifies `indmap, indbuf
      ensures Valid() && (ok <==> Reachable(fs, fsOff))
      ensures ok ==> Located(fs, dp, fsOff, fsOff / VBLKSIZE, vbaddr, vboff, n)
    {
      var lbn, off := fsOff / Bsize(fs), fsOff % Bsize(fs);
      BlockOf(fs, fsOff, lbn);
      if lbn >= NDADDR + fs.nindir * fs.vpb {
        return false, 0, 0, 0;
      }
      var addr := Bmap(lbn);
      vbaddr, vboff, n := Place(fs, dp, fsOff, lbn, off, addr);
      ok := true;
    }

    /** Copies out of the buffer what is wanted and there. */
    method Take(nb: nat, vboff: nat, got: nat, ghost v: nat) returns (s: seq<int>)
      requires Valid() && inomap != 0 && 0 < nb && fsOff + nb <= dp.size
      requires v == fsOff / VBLKSIZE && vboff == fsOff % VBLKSIZE < got <= VBLKSIZE && got == Need(fs, dp.size, v)
      requires Cached(fs, dp, blkmap, blkbuf[..], v)
      requires Reachable(fs, fsOff)
      modifies `fsOff
      ensures Valid() && 0 < |s| <= nb && s == SliceRead(fs, dp, old(fsOff), |s|)
      ensures fsOff == old(fsOff) + |s| <= MaxOffset(fs)
    {
      var n := got - vboff;
      if n > nb {
        n := nb;
      }
      s := blkbuf[vboff..vboff + n];
      CopiedSlice(fs, dp, fsOff, v, n, got, blkbuf[..], s);
      WithinBlock(fs, fsOff, n);
      fsOff := fsOff + n;
    }

    /** The virtual block comes into the buffer, unless it is there. */
    method Fetch(vbaddr: nat, n: int, ghost v: nat)
      requires Valid() && inomap != 0 && v * VBLKSIZE < dp.size && vbaddr == VbRead(fs, dp, v)
      requires n == Need(fs, dp.size, v) && 0 < n <= VBLKSIZE && n % DEV_BSIZE == 0
      modifies `blkmap, blkbuf
      ensures Valid() && blkmap == vbaddr && Cached(fs, dp, blkmap, blkbuf[..], v)
    {
      assert NoHole(fs, dp, v);
      if blkmap != vbaddr {
        assert n / DEV_BSIZE * DEV_BSIZE == n;
        Dskread(blkbuf, vbaddr, n / DEV_BSIZE);
        blkmap := vbaddr;
        assert Cached(fs, dp, blkmap, blkbuf[..], v);
      } else {
        ghost var w: nat :| Cached(fs, dp, blkmap, blkbuf[..], w);
        assert SameNeed(fs, dp, v, w);
      }
    }

    /**
     Whatever the caches hold: as many bytes as asked for or as there are, by the addresses looked up, unless they reach
     beyond the first indirect block; and bytes that are right as far as those addresses are.
     */
    method FsRead(inode: int, nbyte: nat) returns (r: int, s: seq<int>)
      requires Valid() && (inode != 0 ==> FileOk(fs, InodeOf(fs, inode)))
      modifies this, blkbuf, indbuf
      ensures Valid()
      ensures inode == 0 ==> r == 0 && s == [] && fsOff == old(fsOff) && inomap == old(inomap)
      ensures inode != 0 ==>
        var dp, o := InodeOf(fs, inode), if old(inomap) == inode then old(fsOff) else 0;
        var n := if nbyte > dp.size - o then dp.size - o else nbyte;
        && o <= dp.size && inomap == inode
        && r == (if n > 0 && o + n > MaxOffset(fs) then -1 else n)
        && (r >= 0 ==> s == SliceRead(fs, dp, o, n) && fsOff == o + n)
        && (r >= 0 && o + n <= (NDADDR + fs.nindir) * Bsize(fs) ==> s == FileSlice(fs, dp, o, n))
    {
      s := [];
      if inode == 0 {
        return 0, s;
      }
      Open(inode);
      ghost var o := fsOff;
      var n := dp.size - fsOff;
      var count := if nbyte > n then n else nbyte;
      var nb := count;
      while nb > 0
        invariant Valid() && inomap == inode && dp == InodeOf(fs, inode)
        invariant 0 <= nb <= count && |s| == count - nb && fsOff == o + |s| && o + count <= dp.size
        invariant s == SliceRead(fs, dp, o, |s|) && (|s| > 0 ==> fsOff <= MaxOffset(fs))
      {
        ReachableBelow(fs, fsOff);
        var ok, piece := Piece(nb);
        if !ok {
          return -1, s;
        }
        SliceMore(fs, dp, o, |s|, |piece|);
        s := s + piece;
        nb := nb - |piece|;
      }
      r := count;
      if o + count <= (NDADDR + fs.nindir) * Bsize(fs) {
        SliceRight(fs, dp, o, count);
      }
    }
  }

  lemma SliceMore(fs: Fs, dp: Dinode, o: nat, n: nat, m: nat)
    requires FsOk(fs) && |dp.db| == NDADDR
    ensures SliceRead(fs, dp, o, n) + SliceRead(fs, dp, o + n, m) == SliceRead(fs, dp, o, n + m)
  {
    var a, b, c := SliceRead(fs, dp, o, n), SliceRead(fs, dp, o + n, m), SliceRead(fs, dp, o, n + m);
    forall j | 0 <= j < m ensures b[j] == c[n + j] {
      assert o + n + j == o + (n + j);
    }
    assert a + b == c;
  }

  /** The virtual block of pointers that is read is the right one for the first of them only. */
  lemma WindowRead(k: nat, n: nat)
    requires n > 0
    ensures k / (n * DBPERVBLK) == k / n * DBPERVBLK <==> k < n
  {
    var q := k / n;
    assert k == q * n + k % n;
    if k < n {
      Divides(k, 0, k, n * DBPERVBLK);
      Divides(k, 0, k, n);
    } else {
      assert q >= 1 by {
        assert q <= 0 ==> q * n <= 0;
      }
      Shrinks(k, n * DBPERVBLK, q, n);
    }
  }

  lemma Shrinks(k: nat, d: nat, q: nat, n: nat)
    requires n > 0 && d == n * DBPERVBLK && k < q * n + n && q >= 1
    ensures k / d < q * DBPERVBLK
  {
    var j := k / d;
    assert k == j * d + k % d && j * d == j * DBPERVBLK * n;
    var e := j * DBPERVBLK - q - 1;
    assert e * n == j * DBPERVBLK * n - q * n - n;
    assert e >= 0 ==> e * n >= 0;
  }

  /**
   Which pointer is read for the blocks of the first eight virtual blocks of pointers: that of a block of the first.
   It is right exactly for those, and where a later block happens to have the same pointer.
   */
  lemma PointersRead(fs: Fs, dp: Dinode, lbn: nat)
    requires FsOk(fs) && NDADDR <= lbn < NDADDR + fs.nindir * DBPERVBLK
    ensures PointerRead(fs, dp, lbn) == RightPointer(fs, dp, NDADDR + (lbn - NDADDR) % fs.nindir)
    ensures PointerRead(fs, dp, lbn) == RightPointer(fs, dp, lbn) <==>
      lbn < NDADDR + fs.nindir || RightPointer(fs, dp, NDADDR + (lbn - NDADDR) % fs.nindir) == RightPointer(fs, dp, lbn)
  {
    var k, n := lbn - NDADDR, fs.nindir;
    Divides(k, 0, k, n * DBPERVBLK);
    Divides(k % n, 0, k % n, n);
    if k < n {
      Divides(k, 0, k, n);
    }
  }

  /**
   A file system with blocks of 8 KB and 1024 pointers to a virtual block, on a disk whose bytes are their addresses.  Its
   files have one block more than the first virtual block of pointers has room for.
   */
  function ExampleFs(): Fs {
    Fs(x => x, 2, 1, 512, 1024, x => 8, x => 0,
       (b, i) => Dinode((NDADDR + 1024 + 1) * 8192, seq(NDADDR, k => 500 + 16 * k), 1000),
       (b, i) => if |b| > 0 && b[0] > 0 then b[0] + 16 * i else 1)
  }

  const ExampleOffset: nat := (NDADDR + 1024) * 8192

  /** The file can be opened, and its last block is read from the address of its first indirect one. */
  lemma WrongByte()
    ensures var fs := ExampleFs(); var dp := InodeOf(fs, 2);
      && FileOk(fs, dp) && ExampleOffset < dp.size && ExampleOffset + 1 <= MaxOffset(fs)
      && ByteRead(fs, dp, ExampleOffset) != FileByte(fs, dp, ExampleOffset)
  {
    var fs := ExampleFs();
    var dp := InodeOf(fs, 2);
    forall v: nat ensures NoHole(fs, dp, v) {
      ExampleVb(fs, dp, v);
    }
    forall v: nat, w: nat ensures SameNeed(fs, dp, v, w) {
      ExampleNeed(fs, dp, v);
      ExampleNeed(fs, dp, w);
    }
    var v := ExampleOffset / VBLKSIZE;
    assert v / fs.vpb == NDADDR + 1024 && v % fs.vpb == 0;
    ExamplePointers(fs, dp);
  }

  lemma ExamplePointers(fs: Fs, dp: Dinode)
    requires fs == ExampleFs() && dp == InodeOf(fs, 2)
    ensures FsOk(fs) && PointerRead(fs, dp, NDADDR + 1024) == 1000 * 512
    ensures RightPointer(fs, dp, NDADDR + 1024) == 1008 * 512
  {
    assert Vblk(fs, 1000)[0] == 1000 * 512 && Vblk(fs, 1008)[0] == 1008 * 512;
  }

  lemma ExampleVb(fs: Fs, dp: Dinode, v: nat)
    requires fs == ExampleFs() && dp == InodeOf(fs, 2)
    ensures FsOk(fs) && |dp.db| == NDADDR && VbRead(fs, dp, v) > 0
  {
    var lbn := v / fs.vpb;
    if lbn >= NDADDR {
      var addr := dp.ib0 * fs.dbpf + (lbn - NDADDR) / (fs.nindir * DBPERVBLK);
      assert Vblk(fs, addr)[0] == addr * 512;
    }
  }

  lemma ExampleNeed(fs: Fs, dp: Dinode, v: nat)
    requires fs == ExampleFs() && dp == InodeOf(fs, 2)
    ensures FsOk(fs) && (v * VBLKSIZE < dp.size ==> Need(fs, dp.size, v) == VBLKSIZE)
  {
    assert v * VBLKSIZE < dp.size ==> v / 2 <= NDADDR + 1024;
  }

  /** What fsread says of the last block of that file is wrong. */
  method WrongByteRead() returns (r: int, s: seq<int>)
    ensures r == ExampleOffset + 1 == |s| && |InodeOf(ExampleFs(), 2).db| == NDADDR && FsOk(ExampleFs())
    ensures s[ExampleOffset] != FileByte(ExampleFs(), InodeOf(ExampleFs(), 2), ExampleOffset)
  {
    WrongByte();
    var reader := new Reader(ExampleFs());
    r, s := reader.FsRead(2, ExampleOffset + 1);
  }

  lemma SliceRight(fs: Fs, dp: Dinode, o: nat, n: nat)
    requires FsOk(fs) && |dp.db| == NDADDR && o + n <= (NDADDR + fs.nindir) * Bsize(fs)
    ensures SliceRead(fs, dp, o, n) == FileSlice(fs, dp, o, n)
  {
    var a, b := SliceRead(fs, dp, o, n), FileSlice(fs, dp, o, n);
    forall i | 0 <= i < n ensures a[i] == b[i] {
      ByteRight(fs, dp, o + i);
    }
  }

  lemma ByteRight(fs: Fs, dp: Dinode, o: nat)
    requires FsOk(fs) && |dp.db| == NDADDR && o < (NDADDR + fs.nindir) * Bsize(fs)
    ensures ByteRead(fs, dp, o) == FileByte(fs, dp, o)
  {
    BlockBelow(fs, o, o / Bsize(fs), NDADDR + fs.nindir);
    var lbn := o / Bsize(fs);
    if lbn >= NDADDR {
      WindowRead(lbn - NDADDR, fs.nindir);
    }
  }

  lemma Nonzero(a: nat, b: nat)
    requires a != 0 && b != 0
    ensures a * b != 0
  {
  }

  lemma BeyondDirect(fs: Fs, size: nat, lbn: nat)
    requires FsOk(fs) && lbn >= NDADDR && lbn * Bsize(fs) < size
    ensures size > NDADDR * Bsize(fs)
  {
    assert lbn * Bsize(fs) == NDADDR * Bsize(fs) + (lbn - NDADDR) * Bsize(fs);
  }

  /** An offset is below a multiple of the block size exactly if its block is below. */
  lemma BlockBelow(fs: Fs, o: nat, lbn: nat, m: int)
    requires FsOk(fs) && lbn == o / Bsize(fs)
    ensures lbn < m <==> o < m * Bsize(fs)
    ensures lbn * Bsize(fs) <= o < (lbn + 1) * Bsize(fs)
  {
    var b := Bsize(fs);
    assert o == lbn * b + o % b;
    var k := lbn - m;
    assert k * b == lbn * b - m * b;
    assert k >= 0 ==> k * b >= 0;
    assert k <= -1 ==> (k + 1) * b <= 0;
  }

  lemma BlockOf(fs: Fs, o: nat, lbn: nat)
    requires FsOk(fs) && lbn == o / Bsize(fs)
    ensures lbn * Bsize(fs) <= o
  {
    BlockBelow(fs, o, lbn, 0);
  }

  lemma ReachableBelow(fs: Fs, o: nat)
    requires FsOk(fs)
    ensures Reachable(fs, o) <==> o < MaxOffset(fs)
  {
    BlockBelow(fs, o, o / Bsize(fs), NDADDR + fs.nindir * fs.vpb);
  }

  /** What is left of a virtual block does not reach beyond the block. */
  lemma WithinBlock(fs: Fs, o: nat, n: nat)
    requires FsOk(fs) && Reachable(fs, o) && o % VBLKSIZE + n <= VBLKSIZE
    ensures o + n <= MaxOffset(fs)
  {
    Offset(fs, o);
    var b := Bsize(fs);
    assert o / VBLKSIZE % fs.vpb * VBLKSIZE <= (fs.vpb - 1) * VBLKSIZE;
    assert o == o / b * b + o % b;
    BlocksBelow(o / b, NDADDR + fs.nindir * fs.vpb, b);
  }

  lemma BlocksBelow(lbn: int, m: int, b: int)
    requires lbn < m && b >= 0
    ensures lbn * b + b <= m * b
  {
    assert (m - lbn - 1) * b >= 0;
  }

  /** The virtual block of an offset in the block at addr. */
  method Place(fs: Fs, dp: Dinode, o: nat, lbn: nat, off: nat, addr: nat) returns (vbaddr: nat, vboff: nat, n: nat)
    requires FsOk(fs) && |dp.db| == NDADDR && o < dp.size
    requires lbn == o / Bsize(fs) && off == o % Bsize(fs) && addr == AddrRead(fs, dp, lbn)
    ensures Located(fs, dp, o, o / VBLKSIZE, vbaddr, vboff, n)
  {
    Offset(fs, o);
    NeedOk(fs, dp.size, o);
    OffsetParts(o / VBLKSIZE % fs.vpb, o % VBLKSIZE);
    vbaddr := addr * fs.dbpf + off / VBLKSIZE * DBPERVBLK;
    vboff := off % VBLKSIZE;
    var m := SblkSize(fs, dp.size, lbn) - (off - vboff);
    if m > VBLKSIZE {
      m := VBLKSIZE;
    }
    n := m;
  }

  lemma OffsetParts(h: nat, t: nat)
    requires t < VBLKSIZE
    ensures (h * VBLKSIZE + t) / VBLKSIZE == h && (h * VBLKSIZE + t) % VBLKSIZE == t
  {
  }

  /** Where a byte is in its virtual block. */
  lemma VirtualByte(fs: Fs, dp: Dinode, o: nat)
    requires FsOk(fs) && |dp.db| == NDADDR
    ensures ByteRead(fs, dp, o) == fs.disk(VbRead(fs, dp, o / VBLKSIZE) * DEV_BSIZE + o % VBLKSIZE)
  {
    Offset(fs, o);
    var v := o / VBLKSIZE;
    var addr, h := AddrRead(fs, dp, o / Bsize(fs)) * fs.dbpf, v % fs.vpb;
    assert (addr + h * DBPERVBLK) * DEV_BSIZE == addr * DEV_BSIZE + h * VBLKSIZE;
  }

  lemma CopiedSlice(fs: Fs, dp: Dinode, o: nat, v: nat, n: nat, need: nat, buf: seq<int>, s: seq<int>)
    requires FsOk(fs) && |dp.db| == NDADDR && v == o / VBLKSIZE
    requires o % VBLKSIZE + n <= need <= VBLKSIZE && need <= |buf|
    requires buf[..need] == Bytes(fs, VbRead(fs, dp, v) * DEV_BSIZE, need)
    requires s == buf[o % VBLKSIZE..o % VBLKSIZE + n]
    ensures s == SliceRead(fs, dp, o, n)
  {
    var t := o % VBLKSIZE;
    forall i | 0 <= i < n ensures s[i] == ByteRead(fs, dp, o + i) {
      assert (o + i) / VBLKSIZE == v && (o + i) % VBLKSIZE == t + i;
      VirtualByte(fs, dp, o + i);
      assert s[i] == buf[..need][t + i];
    }
  }
}
