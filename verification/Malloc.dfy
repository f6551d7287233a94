/** malloc on top of the pool: guarded blocks, and a pool that grows on demand. */
module Malloc {
  import opened Basics
  import opened FreeList
  import opened Zalloc

  const MALLOCALIGN: int := 12       // a long double, as it is larger than a Guard
  const GAMAGIC: int := 0x55FF44FD
  const GAFREE: int := 0x5F54F4DF
  const BLKEXTENDMASK: int := 4095
  const ENDMARK: int := -2
  const ENDFREED: int := -1

  datatype Freeing = Ignored | Panicked | Released

  /** What is asked of the pool for a request: room for the guard in front and the byte behind. */
  function Guarded(size: int): (bytes: int)
    requires 0 <= size < WORD
    ensures 0 <= bytes < WORD && (size < WORD - MALLOCALIGN - 1 ==> bytes == size + MALLOCALIGN + 1)
  {
    (size + MALLOCALIGN + 1) % WORD
  }

  /**
   The memory got for a request has room for it and its guards, unless the request is too near to 4 GB: then the sum with
   the guards rounds up to 0, and the pool gives the address -1, or has itself wrapped around to a few bytes.
   */
  lemma RoomForRequest(size: int)
    requires 0 <= size < WORD
    ensures RoundUp(Guarded(size)) >= size + MALLOCALIGN + 1 <==> size <= WORD - UNIT - MALLOCALIGN - 1
    ensures WORD - UNIT - MALLOCALIGN <= size <= WORD - MALLOCALIGN - 1 <==> RoundUp(Guarded(size)) == 0
    ensures size >= WORD - MALLOCALIGN ==>
      1 <= Guarded(size) <= MALLOCALIGN && UNIT <= RoundUp(Guarded(size)) <= 2 * UNIT
  {
  }

  /** By how much the pool grows; the sum wraps around at 32 bits. */
  function Increment(bytes: int): (incr: int)
    requires 0 <= bytes < WORD
    ensures incr % (BLKEXTENDMASK + 1) == 0 && incr % UNIT == 0
    ensures if bytes <= WORD - BLKEXTENDMASK - 1 then bytes <= incr <= bytes + BLKEXTENDMASK else incr == 0
  {
    var sum := (bytes + BLKEXTENDMASK) % WORD;
    assert sum == if bytes <= WORD - BLKEXTENDMASK - 1 then bytes + BLKEXTENDMASK else bytes + BLKEXTENDMASK - WORD;
    WholePages(sum, sum / (BLKEXTENDMASK + 1));
    sum / (BLKEXTENDMASK + 1) * (BLKEXTENDMASK + 1)
  }

  lemma WholePages(sum: int, pages: int)
    requires sum >= 0 && pages == sum / (BLKEXTENDMASK + 1)
    ensures pages >= 0 && pages * (BLKEXTENDMASK + 1) <= sum <= pages * (BLKEXTENDMASK + 1) + BLKEXTENDMASK
    ensures pages * (BLKEXTENDMASK + 1) % (BLKEXTENDMASK + 1) == 0 && pages * (BLKEXTENDMASK + 1) % UNIT == 0
  {
    Multiple(pages, BLKEXTENDMASK + 1);
    Multiple(pages * 512, UNIT);
  }

  lemma Multiple(k: int, d: int)
    requires d > 0
    ensures k * d % d == 0
  {
    var q, r := k * d / d, k * d % d;
    assert (k - q) * d == r;
    assert k - q >= 1 ==> (k - q - 1) * d >= 0;
    assert k - q <= -1 ==> (q - k - 1) * d >= 0;
  }

  lemma ExtensionSuffices(bytes: int)
    requires 0 < bytes <= WORD - BLKEXTENDMASK - 1
    ensures 0 < RoundUp(bytes) <= Increment(bytes) < WORD
  {
    var k, q := (bytes + BLKEXTENDMASK) % WORD / (BLKEXTENDMASK + 1), (bytes + UNIT - 1) / UNIT;
    assert bytes <= 8 * (512 * k);
    AtMost(bytes, q, 512 * k);
  }

  lemma AtMost(bytes: int, q: int, n: int)
    requires 8 * q <= bytes + 7 && bytes <= 8 * n
    ensures 8 * q <= 8 * n
  {
  }

  /** The region p..p + b shares no byte with the block q..q + c. */
  ghost predicate Apart(p: int, b: int, q: int, c: int) {
    p + b <= q || q + c <= p
  }

  ghost predicate InUse(free: seq<Region>, lo: int, end: int, p: int, b: int) {
    lo <= p && p + b <= end && !Overlapping(free, p, b)
  }

  /** The block at p has its guards, and lies in the used part of the pool. */
  ghost predicate BlockOk(held: map<int, int>, mem: map<int, MemNode>, data: Bytes, free: seq<Region>, lo: int, end: int, p: int)
    requires p in held
  {
    var bytes := held[p];
    && MALLOCALIGN < bytes <= WORD - UNIT && p > 0 && p % UNIT == 0
    && p in mem && mem[p] == MemNode(bytes, GAMAGIC) && At(data, p + bytes - 1) == ENDMARK
    && InUse(free, lo, end, p, RoundUp(bytes))
  }

  ghost predicate BlocksApart(held: map<int, int>, p: int, q: int)
    requires p in held && q in held
  {
    0 <= held[p] < WORD && 0 <= held[q] < WORD && Apart(p, RoundUp(held[p]), q, RoundUp(held[q]))
  }

  ghost predicate HeldOk(held: map<int, int>, mem: map<int, MemNode>, data: Bytes, free: seq<Region>, lo: int, end: int) {
    && (forall p :: p in held ==> BlockOk(held, mem, data, free, lo, end, p))
    && forall p, q :: p in held && q in held && p != q ==> BlocksApart(held, p, q)
  }

  /** The bytes of memory; those not mentioned are 0. */
  type Bytes = map<int, int>

  function At(data: Bytes, x: int): int {
    if x in data then data[x] else 0
  }

  /** Cells and bytes are the same memory: a byte is as before where no cell has been written. */
  ghost predicate Overlaid(mem: map<int, MemNode>, mem': map<int, MemNode>, data: Bytes, data': Bytes) {
    forall x :: SameNode(mem, mem', x - x % UNIT) ==> At(data', x) == At(data, x)
  }

  ghost predicate BlockKept(p: int, n: int, data: Bytes, data': Bytes) {
    forall x :: p <= x < p + n ==> At(data', x) == At(data, x)
  }

  /** All bytes of the blocks are as before. */
  ghost predicate HeldKept(held: map<int, int>, data: Bytes, data': Bytes) {
    forall p :: p in held ==> BlockKept(p, held[p], data, data')
  }

  lemma HeldKeptTrans(held: map<int, int>, data: Bytes, data': Bytes, data'': Bytes)
    requires HeldKept(held, data, data') && HeldKept(held, data', data'')
    ensures HeldKept(held, data, data'')
  {
    forall p | p in held ensures BlockKept(p, held[p], data, data'') {
      assert BlockKept(p, held[p], data, data') && BlockKept(p, held[p], data', data'');
      forall x | p <= x < p + held[p] ensures At(data'', x) == At(data, x) {
        assert At(data', x) == At(data, x);
      }
    }
  }

  /** A block in which no cell has been written. */
  lemma BytesKept(p: int, n: int, mem: map<int, MemNode>, mem': map<int, MemNode>, data: Bytes, data': Bytes)
    requires p % UNIT == 0 && 0 < n <= WORD - UNIT && Overlaid(mem, mem', data, data')
    requires forall c :: p <= c < p + RoundUp(n) ==> SameNode(mem, mem', c)
    ensures BlockKept(p, n, data, data')
  {
    forall x | p <= x < p + n ensures At(data', x) == At(data, x) {
      assert p <= x - x % UNIT < p + RoundUp(n);
    }
  }

  /** A block that overlaps no free memory survives all that is written to free memory. */
  lemma BlockSurvives(held: map<int, int>, mem: map<int, MemNode>, data: Bytes, free: seq<Region>, lo: int, end: int, p: int,
                      written: seq<Region>, mem': map<int, MemNode>, data': Bytes)
    requires p in held && BlockOk(held, mem, data, free, lo, end, p)
    requires Kept(mem, mem', written) && Overlaid(mem, mem', data, data') && !Overlapping(written, p, RoundUp(held[p]))
    ensures SameNode(mem, mem', p) && BlockKept(p, held[p], data, data') && At(data', p + held[p] - 1) == ENDMARK
  {
    forall c | p <= c < p + RoundUp(held[p]) ensures SameNode(mem, mem', c) {
      if Whole(written, c, UNIT) {
        assert Covers(written, c);
      }
    }
    BytesKept(p, held[p], mem, mem', data, data');
  }

  /** No block and no free byte is in the region. */
  ghost predicate Unused(held: map<int, int>, free: seq<Region>, p: int, b: int) {
    && !Overlapping(free, p, b)
    && forall q :: q in held ==> 0 <= held[q] < WORD && Apart(p, b, q, RoundUp(held[q]))
  }

  lemma AllocHeld(held: map<int, int>, mem: map<int, MemNode>, data: Bytes, free: seq<Region>, lo: int, end: int,
                  b: int, res: int, mem': map<int, MemNode>, data': Bytes, free': seq<Region>)
    requires Normal(free) && InPool(free, lo, end) && HeldOk(held, mem, data, free, lo, end)
    requires FirstFit(free, b, res, free') && Kept(mem, mem', free) && Overlaid(mem, mem', data, data') && b > 0
    ensures HeldOk(held, mem', data', free', lo, end) && HeldKept(held, data, data')
    ensures Unused(held, free', res, b) && res !in held && res > 0 && res % UNIT == 0 && lo <= res && res + b <= end
  {
    var i :| 0 <= i < |free| && res == free[i].addr && b <= free[i].size && free' == AllocAt(free, i, b);
    assert RegionOk(free[i]);
    forall x ensures Covers(free', x) <==> Covers(free, x) && !(res <= x < res + b) {
      AllocCovers(free, i, b, x);
    }
    forall p | p in held
      ensures BlockOk(held, mem', data', free', lo, end, p) && BlockKept(p, held[p], data, data')
      ensures Apart(res, b, p, RoundUp(held[p]))
    {
      assert BlockOk(held, mem, data, free, lo, end, p);
      BlockOffFree(free, i, p, RoundUp(held[p]));
      BlockSurvives(held, mem, data, free, lo, end, p, free, mem', data');
    }
    ApartStays(held, mem, data, free, lo, end);
  }

  lemma ApartStays(held: map<int, int>, mem: map<int, MemNode>, data: Bytes, free: seq<Region>, lo: int, end: int)
    requires HeldOk(held, mem, data, free, lo, end)
    ensures forall p, q :: p in held && q in held && p != q ==> BlocksApart(held, p, q)
  {
  }

  /** Whatever is written to free memory, the blocks stay as they are, in a pool that reaches at least as far. */
  lemma HeldStays(held: map<int, int>, mem: map<int, MemNode>, data: Bytes, free: seq<Region>, lo: int, end: int,
                  mem': map<int, MemNode>, data': Bytes, lo': int, end': int)
    requires HeldOk(held, mem, data, free, lo, end)
    requires Kept(mem, mem', free) && Overlaid(mem, mem', data, data') && (held == map[] || (lo' <= lo && end <= end'))
    ensures HeldOk(held, mem', data', free, lo', end') && HeldKept(held, data, data')
  {
    forall p | p in held ensures BlockOk(held, mem', data', free, lo', end', p) && BlockKept(p, held[p], data, data') {
      assert BlockOk(held, mem, data, free, lo, end, p);
      BlockSurvives(held, mem, data, free, lo, end, p, free, mem', data');
    }
  }

  /** A block that overlaps no free byte lies off every free region. */
  lemma BlockOffFree(free: seq<Region>, i: int, p: int, b: int)
    requires Normal(free) && 0 <= i < |free| && b > 0 && !Overlapping(free, p, b)
    ensures Apart(free[i].addr, free[i].size, p, b) && !Covers(free, p)
  {
    assert RegionOk(free[i]);
    assert free[i].addr <= p < free[i].End() ==> Covers(free, p);
    assert p <= free[i].addr < p + b ==> Covers(free, free[i].addr);
  }

  /** Freeing a region that holds none of the blocks leaves the blocks as they are. */
  lemma ReleaseHeld(held: map<int, int>, mem: map<int, MemNode>, data: Bytes, free: seq<Region>, lo: int, end: int,
                    p: int, b: int, mem': map<int, MemNode>, data': Bytes, free': seq<Region>)
    requires Normal(free) && HeldOk(held, mem, data, free, lo, end) && Unused(held, free, p, b)
    requires Freed(free, p, b, free') && Kept(mem, mem', free') && Overlaid(mem, mem', data, data')
    ensures HeldOk(held, mem', data', free', lo, end) && HeldKept(held, data, data')
    ensures Whole(free', p, b)
  {
    var i :| Fits(free, i, p, b) && free' == FreeAt(free, i, p, b);
    forall x ensures Covers(free', x) <==> Covers(free, x) || p <= x < p + b {
      FreeCovers(free, i, p, b, x);
    }
    FreeNormal(free, i, p, b);
    ConsecutiveInOne(free', p, b);
    forall q | q in held ensures BlockOk(held, mem', data', free', lo, end, q) && BlockKept(q, held[q], data, data') {
      assert BlockOk(held, mem, data, free, lo, end, q);
      assert !Overlapping(free', q, RoundUp(held[q]));
      BlockSurvives(held, mem, data, free, lo, end, q, free', mem', data');
    }
    ApartStays(held, mem, data, free, lo, end);
  }

  /** The result of a first fit is a region that was free. */
  lemma NotTooSmall(free: seq<Region>, p: int, b: int, need: int)
    requires Whole(free, p, b) && need <= b
    ensures !TooSmall(free, need)
  {
  }

  function Store(data: Bytes, x: int, b: int): Bytes {
    data[x := b]
  }

  lemma StoreAt(data: Bytes, x: int, b: int)
    ensures forall y :: At(Store(data, x, b), y) == if y == x then b else At(data, y)
  {
  }

  function Copy(data: Bytes, src: int, dst: int, n: int): Bytes
    decreases n
  {
    if n <= 0 then data else Store(Copy(data, src, dst, n - 1), dst + n - 1, At(data, src + n - 1))
  }

  lemma {:induction false} CopyAt(data: Bytes, src: int, dst: int, n: int, y: int)
    ensures At(Copy(data, src, dst, n), y) == if dst <= y < dst + n then At(data, y - dst + src) else At(data, y)
    decreases n
  {
    if n > 0 {
      CopyAt(data, src, dst, n - 1, y);
      StoreAt(Copy(data, src, dst, n - 1), dst + n - 1, At(data, src + n - 1));
    }
  }

  /** The n bytes at q are those that were at p. */
  ghost predicate SameBytes(data: Bytes, p: int, data': Bytes, q: int, n: int) {
    forall x :: q <= x < q + n ==> At(data', x) == At(data, x - q + p)
  }

  /** Bytes between the guards of a block may change. */
  lemma CopyHeld(held: map<int, int>, mem: map<int, MemNode>, data: Bytes, free: seq<Region>, lo: int, end: int,
                 ptr: int, newPtr: int, n: int)
    requires HeldOk(held, mem, data, free, lo, end)
    requires newPtr - MALLOCALIGN in held && n < held[newPtr - MALLOCALIGN] - MALLOCALIGN
    ensures HeldOk(held, mem, Copy(data, ptr, newPtr, n), free, lo, end)
  {
    var data' := Copy(data, ptr, newPtr, n);
    forall p | p in held ensures BlockOk(held, mem, data', free, lo, end, p) {
      CopiedBlock(held, mem, data, free, lo, end, ptr, newPtr, n, p);
    }
    ApartStays(held, mem, data, free, lo, end);
  }

  lemma CopiedBlock(held: map<int, int>, mem: map<int, MemNode>, data: Bytes, free: seq<Region>, lo: int, end: int,
                    ptr: int, newPtr: int, n: int, p: int)
    requires HeldOk(held, mem, data, free, lo, end) && p in held
    requires newPtr - MALLOCALIGN in held && n < held[newPtr - MALLOCALIGN] - MALLOCALIGN
    ensures BlockOk(held, mem, Copy(data, ptr, newPtr, n), free, lo, end, p)
  {
    var res := newPtr - MALLOCALIGN;
    assert BlockOk(held, mem, data, free, lo, end, res) && BlockOk(held, mem, data, free, lo, end, p);
    assert p != res ==> BlocksApart(held, p, res);
    EndOutside(p, held[p], res, held[res]);
    CopyAt(data, ptr, newPtr, n, p + held[p] - 1);
    SameEnd(held, mem, data, Copy(data, ptr, newPtr, n), free, lo, end, p);
  }

  lemma CopyOthers(held: map<int, int>, mem: map<int, MemNode>, data: Bytes, free: seq<Region>, lo: int, end: int,
                   ptr: int, newPtr: int, n: int)
    requires HeldOk(held, mem, data, free, lo, end)
    requires newPtr - MALLOCALIGN in held && n < held[newPtr - MALLOCALIGN] - MALLOCALIGN
    ensures HeldKept(held - {newPtr - MALLOCALIGN}, data, Copy(data, ptr, newPtr, n))
  {
    var res := newPtr - MALLOCALIGN;
    var rest, data' := held - {res}, Copy(data, ptr, newPtr, n);
    assert BlockOk(held, mem, data, free, lo, end, res);
    forall p | p in rest ensures BlockKept(p, rest[p], data, data') {
      assert BlockOk(held, mem, data, free, lo, end, p) && BlocksApart(held, p, res);
      forall x | p <= x < p + rest[p] ensures At(data', x) == At(data, x) {
        CopyAt(data, ptr, newPtr, n, x);
      }
    }
  }

  lemma CopySame(data: Bytes, ptr: int, newPtr: int, n: int)
    ensures SameBytes(data, ptr, Copy(data, ptr, newPtr, n), newPtr, n)
  {
    var data' := Copy(data, ptr, newPtr, n);
    forall x | newPtr <= x < newPtr + n ensures At(data', x) == At(data, x - newPtr + ptr) {
      CopyAt(data, ptr, newPtr, n, x);
    }
  }

  lemma SameEnd(held: map<int, int>, mem: map<int, MemNode>, data: Bytes, data': Bytes, free: seq<Region>, lo: int, end: int, p: int)
    requires p in held && BlockOk(held, mem, data, free, lo, end, p) && At(data', p + held[p] - 1) == At(data, p + held[p] - 1)
    ensures BlockOk(held, mem, data', free, lo, end, p)
  {
  }

  lemma EndOutside(p: int, bytes: int, q: int, bytes': int)
    requires 0 < bytes <= WORD - UNIT && 0 < bytes' <= WORD - UNIT
    requires if p == q then bytes == bytes' else Apart(p, RoundUp(bytes), q, RoundUp(bytes'))
    ensures p + bytes - 1 < q || q + bytes' - 1 <= p + bytes - 1
  {
  }

  lemma SameBytesKept(data: Bytes, p: int, data': Bytes, q: int, n: int, data'': Bytes, res: int, bytes: int)
    requires SameBytes(data, p, data', q, n) && BlockKept(res, bytes, data', data'') && res <= q && q + n <= res + bytes
    ensures SameBytes(data, p, data'', q, n)
  {
    forall x | q <= x < q + n ensures At(data'', x) == At(data, x - q + p) {
      assert At(data'', x) == At(data', x);
    }
  }

  /** A used address is no node's: what is written there leaves the list alone. */
  lemma NotNode(mem: map<int, MemNode>, first: int, free: seq<Region>, p: int, b: int, cell: MemNode)
    requires Normal(free) && Linked(mem, first, free) && b > 0 && !Overlapping(free, p, b)
    ensures Linked(mem[p := cell], first, free)
  {
    assert !Covers(free, p);
    var mem' := mem[p := cell];
    forall i | 0 <= i < |free| ensures NodeAt(mem', free, i) {
      assert NodeAt(mem, free, i);
      NodeFree(free, i);
    }
  }

  /** Only the guard of the block at res and bytes of that block have been written. */
  ghost predicate OwnWritten(res: int, bytes: int, mem: map<int, MemNode>, mem': map<int, MemNode>, data: Bytes, data': Bytes)
    requires 0 <= bytes < WORD
  {
    && (forall c :: c != res ==> SameNode(mem, mem', c))
    && forall x :: !(res <= x < res + RoundUp(bytes)) ==> At(data', x) == At(data, x)
  }

  lemma OtherBlock(held: map<int, int>, mem: map<int, MemNode>, data: Bytes, free: seq<Region>, lo: int, end: int, p: int,
                   res: int, bytes: int, mem': map<int, MemNode>, data': Bytes)
    requires p in held && BlockOk(held, mem, data, free, lo, end, p) && 0 <= bytes < WORD && res != p
    requires Apart(res, RoundUp(bytes), p, RoundUp(held[p])) && OwnWritten(res, bytes, mem, mem', data, data')
    ensures BlockOk(held, mem', data', free, lo, end, p) && BlockKept(p, held[p], data, data')
  {
    assert SameNode(mem, mem', p);
    forall x | p <= x < p + held[p] ensures At(data', x) == At(data, x) {
      assert !(res <= x < res + RoundUp(bytes));
    }
  }

  lemma GuardHeld(held: map<int, int>, mem: map<int, MemNode>, data: Bytes, free: seq<Region>, lo: int, end: int,
                  res: int, bytes: int, mem': map<int, MemNode>, data': Bytes)
    requires HeldOk(held, mem, data, free, lo, end) && res !in held
    requires MALLOCALIGN < bytes <= WORD - UNIT && res > 0 && res % UNIT == 0
    requires lo <= res && res + RoundUp(bytes) <= end && Unused(held, free, res, RoundUp(bytes))
    requires res in mem' && mem'[res] == MemNode(bytes, GAMAGIC) && At(data', res + bytes - 1) == ENDMARK
    requires OwnWritten(res, bytes, mem, mem', data, data')
    ensures HeldOk(held[res := bytes], mem', data', free, lo, end) && HeldKept(held, data, data')
  {
    var held' := held[res := bytes];
    forall p | p in held ensures BlockOk(held', mem', data', free, lo, end, p) && BlockKept(p, held[p], data, data') {
      assert BlockOk(held, mem, data, free, lo, end, p);
      OtherBlock(held, mem, data, free, lo, end, p, res, bytes, mem', data');
    }
    assert BlockOk(held', mem', data', free, lo, end, res);
    forall p, q | p in held' && q in held' && p != q ensures BlocksApart(held', p, q) {
      assert p != res && q != res ==> BlocksApart(held, p, q);
    }
  }

  /** Without the block at res, the rest is as before, whatever is done to the bytes and the guard of that block. */
  lemma DropHeld(held: map<int, int>, mem: map<int, MemNode>, data: Bytes, free: seq<Region>, lo: int, end: int,
                 res: int, mem': map<int, MemNode>, data': Bytes)
    requires HeldOk(held, mem, data, free, lo, end) && res in held && 0 <= held[res] < WORD
    requires OwnWritten(res, held[res], mem, mem', data, data')
    ensures HeldOk(held - {res}, mem', data', free, lo, end) && HeldKept(held - {res}, data, data')
    ensures Unused(held - {res}, free, res, RoundUp(held[res]))
  {
    var held' := held - {res};
    assert BlockOk(held, mem, data, free, lo, end, res);
    forall p | p in held'
      ensures BlockOk(held', mem', data', free, lo, end, p) && BlockKept(p, held'[p], data, data') && BlocksApart(held, res, p)
    {
      assert BlockOk(held, mem, data, free, lo, end, p) && BlocksApart(held, res, p);
      OtherBlock(held, mem, data, free, lo, end, p, res, held[res], mem', data');
    }
    forall p, q | p in held' && q in held' && p != q ensures BlocksApart(held', p, q) {
      assert BlocksApart(held, p, q);
    }
  }

  function Overwritten(mem: map<int, MemNode>, mem': map<int, MemNode>, data: Bytes, junk: Bytes): Bytes {
    map x | x in data.Keys + junk.Keys :: if SameNode(mem, mem', x - x % UNIT) then At(data, x) else At(junk, x)
  }

  /** The loop of Malloc ends, for these answers of sbrk. */
  ghost predicate Ends(bytes: int, free: seq<Region>, answers: seq<int>)
    requires 0 <= bytes < WORD
  {
    || RoundUp(bytes) == 0 || !TooSmall(free, RoundUp(bytes)) || -1 in answers
    || (answers != [] && bytes <= WORD - BLKEXTENDMASK - 1)
  }

  /** It ends without memory. */
  ghost predicate Refused(bytes: int, free: seq<Region>, answers: seq<int>)
    requires 0 <= bytes < WORD
  {
    && RoundUp(bytes) > 0 && TooSmall(free, RoundUp(bytes))
    && if bytes <= WORD - BLKEXTENDMASK - 1 then answers != [] && answers[0] == -1 else -1 in answers
  }

  /** A request for which an empty pool never has enough, however often sbrk succeeds. */
  lemma EndlessRequest(answers: seq<int>)
    requires -1 !in answers
    ensures var bytes := Guarded(0xFFFF_F000);
      Increment(bytes) == 0 && RoundUp(bytes) > 0 && !Ends(bytes, [], answers)
  {
  }

  /** In an empty pool there are no blocks. */
  lemma NoneInEmpty(held: map<int, int>, mem: map<int, MemNode>, data: Bytes, free: seq<Region>, lo: int, end: int)
    requires HeldOk(held, mem, data, free, lo, end)
    ensures end <= lo ==> held == map[]
  {
    forall p | p in held ensures lo < end {
      assert BlockOk(held, mem, data, free, lo, end, p);
    }
    assert end <= lo ==> held.Keys == {};
  }

  class Heap {
    const pool: MemPool
    var data: Bytes
    ghost var held: map<int, int>     // the blocks handed out, with the size asked of the pool

    ghost predicate Valid()
      reads this, pool
    {
      pool.Valid() && HeldOk(held, pool.mem, data, pool.free, pool.mpBase, pool.mpEnd)
    }

    constructor ()
      ensures Valid() && held == map[] && fresh(pool)
    {
      pool := new MemPool();
      data := map[];
      held := map[];
    }

    /** What sbrk may answer: nothing, or an aligned region nobody uses. */
    ghost predicate BreakOk(sbrk: int, incr: int)
      reads this, pool
    {
      sbrk == -1 || (sbrk > 0 && sbrk % UNIT == 0 && Unused(held, pool.free, sbrk, incr))
    }

    /** The cells written since the memory was mem0 are memory: whatever bytes were there are lost. */
    method Overlay(mem0: map<int, MemNode>)
      modifies `data
      ensures Overlaid(mem0, pool.mem, old(data), data)
    {
      var junk: Bytes := *;
      data := Overwritten(mem0, pool.mem, data, junk);
    }

    /** The pool gets the region from sbrk; nothing is free after it that was not before if the region is empty. */
    method Extend(sbrk: int, incr: int)
      requires Valid() && sbrk != -1 && BreakOk(sbrk, incr) && 0 <= incr < WORD && incr % UNIT == 0
      modifies pool, `data
      ensures Valid() && HeldKept(held, old(data), data)
      ensures if incr > 0 then Whole(pool.free, sbrk, incr) else pool.free == old(pool.free)
    {
      Reach(sbrk, incr);
      FreeRegion(sbrk, incr);
    }

    /** zextendPool, as far as the blocks see it. */
    method Reach(sbrk: int, incr: int)
      requires Valid() && sbrk > 0 && incr >= 0
      modifies pool
      ensures Valid() && pool.free == old(pool.free) && pool.mpBase <= sbrk && sbrk + incr <= pool.mpEnd
    {
      var mem0 := pool.mem;
      NoneInEmpty(held, pool.mem, data, pool.free, pool.mpBase, pool.mpEnd);
      pool.ZextendPool(sbrk, incr);
      HeldStays(held, mem0, data, pool.free, old(pool.mpBase), old(pool.mpEnd), mem0, data, pool.mpBase, pool.mpEnd);
    }

    method FreeRegion(sbrk: int, incr: int)
      requires Valid() && sbrk > 0 && sbrk % UNIT == 0 && 0 <= incr < WORD && incr % UNIT == 0
      requires Unused(held, pool.free, sbrk, incr) && pool.mpBase <= sbrk && sbrk + incr <= pool.mpEnd
      modifies pool, `data
      ensures Valid() && HeldKept(held, old(data), data)
      ensures if incr > 0 then Whole(pool.free, sbrk, incr) else pool.free == old(pool.free)
    {
      var mem0 := pool.mem;
      var panicked := pool.Zfree(sbrk, incr);
      Overlay(mem0);
      if incr > 0 {
        ReleaseHeld(held, mem0, old(data), old(pool.free), pool.mpBase, pool.mpEnd, sbrk, incr, pool.mem, data, pool.free);
      } else {
        HeldStays(held, mem0, old(data), pool.free, pool.mpBase, pool.mpEnd, pool.mem, data, pool.mpBase, pool.mpEnd);
      }
    }

    /** znalloc, as far as the blocks see it. */
    method Take(bytes: int) returns (res: int)
      requires Valid() && 0 <= bytes < WORD
      modifies pool, `data
      ensures Valid() && HeldKept(held, old(data), data)
      ensures RoundUp(bytes) == 0 ==> res == NOTHING && pool.free == old(pool.free)
      ensures RoundUp(bytes) > 0 ==> (res == NULL <==> TooSmall(old(pool.free), RoundUp(bytes)))
      ensures res == NULL ==> pool.free == old(pool.free)
      ensures RoundUp(bytes) > 0 && res != NULL ==> Given(res, bytes)
    {
      var mem0 := pool.mem;
      res := pool.Znalloc(bytes);
      Overlay(mem0);
      if RoundUp(bytes) > 0 && !TooSmall(old(pool.free), RoundUp(bytes)) {
        AllocHeld(held, mem0, old(data), old(pool.free), pool.mpBase, pool.mpEnd, RoundUp(bytes), res, pool.mem, data, pool.free);
      } else {
        HeldStays(held, mem0, old(data), pool.free, pool.mpBase, pool.mpEnd, pool.mem, data, pool.mpBase, pool.mpEnd);
      }
    }

    /** The pool gave res for bytes, and nothing has been written there. */
    ghost predicate Given(res: int, bytes: int)
      requires 0 <= bytes < WORD
      reads this, pool
    {
      && res > 0 && res % UNIT == 0 && res !in held
      && pool.mpBase <= res && res + RoundUp(bytes) <= pool.mpEnd
      && Unused(held, pool.free, res, RoundUp(bytes))
    }

    /** The block gets its guards. */
    method Guard(res: int, bytes: int)
      requires Valid() && MALLOCALIGN < bytes <= WORD - UNIT && Given(res, bytes)
      modifies this, pool`mem
      ensures Valid() && held == old(held)[res := bytes] && HeldKept(old(held), old(data), data)
    {
      NotNode(pool.mem, pool.mpFirst, pool.free, res, RoundUp(bytes), MemNode(bytes, GAMAGIC));
      var mem0 := pool.mem;
      pool.mem := pool.mem[res := MemNode(bytes, GAMAGIC)];
      Overlay(mem0);
      data := Store(data, res + bytes - 1, ENDMARK);
      GuardHeld(held, mem0, old(data), pool.free, pool.mpBase, pool.mpEnd, res, bytes, pool.mem, data);
      held := held[res := bytes];
    }

    /**
     A block with room for size bytes, apart from all others, whose bytes do not change.  The pool grows at most once,
     and when it does not get to an end it has asked in vain as often as it could.  Too near to 4 GB the memory falls
     short of the request: there is none, or 8 or 16 bytes, and what is then written to it is not followed.
     */
    method Malloc(size: int, answers: seq<int>) returns (ptr: int, ended: bool, ghost short: bool)
      requires Valid() && 0 <= size < WORD
      requires forall i :: 0 <= i < |answers| ==> BreakOk(answers[i], Increment(Guarded(size)))
      modifies this, pool
      ensures Valid() && HeldKept(old(held), old(data), data)
      ensures ended <==> Ends(Guarded(size), old(pool.free), answers)
      ensures ended ==> (ptr == NULL <==> Refused(Guarded(size), old(pool.free), answers))
      ensures !ended || ptr == NULL ==> held == old(held) && pool.free == old(pool.free)
      ensures short <==> ended && ptr != NULL && size > WORD - UNIT - MALLOCALIGN - 1
      ensures short ==> held == old(held) && FallsShort(ptr - MALLOCALIGN, size)
      ensures ended && ptr != NULL && !short ==>
        var res := ptr - MALLOCALIGN;
        res !in old(held) && held == old(held)[res := Guarded(size)]
    {
      var bytes := Guarded(size);
      short := false;
      RoomForRequest(size);
      var res;
      res, ended := Obtain(bytes, answers);
      if !ended || res == NULL {
        return NULL, ended, false;
      }
      if size > WORD - UNIT - MALLOCALIGN - 1 {
        return res + MALLOCALIGN, true, true;
      }
      ghost var taken := data;
      Guard(res, bytes);
      HeldKeptTrans(old(held), old(data), taken, data);
      ptr := res + MALLOCALIGN;
    }

    /**
     Asks the pool until it has the bytes; answers are what sbrk says, one after the other.  With an increment the first
     success ends it.  Without, an answer changes nothing, and only a refusal does.
     */
    method Obtain(bytes: int, answers: seq<int>) returns (res: int, ended: bool)
      requires Valid() && 0 <= bytes < WORD
      requires forall i :: 0 <= i < |answers| ==> BreakOk(answers[i], Increment(bytes))
      modifies pool, `data
      ensures Valid() && HeldKept(held, old(data), data)
      ensures ended <==> Ends(bytes, old(pool.free), answers)
      ensures ended ==> (res == NULL <==> Refused(bytes, old(pool.free), answers))
      ensures !ended || res == NULL ==> pool.free == old(pool.free)
      ensures ended && res != NULL ==> if RoundUp(bytes) == 0 then res == NOTHING else Given(res, bytes)
    {
      res := Take(bytes);
      var asked := 0;
      while res == NULL
        invariant Valid() && 0 <= asked <= |answers| && HeldKept(held, old(data), data)
        invariant res == NULL ==> pool.free == old(pool.free) && RoundUp(bytes) > 0 && TooSmall(pool.free, RoundUp(bytes))
        invariant res == NULL && asked > 0 ==> Increment(bytes) == 0
        invariant res == NULL ==> -1 !in answers[..asked]
        invariant res != NULL ==> Ends(bytes, old(pool.free), answers) && !Refused(bytes, old(pool.free), answers)
        invariant res != NULL ==> if RoundUp(bytes) == 0 then res == NOTHING else Given(res, bytes)
        decreases |answers| - asked
      {
        var incr := Increment(bytes);
        if asked == |answers| {
          assert answers[..asked] == answers;
          return NULL, false;
        }
        var sbrk := answers[asked];
        asked := asked + 1;
        if sbrk == -1 {
          assert -1 in answers;
          return NULL, true;
        }
        res := Retry(bytes, sbrk, incr);
      }
      ended := true;
    }

    /** One turn: the pool gets what sbrk gave, and is asked again. */
    method Retry(bytes: int, sbrk: int, incr: int) returns (res: int)
      requires Valid() && 0 <= bytes < WORD && RoundUp(bytes) > 0 && incr == Increment(bytes)
      requires TooSmall(pool.free, RoundUp(bytes)) && sbrk != -1 && BreakOk(sbrk, incr)
      modifies pool, `data
      ensures Valid() && HeldKept(held, old(data), data)
      ensures res == NULL <==> bytes > WORD - BLKEXTENDMASK - 1
      ensures if res == NULL then pool.free == old(pool.free) else Given(res, bytes)
    {
      Extend(sbrk, incr);
      if bytes <= WORD - BLKEXTENDMASK - 1 {
        ExtensionSuffices(bytes);
        NotTooSmall(pool.free, sbrk, incr, RoundUp(bytes));
      }
      ghost var extended := data;
      res := Take(bytes);
      HeldKeptTrans(held, old(data), extended, data);
    }

    /**
     A block handed out is always released; NULL is ignored, and so is a block whose guard says it is free.  Memory that
     has not been written is 0, which is no guard.
     */
    method Free(ptr: int) returns (r: Freeing)
      requires Valid()
      requires ptr != NULL && ptr - MALLOCALIGN in pool.mem && pool.mem[ptr - MALLOCALIGN].bytes == GAMAGIC ==>
        ptr - MALLOCALIGN in held
      modifies this, pool
      ensures Valid() && HeldKept(held, old(data), data)
      ensures ptr == NULL ==> r == Ignored
      ensures ptr != NULL && ptr - MALLOCALIGN !in old(held) ==>
        var res := ptr - MALLOCALIGN;
        r == if res in old(pool.mem) && old(pool.mem)[res].bytes == GAFREE then Ignored else Panicked
      ensures r != Released ==> held == old(held) && pool.free == old(pool.free) && data == old(data)
      ensures ptr != NULL && ptr - MALLOCALIGN in old(held) ==>
        var res := ptr - MALLOCALIGN; var bytes := old(held)[res];
        && r == Released && held == old(held) - {res}
        && Freed(old(pool.free), res, RoundUp(bytes), pool.free)
        && res in pool.mem
        && (if AtEnd(old(pool.free), res) then pool.mem[res].bytes == GAFREE else pool.mem[res].bytes % UNIT == 0)
    {
      if ptr == NULL {
        return Ignored;
      }
      var res := ptr - MALLOCALIGN;
      assert res in held ==> BlockOk(held, pool.mem, data, pool.free, pool.mpBase, pool.mpEnd, res);
      if res in pool.mem && pool.mem[res].bytes == GAFREE {
        return Ignored;
      }
      if res !in pool.mem || pool.mem[res].bytes != GAMAGIC {
        return Panicked;
      }
      r := Release(res);
    }

    method Release(res: int) returns (r: Freeing)
      requires Valid() && res in held && res in pool.mem && pool.mem[res].next == held[res]
      modifies this, pool
      ensures Valid() && r == Released && held == old(held) - {res}
      ensures Freed(old(pool.free), res, RoundUp(old(held)[res]), pool.free)
      ensures HeldKept(held, old(data), data)
      ensures res in pool.mem
      ensures if AtEnd(old(pool.free), res) then pool.mem[res].bytes == GAFREE else pool.mem[res].bytes % UNIT == 0
    {
      var bytes := pool.mem[res].next;
      r := Unguard(res, bytes);
      if r == Released {
        ghost var dropped := data;
        Give(res, bytes);
        HeldKeptTrans(held, old(data), dropped, data);
      }
    }

    /** Both guards now say that the block is free. */
    method Unguard(res: int, bytes: int) returns (r: Freeing)
      requires Valid() && res in held && bytes == held[res]
      modifies this, pool`mem
      ensures r == Released && held == old(held) - {res} && MALLOCALIGN < bytes <= WORD - UNIT
      ensures Valid() && Given(res, bytes) && HeldKept(held, old(data), data)
      ensures res in pool.mem && pool.mem[res].bytes == GAFREE && At(data, res + bytes - 1) == ENDFREED
    {
      assert BlockOk(held, pool.mem, data, pool.free, pool.mpBase, pool.mpEnd, res);
      NotNode(pool.mem, pool.mpFirst, pool.free, res, RoundUp(bytes), MemNode(bytes, GAFREE));
      var mem0 := pool.mem;
      pool.mem := pool.mem[res := MemNode(bytes, GAFREE)];
      Overlay(mem0);
      assert SameNode(mem0, pool.mem, res + bytes - 1 - (res + bytes - 1) % UNIT);
      if At(data, res + bytes - 1) == ENDFREED {
        return Ignored;
      }
      if At(data, res + bytes - 1) != ENDMARK {
        return Panicked;
      }
      data := Store(data, res + bytes - 1, ENDFREED);
      DropHeld(held, mem0, old(data), pool.free, pool.mpBase, pool.mpEnd, res, pool.mem, data);
      held := held - {res};
      r := Released;
    }

    /** zfree, as far as the blocks see it. */
    method Give(res: int, bytes: int)
      requires Valid() && MALLOCALIGN < bytes <= WORD - UNIT && Given(res, bytes)
      requires res in pool.mem
      modifies pool, `data
      ensures Valid() && Freed(old(pool.free), res, RoundUp(bytes), pool.free) && HeldKept(held, old(data), data)
      ensures res in pool.mem
      ensures if AtEnd(old(pool.free), res) then pool.mem[res] == old(pool.mem)[res] else pool.mem[res].bytes % UNIT == 0
    {
      var mem0 := pool.mem;
      var panicked := pool.Zfree(res, bytes);
      Overlay(mem0);
      ReleaseHeld(held, mem0, old(data), old(pool.free), pool.mpBase, pool.mpEnd, res, RoundUp(bytes), pool.mem, data, pool.free);
    }

    /**
     Freeing a block a second time at once: the guard is still there only if the block went to the end of the last
     free region; else a node is where the guard was, and that panics.
     */
    method FreeTwice(ptr: int) returns (r: Freeing)
      requires Valid() && ptr != NULL && ptr - MALLOCALIGN in held
      modifies this, pool
      ensures Valid() && held == old(held) - {ptr - MALLOCALIGN}
      ensures r == if AtEnd(old(pool.free), ptr - MALLOCALIGN) then Ignored else Panicked
    {
      var res := ptr - MALLOCALIGN;
      assert BlockOk(held, pool.mem, data, pool.free, pool.mpBase, pool.mpEnd, res);
      r := Free(ptr);
      r := Free(ptr);
    }

    /** What the pool has given has no room for the request. */
    ghost predicate FallsShort(res: int, size: int)
      requires 0 <= size < WORD
      reads this, pool
    {
      && RoundUp(Guarded(size)) < size
      && if RoundUp(Guarded(size)) == 0 then res == NOTHING else Given(res, Guarded(size)) && RoundUp(Guarded(size)) <= 2 * UNIT
    }

    /** A block of another size with the old contents as far as they fit; all other blocks keep theirs. */
    method Realloc(ptr: int, size: int, answers: seq<int>) returns (newPtr: int, ended: bool, ghost short: bool)
      requires Valid() && 0 <= size < WORD
      requires forall i :: 0 <= i < |answers| ==> BreakOk(answers[i], Increment(Guarded(size)))
      requires ptr != NULL ==> ptr - MALLOCALIGN in held
      modifies this, pool
      ensures Valid()
      ensures ended <==> Ends(Guarded(size), old(pool.free), answers)
      ensures ended ==> (newPtr == NULL <==> Refused(Guarded(size), old(pool.free), answers))
      ensures !ended || newPtr == NULL ==> held == old(held) && HeldKept(held, old(data), data)
      ensures short <==> ended && newPtr != NULL && size > WORD - UNIT - MALLOCALIGN - 1
      ensures short ==> held == old(held) && HeldKept(held, old(data), data) && FallsShort(newPtr - MALLOCALIGN, size)
      ensures ended && newPtr != NULL && !short ==> Reallocated(old(held), old(data), ptr, size, newPtr, held, data)
    {
      assert ptr != NULL ==> BlockOk(held, pool.mem, data, pool.free, pool.mpBase, pool.mpEnd, ptr - MALLOCALIGN);
      newPtr, ended, short := Malloc(size, answers);
      if ended && newPtr != NULL && size <= WORD - UNIT - MALLOCALIGN - 1 {
        ghost var given, mid := data, held;
        if ptr != NULL {
          CopyAndFree(ptr, newPtr, size);
          Done(old(held), old(data), given, data, ptr, size, newPtr, mid, held);
        } else {
          Fewer(old(held), held - {newPtr - MALLOCALIGN}, old(data), data);
        }
      }
    }

    method CopyAndFree(ptr: int, newPtr: int, size: int)
      requires Valid() && ptr != NULL && newPtr != NULL && ptr != newPtr && ptr - MALLOCALIGN in held
      requires 0 <= size < WORD - MALLOCALIGN - 1
      requires newPtr - MALLOCALIGN in held && held[newPtr - MALLOCALIGN] == size + MALLOCALIGN + 1
      modifies this, pool
      ensures Valid() && held == old(held) - {ptr - MALLOCALIGN}
      ensures HeldKept(held - {newPtr - MALLOCALIGN}, old(data), data)
      ensures SameBytes(old(data), ptr, data, newPtr, Min(size, old(held)[ptr - MALLOCALIGN] - MALLOCALIGN - 1))
    {
      CopyOld(ptr, newPtr, size);
      ghost var copied, n := data, Min(size, held[ptr - MALLOCALIGN] - MALLOCALIGN - 1);
      var r := Free(ptr);
      Survived(old(held), held, ptr - MALLOCALIGN, newPtr - MALLOCALIGN, old(data), copied, data, ptr, n);
    }

    /** The old block is copied as far as it fits; its end guard may come along. */
    method CopyOld(ptr: int, newPtr: int, size: int)
      requires Valid() && ptr - MALLOCALIGN in held && 0 <= size < WORD - MALLOCALIGN - 1
      requires newPtr - MALLOCALIGN in held && held[newPtr - MALLOCALIGN] == size + MALLOCALIGN + 1
      modifies `data
      ensures Valid() && MALLOCALIGN < held[ptr - MALLOCALIGN]
      ensures ptr - MALLOCALIGN in pool.mem && pool.mem[ptr - MALLOCALIGN] == MemNode(held[ptr - MALLOCALIGN], GAMAGIC)
      ensures SameBytes(old(data), ptr, data, newPtr, Min(size, held[ptr - MALLOCALIGN] - MALLOCALIGN - 1))
      ensures HeldKept(held - {newPtr - MALLOCALIGN}, old(data), data)
      ensures data == Copy(old(data), ptr, newPtr, Min(held[ptr - MALLOCALIGN] - MALLOCALIGN, size))
    {
      var res := ptr - MALLOCALIGN;
      assert BlockOk(held, pool.mem, data, pool.free, pool.mpBase, pool.mpEnd, res);
      var oldSize := pool.mem[res].next - MALLOCALIGN;
      CopyBytes(ptr, newPtr, Min(oldSize, size));
    }

    /** bcopy into a block. */
    method CopyBytes(ptr: int, newPtr: int, n: int)
      requires Valid() && newPtr - MALLOCALIGN in held && n < held[newPtr - MALLOCALIGN] - MALLOCALIGN
      modifies `data
      ensures Valid() && SameBytes(old(data), ptr, data, newPtr, n)
      ensures HeldKept(held - {newPtr - MALLOCALIGN}, old(data), data)
      ensures data == Copy(old(data), ptr, newPtr, n)
    {
      CopyHeld(held, pool.mem, data, pool.free, pool.mpBase, pool.mpEnd, ptr, newPtr, n);
      CopyOthers(held, pool.mem, data, pool.free, pool.mpBase, pool.mpEnd, ptr, newPtr, n);
      CopySame(data, ptr, newPtr, n);
      data := Copy(data, ptr, newPtr, n);
    }
  }

  /** What has been copied is still there after the old block has been freed, and so are the other blocks. */
  lemma Survived(held: map<int, int>, held': map<int, int>, res: int, newRes: int, data: Bytes, data': Bytes, data'': Bytes,
                 ptr: int, n: int)
    requires newRes in held' && held' == held - {res} && n < held'[newRes] - MALLOCALIGN
    requires SameBytes(data, ptr, data', newRes + MALLOCALIGN, n) && HeldKept(held - {newRes}, data, data')
    requires HeldKept(held', data', data'')
    ensures SameBytes(data, ptr, data'', newRes + MALLOCALIGN, n) && HeldKept(held' - {newRes}, data, data'')
  {
    assert BlockKept(newRes, held'[newRes], data', data'');
    if n > 0 {
      SameBytesKept(data, ptr, data', newRes + MALLOCALIGN, n, data'', newRes, held'[newRes]);
    }
    Fewer(held - {newRes}, held' - {newRes}, data, data');
    Fewer(held', held' - {newRes}, data', data'');
    HeldKeptTrans(held' - {newRes}, data, data', data'');
  }

  lemma Fewer(held: map<int, int>, held': map<int, int>, data: Bytes, data': Bytes)
    requires HeldKept(held, data, data') && forall p :: p in held' ==> p in held && held[p] == held'[p]
    ensures HeldKept(held', data, data')
  {
  }

  /** What Realloc does when it ends with a block. */
  ghost predicate Reallocated(held: map<int, int>, data: Bytes, ptr: int, size: int, newPtr: int, held': map<int, int>, data': Bytes)
    requires 0 <= size < WORD && (ptr != NULL ==> ptr - MALLOCALIGN in held)
  {
    var res := newPtr - MALLOCALIGN;
    && res !in held
    && held' == held[res := Guarded(size)] - (if ptr == NULL then {} else {ptr - MALLOCALIGN})
    && HeldKept(held' - {res}, data, data')
    && (ptr != NULL ==> SameBytes(data, ptr, data', newPtr, Min(size, held[ptr - MALLOCALIGN] - MALLOCALIGN - 1)))
  }

  lemma Done(held: map<int, int>, data: Bytes, data': Bytes, data'': Bytes, ptr: int, size: int, newPtr: int,
             mid: map<int, int>, held': map<int, int>)
    requires 0 <= size < WORD && ptr != NULL && ptr - MALLOCALIGN in held && newPtr - MALLOCALIGN !in held
    requires mid == held[newPtr - MALLOCALIGN := Guarded(size)] && held' == mid - {ptr - MALLOCALIGN}
    requires HeldKept(held, data, data') && HeldKept(held' - {newPtr - MALLOCALIGN}, data', data'')
    requires 0 < held[ptr - MALLOCALIGN]
    requires SameBytes(data', ptr, data'', newPtr, Min(size, mid[ptr - MALLOCALIGN] - MALLOCALIGN - 1))
    ensures Reallocated(held, data, ptr, size, newPtr, held', data'')
  {
    var rest := held' - {newPtr - MALLOCALIGN};
    Fewer(held, rest, data, data');
    HeldKeptTrans(rest, data, data', data'');
    var res, n := ptr - MALLOCALIGN, Min(size, held[ptr - MALLOCALIGN] - MALLOCALIGN - 1);
    assert BlockKept(res, held[res], data, data');
    forall x | newPtr <= x < newPtr + n ensures At(data'', x) == At(data, x - newPtr + ptr) {
      assert At(data', x - newPtr + ptr) == At(data, x - newPtr + ptr);
    }
  }
}
