/** The pool allocator: the free list is kept in the free memory itself. */
module Zalloc {
  import opened FreeList

  /** What a free region holds at its beginning. */
  datatype MemNode = MemNode(next: int, bytes: int)

  const NULL: int := 0
  const NOTHING: int := -1   // what an allocation of 0 bytes returns
  const WORD: int := 0x1_0000_0000

  /** Rounds up to whole units; the sum wraps around at 32 bits. */
  function RoundUp(bytes: int): (b: int)
    requires 0 <= bytes < WORD
    ensures 0 <= b < WORD && b % UNIT == 0
    ensures bytes <= WORD - UNIT ==> bytes <= b < bytes + UNIT
    ensures bytes > WORD - UNIT ==> b == 0
  {
    (bytes + UNIT - 1) % WORD / UNIT * UNIT
  }

  /** The address the link before region i leads to. */
  ghost function LinkTo(f: seq<Region>, i: int): int
    requires 0 <= i <= |f|
  {
    if i < |f| then f[i].addr else NULL
  }

  lemma EndOfList(f: seq<Region>, i: int)
    requires Normal(f) && 0 <= i <= |f|
    ensures LinkTo(f, i) == NULL <==> i == |f|
  {
    assert i < |f| ==> RegionOk(f[i]);
  }

  ghost predicate NodeAt(mem: map<int, MemNode>, f: seq<Region>, i: int)
    requires 0 <= i < |f|
  {
    f[i].addr in mem && mem[f[i].addr] == MemNode(LinkTo(f, i + 1), f[i].size)
  }

  ghost predicate Linked(mem: map<int, MemNode>, first: int, f: seq<Region>) {
    first == LinkTo(f, 0) && forall i :: 0 <= i < |f| ==> NodeAt(mem, f, i)
  }

  ghost predicate InPool(f: seq<Region>, base: int, end: int) {
    forall i :: 0 <= i < |f| ==> base <= f[i].addr && f[i].End() <= end
  }

  /** Memory and first link after the link before region i has been set to target. */
  ghost predicate LinkSet(mem: map<int, MemNode>, first: int, f: seq<Region>, i: int, target: int,
                          mem': map<int, MemNode>, first': int)
    requires 0 <= i <= |f|
  {
    if i == 0 then mem' == mem && first' == target
    else mem' == mem[f[i - 1].addr := MemNode(target, f[i - 1].size)] && first' == first
  }

  lemma DistinctNodes(f: seq<Region>, j: int, k: int)
    requires Normal(f) && 0 <= j < |f| && 0 <= k < |f| && j != k
    ensures f[j].addr != f[k].addr
  {
    assert Before(f, if j < k then j else k, if j < k then k else j);
    assert RegionOk(f[j]) && RegionOk(f[k]);
  }

  lemma RemoveLinked(mem: map<int, MemNode>, first: int, f: seq<Region>, i: int, mem': map<int, MemNode>, first': int)
    requires Normal(f) && Linked(mem, first, f) && 0 <= i < |f|
    requires LinkSet(mem, first, f, i, LinkTo(f, i + 1), mem', first')
    ensures Linked(mem', first', f[..i] + f[i + 1..])
  {
    var g := f[..i] + f[i + 1..];
    forall j | 0 <= j < |g| ensures NodeAt(mem', g, j) {
      var k := if j >= i then j + 1 else j;
      assert NodeAt(mem, f, k) && g[j] == f[k];
      if i > 0 && k != i - 1 {
        DistinctNodes(f, k, i - 1);
      }
    }
  }

  /** The cell at x has not been written. */
  predicate SameNode(mem: map<int, MemNode>, mem': map<int, MemNode>, x: int) {
    (x in mem <==> x in mem') && (x in mem ==> mem'[x] == mem[x])
  }

  /** The memory that a splice of the list needs: only the link to the new region and its own node are written. */
  lemma SpliceLinked(mem: map<int, MemNode>, first: int, f: seq<Region>, m: int, n: int, mid: Region,
                     mem': map<int, MemNode>, first': int)
    requires Linked(mem, first, f) && 0 <= m <= n <= |f|
    requires forall k :: 0 <= k < |f| && (k < m - 1 || n <= k) ==> SameNode(mem, mem', f[k].addr)
    requires if m == 0 then first' == mid.addr
             else first' == first && f[m - 1].addr in mem' && mem'[f[m - 1].addr] == MemNode(mid.addr, f[m - 1].size)
    requires mid.addr in mem' && mem'[mid.addr] == MemNode(LinkTo(f, n), mid.size)
    ensures Linked(mem', first', Splice(f, m, n, mid))
  {
    var g := Splice(f, m, n, mid);
    forall j | 0 <= j < |g| ensures NodeAt(mem', g, j) {
      SpliceAt(f, m, n, mid, j);
      if j + 1 < |g| {
        SpliceAt(f, m, n, mid, j + 1);
      }
      if j != m {
        var k := if j < m then j else j - m - 1 + n;
        assert NodeAt(mem, f, k);
        assert k != m - 1 ==> SameNode(mem, mem', f[k].addr);
      }
    }
    SpliceAt(f, m, n, mid, 0);
  }

  lemma ShrinkLinked(mem: map<int, MemNode>, first: int, f: seq<Region>, i: int, b: int, mem': map<int, MemNode>, first': int)
    requires Normal(f) && Linked(mem, first, f) && 0 <= i < |f| && 0 < b < f[i].size
    requires var rest := f[i].addr + b;
             LinkSet(mem[rest := MemNode(LinkTo(f, i + 1), f[i].size - b)], first, f, i, rest, mem', first')
    ensures Linked(mem', first', AllocAt(f, i, b))
  {
    var rest := Region(f[i].addr + b, f[i].size - b);
    forall k | 0 <= k < |f| && (k < i - 1 || i + 1 <= k) ensures SameNode(mem, mem', f[k].addr) {
      ShrinkOther(mem, f, i, rest.addr, k);
    }
    if i > 0 {
      InteriorNotNode(f, i, rest.addr, i - 1);
    }
    SpliceLinked(mem, first, f, i, i + 1, rest, mem', first');
  }

  lemma ShrinkOther(mem: map<int, MemNode>, f: seq<Region>, i: int, x: int, k: int)
    requires Normal(f) && 0 <= i < |f| && 0 <= k < |f| && (k < i - 1 || i + 1 <= k) && f[i].addr < x < f[i].End()
    requires NodeAt(mem, f, k)
    ensures f[k].addr in mem && f[k].addr != x && (i > 0 ==> f[k].addr != f[i - 1].addr)
  {
    InteriorNotNode(f, i, x, k);
    if i > 0 {
      DistinctNodes(f, k, i - 1);
    }
  }

  /** An address inside region i is no region's beginning. */
  lemma InteriorNotNode(f: seq<Region>, i: int, x: int, j: int)
    requires Normal(f) && 0 <= i < |f| && 0 <= j < |f| && f[i].addr < x < f[i].End()
    ensures f[j].addr != x
  {
    assert RegionOk(f[j]);
    assert j < i ==> Before(f, j, i);
    assert j > i ==> Before(f, i, j);
  }

  lemma AllocInPool(f: seq<Region>, i: int, b: int, base: int, end: int)
    requires InPool(f, base, end) && 0 <= i < |f| && 0 < b <= f[i].size
    ensures InPool(AllocAt(f, i, b), base, end)
  {
    var g := AllocAt(f, i, b);
    forall j | 0 <= j < |g| ensures base <= g[j].addr && g[j].End() <= end {
      var k := if |g| < |f| && j >= i then j + 1 else j;
      assert base <= f[k].addr && f[k].End() <= end;
    }
  }

  /** The freed block's address is the beginning of no region. */
  lemma BlockNotNode(f: seq<Region>, i: int, p: int, b: int, j: int)
    requires Normal(f) && Fits(f, i, p, b) && 0 <= j < |f|
    ensures f[j].addr != p
  {
    assert RegionOk(f[j]);
    if j < i {
      assert j < i - 1 ==> Before(f, j, i - 1);
    } else {
      assert i < j ==> Before(f, i, j) && RegionOk(f[i]);
    }
  }

  /** The memory after a block has been linked in between regions i - 1 and i and merged with what it touches. */
  ghost predicate Joined(mem: map<int, MemNode>, first: int, f: seq<Region>, i: int, p: int, b: int,
                         mem': map<int, MemNode>, first': int)
    requires 0 <= i <= |f|
  {
    var m, n, mid := Low(f, i, p), High(f, i, p + b), Merged(f, i, p, b);
    && (forall x :: x != p && (i == 0 || x != f[i - 1].addr) ==> SameNode(mem, mem', x))
    && (if i == 0 then first' == p else first' == first)
    && (m == i > 0 ==> f[i - 1].addr in mem' && mem'[f[i - 1].addr] == MemNode(p, f[i - 1].size))
    && mid.addr in mem' && mem'[mid.addr] == MemNode(LinkTo(f, n), mid.size)
  }

  lemma FreeLinked(mem: map<int, MemNode>, first: int, f: seq<Region>, i: int, p: int, b: int, mem': map<int, MemNode>, first': int)
    requires Normal(f) && Fits(f, i, p, b) && Linked(mem, first, f)
    requires Joined(mem, first, f, i, p, b, mem', first')
    ensures Linked(mem', first', FreeAt(f, i, p, b))
  {
    var m, n, mid := Low(f, i, p), High(f, i, p + b), Merged(f, i, p, b);
    forall k | 0 <= k < |f| && (k < m - 1 || n <= k) ensures SameNode(mem, mem', f[k].addr) {
      assert NodeAt(mem, f, k);
      BlockNotNode(f, i, p, b, k);
      if i > 0 && k != i - 1 {
        DistinctNodes(f, k, i - 1);
      }
    }
    if 0 < m < i {
      assert NodeAt(mem, f, m - 1);
      BlockNotNode(f, i, p, b, m - 1);
      DistinctNodes(f, m - 1, i - 1);
      assert SameNode(mem, mem', f[m - 1].addr);
    }
    SpliceLinked(mem, first, f, m, n, mid, mem', first');
  }

  lemma FreeInPool(f: seq<Region>, i: int, p: int, b: int, base: int, end: int)
    requires InPool(f, base, end) && Fits(f, i, p, b) && base <= p && p + b <= end
    ensures InPool(FreeAt(f, i, p, b), base, end)
  {
    var m, n, mid := Low(f, i, p), High(f, i, p + b), Merged(f, i, p, b);
    var g := FreeAt(f, i, p, b);
    assert i > 0 ==> base <= f[i - 1].addr;
    assert i < |f| ==> f[i].End() <= end;
    forall j | 0 <= j < |g| ensures base <= g[j].addr && g[j].End() <= end {
      SpliceAt(f, m, n, mid, j);
      assert j != m ==> base <= f[if j < m then j else j - m - 1 + n].addr;
    }
  }

  /** Only cells that lie in free regions have been written. */
  ghost predicate Kept(mem: map<int, MemNode>, mem': map<int, MemNode>, f: seq<Region>) {
    forall x :: SameNode(mem, mem', x) || Whole(f, x, UNIT)
  }

  lemma NodeFree(f: seq<Region>, i: int)
    requires Normal(f) && 0 <= i < |f|
    ensures Covers(f, f[i].addr) && Whole(f, f[i].addr, UNIT)
  {
    assert RegionOk(f[i]);
  }

  lemma CutLinked(mem: map<int, MemNode>, first: int, f: seq<Region>, i: int, b: int, mem': map<int, MemNode>, first': int)
    requires Normal(f) && Linked(mem, first, f) && 0 <= i < |f| && 0 < b <= f[i].size && b % UNIT == 0
    requires if f[i].size == b then LinkSet(mem, first, f, i, LinkTo(f, i + 1), mem', first')
             else LinkSet(mem[f[i].addr + b := MemNode(LinkTo(f, i + 1), f[i].size - b)], first, f, i, f[i].addr + b, mem', first')
    ensures Linked(mem', first', AllocAt(f, i, b)) && Kept(mem, mem', f)
  {
    if f[i].size == b {
      RemoveLinked(mem, first, f, i, mem', first');
    } else {
      ShrinkLinked(mem, first, f, i, b, mem', first');
    }
    CutKept(mem, first, f, i, b, mem', first');
  }

  lemma CutKept(mem: map<int, MemNode>, first: int, f: seq<Region>, i: int, b: int, mem': map<int, MemNode>, first': int)
    requires Normal(f) && 0 <= i < |f| && 0 < b <= f[i].size && b % UNIT == 0
    requires if f[i].size == b then LinkSet(mem, first, f, i, LinkTo(f, i + 1), mem', first')
             else LinkSet(mem[f[i].addr + b := MemNode(LinkTo(f, i + 1), f[i].size - b)], first, f, i, f[i].addr + b, mem', first')
    ensures Kept(mem, mem', f)
  {
    assert RegionOk(f[i]);
    if i > 0 {
      NodeFree(f, i - 1);
    }
    if f[i].size > b {
      RestFree(f, i, b);
    }
  }

  lemma RestFree(f: seq<Region>, i: int, b: int)
    requires 0 <= i < |f| && RegionOk(f[i]) && 0 < b < f[i].size && b % UNIT == 0
    ensures Whole(f, f[i].addr + b, UNIT)
  {
    assert f[i].addr + b + UNIT <= f[i].End();
  }

  lemma JoinKept(mem: map<int, MemNode>, first: int, f: seq<Region>, i: int, p: int, b: int, mem': map<int, MemNode>, first': int)
    requires Normal(f) && Fits(f, i, p, b) && Joined(mem, first, f, i, p, b, mem', first')
    ensures Kept(mem, mem', FreeAt(f, i, p, b))
  {
    FreeWhole(f, i, p, b, p, UNIT);
    if i > 0 {
      assert RegionOk(f[i - 1]);
      forall x | f[i - 1].addr <= x < f[i - 1].addr + UNIT ensures Covers(f, x) {
        assert f[i - 1].addr <= x < f[i - 1].End();
      }
      FreeWhole(f, i, p, b, f[i - 1].addr, UNIT);
    }
    KeptBut(mem, mem', FreeAt(f, i, p, b), p, if i > 0 then f[i - 1].addr else p);
  }

  lemma KeptBut(mem: map<int, MemNode>, mem': map<int, MemNode>, g: seq<Region>, p: int, q: int)
    requires forall x :: x != p && x != q ==> SameNode(mem, mem', x)
    requires Whole(g, p, UNIT) && Whole(g, q, UNIT)
    ensures Kept(mem, mem', g)
  {
  }

  /** The block p lies right after the last region. */
  ghost predicate AtEnd(f: seq<Region>, p: int) {
    f != [] && f[|f| - 1].End() == p
  }

  lemma NotAtEnd(f: seq<Region>, i: int, p: int)
    requires Normal(f) && 0 <= i < |f| && p <= f[i].addr
    ensures !AtEnd(f, p)
  {
    assert RegionOk(f[i]) && (i < |f| - 1 ==> Before(f, i, |f| - 1) && RegionOk(f[|f| - 1]));
  }

  /** The block has become free memory; a node is at its beginning unless it was joined to the end of the last one. */
  ghost predicate Rejoined(f: seq<Region>, mem: map<int, MemNode>, p: int, b: int, f': seq<Region>, mem': map<int, MemNode>) {
    && Freed(f, p, b, f') && Kept(mem, mem', f')
    && if AtEnd(f, p) then SameNode(mem, mem', p) else p in mem' && mem'[p].bytes % UNIT == 0
  }

  /** First fit: b bytes are cut off the first region that has them. */
  ghost predicate FirstFit(f: seq<Region>, b: int, p: int, f': seq<Region>) {
    exists i :: 0 <= i < |f| && p == f[i].addr && b <= f[i].size
                && (forall j :: 0 <= j < i ==> f[j].size < b) && f' == AllocAt(f, i, b)
  }

  ghost predicate TooSmall(f: seq<Region>, b: int) {
    forall i :: 0 <= i < |f| ==> f[i].size < b
  }

  class MemPool {
    var mpBase: int
    var mpEnd: int
    var mpFirst: int
    var mpSize: int
    var mpUsed: int
    var mem: map<int, MemNode>   // the memory, as far as it holds nodes
    ghost var free: seq<Region>

    /** The memory holds the list, which is in normal form and inside the pool. */
    ghost predicate Shape()
      reads this
    {
      && Normal(free) && Linked(mem, mpFirst, free) && InPool(free, mpBase, mpEnd)
      && mpEnd == mpBase + mpSize && mpSize >= 0 && (mpSize > 0 ==> mpBase > 0)
    }

    ghost predicate Valid()
      reads this
    {
      Shape() && mpSize - mpUsed == Sum(free)
    }

    constructor ()
      ensures Valid() && free == [] && mpSize == 0 && mpUsed == 0
    {
      mpBase, mpEnd, mpFirst, mpSize, mpUsed := 0, 0, NULL, 0, 0;
      mem, free := map[], [];
    }

    /** *pmn = mn, where pmn is &mp_First or the address of a node, whose link comes first in it. */
    method SetLink(pmn: int, mn: int)
      requires pmn == NULL || pmn in mem
      modifies `mpFirst, `mem
      ensures if pmn == NULL then mpFirst == mn && mem == old(mem)
              else mpFirst == old(mpFirst) && mem == old(mem)[pmn := old(mem)[pmn].(next := mn)]
    {
      if pmn == NULL {
        mpFirst := mn;
      } else {
        mem := mem[pmn := mem[pmn].(next := mn)];
      }
    }

    /** First fit; NULL exactly when no free region is large enough. */
    method Znalloc(size: int) returns (ptr: int)
      requires Valid() && 0 <= size < WORD
      modifies `mpFirst, `mem, `mpUsed, `free
      ensures Valid()
      ensures var b := RoundUp(size);
        if b == 0 then ptr == NOTHING && free == old(free) && mpUsed == old(mpUsed)
        else if TooSmall(old(free), b) then ptr == NULL && free == old(free) && mpUsed == old(mpUsed)
        else mpUsed == old(mpUsed) + b && FirstFit(old(free), b, ptr, free)
      ensures Kept(old(mem), mem, old(free))
    {
      var bytes := RoundUp(size);
      if bytes == 0 {
        return NOTHING;
      }
      if bytes <= mpSize - mpUsed {
        var pmn, mn := NULL, mpFirst;
        ghost var i := 0;
        EndOfList(free, 0);
        while mn != NULL
          invariant 0 <= i <= |free| && mn == LinkTo(free, i) && (mn == NULL <==> i == |free|)
          invariant pmn == if i == 0 then NULL else free[i - 1].addr
          invariant forall j :: 0 <= j < i ==> free[j].size < bytes
          invariant Valid() && free == old(free) && mpUsed == old(mpUsed) && mem == old(mem)
          decreases |free| - i
        {
          assert NodeAt(mem, free, i) && RegionOk(free[i]);
          if bytes <= mem[mn].bytes {
            CutChunk(pmn, mn, bytes, i);
            return mn;
          }
          pmn, mn := mn, mem[mn].next;
          i := i + 1;
          EndOfList(free, i);
        }
      } else {
        forall i | 0 <= i < |free| ensures free[i].size < bytes {
          SumAtLeast(free, i);
        }
      }
      ptr := NULL;
    }

    /** Cuts bytes off the beginning of the node at mn, the i-th. */
    method CutChunk(pmn: int, mn: int, bytes: int, ghost i: int)
      requires Valid() && 0 <= i < |free| && mn == free[i].addr
      requires pmn == if i == 0 then NULL else free[i - 1].addr
      requires 0 < bytes <= free[i].size && bytes % UNIT == 0
      modifies `mpFirst, `mem, `mpUsed, `free
      ensures Valid() && free == AllocAt(old(free), i, bytes) && mpUsed == old(mpUsed) + bytes
      ensures Kept(old(mem), mem, old(free))
    {
      assert NodeAt(mem, free, i) && RegionOk(free[i]);
      assert i > 0 ==> NodeAt(mem, free, i - 1) && RegionOk(free[i - 1]);
      if mem[mn].bytes == bytes {
        SetLink(pmn, mem[mn].next);
      } else {
        var rest := mn + bytes;
        if i > 0 {
          InteriorNotNode(free, i, rest, i - 1);
        }
        mem := mem[rest := MemNode(mem[mn].next, mem[mn].bytes - bytes)];
        SetLink(pmn, rest);
      }
      mpUsed := mpUsed + bytes;
      AllocNormal(free, i, bytes);
      AllocSum(free, i, bytes);
      AllocInPool(free, i, bytes, mpBase, mpEnd);
      CutLinked(old(mem), old(mpFirst), free, i, bytes, mem, mpFirst);
      free := AllocAt(free, i, bytes);
    }

    /** Panics exactly when the block is misplaced or overlaps free memory; otherwise it joins the free memory. */
    method Zfree(ptr: int, size: int) returns (panicked: bool)
      requires Valid() && 0 <= size < WORD
      modifies `mpFirst, `mem, `mpUsed, `free
      ensures var b := RoundUp(size);
        panicked <==> b > 0 && (ptr < mpBase || ptr + b > mpEnd || ptr % UNIT != 0
                                || Overlapping(old(free), ptr, b))
      ensures !panicked ==> Valid() && mpUsed == old(mpUsed) - RoundUp(size)
      ensures !panicked && RoundUp(size) == 0 ==> free == old(free) && mem == old(mem)
      ensures !panicked && RoundUp(size) > 0 ==> Rejoined(old(free), old(mem), ptr, RoundUp(size), free, mem)
    {
      var bytes := RoundUp(size);
      if bytes == 0 {
        return false;
      }
      if ptr < mpBase || ptr + bytes > mpEnd || ptr % UNIT != 0 {
        return true;
      }
      panicked := FreeChunk(ptr, bytes);
    }

    /** The part of zfree after the check of the pointer. */
    method FreeChunk(ptr: int, bytes: int) returns (panicked: bool)
      requires Valid() && RegionOk(Region(ptr, bytes)) && mpBase <= ptr && ptr + bytes <= mpEnd
      modifies `mpFirst, `mem, `mpUsed, `free
      ensures panicked <==> Overlapping(old(free), ptr, bytes)
      ensures !panicked ==> Valid() && mpUsed == old(mpUsed) - bytes
      ensures !panicked ==> Rejoined(old(free), old(mem), ptr, bytes, free, mem)
    {
      var pmn, mn := NULL, mpFirst;
      mpUsed := mpUsed - bytes;
      ghost var i := 0;
      EndOfList(free, 0);
      while mn != NULL
        invariant 0 <= i <= |free| && mn == LinkTo(free, i) && (mn == NULL <==> i == |free|)
        invariant pmn == if i == 0 then NULL else free[i - 1].addr
        invariant i > 0 ==> free[i - 1].End() <= ptr
        invariant Shape() && free == old(free) && mpUsed == old(mpUsed) - bytes && mem == old(mem)
        decreases |free| - i
      {
        assert NodeAt(mem, free, i) && RegionOk(free[i]);
        if ptr <= mn {
          Overlaps(free, i, ptr, bytes);
          if ptr + bytes > mn {
            return true;
          }
          FreeSum(free, i, ptr, bytes);
          Join(pmn, mn, ptr, bytes, i);
          return false;
        }
        if ptr < mn + mem[mn].bytes {
          Overlaps(free, i, ptr, bytes);
          return true;
        }
        pmn, mn := mn, mem[mn].next;
        i := i + 1;
        EndOfList(free, i);
      }
      Overlaps(free, i, ptr, bytes);
      FreeSum(free, i, ptr, bytes);
      Append(pmn, ptr, bytes);
      panicked := false;
    }

    /** Links the block in before the node at mn, merging with it and with the node at pmn where they touch. */
    method Join(pmn: int, mn: int, ptr: int, bytes: int, ghost i: int)
      requires Shape() && 0 <= i < |free| && mn == free[i].addr && Fits(free, i, ptr, bytes)
      requires pmn == if i == 0 then NULL else free[i - 1].addr
      requires mpBase <= ptr && ptr + bytes <= mpEnd
      modifies `mpFirst, `mem, `free
      ensures Shape() && free == FreeAt(old(free), i, ptr, bytes)
      ensures Rejoined(old(free), old(mem), ptr, bytes, free, mem)
    {
      NotAtEnd(free, i, ptr);
      Weave(pmn, mn, ptr, bytes, i);
      JoinedList(i, ptr, bytes, old(mem), old(mpFirst));
    }

    method Weave(pmn: int, mn: int, ptr: int, bytes: int, ghost i: int)
      requires Normal(free) && Linked(mem, mpFirst, free) && 0 <= i < |free| && mn == free[i].addr && Fits(free, i, ptr, bytes)
      requires pmn == if i == 0 then NULL else free[i - 1].addr
      modifies `mpFirst, `mem
      ensures Joined(old(mem), old(mpFirst), free, i, ptr, bytes, mem, mpFirst)
      ensures ptr in mem && mem[ptr].bytes % UNIT == 0
    {
      assert NodeAt(mem, free, i) && RegionOk(free[i]);
      if i > 0 {
        assert NodeAt(mem, free, i - 1) && RegionOk(free[i - 1]);
        BlockNotNode(free, i, ptr, bytes, i - 1);
        DistinctNodes(free, i - 1, i);
      }
      BlockNotNode(free, i, ptr, bytes, i);
      mem := mem[ptr := if ptr + bytes == mn then MemNode(mem[mn].next, bytes + mem[mn].bytes) else MemNode(mn, bytes)];
      SetLink(pmn, ptr);
      if pmn != NULL {
        if pmn + mem[pmn].bytes == ptr {
          mem := mem[pmn := MemNode(mem[ptr].next, mem[pmn].bytes + mem[ptr].bytes)];
        }
      }
    }

    method JoinedList(ghost i: int, ghost ptr: int, ghost bytes: int, ghost mem0: map<int, MemNode>, ghost first0: int)
      requires Normal(free) && Linked(mem0, first0, free) && InPool(free, mpBase, mpEnd)
      requires mpEnd == mpBase + mpSize && mpSize >= 0 && (mpSize > 0 ==> mpBase > 0)
      requires Fits(free, i, ptr, bytes) && mpBase <= ptr && ptr + bytes <= mpEnd
      requires Joined(mem0, first0, free, i, ptr, bytes, mem, mpFirst)
      modifies `free
      ensures Shape() && free == FreeAt(old(free), i, ptr, bytes) && Kept(mem0, mem, free)
    {
      JoinKept(mem0, first0, free, i, ptr, bytes, mem, mpFirst);
      FreeNormal(free, i, ptr, bytes);
      FreeLinked(mem0, first0, free, i, ptr, bytes, mem, mpFirst);
      FreeInPool(free, i, ptr, bytes, mpBase, mpEnd);
      free := FreeAt(free, i, ptr, bytes);
    }

    /** The block goes to the end of the list, or becomes part of the last node. */
    method Append(pmn: int, ptr: int, bytes: int)
      requires Shape() && Fits(free, |free|, ptr, bytes)
      requires pmn == if free == [] then NULL else free[|free| - 1].addr
      requires mpBase <= ptr && ptr + bytes <= mpEnd
      modifies `mpFirst, `mem, `free
      ensures Shape() && free == FreeAt(old(free), |old(free)|, ptr, bytes)
      ensures Rejoined(old(free), old(mem), ptr, bytes, free, mem)
    {
      ghost var i := |free|;
      if i > 0 {
        assert NodeAt(mem, free, i - 1) && RegionOk(free[i - 1]);
        BlockNotNode(free, i, ptr, bytes, i - 1);
      }
      if pmn == NULL || pmn + mem[pmn].bytes != ptr {
        mem := mem[ptr := MemNode(NULL, bytes)];
        SetLink(pmn, ptr);
      } else {
        mem := mem[pmn := MemNode(mem[pmn].next, mem[pmn].bytes + bytes)];
      }
      JoinedList(i, ptr, bytes, old(mem), old(mpFirst));
    }

    /** The pool grows to reach over the region too; what it gains counts as used until it is freed. */
    method ZextendPool(base: int, bytes: int)
      requires Valid() && base > 0 && bytes >= 0
      modifies `mpBase, `mpEnd, `mpSize, `mpUsed
      ensures Valid() && Extended(old(mpBase), old(mpSize), base, bytes, mpBase, mpSize)
      ensures mpUsed == old(mpUsed) + mpSize - old(mpSize)
    {
      if mpSize == 0 {
        FreeNeedsRoom(free, mpBase, mpEnd);
        mpBase := base;
        mpUsed := bytes;
        mpEnd := base + bytes;
        mpSize := bytes;
      } else {
        var pend := mpBase + mpSize;
        if base < mpBase {
          mpSize := mpSize + (mpBase - base);
          mpUsed := mpUsed + (mpBase - base);
          mpBase := base;
        }
        var end := base + bytes;
        if end > pend {
          mpSize := mpSize + (end - pend);
          mpUsed := mpUsed + (end - pend);
          mpEnd := end;
        }
      }
    }
  }

  lemma FreeNeedsRoom(f: seq<Region>, base: int, end: int)
    requires Normal(f) && InPool(f, base, end)
    ensures f != [] ==> base < end
  {
    assert f != [] ==> RegionOk(f[0]);
  }

  /** The new extent is the smallest interval around the old one and the region. */
  ghost predicate Extended(base: int, size: int, newBase: int, bytes: int, base': int, size': int) {
    if size == 0 then base' == newBase && size' == bytes
    else && base' == (if newBase < base then newBase else base)
         && base' + size' == (if newBase + bytes > base + size then newBase + bytes else base + size)
  }
}
