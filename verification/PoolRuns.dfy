/** Whole runs of the pool allocator: what the list is depends on nothing but what is free. */
module PoolRuns {
  import opened FreeList
  import opened Zalloc

  datatype Call = Alloc(size: int) | Release(ptr: int, size: int) | Extend(base: int, bytes: int)

  datatype State = State(base: int, size: int, used: int, free: seq<Region>)

  ghost predicate CallOk(c: Call) {
    match c
    case Alloc(size) => 0 <= size < WORD
    case Release(_, size) => 0 <= size < WORD
    case Extend(base, bytes) => base > 0 && bytes >= 0
  }

  /** One call that does not panic; r is what znalloc returns. */
  ghost predicate Step(s: State, c: Call, r: int, s': State)
    requires CallOk(c)
  {
    match c
    case Alloc(size) =>
      var b := RoundUp(size);
      if b == 0 then r == NOTHING && s' == s
      else if TooSmall(s.free, b) then r == NULL && s' == s
      else s' == s.(used := s.used + b, free := s'.free) && FirstFit(s.free, b, r, s'.free)
    case Release(ptr, size) =>
      var b := RoundUp(size);
      if b == 0 then s' == s
      else s' == s.(used := s.used - b, free := s'.free) && s.base <= ptr && ptr + b <= s.base + s.size
           && Freed(s.free, ptr, b, s'.free)
    case Extend(base, bytes) =>
      Extended(s.base, s.size, base, bytes, s'.base, s'.size)
      && s'.used == s.used + s'.size - s.size && s'.free == s.free
  }

  /** The calls in the order made, each with its result. */
  ghost predicate Run(states: seq<State>, calls: seq<Call>, results: seq<int>) {
    && |states| == |calls| + 1 == |results| + 1 && states[0] == State(0, 0, 0, [])
    && forall k :: 0 <= k < |calls| ==> CallOk(calls[k]) && Step(states[k], calls[k], results[k], states[k + 1])
  }

  /** What a client can tell from its calls and their results alone: the extent, and the bytes that are handed out. */
  datatype Ledger = Ledger(base: int, size: int, owned: set<int>)

  ghost function Extent(l: Ledger): set<int> {
    Interval(l.base, l.base + l.size)
  }

  ghost function Grown(l: Ledger, base: int, bytes: int): Ledger {
    if l.size == 0 then Ledger(base, bytes, Interval(base, base + bytes))
    else
      var lo := if base < l.base then base else l.base;
      var end := if base + bytes > l.base + l.size then base + bytes else l.base + l.size;
      Ledger(lo, end - lo, l.owned + (Interval(lo, end) - Extent(l)))
  }

  ghost function Entered(l: Ledger, c: Call, r: int): Ledger
    requires CallOk(c)
  {
    match c
    case Alloc(size) =>
      var b := RoundUp(size);
      if b == 0 || r == NULL then l else l.(owned := l.owned + Interval(r, r + b))
    case Release(ptr, size) => l.(owned := l.owned - Interval(ptr, ptr + RoundUp(size)))
    case Extend(base, bytes) => Grown(l, base, bytes)
  }

  ghost function LedgerAfter(calls: seq<Call>, results: seq<int>): Ledger
    requires |calls| == |results| && forall k :: 0 <= k < |calls| ==> CallOk(calls[k])
  {
    if calls == [] then Ledger(0, 0, {})
    else
      var n := |calls| - 1;
      Entered(LedgerAfter(calls[..n], results[..n]), calls[n], results[n])
  }

  /** The list is in normal form, and exactly what is not handed out is free. */
  ghost predicate Agrees(s: State, l: Ledger) {
    && s.base == l.base && s.size == l.size && s.size >= 0
    && Normal(s.free) && s.size - s.used == Sum(s.free)
    && forall x :: Covers(s.free, x) <==> x in Extent(l) && x !in l.owned
  }

  lemma AllocOwned(s: State, l: Ledger, i: int, b: int)
    requires Agrees(s, l) && 0 <= i < |s.free| && 0 < b <= s.free[i].size
    ensures var r := s.free[i].addr;
      forall x :: Covers(AllocAt(s.free, i, b), x) <==> x in Extent(l) && x !in l.owned + Interval(r, r + b)
  {
    forall x ensures Covers(AllocAt(s.free, i, b), x) <==> Covers(s.free, x) && !(s.free[i].addr <= x < s.free[i].addr + b) {
      AllocCovers(s.free, i, b, x);
    }
  }

  lemma CutAgrees(s: State, l: Ledger, i: int, b: int, r: int)
    requires Agrees(s, l) && 0 <= i < |s.free| && r == s.free[i].addr && 0 < b <= s.free[i].size && b % UNIT == 0
    ensures Agrees(s.(used := s.used + b, free := AllocAt(s.free, i, b)), l.(owned := l.owned + Interval(r, r + b)))
  {
    AllocNormal(s.free, i, b);
    AllocSum(s.free, i, b);
    AllocOwned(s, l, i, b);
  }

  lemma AllocAgrees(s: State, l: Ledger, size: int, r: int, s': State)
    requires Agrees(s, l) && CallOk(Alloc(size)) && Step(s, Alloc(size), r, s')
    ensures Agrees(s', Entered(l, Alloc(size), r))
  {
    hide AllocAt, Covers, Sum, Interval, Extent;
    var b := RoundUp(size);
    if b > 0 && !TooSmall(s.free, b) {
      var i :| 0 <= i < |s.free| && r == s.free[i].addr && b <= s.free[i].size && s'.free == AllocAt(s.free, i, b);
      assert RegionOk(s.free[i]);
      CutAgrees(s, l, i, b, r);
    }
  }

  lemma JoinAgrees(s: State, l: Ledger, i: int, ptr: int, b: int)
    requires Agrees(s, l) && Fits(s.free, i, ptr, b) && l.base <= ptr && ptr + b <= l.base + l.size
    ensures Agrees(s.(used := s.used - b, free := FreeAt(s.free, i, ptr, b)), l.(owned := l.owned - Interval(ptr, ptr + b)))
  {
    FreeNormal(s.free, i, ptr, b);
    FreeSum(s.free, i, ptr, b);
    forall x ensures Covers(FreeAt(s.free, i, ptr, b), x) <==> x in Extent(l) && x !in l.owned - Interval(ptr, ptr + b) {
      FreeCovers(s.free, i, ptr, b, x);
    }
  }

  lemma ReleaseAgrees(s: State, l: Ledger, ptr: int, size: int, r: int, s': State)
    requires Agrees(s, l) && CallOk(Release(ptr, size)) && Step(s, Release(ptr, size), r, s')
    ensures Agrees(s', Entered(l, Release(ptr, size), r))
  {
    var b := RoundUp(size);
    if b > 0 {
      var i :| Fits(s.free, i, ptr, b) && s'.free == FreeAt(s.free, i, ptr, b);
      JoinAgrees(s, l, i, ptr, b);
    }
  }

  lemma StepAgrees(s: State, l: Ledger, c: Call, r: int, s': State)
    requires Agrees(s, l) && CallOk(c) && Step(s, c, r, s')
    ensures Agrees(s', Entered(l, c, r))
  {
    match c
    case Alloc(size) => AllocAgrees(s, l, size, r, s');
    case Release(ptr, size) => ReleaseAgrees(s, l, ptr, size, r, s');
    case Extend(_, _) =>
  }

  lemma RunPrefix(states: seq<State>, calls: seq<Call>, results: seq<int>)
    requires Run(states, calls, results) && calls != []
    ensures var n := |calls| - 1; Run(states[..n + 1], calls[..n], results[..n])
  {
  }

  /** Conservation over every run: each byte of the pool is either free, and then in the list, or handed out. */
  lemma {:induction false} RunAgrees(states: seq<State>, calls: seq<Call>, results: seq<int>)
    requires Run(states, calls, results)
    ensures Agrees(states[|calls|], LedgerAfter(calls, results))
  {
    if calls == [] {
      assert forall x :: !Covers([], x);
    } else {
      var n := |calls| - 1;
      RunPrefix(states, calls, results);
      RunAgrees(states[..n + 1], calls[..n], results[..n]);
      StepAgrees(states[n], LedgerAfter(calls[..n], results[..n]), calls[n], results[n], states[n + 1]);
    }
  }

  /** Two histories that leave the same extent and the same bytes handed out leave the same pool. */
  lemma HistoryIndependent(states1: seq<State>, calls1: seq<Call>, results1: seq<int>,
                           states2: seq<State>, calls2: seq<Call>, results2: seq<int>)
    requires Run(states1, calls1, results1) && Run(states2, calls2, results2)
    requires LedgerAfter(calls1, results1) == LedgerAfter(calls2, results2)
    ensures states1[|calls1|] == states2[|calls2|]
  {
    RunAgrees(states1, calls1, results1);
    RunAgrees(states2, calls2, results2);
    NormalUnique(states1[|calls1|].free, states2[|calls2|].free);
  }

  /** mp_Used is the number of bytes handed out. */
  lemma UsedIsHandedOut(s: State, l: Ledger)
    requires Agrees(s, l)
    ensures s.used == |Extent(l) * l.owned|
  {
    var lo, hi := l.base, l.base + l.size;
    forall i | 0 <= i < |s.free| ensures lo <= s.free[i].addr && s.free[i].End() <= hi {
      InExtent(s, l, i);
    }
    SumCounts(s.free, lo, hi);
    var free := FreeBytes(s.free, lo, hi);
    assert Extent(l) == Extent(l) * l.owned + free;
    assert Extent(l) * l.owned * free == {};
  }

  lemma InExtent(s: State, l: Ledger, i: int)
    requires Agrees(s, l) && 0 <= i < |s.free|
    ensures l.base <= s.free[i].addr && s.free[i].End() <= l.base + l.size
  {
    assert RegionOk(s.free[i]);
    assert Covers(s.free, s.free[i].addr) && Covers(s.free, s.free[i].End() - 1);
  }

  /** NULL is returned only when there is no room: no b consecutive bytes of the pool are not handed out. */
  lemma RefusedOnlyWhenFull(s: State, l: Ledger, size: int, r: int, s': State)
    requires 0 <= size < WORD && RoundUp(size) > 0
    requires Agrees(s, l) && Step(s, Alloc(size), r, s')
    ensures r == NULL <==> !exists p :: Room(l, p, RoundUp(size))
  {
    var b := RoundUp(size);
    if TooSmall(s.free, b) {
      forall p ensures !Room(l, p, b) {
        ConsecutiveInOne(s.free, p, b);
        RoomIsFree(s, l, p, b);
      }
    } else {
      var i :| 0 <= i < |s.free| && r == s.free[i].addr && b <= s.free[i].size;
      assert RegionOk(s.free[i]);
      ConsecutiveInOne(s.free, r, b);
      RoomIsFree(s, l, r, b);
    }
  }

  ghost predicate Room(l: Ledger, p: int, b: int) {
    forall x :: p <= x < p + b ==> x in Extent(l) && x !in l.owned
  }

  lemma RoomIsFree(s: State, l: Ledger, p: int, b: int)
    requires Agrees(s, l)
    ensures Room(l, p, b) <==> forall x :: p <= x < p + b ==> Covers(s.free, x)
  {
    if forall x :: p <= x < p + b ==> Covers(s.free, x) {
      forall x | p <= x < p + b ensures x in Extent(l) && x !in l.owned {
        assert Covers(s.free, x);
      }
    }
  }

  /** Freeing at once what was just allocated restores the list exactly. */
  lemma AllocThenFree(f: seq<Region>, b: int, p: int, f': seq<Region>, f'': seq<Region>)
    requires Normal(f) && b > 0 && b % UNIT == 0 && FirstFit(f, b, p, f') && Freed(f', p, b, f'')
    ensures f'' == f
  {
    var i :| 0 <= i < |f| && p == f[i].addr && b <= f[i].size && f' == AllocAt(f, i, b);
    var j :| Fits(f', j, p, b) && f'' == FreeAt(f', j, p, b);
    AllocNormal(f, i, b);
    FreeNormal(f', j, p, b);
    forall x ensures Covers(f'', x) <==> Covers(f, x) {
      AllocCovers(f, i, b, x);
      FreeCovers(f', j, p, b, x);
    }
    NormalUnique(f'', f);
  }

  /** The order in which two blocks are freed does not matter. */
  lemma FreesCommute(f: seq<Region>, p: int, b: int, q: int, c: int,
                     fp: seq<Region>, fpq: seq<Region>, fq: seq<Region>, fqp: seq<Region>)
    requires Normal(f) && Freed(f, p, b, fp) && Freed(fp, q, c, fpq) && Freed(f, q, c, fq) && Freed(fq, p, b, fqp)
    ensures fpq == fqp
  {
    FreedMeaning(f, p, b, fp);
    FreedMeaning(fp, q, c, fpq);
    FreedMeaning(f, q, c, fq);
    FreedMeaning(fq, p, b, fqp);
    NormalUnique(fpq, fqp);
  }

  lemma FreedMeaning(f: seq<Region>, p: int, b: int, f': seq<Region>)
    requires Normal(f) && Freed(f, p, b, f')
    ensures Normal(f') && forall x :: Covers(f', x) <==> Covers(f, x) || p <= x < p + b
  {
    var i :| Fits(f, i, p, b) && f' == FreeAt(f, i, p, b);
    FreeNormal(f, i, p, b);
    forall x ensures Covers(f', x) <==> Covers(f, x) || p <= x < p + b {
      FreeCovers(f, i, p, b, x);
    }
  }

  ghost function StateOf(pool: MemPool): State
    reads pool
  {
    State(pool.mpBase, pool.mpSize, pool.mpUsed, pool.free)
  }

  /** Every call on a pool is a step of such a run, unless it panics. */
  method Perform(pool: MemPool, c: Call) returns (r: int, panicked: bool)
    requires pool.Valid() && CallOk(c)
    modifies pool
    ensures !panicked ==> pool.Valid() && Step(old(StateOf(pool)), c, r, StateOf(pool))
  {
    r, panicked := NULL, false;
    match c
    case Alloc(size) => r := pool.Znalloc(size);
    case Release(ptr, size) => panicked := pool.Zfree(ptr, size);
    case Extend(base, bytes) => pool.ZextendPool(base, bytes);
  }
}
