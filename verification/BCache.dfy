/** The boot block cache: reads through it see what direct reads would see. */
module BCache {
  import opened Basics

  const BCACHE_TIMEOUT: int := 2
  const NOBLOCK: int := -1

  datatype Ctl = Ctl(blkno: int, stamp: int, count: int)

  datatype Rw = Read | Write

  /** A block is some opaque content of the cache's block size. */
  type Block = seq<int>

  /** The entry may still be used at time now. */
  predicate Live(c: Ctl, now: int) {
    c.stamp + BCACHE_TIMEOUT >= now
  }

  ghost predicate LiveAt(ctl: seq<Ctl>, i: int, now: int, b: int)
    requires 0 <= i < |ctl|
  {
    ctl[i].blkno == b && Live(ctl[i], now)
  }

  /** No entry can answer for block b. */
  ghost predicate Absent(ctl: seq<Ctl>, now: int, b: int) {
    forall i :: 0 <= i < |ctl| ==> !LiveAt(ctl, i, now, b)
  }

  /** Apart from slot 0, a block has at most one entry. */
  ghost predicate UniqueAt(ctl: seq<Ctl>, i: int, j: int)
    requires 0 <= i < |ctl| && 0 <= j < |ctl|
  {
    ctl[i].blkno != ctl[j].blkno || ctl[i].blkno == NOBLOCK
  }

  /** The entry in slot i does not lie about the disk. */
  ghost predicate TrueAt(ctl: seq<Ctl>, data: seq<Block>, disk: map<int, Block>, now: int, i: int)
    requires 0 <= i < |ctl| == |data|
  {
    Live(ctl[i], now) && ctl[i].blkno != NOBLOCK ==> ctl[i].blkno in disk && data[i] == disk[ctl[i].blkno]
  }

  /** A block that is in slot 0 and in another slot too has expired in slot 0. */
  ghost predicate Slot0At(ctl: seq<Ctl>, now: int, i: int)
    requires 0 <= i < |ctl|
  {
    ctl[i].blkno == ctl[0].blkno ==> ctl[0].blkno == NOBLOCK || !Live(ctl[0], now)
  }

  ghost predicate Shape(ctl: seq<Ctl>, now: int) {
    && (forall i, j :: 1 <= i < j < |ctl| ==> UniqueAt(ctl, i, j))
    && forall i :: 1 <= i < |ctl| ==> Slot0At(ctl, now, i)
  }

  /** Every usable entry agrees with the disk, but for blocks from lo up to hi. */
  ghost predicate TrueBut(ctl: seq<Ctl>, data: seq<Block>, disk: map<int, Block>, now: int, lo: int, hi: int)
    requires |ctl| == |data|
  {
    forall i :: 0 <= i < |ctl| && !(lo <= ctl[i].blkno < hi) ==> TrueAt(ctl, data, disk, now, i)
  }

  ghost predicate Coherent(ctl: seq<Ctl>, data: seq<Block>, disk: map<int, Block>, now: int)
    requires |ctl| == |data|
  {
    Shape(ctl, now) && TrueBut(ctl, data, disk, now, 0, 0)
  }

  /** The slot bcache_insert takes: the block's own if that is not slot 0, else the first of those least recently filled. */
  ghost predicate Chosen(ctl: seq<Ctl>, b: int, cand: int) {
    && 0 <= cand < |ctl|
    && if exists i :: 1 <= i < |ctl| && ctl[i].blkno == b
       then cand >= 1 && ctl[cand].blkno == b
       else (forall j :: 0 <= j < |ctl| ==> ctl[cand].count <= ctl[j].count)
            && forall j :: 0 <= j < cand ==> ctl[cand].count < ctl[j].count
  }

  lemma ShapeLater(ctl: seq<Ctl>, now: int, later: int)
    requires Shape(ctl, now) && now <= later
    ensures Shape(ctl, later)
  {
    forall i | 1 <= i < |ctl| ensures Slot0At(ctl, later, i) {
      assert Slot0At(ctl, now, i);
    }
  }

  lemma TrueLater(ctl: seq<Ctl>, data: seq<Block>, disk: map<int, Block>, now: int, later: int, lo: int, hi: int)
    requires |ctl| == |data| && TrueBut(ctl, data, disk, now, lo, hi) && now <= later
    ensures TrueBut(ctl, data, disk, later, lo, hi)
  {
    forall i | 0 <= i < |ctl| && !(lo <= ctl[i].blkno < hi) ensures TrueAt(ctl, data, disk, later, i) {
      assert TrueAt(ctl, data, disk, now, i);
    }
  }

  lemma AbsentLater(ctl: seq<Ctl>, now: int, later: int, b: int)
    requires Absent(ctl, now, b) && now <= later
    ensures Absent(ctl, later, b)
  {
    forall i | 0 <= i < |ctl| ensures !LiveAt(ctl, i, later, b) {
      assert !LiveAt(ctl, i, now, b);
    }
  }

  /** An insertion of another block does not bring b back. */
  lemma AbsentInsert(ctl: seq<Ctl>, now: int, b: int, cand: int, c: Ctl)
    requires Absent(ctl, now, b) && 0 <= cand < |ctl| && c.blkno != b
    ensures Absent(ctl[cand := c], now, b)
  {
    var ctl' := ctl[cand := c];
    forall i | 0 <= i < |ctl| ensures !LiveAt(ctl', i, now, b) {
      assert !LiveAt(ctl, i, now, b);
    }
  }

  /** Slot 0 has nothing to say about b: it holds another block, or its entry has expired. */
  ghost predicate Slot0Silent(ctl: seq<Ctl>, now: int, b: int) {
    |ctl| > 0 ==> ctl[0].blkno != b || !Live(ctl[0], now)
  }

  lemma InsertShape(ctl: seq<Ctl>, now: int, b: int, cand: int, count: int)
    requires Shape(ctl, now) && Chosen(ctl, b, cand) && Slot0Silent(ctl, now, b) && b != NOBLOCK
    ensures Shape(ctl[cand := Ctl(b, now, count)], now)
  {
    var ctl' := ctl[cand := Ctl(b, now, count)];
    forall i, j | 1 <= i < j < |ctl'| ensures UniqueAt(ctl', i, j) {
      assert UniqueAt(ctl, i, j);
      assert cand >= 1 && ctl[cand].blkno == b ==>
        (i < cand ==> UniqueAt(ctl, i, cand)) && (cand < i ==> UniqueAt(ctl, cand, i))
        && (j < cand ==> UniqueAt(ctl, j, cand)) && (cand < j ==> UniqueAt(ctl, cand, j));
    }
    forall i | 1 <= i < |ctl'| ensures Slot0At(ctl', now, i) {
      assert Slot0At(ctl, now, i);
    }
  }

  /** An insertion of what the disk holds; it settles block lo, the first of those in doubt. */
  lemma InsertTrue(ctl: seq<Ctl>, data: seq<Block>, disk: map<int, Block>, now: int, b: int, cand: int, c: Ctl, lo: int, hi: int)
    requires |ctl| == |data| && 0 <= cand < |ctl| && TrueBut(ctl, data, disk, now, lo, hi)
    requires c.blkno == b && b in disk
    requires b == lo < hi ==> Slot0Silent(ctl, now, b) && Shape(ctl, now) && Chosen(ctl, b, cand)
    ensures TrueBut(ctl[cand := c], data[cand := disk[b]], disk, now, if b == lo < hi then lo + 1 else lo, hi)
  {
    var ctl', data' := ctl[cand := c], data[cand := disk[b]];
    var lo' := if b == lo < hi then lo + 1 else lo;
    forall i | 0 <= i < |ctl'| && !(lo' <= ctl'[i].blkno < hi) ensures TrueAt(ctl', data', disk, now, i) {
      if i != cand {
        if ctl[i].blkno == lo < lo' && i > 0 {
          assert UniqueAt(ctl, if i < cand then i else cand, if i < cand then cand else i);
        } else {
          assert lo <= ctl[i].blkno < hi || TrueAt(ctl, data, disk, now, i);
        }
      }
    }
  }

  ghost predicate Slot0Out(ctl: seq<Ctl>, lo: int, hi: int) {
    |ctl| > 0 ==> !(lo <= ctl[0].blkno < hi)
  }

  /** bcache_invalidate drops the first entry of block b, if there is one. */
  ghost predicate Dropped(ctl: seq<Ctl>, b: int, ctl': seq<Ctl>) {
    if exists i :: 0 <= i < |ctl| && ctl[i].blkno == b
    then exists i :: 0 <= i < |ctl| && ctl[i].blkno == b && (forall j :: 0 <= j < i ==> ctl[j].blkno != b)
                     && ctl' == ctl[i := Ctl(NOBLOCK, ctl[i].stamp, -1)]
    else ctl' == ctl
  }

  lemma DropCounts(ctl: seq<Ctl>, b: int, ctl': seq<Ctl>, bcount: int)
    requires Dropped(ctl, b, ctl') && CountsBelow(ctl, bcount) && bcount >= 0
    ensures CountsBelow(ctl', bcount)
  {
  }

  lemma DropShape(ctl: seq<Ctl>, now: int, b: int, ctl': seq<Ctl>, lo: int)
    requires Shape(ctl, now) && Dropped(ctl, b, ctl') && b != NOBLOCK && Slot0Out(ctl, lo, b) && lo >= 0
    ensures Shape(ctl', now) && |ctl'| == |ctl| && Slot0Out(ctl', lo, b + 1)
  {
    if i :| 0 <= i < |ctl| && ctl[i].blkno == b && (forall j :: 0 <= j < i ==> ctl[j].blkno != b)
            && ctl' == ctl[i := Ctl(NOBLOCK, ctl[i].stamp, -1)] {
      forall j, k | 1 <= j < k < |ctl'| ensures UniqueAt(ctl', j, k) {
        assert UniqueAt(ctl, j, k);
      }
      forall j | 1 <= j < |ctl'| ensures Slot0At(ctl', now, j) {
        assert Slot0At(ctl, now, j);
      }
    }
  }

  lemma DropTrue(ctl: seq<Ctl>, data: seq<Block>, disk: map<int, Block>, now: int, b: int, ctl': seq<Ctl>)
    requires |ctl| == |data| && TrueBut(ctl, data, disk, now, 0, 0) && Dropped(ctl, b, ctl')
    ensures |ctl'| == |ctl| && TrueBut(ctl', data, disk, now, 0, 0)
  {
    forall i | 0 <= i < |ctl'| ensures TrueAt(ctl', data, disk, now, i) {
      assert TrueAt(ctl, data, disk, now, i);
    }
  }

  /** The disk after blocks have been written from blk on. */
  ghost function Written(disk: map<int, Block>, blk: int, blocks: seq<Block>): (d: map<int, Block>)
    ensures forall b :: b in d <==> b in disk || blk <= b < blk + |blocks|
    ensures forall b :: b in d ==> d[b] == if blk <= b < blk + |blocks| then blocks[b - blk] else disk[b]
  {
    if blocks == [] then disk
    else
      var n := |blocks| - 1;
      Written(disk, blk, blocks[..n])[blk + n := blocks[n]]
  }

  lemma WriteDoubts(ctl: seq<Ctl>, data: seq<Block>, disk: map<int, Block>, now: int, blk: int, blocks: seq<Block>)
    requires |ctl| == |data| && TrueBut(ctl, data, disk, now, 0, 0)
    ensures TrueBut(ctl, data, Written(disk, blk, blocks), now, blk, blk + |blocks|)
  {
    forall i | 0 <= i < |ctl| && !(blk <= ctl[i].blkno < blk + |blocks|)
      ensures TrueAt(ctl, data, Written(disk, blk, blocks), now, i)
    {
      assert TrueAt(ctl, data, disk, now, i);
    }
  }

  ghost predicate HoldsAt(disk: map<int, Block>, blk: int, buf: seq<Block>, k: int)
    requires 0 <= k < |buf|
  {
    blk + k in disk && buf[k] == disk[blk + k]
  }

  /** Blocks blk + k of the disk are those of the buffer, for k from lo up to hi. */
  ghost predicate Holds(disk: map<int, Block>, blk: int, buf: seq<Block>, lo: int, hi: int)
    requires 0 <= lo && hi <= |buf|
  {
    forall k :: lo <= k < hi ==> HoldsAt(disk, blk, buf, k)
  }

  /** The same blocks in another buffer. */
  lemma HoldsSame(disk: map<int, Block>, blk: int, buf: seq<Block>, buf': seq<Block>, lo: int, hi: int)
    requires 0 <= lo && hi <= |buf| && hi <= |buf'| && Holds(disk, blk, buf, lo, hi)
    requires forall k :: lo <= k < hi ==> buf'[k] == buf[k]
    ensures Holds(disk, blk, buf', lo, hi)
  {
    forall k | lo <= k < hi ensures HoldsAt(disk, blk, buf', k) {
      assert HoldsAt(disk, blk, buf, k);
    }
  }

  lemma HoldsMore(disk: map<int, Block>, blk: int, buf: seq<Block>, lo: int, hi: int)
    requires 0 <= lo <= hi <= |buf| && Holds(disk, blk, buf, 0, lo)
    requires Holds(disk, blk, buf, lo, hi)
    ensures Holds(disk, blk, buf, 0, hi)
  {
  }

  datatype Span = Span(first: int, count: int)

  /** The runs of missing blocks among the first n, in order. */
  ghost function Runs(miss: seq<bool>, blk: int, n: int): (r: seq<Span>)
    requires 0 <= n <= |miss|
    ensures n > 0 && miss[n - 1] ==> r != []
  {
    if n == 0 then []
    else if !miss[n - 1] then Runs(miss, blk, n - 1)
    else
      var r := Runs(miss, blk, n - 1);
      if n >= 2 && miss[n - 2] then r[|r| - 1 := Span(r[|r| - 1].first, r[|r| - 1].count + 1)]
      else r + [Span(blk + n - 1, 1)]
  }

  ghost predicate InSpan(s: Span, b: int) {
    s.first <= b < s.first + s.count
  }

  ghost predicate InRuns(r: seq<Span>, b: int) {
    exists k :: 0 <= k < |r| && InSpan(r[k], b)
  }

  ghost predicate SpanWithin(s: Span, lo: int, hi: int) {
    lo <= s.first && 0 < s.count && s.first + s.count <= hi
  }

  /** There is a hit between spans j and k. */
  ghost predicate GapBetween(r: seq<Span>, j: int, k: int)
    requires 0 <= j < |r| && 0 <= k < |r|
  {
    r[j].first + r[j].count < r[k].first
  }

  ghost predicate RunsOk(r: seq<Span>, lo: int, hi: int) {
    && (forall k :: 0 <= k < |r| ==> SpanWithin(r[k], lo, hi))
    && forall j, k :: 0 <= j < k < |r| ==> GapBetween(r, j, k)
  }

  ghost predicate EndsAt(r: seq<Span>, b: int) {
    r != [] && r[|r| - 1].first + r[|r| - 1].count == b
  }

  /** The runs lie in the request and do not touch. */
  lemma {:induction false} RunsApart(miss: seq<bool>, blk: int, n: int)
    requires 0 <= n <= |miss|
    ensures var r := Runs(miss, blk, n);
      if n > 0 && miss[n - 1] then RunsOk(r, blk, blk + n) && EndsAt(r, blk + n)
      else RunsOk(r, blk, blk + n - 1)
  {
    if n > 0 {
      RunsApart(miss, blk, n - 1);
      var q, r := Runs(miss, blk, n - 1), Runs(miss, blk, n);
      if miss[n - 1] {
        forall j, k | 0 <= j < k < |r| ensures GapBetween(r, j, k) {
          assert k < |q| ==> GapBetween(q, j, k);
          assert SpanWithin(q[j], blk, blk + n - 1);
        }
      }
    }
  }

  lemma NotBeyond(r: seq<Span>, lo: int, hi: int, b: int)
    requires RunsOk(r, lo, hi)
    ensures InRuns(r, b) ==> lo <= b < hi
  {
    assert forall k :: 0 <= k < |r| ==> SpanWithin(r[k], lo, hi);
  }

  /** Each missing block is in one run, and no other block is in any. */
  lemma {:induction false} RunsMeaning(miss: seq<bool>, blk: int, n: int, i: int)
    requires 0 <= i < n <= |miss|
    ensures InRuns(Runs(miss, blk, n), blk + i) <==> miss[i]
  {
    RunsApart(miss, blk, n - 1);
    var q, r := Runs(miss, blk, n - 1), Runs(miss, blk, n);
    NotBeyond(q, blk, blk + n - 1, blk + n - 1);
    if i < n - 1 {
      RunsMeaning(miss, blk, n - 1, i);
      if k :| 0 <= k < |q| && InSpan(q[k], blk + i) {
        assert InSpan(r[k], blk + i);
      }
      assert forall k :: 0 <= k < |r| && InSpan(r[k], blk + i) ==> InSpan(q[k], blk + i);
    } else if miss[i] {
      assert InSpan(r[|r| - 1], blk + i);
    }
  }

  ghost predicate AbsentAll(ctl: seq<Ctl>, now: int, lo: int, hi: int) {
    forall b :: lo <= b < hi ==> Absent(ctl, now, b)
  }

  /** What bcache_insert does to the cache, at time now. */
  ghost predicate Inserted(ctl: seq<Ctl>, data: seq<Block>, block: Block, b: int, now: int, count: int,
                           ctl': seq<Ctl>, data': seq<Block>)
    requires |ctl| == |data|
  {
    exists cand :: Chosen(ctl, b, cand) && ctl' == ctl[cand := Ctl(b, now, count)] && data' == data[cand := block]
  }

  /** A block read from the disk and inserted keeps the cache coherent, and brings no other block in. */
  lemma InsertRead(ctl: seq<Ctl>, data: seq<Block>, disk: map<int, Block>, was: int, b: int, now: int, count: int,
                   ctl': seq<Ctl>, data': seq<Block>)
    requires |ctl| == |data| && Coherent(ctl, data, disk, was) && was <= now
    requires b >= 0 && b in disk && Absent(ctl, was, b)
    requires Inserted(ctl, data, disk[b], b, now, count, ctl', data')
    ensures |ctl'| == |data'| == |ctl| && Coherent(ctl', data', disk, now)
    ensures forall x :: x != b && Absent(ctl, was, x) ==> Absent(ctl', now, x)
  {
    var cand :| Chosen(ctl, b, cand) && ctl' == ctl[cand := Ctl(b, now, count)] && data' == data[cand := disk[b]];
    ShapeLater(ctl, was, now);
    TrueLater(ctl, data, disk, was, now, 0, 0);
    AbsentLater(ctl, was, now, b);
    assert !LiveAt(ctl, 0, now, b);
    InsertShape(ctl, now, b, cand, count);
    InsertTrue(ctl, data, disk, now, b, cand, Ctl(b, now, count), 0, 0);
    forall x | x != b && Absent(ctl, was, x) ensures Absent(ctl', now, x) {
      AbsentLater(ctl, was, now, x);
      AbsentInsert(ctl, now, x, cand, Ctl(b, now, count));
    }
  }

  /** A block written to the disk and inserted is no longer in doubt. */
  lemma InsertWritten(ctl: seq<Ctl>, data: seq<Block>, disk: map<int, Block>, was: int, lo: int, hi: int, now: int, count: int,
                      ctl': seq<Ctl>, data': seq<Block>)
    requires |ctl| == |data| && Shape(ctl, was) && TrueBut(ctl, data, disk, was, lo, hi) && was <= now
    requires 0 <= lo < hi && lo in disk && Slot0Out(ctl, lo, hi)
    requires Inserted(ctl, data, disk[lo], lo, now, count, ctl', data')
    ensures |ctl'| == |data'| == |ctl| && Shape(ctl', now) && TrueBut(ctl', data', disk, now, lo + 1, hi)
    ensures Slot0Out(ctl', lo + 1, hi)
  {
    var cand :| Chosen(ctl, lo, cand) && ctl' == ctl[cand := Ctl(lo, now, count)] && data' == data[cand := disk[lo]];
    ShapeLater(ctl, was, now);
    TrueLater(ctl, data, disk, was, now, lo, hi);
    InsertShape(ctl, now, lo, cand, count);
    InsertTrue(ctl, data, disk, now, lo, cand, Ctl(lo, now, count), lo, hi);
  }

  lemma NothingInDoubt(ctl: seq<Ctl>, data: seq<Block>, disk: map<int, Block>, now: int, b: int)
    requires |ctl| == |data| && TrueBut(ctl, data, disk, now, b, b)
    ensures TrueBut(ctl, data, disk, now, 0, 0)
  {
    forall i | 0 <= i < |ctl| ensures TrueAt(ctl, data, disk, now, i) {
      assert !(b <= ctl[i].blkno < b);
    }
  }

  lemma CoherentLater(ctl: seq<Ctl>, data: seq<Block>, disk: map<int, Block>, now: int, later: int)
    requires |ctl| == |data| && Coherent(ctl, data, disk, now) && now <= later
    ensures Coherent(ctl, data, disk, later)
  {
    ShapeLater(ctl, now, later);
    TrueLater(ctl, data, disk, now, later, 0, 0);
  }

  /** Where block k of a request stands after the lookups: missing from the cache, or in the buffer. */
  ghost predicate LookedUp(ctl: seq<Ctl>, now: int, disk: map<int, Block>, blk: int, buf: seq<Block>, miss: seq<bool>, k: int)
    requires 0 <= k < |buf| && k < |miss|
  {
    if miss[k] then Absent(ctl, now, blk + k) else HoldsAt(disk, blk, buf, k)
  }

  ghost predicate LookedUpAll(ctl: seq<Ctl>, now: int, disk: map<int, Block>, blk: int, buf: seq<Block>, miss: seq<bool>, lo: int, hi: int)
    requires 0 <= lo && hi <= |buf| && hi <= |miss|
  {
    forall k :: lo <= k < hi ==> LookedUp(ctl, now, disk, blk, buf, miss, k)
  }

  /** A usable entry tells the truth. */
  lemma HitIsTrue(ctl: seq<Ctl>, data: seq<Block>, disk: map<int, Block>, now: int, i: int, b: int)
    requires |ctl| == |data| && Coherent(ctl, data, disk, now) && 0 <= i < |ctl| && LiveAt(ctl, i, now, b) && b >= 0
    ensures b in disk && data[i] == disk[b]
  {
    assert TrueAt(ctl, data, disk, now, i);
  }

  lemma LookedUpLater(ctl: seq<Ctl>, now: int, later: int, disk: map<int, Block>, blk: int,
                      buf: seq<Block>, buf': seq<Block>, miss: seq<bool>, miss': seq<bool>, lo: int, hi: int)
    requires 0 <= lo && hi <= |buf| && hi <= |buf'| && hi <= |miss| && hi <= |miss'|
    requires LookedUpAll(ctl, now, disk, blk, buf, miss, lo, hi) && now <= later
    requires forall k :: lo <= k < hi ==> buf'[k] == buf[k] && miss'[k] == miss[k]
    ensures LookedUpAll(ctl, later, disk, blk, buf', miss', lo, hi)
  {
    forall k | lo <= k < hi ensures LookedUp(ctl, later, disk, blk, buf', miss', k) {
      assert LookedUp(ctl, now, disk, blk, buf, miss, k);
      if miss[k] {
        AbsentLater(ctl, now, later, blk + k);
      } else {
        assert HoldsAt(disk, blk, buf, k);
      }
    }
  }

  /** Only blocks with a usable entry count as hits. */
  ghost predicate HitsLive(ctl: seq<Ctl>, now: int, blk: int, miss: seq<bool>, n: int)
    requires n <= |miss|
  {
    forall k :: 0 <= k < n && !miss[k] ==> !Absent(ctl, now, blk + k)
  }

  /** What has been fetched while the runs of the first i blocks are all done but a pending one. */
  ghost predicate Fetched(before: seq<Span>, fetched: seq<Span>, miss: seq<bool>, blk: int, i: int, pBlk: int, pSize: int)
    requires 0 <= i <= |miss|
  {
    var r := Runs(miss, blk, i);
    if pBlk == NOBLOCK then fetched == before + r && (i > 0 ==> !miss[i - 1])
    else i > 0 && miss[i - 1] && r != [] && r[|r| - 1] == Span(pBlk, pSize) && fetched == before + r[..|r| - 1]
  }

  lemma FetchedNext(before: seq<Span>, fetched: seq<Span>, miss: seq<bool>, blk: int, i: int, pBlk: int, pSize: int)
    requires 0 <= i < |miss| && blk >= 0 && Fetched(before, fetched, miss, blk, i, pBlk, pSize)
    requires pBlk != NOBLOCK ==> miss[i]
    ensures Fetched(before, fetched, miss, blk, i + 1,
                    if pBlk == NOBLOCK && miss[i] then blk + i else pBlk,
                    if pBlk == NOBLOCK then (if miss[i] then 1 else pSize) else pSize + 1)
  {
  }

  lemma FetchedDone(before: seq<Span>, fetched: seq<Span>, miss: seq<bool>, blk: int, i: int, pBlk: int, pSize: int)
    requires 0 <= i <= |miss| && pBlk != NOBLOCK && Fetched(before, fetched, miss, blk, i, pBlk, pSize)
    ensures fetched + [Span(pBlk, pSize)] == before + Runs(miss, blk, i)
    ensures i < |miss| && !miss[i] ==> Fetched(before, fetched + [Span(pBlk, pSize)], miss, blk, i + 1, NOBLOCK, pSize)
  {
    var r := Runs(miss, blk, i);
    assert r == r[..|r| - 1] + [r[|r| - 1]];
  }

  lemma LookedUpInserted(ctl: seq<Ctl>, now: int, ctl': seq<Ctl>, later: int, disk: map<int, Block>, blk: int,
                         buf: seq<Block>, buf': seq<Block>, miss: seq<bool>, lo: int, hi: int)
    requires 0 <= lo && hi <= |buf| && hi <= |buf'| && hi <= |miss|
    requires LookedUpAll(ctl, now, disk, blk, buf, miss, lo, hi)
    requires forall k :: lo <= k < hi ==> buf'[k] == buf[k]
    requires forall x :: blk + lo <= x < blk + hi && Absent(ctl, now, x) ==> Absent(ctl', later, x)
    ensures LookedUpAll(ctl', later, disk, blk, buf', miss, lo, hi)
  {
    forall k | lo <= k < hi ensures LookedUp(ctl', later, disk, blk, buf', miss, k) {
      assert LookedUp(ctl, now, disk, blk, buf, miss, k);
      if !miss[k] {
        assert HoldsAt(disk, blk, buf, k);
      }
    }
  }

  /** Every usable entry of a block that is about to be written past the cache holds what will be written. */
  ghost predicate Unaffected(ctl: seq<Ctl>, data: seq<Block>, now: int, blk: int, blocks: seq<Block>)
    requires |ctl| == |data|
  {
    forall i :: 0 <= i < |ctl| && Live(ctl[i], now) && blk <= ctl[i].blkno < blk + |blocks| ==>
      data[i] == blocks[ctl[i].blkno - blk]
  }

  /** A write past the cache leaves it coherent exactly when it changes no block that is usable there. */
  lemma WritePastCache(ctl: seq<Ctl>, data: seq<Block>, disk: map<int, Block>, now: int, blk: int, blocks: seq<Block>)
    requires |ctl| == |data| && Coherent(ctl, data, disk, now) && blk >= 0
    ensures Coherent(ctl, data, Written(disk, blk, blocks), now) <==> Unaffected(ctl, data, now, blk, blocks)
  {
    var disk' := Written(disk, blk, blocks);
    if TrueBut(ctl, data, disk', now, 0, 0) {
      forall i | 0 <= i < |ctl| && Live(ctl[i], now) && blk <= ctl[i].blkno < blk + |blocks|
        ensures data[i] == blocks[ctl[i].blkno - blk]
      {
        assert TrueAt(ctl, data, disk', now, i);
      }
    }
    if Unaffected(ctl, data, now, blk, blocks) {
      forall i | 0 <= i < |ctl| ensures TrueAt(ctl, data, disk', now, i) {
        assert TrueAt(ctl, data, disk, now, i);
      }
    }
  }

  /** What bcache_lookup answers for block b: the content of its first usable entry. */
  ghost predicate Answers(ctl: seq<Ctl>, data: seq<Block>, now: int, b: int, x: Block)
    requires |ctl| == |data|
  {
    exists i :: 0 <= i < |ctl| && LiveAt(ctl, i, now, b) && x == data[i] && forall j :: 0 <= j < i ==> !LiveAt(ctl, j, now, b)
  }

  /** A block has no two usable entries. */
  lemma OneLive(ctl: seq<Ctl>, now: int, i: int, j: int, b: int)
    requires Shape(ctl, now) && 0 <= i < j < |ctl| && b != NOBLOCK
    ensures !LiveAt(ctl, i, now, b) || !LiveAt(ctl, j, now, b)
  {
    assert if i == 0 then Slot0At(ctl, now, j) else UniqueAt(ctl, i, j);
  }

  lemma LiveAnswers(ctl: seq<Ctl>, data: seq<Block>, now: int, i: int, b: int)
    requires |ctl| == |data| && Shape(ctl, now) && 0 <= i < |ctl| && b != NOBLOCK && LiveAt(ctl, i, now, b)
    ensures Answers(ctl, data, now, b, data[i])
  {
    forall j | 0 <= j < i ensures !LiveAt(ctl, j, now, b) {
      OneLive(ctl, now, j, i, b);
    }
  }

  /** After a write past the cache some lookup gives what is not on the disk, exactly when the write changed a usable block. */
  lemma StaleAnswers(ctl: seq<Ctl>, data: seq<Block>, disk: map<int, Block>, now: int, blk: int, blocks: seq<Block>)
    requires |ctl| == |data| && Coherent(ctl, data, disk, now) && blk >= 0
    ensures SomeWrong(ctl, data, Written(disk, blk, blocks), now) <==> !Unaffected(ctl, data, now, blk, blocks)
  {
    WritePastCache(ctl, data, disk, now, blk, blocks);
    WrongIncoherent(ctl, data, Written(disk, blk, blocks), now);
  }

  ghost predicate Wrong(ctl: seq<Ctl>, data: seq<Block>, disk: map<int, Block>, now: int, b: int, x: Block)
    requires |ctl| == |data|
  {
    Answers(ctl, data, now, b, x) && b != NOBLOCK && !(b in disk && disk[b] == x)
  }

  ghost predicate SomeWrong(ctl: seq<Ctl>, data: seq<Block>, disk: map<int, Block>, now: int)
    requires |ctl| == |data|
  {
    exists b, x :: Wrong(ctl, data, disk, now, b, x)
  }

  /** Whatever device a cache serves, some lookup gives what is not on it, exactly when the cache is not coherent with it. */
  lemma WrongIncoherent(ctl: seq<Ctl>, data: seq<Block>, disk: map<int, Block>, now: int)
    requires |ctl| == |data| && Shape(ctl, now)
    ensures SomeWrong(ctl, data, disk, now) <==> !Coherent(ctl, data, disk, now)
  {
    if !Coherent(ctl, data, disk, now) {
      var i :| 0 <= i < |ctl| && !TrueAt(ctl, data, disk, now, i);
      LiveAnswers(ctl, data, now, i, ctl[i].blkno);
      assert Wrong(ctl, data, disk, now, ctl[i].blkno, data[i]);
    } else {
      forall b, x | Answers(ctl, data, now, b, x) && b != NOBLOCK ensures !Wrong(ctl, data, disk, now, b, x) {
        var i :| 0 <= i < |ctl| && LiveAt(ctl, i, now, b) && x == data[i];
        assert TrueAt(ctl, data, disk, now, i);
      }
    }
  }

  /**
   A cache of two slots, just flushed, into which block 7 is read at time 100; then blocks 7 and 8 are written, which is
   too large a request for it.  For as long as the entry is usable, lookups of block 7 give what it was before.
   */
  lemma StaleAfterBypass(ctl: seq<Ctl>, data: seq<Block>, disk: map<int, Block>, ctl': seq<Ctl>, data': seq<Block>, blocks: seq<Block>, later: int)
    requires |ctl| == |data| == 2 && (forall i :: 0 <= i < 2 ==> ctl[i].blkno == NOBLOCK && ctl[i].count == -1)
    requires 7 in disk && Inserted(ctl, data, disk[7], 7, 100, 0, ctl', data')
    requires |blocks| == 2 && blocks[0] != disk[7] && 100 <= later <= 100 + BCACHE_TIMEOUT
    ensures |ctl'| == |data'| == 2 && Coherent(ctl', data', disk, 100)
    ensures !Coherent(ctl', data', Written(disk, 7, blocks), later)
    ensures Answers(ctl', data', later, 7, disk[7]) && Written(disk, 7, blocks)[7] != disk[7]
  {
    FlushedCoherent(ctl, data, disk, 100);
    assert Absent(ctl, 100, 7);
    InsertRead(ctl, data, disk, 100, 7, 100, 0, ctl', data');
    var cand :| Chosen(ctl, 7, cand) && ctl' == ctl[cand := Ctl(7, 100, 0)] && data' == data[cand := disk[7]];
    assert ctl[0].count == -1 && ctl[1].count == -1 && ctl[1].blkno == NOBLOCK;
    assert cand == 0;
    ShapeLater(ctl', 100, later);
    assert LiveAt(ctl', 0, later, 7);
    LiveAnswers(ctl', data', later, 0, 7);
    assert !TrueAt(ctl', data', Written(disk, 7, blocks), later, 0);
  }

  /** Nothing is usable after a flush. */
  lemma FlushedCoherent(ctl: seq<Ctl>, data: seq<Block>, disk: map<int, Block>, now: int)
    requires |ctl| == |data| && Flushed(ctl)
    ensures Coherent(ctl, data, disk, now)
  {
  }

  lemma FlushedUnaffected(ctl: seq<Ctl>, data: seq<Block>, now: int, blk: int, blocks: seq<Block>)
    requires |ctl| == |data| && Flushed(ctl) && blk >= 0
    ensures Unaffected(ctl, data, now, blk, blocks)
  {
  }

  ghost predicate Flushed(ctl: seq<Ctl>) {
    forall i :: 0 <= i < |ctl| ==> ctl[i].blkno == NOBLOCK
  }

  /** A hit extends what the buffer holds. */
  lemma HeldNext(disk: map<int, Block>, blk: int, buf: seq<Block>, ctl: seq<Ctl>, now: int, miss: seq<bool>, i: nat, n: nat)
    requires i < n <= |buf| && n <= |miss| && Holds(disk, blk, buf, 0, i) && !miss[i]
    requires LookedUpAll(ctl, now, disk, blk, buf, miss, i, n)
    ensures Holds(disk, blk, buf, 0, i + 1) && LookedUpAll(ctl, now, disk, blk, buf, miss, i + 1, n)
  {
    assert LookedUp(ctl, now, disk, blk, buf, miss, i);
    assert HoldsAt(disk, blk, buf, i);
  }

  /** time() */
  class Clock {
    var last: int

    method Time() returns (now: int)
      modifies this
      ensures old(last) <= now && now == last
    {
      now := *;
      if now < last {
        now := last;
      }
      last := now;
    }
  }

  /** A drive.  A transfer may fail; a failed write changes nothing on the disk. */
  /** Where a block was put, and what it held. */
  datatype Place = Place(slot: nat, block: Block)

  ghost predicate CountsBelow(ctl: seq<Ctl>, bcount: int) {
    forall i :: 0 <= i < |ctl| ==> ctl[i].count < bcount
  }

  /** Block b has been put into the cache since the count was base, and is still there. */
  ghost predicate KeptAt(ctl: seq<Ctl>, data: seq<Block>, kept: map<int, Place>, base: int, since: int, b: int)
    requires |ctl| == |data| && b in kept
  {
    var i := kept[b].slot;
    && i < |ctl| && ctl[i].blkno == b && ctl[i].stamp >= since && ctl[i].count >= base && data[i] == kept[b].block
  }

  ghost predicate NewAt(ctl: seq<Ctl>, kept: map<int, Place>, base: int, i: int)
    requires 0 <= i < |ctl|
  {
    ctl[i].count >= base ==> ctl[i].blkno in kept && kept[ctl[i].blkno].slot == i
  }

  /** The blocks put into the cache since the count was base are all there, and no other slot has been filled since. */
  ghost predicate KeptAll(ctl: seq<Ctl>, data: seq<Block>, kept: map<int, Place>, base: int, since: int, bcount: int)
    requires |ctl| == |data|
  {
    && base <= bcount && CountsBelow(ctl, bcount)
    && (forall b :: b in kept ==> KeptAt(ctl, data, kept, base, since, b))
    && forall i :: 0 <= i < |ctl| ==> NewAt(ctl, kept, base, i)
  }

  ghost function BlocksOf(ctl: seq<Ctl>, n: nat): set<int>
    requires n <= |ctl|
  {
    set i | 0 <= i < n :: ctl[i].blkno
  }

  /** Slots filled since then hold different blocks. */
  lemma {:induction false} AllDifferent(ctl: seq<Ctl>, kept: map<int, Place>, base: int, n: nat)
    requires n <= |ctl| && forall i :: 0 <= i < |ctl| ==> NewAt(ctl, kept, base, i)
    requires forall i :: 0 <= i < n ==> ctl[i].count >= base
    ensures |BlocksOf(ctl, n)| == n && BlocksOf(ctl, n) <= kept.Keys
  {
    if n > 0 {
      AllDifferent(ctl, kept, base, n - 1);
      assert NewAt(ctl, kept, base, n - 1);
      forall i | 0 <= i < n - 1 ensures ctl[i].blkno != ctl[n - 1].blkno {
        assert NewAt(ctl, kept, base, i);
      }
      assert BlocksOf(ctl, n) == BlocksOf(ctl, n - 1) + {ctl[n - 1].blkno};
    }
  }

  /** As long as fewer blocks have been put in than there are slots, some slot is older than all of them. */
  lemma SomeOlder(ctl: seq<Ctl>, data: seq<Block>, kept: map<int, Place>, base: int, since: int, bcount: int) returns (i: nat)
    requires |ctl| == |data| && KeptAll(ctl, data, kept, base, since, bcount) && |kept| < |ctl|
    ensures i < |ctl| && ctl[i].count < base
  {
    assert |kept.Keys| == |kept|;
    if forall i :: 0 <= i < |ctl| ==> ctl[i].count >= base {
      AllDifferent(ctl, kept, base, |ctl|);
      SubsetSize(BlocksOf(ctl, |ctl|), kept.Keys);
      assert false;
    }
    i :| 0 <= i < |ctl| && ctl[i].count < base;
  }

  /** A block put in takes none of the slots of the others. */
  lemma KeptMore(ctl: seq<Ctl>, data: seq<Block>, kept: map<int, Place>, base: int, since: int, bcount: int,
                 b: int, block: Block, now: int, cand: nat, ctl': seq<Ctl>, data': seq<Block>)
    requires |ctl| == |data| && KeptAll(ctl, data, kept, base, since, bcount) && |kept| < |ctl| && b !in kept && since <= now
    requires Chosen(ctl, b, cand) && ctl' == ctl[cand := Ctl(b, now, bcount)] && data' == data[cand := block]
    ensures KeptAll(ctl', data', kept[b := Place(cand, block)], base, since, bcount + 1)
  {
    var older := SomeOlder(ctl, data, kept, base, since, bcount);
    var kept' := kept[b := Place(cand, block)];
    forall c | c in kept ensures kept[c].slot != cand {
      assert KeptAt(ctl, data, kept, base, since, c);
    }
    forall c | c in kept' ensures KeptAt(ctl', data', kept', base, since, c) {
      assert c != b ==> KeptAt(ctl, data, kept, base, since, c);
    }
    forall i | 0 <= i < |ctl'| ensures NewAt(ctl', kept', base, i) {
      assert NewAt(ctl, kept, base, i);
    }
  }

  /** What the disk holds as block b was put into the cache at the time or later, and is there. */
  ghost predicate InCache(ctl: seq<Ctl>, data: seq<Block>, since: int, b: int, disk: map<int, Block>)
    requires |ctl| == |data|
  {
    b in disk && exists i :: 0 <= i < |ctl| && ctl[i].blkno == b && ctl[i].stamp >= since && data[i] == disk[b]
  }

  /** n blocks of the disk from block lo on have been put in too. */
  ghost predicate KeptRun(was: map<int, Place>, kept: map<int, Place>, disk: map<int, Block>, lo: int, n: nat) {
    && |kept| == |was| + n
    && (forall b :: b in was ==> b in kept && kept[b] == was[b])
    && (forall b :: lo <= b < lo + n ==> b in kept && b in disk && kept[b].block == disk[b])
    && forall b :: b in kept ==> b in was || lo <= b < lo + n
  }

  lemma KeptOneMore(was: map<int, Place>, kept: map<int, Place>, kept': map<int, Place>, disk: map<int, Block>, lo: int, n: nat)
    requires KeptRun(was, kept, disk, lo, n) && lo + n !in kept && lo + n in disk
    requires lo + n in kept' && kept' == kept[lo + n := kept'[lo + n]] && kept'[lo + n].block == disk[lo + n]
    ensures KeptRun(was, kept', disk, lo, n + 1)
  {
    MapMore(kept, lo + n, kept'[lo + n]);
    forall b | lo <= b < lo + (n + 1) ensures b in kept' && b in disk && kept'[b].block == disk[b] {
      assert b == lo + n || lo <= b < lo + n;
    }
  }

  lemma MapMore(kept: map<int, Place>, b: int, p: Place)
    requires b !in kept
    ensures |kept[b := p]| == |kept| + 1
  {
    assert kept[b := p].Keys == kept.Keys + {b};
    assert |kept[b := p].Keys| == |kept.Keys| + 1;
  }

  /** All misses among the first m blocks of the request have been put in, and nothing else. */
  ghost predicate KeptMisses(kept: map<int, Place>, miss: seq<bool>, disk: map<int, Block>, blk: int, m: nat)
    requires m <= |miss|
  {
    && |kept| <= m && (forall b :: b in kept ==> blk <= b < blk + m)
    && forall k :: 0 <= k < m && miss[k] ==> blk + k in kept && blk + k in disk && kept[blk + k].block == disk[blk + k]
  }

  lemma KeptRunDone(was: map<int, Place>, kept: map<int, Place>, miss: seq<bool>, disk: map<int, Block>, blk: int, off: nat, n: nat)
    requires off + n <= |miss| && KeptMisses(was, miss, disk, blk, off) && KeptRun(was, kept, disk, blk + off, n)
    ensures KeptMisses(kept, miss, disk, blk, off + n)
  {
    forall k | 0 <= k < off + n && miss[k] ensures blk + k in kept && blk + k in disk && kept[blk + k].block == disk[blk + k] {
    }
  }

  class Device {
    var disk: map<int, Block>
    ghost var fetched: seq<Span>
    ghost var failures: nat

    method ReadBlocks(blk: int, n: nat, buf: array<Block>, off: nat) returns (err: int)
      requires off + n <= buf.Length
      modifies buf, `fetched, `failures
      ensures failures == old(failures) + if err == 0 then 0 else 1
      ensures err == 0 ==> Holds(disk, blk - off, buf[..], off, off + n) && fetched == old(fetched) + [Span(blk, n)]
      ensures forall k :: 0 <= k < buf.Length && !(off <= k < off + n) ==> buf[k] == old(buf[k])
    {
      err := *;
      var k := off;
      while err == 0 && k < off + n
        modifies buf
        invariant off <= k <= off + n
        invariant err == 0 ==> Holds(disk, blk - off, buf[..], off, k)
        invariant forall k :: 0 <= k < buf.Length && !(off <= k < off + n) ==> buf[k] == old(buf[k])
      {
        var b := blk - off + k;
        if b in disk {
          ghost var was := buf[..];
          buf[k] := disk[b];
          HoldsSame(disk, blk - off, was, buf[..], off, k);
        } else {
          err := 5;
        }
        k := k + 1;
      }
      if err == 0 {
        fetched := fetched + [Span(blk, n)];
      } else {
        failures := failures + 1;
      }
    }

    method WriteBlocks(blk: int, n: nat, buf: array<Block>) returns (err: int)
      requires n <= buf.Length
      modifies `disk, `failures
      ensures disk == if err == 0 then Written(old(disk), blk, buf[..n]) else old(disk)
      ensures failures == old(failures) + if err == 0 then 0 else 1
    {
      err := *;
      var k := 0;
      while err == 0 && k < n
        invariant 0 <= k <= n && failures == old(failures)
        invariant disk == if err == 0 then Written(old(disk), blk, buf[..k]) else old(disk)
      {
        WrittenOneMore(old(disk), blk, buf[..k], buf[k]);
        assert buf[..k + 1] == buf[..k] + [buf[k]];
        disk := disk[blk + k := buf[k]];
        k := k + 1;
      }
      failures := failures + if err == 0 then 0 else 1;
    }
  }

  class Cache {
    const nblks: nat
    const blksize: nat
    const ctl: array<Ctl>
    const data: array<Block>
    const miss: array<bool>
    var unit: int
    var bcount: int
    ghost var kept: map<int, Place>   // what the request at hand has put in
    ghost var base: int               // the count before
    ghost var since: int              // the time before
    const clock: Clock
    ghost var dev: Device?     // the drive of that unit

    ghost predicate Arrays()
      reads this
    {
      && ctl.Length == nblks && data.Length == nblks && miss.Length == (nblks + 1) / 2 && blksize > 0 && bcount >= 0
    }

    /** What was read within the timeout and is still in the cache is what the disk holds. */
    ghost predicate Valid()
      reads this, ctl, data, clock, dev
    {
      Arrays() && (unit != -1 ==> dev != null && Coherent(ctl[..], data[..], dev.disk, clock.last) && CountsBelow(ctl[..], bcount))
    }

    constructor (nblks: nat, blksize: nat, clock: Clock)
      requires blksize > 0
      ensures Valid() && fresh(ctl) && fresh(data) && fresh(miss) && this.clock == clock
    {
      this.nblks, this.blksize, this.clock := nblks, blksize, clock;
      this.unit, this.bcount, this.dev := -1, 0, null;
      ctl := new Ctl[nblks](_ => Ctl(0, 0, 0));
      data := new Block[nblks](_ => []);
      miss := new bool[(nblks + 1) / 2];
    }

    method Flush()
      requires Arrays()
      modifies ctl
      ensures forall i :: 0 <= i < nblks ==> ctl[i].blkno == NOBLOCK && ctl[i].count == -1 && ctl[i].stamp == old(ctl[i]).stamp
    {
      for i := 0 to nblks
        invariant forall j :: 0 <= j < i ==> ctl[j].blkno == NOBLOCK && ctl[j].count == -1
        invariant forall j :: 0 <= j < nblks ==> ctl[j].stamp == old(ctl[j]).stamp
      {
        ctl[i] := Ctl(NOBLOCK, ctl[i].stamp, -1);
      }
    }

    /** The first usable entry of the block, if there is one. */
    method Lookup(buf: array<Block>, k: nat, blkno: int) returns (err: int)
      requires Arrays() && k < buf.Length && buf != data
      modifies buf, clock
      ensures old(clock.last) <= clock.last
      ensures forall j :: 0 <= j < buf.Length && j != k ==> buf[j] == old(buf[j])
      ensures err == 0 <==> !Absent(ctl[..], clock.last, blkno)
      ensures err == 0 ==> Answers(ctl[..], data[..], clock.last, blkno, buf[k])
      ensures err != 0 ==> buf[k] == old(buf[k])
    {
      var now := clock.Time();
      for i := 0 to nblks
        invariant clock.last == now
        invariant buf[..] == old(buf[..])
        invariant forall j :: 0 <= j < i ==> !LiveAt(ctl[..], j, now, blkno)
      {
        if ctl[i].blkno == blkno && Live(ctl[i], now) {
          assert LiveAt(ctl[..], i, now, blkno);
          buf[k] := data[i];
          assert data[..][i] == buf[k];
          return 0;
        }
      }
      err := 2;
    }

    method Invalidate(blkno: int)
      requires Arrays()
      modifies ctl
      ensures Dropped(old(ctl[..]), blkno, ctl[..])
    {
      for i := 0 to nblks
        invariant ctl[..] == old(ctl[..])
        invariant forall j :: 0 <= j < i ==> ctl[j].blkno != blkno
      {
        if ctl[i].blkno == blkno {
          ctl[i] := Ctl(NOBLOCK, ctl[i].stamp, -1);
          assert ctl[..] == old(ctl[..])[i := Ctl(NOBLOCK, old(ctl[i]).stamp, -1)];
          return;
        }
      }
    }

    /** The slot for a block: its own, or the one filled least recently. */
    method Victim(blkno: int) returns (cand: nat)
      requires Arrays() && nblks > 0
      ensures cand < nblks && Chosen(ctl[..], blkno, cand)
    {
      cand := 0;
      var ocount := ctl[0].count;
      for i := 1 to nblks
        invariant 0 <= cand < i && ocount == ctl[cand].count
        invariant forall j :: 1 <= j < i ==> ctl[j].blkno != blkno
        invariant forall j :: 0 <= j < i ==> ctl[cand].count <= ctl[j].count
        invariant forall j :: 0 <= j < cand ==> ctl[cand].count < ctl[j].count
      {
        if ctl[i].blkno == blkno {
          assert ctl[..][i].blkno == blkno;
          return i;
        }
        if ctl[i].count < ocount {
          ocount := ctl[i].count;
          cand := i;
        }
      }
    }

    method Insert(block: Block, blkno: int)
      requires Arrays() && nblks > 0
      modifies ctl, data, clock, `bcount
      ensures old(clock.last) <= clock.last
      ensures Arrays()
      ensures Inserted(old(ctl[..]), old(data[..]), block, blkno, clock.last, old(bcount), ctl[..], data[..])
      ensures bcount == old(bcount) + 1
    {
      var now := clock.Time();
      var cand := Victim(blkno);
      data[cand] := block;
      ctl[cand] := Ctl(blkno, now, bcount);
      bcount := bcount + 1;
    }

    /** Satisfies the hits, and notes the misses. */
    method LookupAll(blk: int, nblk: nat, buf: array<Block>)
      requires Valid() && unit != -1 && blk >= 0 && nblk <= miss.Length && nblk <= buf.Length
      requires buf != data
      modifies buf, miss, clock
      ensures old(clock.last) <= clock.last
      ensures Valid() && LookedUpAll(ctl[..], clock.last, dev.disk, blk, buf[..], miss[..], 0, nblk)
      ensures forall k :: nblk <= k < buf.Length ==> buf[k] == old(buf[k])
      ensures HitsLive(ctl[..], old(clock.last), blk, miss[..], nblk)
    {
      for i := 0 to nblk
        invariant old(clock.last) <= clock.last && Valid()
        invariant LookedUpAll(ctl[..], clock.last, dev.disk, blk, buf[..], miss[..], 0, i)
        invariant forall k :: nblk <= k < buf.Length ==> buf[k] == old(buf[k])
        invariant HitsLive(ctl[..], old(clock.last), blk, miss[..], i)
      {
        ghost var was := clock.last;
        LookupOne(blk, i, buf);
        if !miss[i] && Absent(ctl[..], old(clock.last), blk + i) {
          AbsentLater(ctl[..], old(clock.last), was, blk + i);
        }
      }
    }

    method LookupOne(blk: int, i: nat, buf: array<Block>)
      requires Valid() && unit != -1 && blk >= 0 && i < miss.Length && i < buf.Length && buf != data
      requires LookedUpAll(ctl[..], clock.last, dev.disk, blk, buf[..], miss[..], 0, i)
      modifies buf, miss, clock
      ensures old(clock.last) <= clock.last
      ensures Valid() && LookedUpAll(ctl[..], clock.last, dev.disk, blk, buf[..], miss[..], 0, i + 1)
      ensures forall k :: i < k < buf.Length ==> buf[k] == old(buf[k])
      ensures forall k :: 0 <= k < i ==> miss[k] == old(miss[k])
      ensures !miss[i] ==> !Absent(ctl[..], old(clock.last), blk + i)
    {
      ghost var was, buf0, miss0 := clock.last, buf[..], miss[..];
      var err := Lookup(buf, i, blk + i);
      CoherentLater(ctl[..], data[..], dev.disk, was, clock.last);
      miss[i] := err != 0;
      if err == 0 && Absent(ctl[..], was, blk + i) {
        AbsentLater(ctl[..], was, clock.last, blk + i);
      }
      LookedUpLater(ctl[..], was, clock.last, dev.disk, blk, buf0, buf[..], miss0, miss[..], 0, i);
      if err == 0 {
        ghost var e :| 0 <= e < nblks && LiveAt(ctl[..], e, clock.last, blk + i) && buf[i] == data[e];
        HitIsTrue(ctl[..], data[..], dev.disk, clock.last, e, blk + i);
        assert HoldsAt(dev.disk, blk, buf[..], i);
      }
    }

    /** What the request at hand has put in is still there. */
    ghost predicate Keeping()
      requires ctl.Length == data.Length
      reads this, ctl, data
    {
      KeptAll(ctl[..], data[..], kept, base, since, bcount)
    }

    /** A request begins, and has put in nothing yet. */
    ghost method Begin()
      requires Arrays() && CountsBelow(ctl[..], bcount)
      modifies `kept, `base, `since
      ensures Keeping() && kept == map[] && since == clock.last
    {
      kept, base, since := map[], bcount, clock.last;
    }

    /** Puts blocks just read into the cache. */
    method InsertRun(blk: int, off: nat, n: nat, buf: array<Block>)
      requires Valid() && unit != -1 && blk + off >= 0 && off + n <= buf.Length && nblks > 0
      requires buf != data
      requires Holds(dev.disk, blk, buf[..], off, off + n) && AbsentAll(ctl[..], clock.last, blk + off, blk + off + n)
      requires Keeping() && |kept| + n <= nblks && (forall b :: b in kept ==> b < blk + off) && since <= clock.last
      modifies ctl, data, clock, `bcount, `kept
      ensures Keeping() && KeptRun(old(kept), kept, dev.disk, blk + off, n) && since == old(since)
      ensures old(clock.last) <= clock.last && Valid()
      ensures forall x :: !(blk + off <= x < blk + off + n) && Absent(old(ctl[..]), old(clock.last), x) ==>
                Absent(ctl[..], clock.last, x)
    {
      var j := off;
      while j < off + n
        invariant off <= j <= off + n
        invariant old(clock.last) <= clock.last && Valid() && since == old(since) <= clock.last
        invariant Keeping() && KeptRun(old(kept), kept, dev.disk, blk + off, j - off)
        invariant AbsentAll(ctl[..], clock.last, blk + j, blk + off + n)
        invariant forall x :: !(blk + off <= x < blk + off + n) && Absent(old(ctl[..]), old(clock.last), x) ==>
                    Absent(ctl[..], clock.last, x)
      {
        assert HoldsAt(dev.disk, blk, buf[..], j);
        ghost var was := kept;
        InsertOne(buf[j], blk + j);
        KeptOneMore(old(kept), was, kept, dev.disk, blk + off, j - off);
        j := j + 1;
      }
    }

    /** Insert, and a note of where the block has been put. */
    method Put(block: Block, b: int) returns (ghost cand: nat)
      requires Arrays() && nblks > 0 && Keeping() && |kept| < nblks && b !in kept && since <= clock.last
      modifies ctl, data, clock, `bcount, `kept
      ensures old(clock.last) <= clock.last && Arrays()
      ensures Inserted(old(ctl[..]), old(data[..]), block, b, clock.last, old(bcount), ctl[..], data[..])
      ensures Keeping() && since == old(since) && kept == old(kept)[b := Place(cand, block)]
    {
      ghost var ctl0, data0, count := ctl[..], data[..], bcount;
      Insert(block, b);
      ghost var c: int :| Chosen(ctl0, b, c) && ctl[..] == ctl0[c := Ctl(b, clock.last, count)] && data[..] == data0[c := block];
      cand := c;
      KeptMore(ctl0, data0, kept, base, since, count, b, block, clock.last, cand, ctl[..], data[..]);
      kept := kept[b := Place(cand, block)];
    }

    method InsertOne(block: Block, b: int)
      requires Valid() && unit != -1 && b >= 0 && nblks > 0
      requires b in dev.disk && block == dev.disk[b] && Absent(ctl[..], clock.last, b)
      requires Keeping() && |kept| < nblks && b !in kept && since <= clock.last
      modifies ctl, data, clock, `bcount, `kept
      ensures Keeping() && since == old(since)
      ensures b in kept && kept == old(kept)[b := kept[b]] && kept[b].block == block
      ensures old(clock.last) <= clock.last && Valid()
      ensures forall x :: x != b && Absent(old(ctl[..]), old(clock.last), x) ==> Absent(ctl[..], clock.last, x)
    {
      ghost var cand := Put(block, b);
      InsertRead(old(ctl[..]), old(data[..]), dev.disk, old(clock.last), b, clock.last, old(bcount), ctl[..], data[..]);
    }

    /** A pending transfer: the n blocks from offset off of the request. */
    method Complete(d: Device, blk: int, off: nat, n: nat, nblk: nat, buf: array<Block>) returns (err: int)
      requires Valid() && d == dev && unit != -1 && blk >= 0 && off + n <= nblk <= buf.Length && nblks > 0
      requires nblk <= miss.Length && buf != data
      requires Holds(d.disk, blk, buf[..], 0, off)
      requires AbsentAll(ctl[..], clock.last, blk + off, blk + off + n)
      requires LookedUpAll(ctl[..], clock.last, d.disk, blk, buf[..], miss[..], off + n, nblk)
      requires Keeping() && |kept| + n <= nblks && (forall b :: b in kept ==> b < blk + off) && since <= clock.last
      modifies buf, ctl, data, clock, `bcount, `kept, d`fetched, d`failures
      ensures since == old(since) && (err == 0 ==> Keeping() && KeptRun(old(kept), kept, d.disk, blk + off, n))
      ensures err == 0 <==> d.failures == old(d.failures)
      ensures old(clock.last) <= clock.last && Valid()
      ensures err == 0 ==> Holds(d.disk, blk, buf[..], 0, off + n)
      ensures err == 0 ==> LookedUpAll(ctl[..], clock.last, d.disk, blk, buf[..], miss[..], off + n, nblk)
      ensures err == 0 ==> d.fetched == old(d.fetched) + [Span(blk + off, n)]
      ensures forall k :: nblk <= k < buf.Length ==> buf[k] == old(buf[k])
    {
      err := d.ReadBlocks(blk + off, n, buf, off);
      if err != 0 {
        return;
      }
      HoldsSame(d.disk, blk, old(buf[..]), buf[..], 0, off);
      HoldsMore(d.disk, blk, buf[..], off, off + n);
      InsertRun(blk, off, n, buf);
      LookedUpInserted(old(ctl[..]), old(clock.last), ctl[..], clock.last, d.disk, blk, old(buf[..]), buf[..], miss[..], off + n, nblk);
    }

    /** Goes back and fills in the misses, a run at a time. */
    method FillMisses(d: Device, blk: int, nblk: nat, buf: array<Block>) returns (result: int)
      requires Valid() && d == dev && unit != -1 && blk >= 0 && nblk <= miss.Length && nblk <= buf.Length && buf != data
      requires LookedUpAll(ctl[..], clock.last, d.disk, blk, buf[..], miss[..], 0, nblk) && (nblk > 0 ==> nblks > 0)
      requires Keeping() && kept == map[] && nblk <= nblks && since <= clock.last
      modifies buf, ctl, data, clock, `bcount, `kept, d`fetched, d`failures
      ensures since == old(since) && (result == 0 ==> Keeping() && KeptMisses(kept, miss[..], d.disk, blk, nblk))
      ensures result == 0 <==> d.failures == old(d.failures)
      ensures old(clock.last) <= clock.last && Valid()
      ensures result == 0 ==> Holds(d.disk, blk, buf[..], 0, nblk)
      ensures result == 0 ==> d.fetched == old(d.fetched) + Runs(miss[..], blk, nblk)
      ensures forall k :: nblk <= k < buf.Length ==> buf[k] == old(buf[k])
    {
      hide KeptAll, CountsBelow, Shape, KeptRun, TrueBut;
      var pBlk, pOff, pSize := NOBLOCK, 0, 0;
      result := 0;
      for i := 0 to nblk
        invariant old(clock.last) <= clock.last && Filling(d, blk, i, nblk, buf, pBlk, pOff, pSize, old(d.fetched))
        invariant d.failures == old(d.failures) && since == old(since) <= clock.last
        invariant forall k :: nblk <= k < buf.Length ==> buf[k] == old(buf[k])
      {
        result, pBlk, pOff, pSize := FillTurn(d, blk, i, nblk, buf, pBlk, pOff, pSize, old(d.fetched));
        if result != 0 {
          return;
        }
      }
      if pBlk != NOBLOCK {
        FetchedDone(old(d.fetched), d.fetched, miss[..], blk, nblk, pBlk, pSize);
        ghost var was := kept;
        result := Complete(d, blk, pOff, pSize, nblk, buf);
        if result == 0 {
          KeptRunDone(was, kept, miss[..], d.disk, blk, pOff, pSize);
        }
      }
    }

    /** The first i blocks are in the buffer, but for those of a pending transfer. */
    ghost predicate Filling(d: Device, blk: int, i: nat, nblk: nat, buf: array<Block>, pBlk: int, pOff: nat, pSize: nat, before: seq<Span>)
      reads this, ctl, data, clock, dev, miss, buf, d
    {
      && Valid() && d == dev && unit != -1 && blk >= 0 && i <= nblk <= miss.Length && nblk <= buf.Length && buf != data
      && (nblk > 0 ==> nblks > 0)
      && (pBlk != NOBLOCK ==> pBlk == blk + pOff && pOff + pSize == i)
      && Holds(d.disk, blk, buf[..], 0, if pBlk == NOBLOCK then i else pOff)
      && (pBlk != NOBLOCK ==> AbsentAll(ctl[..], clock.last, blk + pOff, blk + i))
      && LookedUpAll(ctl[..], clock.last, d.disk, blk, buf[..], miss[..], i, nblk)
      && Fetched(before, d.fetched, miss[..], blk, i, pBlk, pSize)
      && nblk <= nblks && Keeping() && KeptMisses(kept, miss[..], d.disk, blk, if pBlk == NOBLOCK then i else pOff)
    }

    method FillTurn(d: Device, blk: int, i: nat, nblk: nat, buf: array<Block>, pBlk: int, pOff: nat, pSize: nat, ghost before: seq<Span>)
      returns (result: int, pBlk': int, pOff': nat, pSize': nat)
      requires i < nblk && Filling(d, blk, i, nblk, buf, pBlk, pOff, pSize, before)
      requires since <= clock.last
      modifies buf, ctl, data, clock, `bcount, `kept, d`fetched, d`failures
      ensures since == old(since)
      ensures result == 0 <==> d.failures == old(d.failures)
      ensures old(clock.last) <= clock.last && Valid()
      ensures result == 0 ==> Filling(d, blk, i + 1, nblk, buf, pBlk', pOff', pSize', before)
      ensures forall k :: nblk <= k < buf.Length ==> buf[k] == old(buf[k])
    {
      hide KeptAll, CountsBelow, Shape;
      result, pBlk', pOff', pSize' := 0, pBlk, pOff, pSize;
      assert LookedUp(ctl[..], clock.last, d.disk, blk, buf[..], miss[..], i);
      if miss[i] {
        FetchedNext(before, d.fetched, miss[..], blk, i, pBlk, pSize);
        if pBlk == NOBLOCK {
          pBlk', pOff', pSize' := blk + i, i, 1;
        } else {
          pSize' := pSize + 1;
        }
      } else if pBlk != NOBLOCK {
        FetchedDone(before, d.fetched, miss[..], blk, i, pBlk, pSize);
        ghost var was := kept;
        result := Complete(d, blk, pOff, pSize, nblk, buf);
        if result == 0 {
          pBlk' := NOBLOCK;
          KeptRunDone(was, kept, miss[..], d.disk, blk, pOff, pSize);
          HeldNext(d.disk, blk, buf[..], ctl[..], clock.last, miss[..], i, nblk);
        }
      } else {
        FetchedNext(before, d.fetched, miss[..], blk, i, pBlk, pSize);
        HeldNext(d.disk, blk, buf[..], ctl[..], clock.last, miss[..], i, nblk);
      }
    }

    /** Fetches exactly the blocks with no usable entry, in maximal runs. */
    method ReadStrategy(d: Device, blk: int, nblk: nat, buf: array<Block>) returns (result: int)
      requires Valid() && d == dev && unit != -1 && blk >= 0 && nblk * 2 <= nblks && nblk <= buf.Length && buf != data
      modifies buf, miss, ctl, data, clock, `bcount, `kept, `base, `since, d`fetched, d`failures
      ensures result == 0 ==> forall k :: 0 <= k < nblk && miss[k] ==> InCache(ctl[..], data[..], old(clock.last), blk + k, d.disk)
      ensures result == 0 <==> d.failures == old(d.failures)
      ensures old(clock.last) <= clock.last && Valid()
      ensures result == 0 ==> Holds(d.disk, blk, buf[..], 0, nblk)
      ensures result == 0 ==>
        nblk <= |miss[..]| && d.fetched == old(d.fetched) + Runs(miss[..], blk, nblk)
        && HitsLive(old(ctl[..]), old(clock.last), blk, miss[..], nblk)
        && forall k :: 0 <= k < nblk && miss[k] ==> Absent(old(ctl[..]), clock.last, blk + k)
      ensures forall k :: nblk <= k < buf.Length ==> buf[k] == old(buf[k])
    {
      LookupAll(blk, nblk, buf);
      ghost var was, bits := clock.last, miss[..];
      forall k | 0 <= k < nblk && bits[k] ensures Absent(ctl[..], was, blk + k) {
        assert LookedUp(ctl[..], was, d.disk, blk, buf[..], bits, k);
      }
      Begin();
      result := FillMisses(d, blk, nblk, buf);
      if result == 0 {
        forall k | 0 <= k < nblk && miss[k] ensures InCache(ctl[..], data[..], old(clock.last), blk + k, d.disk) {
          assert KeptAt(ctl[..], data[..], kept, base, since, blk + k);
        }
      }
      forall k | 0 <= k < nblk && miss[k] ensures Absent(old(ctl[..]), clock.last, blk + k) {
        assert bits[k];
        AbsentLater(old(ctl[..]), was, clock.last, blk + k);
      }
    }

    method InvalidateAll(blk: int, nblk: nat)
      requires Valid() && unit != -1 && blk >= 0
      modifies ctl
      ensures Valid() && Slot0Out(ctl[..], blk, blk + nblk)
    {
      for i := 0 to nblk
        invariant Valid() && Slot0Out(ctl[..], blk, blk + i)
      {
        ghost var was := ctl[..];
        Invalidate(blk + i);
        DropShape(was, clock.last, blk + i, ctl[..], blk);
        DropTrue(was, data[..], dev.disk, clock.last, blk + i, ctl[..]);
        DropCounts(was, blk + i, ctl[..], bcount);
      }
    }

    /** A block just written, the others up to hi being in doubt still. */
    method InsertWrittenOne(block: Block, b: int, ghost hi: int)
      requires Arrays() && dev != null && 0 <= b < hi && nblks > 0
      requires Shape(ctl[..], clock.last) && TrueBut(ctl[..], data[..], dev.disk, clock.last, b, hi)
      requires Slot0Out(ctl[..], b, hi) && b in dev.disk && block == dev.disk[b]
      requires Keeping() && |kept| < nblks && b !in kept && since <= clock.last
      modifies ctl, data, clock, `bcount, `kept
      ensures old(clock.last) <= clock.last && Arrays() && Shape(ctl[..], clock.last)
      ensures TrueBut(ctl[..], data[..], dev.disk, clock.last, b + 1, hi) && Slot0Out(ctl[..], b + 1, hi)
      ensures Keeping() && CountsBelow(ctl[..], bcount)
      ensures b in kept && kept == old(kept)[b := kept[b]] && kept[b].block == block
    {
      ghost var ctl0, data0, was, count := ctl[..], data[..], clock.last, bcount;
      ghost var cand := Put(block, b);
      InsertWritten(ctl0, data0, dev.disk, was, b, hi, clock.last, count, ctl[..], data[..]);
    }

    /** Puts blocks just written into the cache. */
    method InsertWrittenRun(blk: int, nblk: nat, buf: array<Block>)
      requires Arrays() && unit != -1 && dev != null && blk >= 0 && nblk <= buf.Length && nblk * 2 <= nblks && buf != data
      requires Shape(ctl[..], clock.last) && TrueBut(ctl[..], data[..], dev.disk, clock.last, blk, blk + nblk)
      requires Slot0Out(ctl[..], blk, blk + nblk) && Holds(dev.disk, blk, buf[..], 0, nblk)
      requires CountsBelow(ctl[..], bcount)
      modifies ctl, data, clock, `bcount, `kept, `base, `since
      ensures old(clock.last) <= clock.last && Valid()
      ensures forall b :: blk <= b < blk + nblk ==> InCache(ctl[..], data[..], old(clock.last), b, dev.disk)
    {
      Begin();
      for i := 0 to nblk
        invariant old(clock.last) <= clock.last && Shape(ctl[..], clock.last) && bcount >= 0 && CountsBelow(ctl[..], bcount)
        invariant TrueBut(ctl[..], data[..], dev.disk, clock.last, blk + i, blk + nblk)
        invariant Slot0Out(ctl[..], blk + i, blk + nblk)
        invariant Keeping() && since == old(clock.last) && KeptRun(map[], kept, dev.disk, blk, i)
      {
        assert HoldsAt(dev.disk, blk, buf[..], i);
        ghost var was := kept;
        InsertWrittenOne(buf[i], blk + i, blk + nblk);
        KeptOneMore(map[], was, kept, dev.disk, blk, i);
      }
      NothingInDoubt(ctl[..], data[..], dev.disk, clock.last, blk + nblk);
      forall b | blk <= b < blk + nblk ensures InCache(ctl[..], data[..], old(clock.last), b, dev.disk) {
        assert KeptAt(ctl[..], data[..], kept, base, since, b);
      }
    }

    method WriteStrategy(d: Device, blk: int, nblk: nat, buf: array<Block>) returns (err: int)
      requires Valid() && d == dev && unit != -1 && blk >= 0 && nblk * 2 <= nblks && nblk <= buf.Length && buf != data
      modifies ctl, data, clock, `bcount, `kept, `base, `since, d`disk, d`failures
      ensures err == 0 ==> forall b :: blk <= b < blk + nblk ==> InCache(ctl[..], data[..], old(clock.last), b, d.disk)
      ensures err == 0 <==> d.failures == old(d.failures)
      ensures old(clock.last) <= clock.last && Valid()
      ensures d.disk == if err == 0 then Written(old(d.disk), blk, buf[..nblk]) else old(d.disk)
    {
      InvalidateAll(blk, nblk);
      WriteDoubts(ctl[..], data[..], d.disk, clock.last, blk, buf[..nblk]);
      err := d.WriteBlocks(blk, nblk, buf);
      if err == 0 {
        InsertWrittenRun(blk, nblk, buf);
      }
    }

    /** The cache goes by unit numbers: under the number it has, a device must hold what is usable in the cache. */
    ghost predicate Served(d: Device, unit: int)
      requires Arrays()
      reads this, ctl, data, clock, d
    {
      unit == this.unit ==> Coherent(ctl[..], data[..], d.disk, clock.last)
    }

    /** The cache now serves the unit. */
    method Select(d: Device, unit: int)
      requires Valid() && unit != -1 && Served(d, unit)
      modifies ctl, `unit, `dev
      ensures Valid() && this.unit == unit && dev == d
      ensures if unit == old(this.unit) then ctl[..] == old(ctl[..]) else Flushed(ctl[..])
    {
      dev := d;
      if this.unit != unit {
        Flush();
        this.unit := unit;
        FlushedCoherent(ctl[..], data[..], d.disk, clock.last);
      }
    }

    /** Large requests go directly to the disk. */
    method Bypass(d: Device, rw: Rw, blk: int, nblk: nat, buf: array<Block>) returns (err: int)
      requires Valid() && unit != -1 && d == dev && blk >= 0 && nblk <= buf.Length && buf != data
      modifies buf, d
      ensures err == 0 <==> d.failures == old(d.failures)
      ensures rw == Read ==> Valid() && d.disk == old(d.disk) && (err == 0 ==> Holds(d.disk, blk, buf[..], 0, nblk))
      ensures rw == Write ==> buf[..] == old(buf[..])
      ensures rw == Write ==> d.disk == if err == 0 then Written(old(d.disk), blk, buf[..nblk]) else old(d.disk)
      ensures rw == Write ==> (Valid() <==> err != 0 || Unaffected(ctl[..], data[..], clock.last, blk, buf[..nblk]))
    {
      if rw == Read {
        err := d.ReadBlocks(blk, nblk, buf, 0);
      } else {
        WritePastCache(ctl[..], data[..], d.disk, clock.last, blk, buf[..nblk]);
        err := d.WriteBlocks(blk, nblk, buf);
      }
    }

    /**
     A successful read fills the buffer with what the disk holds; a write changes the disk as it should; and the cache
     stays coherent, unless a large write that goes past it changes a block that is usable in it.
     */
    method Strategy(d: Device, unit: int, rw: Rw, blk: int, size: nat, buf: array<Block>) returns (err: int)
      requires Valid() && unit != -1 && Served(d, unit)
      requires blk >= 0 && size % blksize == 0 && size / blksize <= buf.Length && buf != data
      modifies this, buf, miss, ctl, data, clock, d
      ensures err == 0 <==> d.failures == old(d.failures)
      ensures Arrays() && this.unit == unit && dev == d && old(clock.last) <= clock.last
      ensures rw == Read ==> Valid() && d.disk == old(d.disk) && (err == 0 ==> Holds(d.disk, blk, buf[..], 0, size / blksize))
      ensures rw == Write ==>
        buf[..] == old(buf[..])
        && d.disk == if err == 0 then Written(old(d.disk), blk, buf[..size / blksize]) else old(d.disk)
      ensures rw == Write ==>
        (Valid() <==> err != 0 || size * 2 / blksize <= nblks || unit != old(this.unit)
                      || Unaffected(old(ctl[..]), old(data[..]), clock.last, blk, buf[..size / blksize]))
    {
      Select(d, unit);
      var nblk := size / blksize;
      if size * 2 / blksize > nblks {
        if unit != old(this.unit) {
          FlushedUnaffected(ctl[..], data[..], clock.last, blk, buf[..nblk]);
        }
        err := Bypass(d, rw, blk, nblk, buf);
        return;
      }
      WholeBlocks(size, blksize, nblks);
      match rw
      case Read => err := ReadStrategy(d, blk, nblk, buf);
      case Write => err := WriteStrategy(d, blk, nblk, buf);
    }
  }

  lemma WrittenOneMore(disk: map<int, Block>, blk: int, blocks: seq<Block>, block: Block)
    ensures Written(disk, blk, blocks + [block]) == Written(disk, blk, blocks)[blk + |blocks| := block]
  {
    assert (blocks + [block])[..|blocks|] == blocks;
  }

  lemma WholeBlocks(size: nat, blksize: nat, nblks: nat)
    requires blksize > 0 && size % blksize == 0 && size * 2 / blksize <= nblks
    ensures size / blksize * 2 <= nblks
  {
    var n, q := size / blksize, size * 2 / blksize;
    AtLeastOnce(2 * n - q, blksize);
    Twice(size, n, q, blksize);
  }

  lemma AtLeastOnce(k: int, d: int)
    requires d > 0
    ensures k >= 1 ==> k * d >= d
  {
    if k >= 1 {
      assert (k - 1) * d >= 0;
    }
  }

  lemma Twice(m: int, n: int, q: int, d: int)
    requires d > 0 && m == n * d && m * 2 < q * d + d
    ensures (2 * n - q) * d < d
  {
    assert (2 * n - q) * d == 2 * (n * d) - q * d;
  }
}
