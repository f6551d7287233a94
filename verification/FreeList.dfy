/**
 The free list of a memory pool as a value: address-sorted regions with gaps between
 them.  It is the only such list for the set of free addresses, so nothing about how the
 pool came to its state can be read off it.
 */
module FreeList {

  /** MEMNODE_SIZE_MASK + 1 where a MemNode takes two 32-bit words. */
  const UNIT: int := 8

  datatype Region = Region(addr: int, size: int) {
    function End(): int { addr + size }
  }

  ghost predicate RegionOk(r: Region) {
    r.addr > 0 && r.addr % UNIT == 0 && r.size > 0 && r.size % UNIT == 0
  }

  /** There is a gap between a and b. */
  ghost predicate Before(f: seq<Region>, i: int, j: int)
    requires 0 <= i < |f| && 0 <= j < |f|
  {
    f[i].End() < f[j].addr
  }

  ghost predicate Normal(f: seq<Region>) {
    && (forall i :: 0 <= i < |f| ==> RegionOk(f[i]))
    && forall i, j :: 0 <= i < j < |f| ==> Before(f, i, j)
  }

  ghost predicate Covers(f: seq<Region>, x: int) {
    exists i :: 0 <= i < |f| && f[i].addr <= x < f[i].End()
  }

  ghost function Sum(f: seq<Region>): int {
    if f == [] then 0 else f[0].size + Sum(f[1..])
  }

  lemma {:induction false} SumConcat(a: seq<Region>, b: seq<Region>)
    ensures Sum(a + b) == Sum(a) + Sum(b)
  {
    if a == [] {
      assert a + b == b;
    } else {
      assert (a + b)[1..] == a[1..] + b;
      SumConcat(a[1..], b);
    }
  }

  lemma {:induction false} SumAtLeast(f: seq<Region>, i: int)
    requires Normal(f) && 0 <= i < |f|
    ensures f[i].size <= Sum(f)
  {
    NormalTail(f);
    SumNonNegative(f[1..]);
    assert RegionOk(f[0]);
    if i > 0 {
      SumAtLeast(f[1..], i - 1);
    }
  }

  lemma {:induction false} SumNonNegative(f: seq<Region>)
    requires Normal(f)
    ensures Sum(f) >= 0
  {
    if f != [] {
      NormalTail(f);
      assert RegionOk(f[0]);
      SumNonNegative(f[1..]);
    }
  }

  lemma NormalTail(f: seq<Region>)
    requires Normal(f) && f != []
    ensures Normal(f[1..])
  {
    var t := f[1..];
    forall i | 0 <= i < |t| ensures RegionOk(t[i]) {
      assert RegionOk(f[i + 1]);
    }
    forall i, j | 0 <= i < j < |t| ensures Before(t, i, j) {
      assert Before(f, i + 1, j + 1);
    }
  }

  lemma CoversHead(f: seq<Region>, x: int)
    requires f != []
    ensures Covers(f, x) <==> f[0].addr <= x < f[0].End() || Covers(f[1..], x)
  {
    if Covers(f, x) {
      var i :| 0 <= i < |f| && f[i].addr <= x < f[i].End();
      assert i > 0 ==> f[1..][i - 1] == f[i];
    }
    if Covers(f[1..], x) {
      var i :| 0 <= i < |f| - 1 && f[1..][i].addr <= x < f[1..][i].End();
      assert f[i + 1] == f[1..][i];
    }
  }

  /** Nothing is covered before the end of the first region but the region itself, nor its end. */
  lemma NormalHead(f: seq<Region>, x: int)
    requires Normal(f) && f != [] && x <= f[0].End()
    ensures Covers(f, x) <==> f[0].addr <= x < f[0].End()
  {
    if Covers(f, x) {
      var i :| 0 <= i < |f| && f[i].addr <= x < f[i].End();
      if i > 0 {
        assert Before(f, 0, i);
      }
    }
  }

  /** Two normal lists that cover the same addresses are the same list. */
  lemma {:induction false} NormalUnique(f: seq<Region>, g: seq<Region>)
    requires Normal(f) && Normal(g)
    requires forall x :: Covers(f, x) <==> Covers(g, x)
    ensures f == g
    decreases |f| + |g|
  {
    if f == [] {
      if g != [] {
        assert RegionOk(g[0]);
        NormalHead(g, g[0].addr);
      }
    } else if g == [] {
      assert RegionOk(f[0]);
      NormalHead(f, f[0].addr);
    } else {
      assert RegionOk(f[0]) && RegionOk(g[0]);
      NormalHead(f, f[0].addr);
      NormalHead(g, g[0].addr);
      SameHead(f, g);
      NormalTail(f);
      NormalTail(g);
      forall x ensures Covers(f[1..], x) <==> Covers(g[1..], x) {
        CoversHead(f, x);
        CoversHead(g, x);
        TailBeyond(f, x);
        TailBeyond(g, x);
      }
      NormalUnique(f[1..], g[1..]);
    }
  }

  lemma TailBeyond(f: seq<Region>, x: int)
    requires Normal(f) && f != []
    ensures Covers(f[1..], x) ==> x > f[0].End()
  {
    if Covers(f[1..], x) {
      var i :| 0 <= i < |f| - 1 && f[1..][i].addr <= x < f[1..][i].End();
      assert Before(f, 0, i + 1) && f[i + 1] == f[1..][i];
    }
  }

  lemma SameHead(f: seq<Region>, g: seq<Region>)
    requires Normal(f) && Normal(g) && f != [] && g != []
    requires forall x :: Covers(f, x) <==> Covers(g, x)
    ensures f[0] == g[0]
  {
    assert RegionOk(f[0]) && RegionOk(g[0]);
    NormalHead(f, f[0].addr);
    NormalHead(g, g[0].addr);
    if f[0].addr < g[0].addr {
      NormalHead(g, f[0].addr);
    } else if g[0].addr < f[0].addr {
      NormalHead(f, g[0].addr);
    }
    NormalHead(f, f[0].End());
    NormalHead(g, g[0].End());
  }

  /** Regions m..n are replaced by mid. */
  ghost function Splice(f: seq<Region>, m: int, n: int, mid: Region): seq<Region>
    requires 0 <= m <= n <= |f|
  {
    f[..m] + [mid] + f[n..]
  }

  lemma SpliceAt(f: seq<Region>, m: int, n: int, mid: Region, j: int)
    requires 0 <= m <= n <= |f| && 0 <= j < |Splice(f, m, n, mid)|
    ensures |Splice(f, m, n, mid)| == |f| - (n - m) + 1
    ensures Splice(f, m, n, mid)[j] == if j < m then f[j] else if j == m then mid else f[j - m - 1 + n]
  {
  }

  lemma SpliceNormal(f: seq<Region>, m: int, n: int, mid: Region)
    requires Normal(f) && 0 <= m <= n <= |f| && RegionOk(mid)
    requires m > 0 ==> f[m - 1].End() < mid.addr
    requires n < |f| ==> mid.End() < f[n].addr
    ensures Normal(Splice(f, m, n, mid))
  {
    var g := Splice(f, m, n, mid);
    forall j | 0 <= j < |g| ensures RegionOk(g[j]) {
      SpliceAt(f, m, n, mid, j);
      assert j != m ==> RegionOk(f[if j < m then j else j - m - 1 + n]);
    }
    forall j, k | 0 <= j < k < |g| ensures Before(g, j, k) {
      SpliceAt(f, m, n, mid, j);
      SpliceAt(f, m, n, mid, k);
      var j', k' := if j < m then j else j - m - 1 + n, if k < m then k else k - m - 1 + n;
      if j != m && k != m {
        assert Before(f, j', k');
      } else if k == m {
        assert RegionOk(f[m - 1]) && (j < m - 1 ==> Before(f, j, m - 1));
      } else {
        assert RegionOk(f[n]) && (k' > n ==> Before(f, n, k'));
      }
    }
  }

  /** What is covered is mid and the regions kept. */
  lemma SpliceCovers(f: seq<Region>, m: int, n: int, mid: Region, x: int)
    requires 0 <= m <= n <= |f|
    ensures Covers(Splice(f, m, n, mid), x) <==>
      mid.addr <= x < mid.End() || exists k :: 0 <= k < |f| && !(m <= k < n) && f[k].addr <= x < f[k].End()
  {
    var g := Splice(f, m, n, mid);
    if Covers(g, x) {
      var j :| 0 <= j < |g| && g[j].addr <= x < g[j].End();
      SpliceAt(f, m, n, mid, j);
      assert j != m ==> f[if j < m then j else j - m - 1 + n] == g[j];
    }
    if mid.addr <= x < mid.End() {
      SpliceAt(f, m, n, mid, m);
    }
    if k :| 0 <= k < |f| && !(m <= k < n) && f[k].addr <= x < f[k].End() {
      SpliceAt(f, m, n, mid, if k < m then k else k + m + 1 - n);
    }
  }

  lemma SpliceSum(f: seq<Region>, m: int, n: int, mid: Region)
    requires 0 <= m <= n <= |f|
    ensures Sum(Splice(f, m, n, mid)) == Sum(f) - Sum(f[m..n]) + mid.size
  {
    SumConcat(f[..m] + [mid], f[n..]);
    SumConcat(f[..m], [mid]);
    assert Sum([mid]) == mid.size + Sum([]);
    assert f == f[..m] + f[m..n] + f[n..];
    SumConcat(f[..m] + f[m..n], f[n..]);
    SumConcat(f[..m], f[m..n]);
  }

  lemma RemoveNormal(f: seq<Region>, i: int)
    requires Normal(f) && 0 <= i < |f|
    ensures Normal(f[..i] + f[i + 1..])
  {
    var g := f[..i] + f[i + 1..];
    forall j | 0 <= j < |g| ensures RegionOk(g[j]) {
      assert RegionOk(f[if j >= i then j + 1 else j]);
    }
    forall j, k | 0 <= j < k < |g| ensures Before(g, j, k) {
      assert Before(f, if j >= i then j + 1 else j, if k >= i then k + 1 else k);
    }
  }

  lemma RemoveCovers(f: seq<Region>, i: int, x: int)
    requires 0 <= i < |f|
    ensures Covers(f[..i] + f[i + 1..], x) <==> exists k :: 0 <= k < |f| && k != i && f[k].addr <= x < f[k].End()
  {
    var g := f[..i] + f[i + 1..];
    if Covers(g, x) {
      var j :| 0 <= j < |g| && g[j].addr <= x < g[j].End();
      assert f[if j >= i then j + 1 else j] == g[j];
    }
    if k :| 0 <= k < |f| && k != i && f[k].addr <= x < f[k].End() {
      assert g[if k > i then k - 1 else k] == f[k];
    }
  }

  lemma RemoveSum(f: seq<Region>, i: int)
    requires 0 <= i < |f|
    ensures Sum(f[..i] + f[i + 1..]) == Sum(f) - f[i].size
  {
    SumConcat(f[..i], f[i + 1..]);
    assert f == f[..i] + [f[i]] + f[i + 1..];
    SumConcat(f[..i] + [f[i]], f[i + 1..]);
    SumConcat(f[..i], [f[i]]);
    assert Sum([f[i]]) == f[i].size + Sum([]);
  }

  /** b bytes are cut off the beginning of region i. */
  ghost function AllocAt(f: seq<Region>, i: int, b: int): seq<Region>
    requires 0 <= i < |f|
  {
    if f[i].size == b then f[..i] + f[i + 1..] else Splice(f, i, i + 1, Region(f[i].addr + b, f[i].size - b))
  }

  lemma AllocNormal(f: seq<Region>, i: int, b: int)
    requires Normal(f) && 0 <= i < |f| && 0 < b <= f[i].size && b % UNIT == 0
    ensures Normal(AllocAt(f, i, b))
  {
    assert RegionOk(f[i]);
    assert i > 0 ==> Before(f, i - 1, i);
    assert i + 1 < |f| ==> Before(f, i, i + 1);
    if f[i].size == b {
      RemoveNormal(f, i);
    } else {
      SpliceNormal(f, i, i + 1, Region(f[i].addr + b, f[i].size - b));
    }
  }

  lemma AllocCovers(f: seq<Region>, i: int, b: int, x: int)
    requires Normal(f) && 0 <= i < |f| && 0 < b <= f[i].size
    ensures Covers(AllocAt(f, i, b), x) <==> Covers(f, x) && !(f[i].addr <= x < f[i].addr + b)
  {
    forall k | 0 <= k < |f| && k != i && f[k].addr <= x < f[k].End() ensures !(f[i].addr <= x < f[i].End()) {
      assert Before(f, if k < i then k else i, if k < i then i else k);
    }
    if f[i].size == b {
      RemoveCovers(f, i, x);
    } else {
      SpliceCovers(f, i, i + 1, Region(f[i].addr + b, f[i].size - b), x);
    }
  }

  lemma AllocSum(f: seq<Region>, i: int, b: int)
    requires 0 <= i < |f|
    ensures Sum(AllocAt(f, i, b)) == Sum(f) - b
  {
    if f[i].size == b {
      RemoveSum(f, i);
    } else {
      SpliceSum(f, i, i + 1, Region(f[i].addr + b, f[i].size - b));
      assert f[i..i + 1] == [f[i]];
    }
  }

  /** The block p..p + b lies between regions i - 1 and i. */
  ghost predicate Fits(f: seq<Region>, i: int, p: int, b: int) {
    && 0 <= i <= |f| && RegionOk(Region(p, b))
    && (i > 0 ==> f[i - 1].End() <= p)
    && (i < |f| ==> p + b <= f[i].addr)
  }

  /** The regions a freed block merges with are those from Low to High. */
  ghost function Low(f: seq<Region>, i: int, p: int): int
    requires 0 <= i <= |f|
  {
    if i > 0 && f[i - 1].End() == p then i - 1 else i
  }

  ghost function High(f: seq<Region>, i: int, end: int): int
    requires 0 <= i <= |f|
  {
    if i < |f| && end == f[i].addr then i + 1 else i
  }

  ghost function Merged(f: seq<Region>, i: int, p: int, b: int): Region
    requires 0 <= i <= |f|
  {
    var lo := if Low(f, i, p) < i then f[i - 1].addr else p;
    var hi := if High(f, i, p + b) > i then f[i].End() else p + b;
    Region(lo, hi - lo)
  }

  /** The block becomes free: it merges with its neighbours where it touches them. */
  ghost function FreeAt(f: seq<Region>, i: int, p: int, b: int): seq<Region>
    requires 0 <= i <= |f|
  {
    Splice(f, Low(f, i, p), High(f, i, p + b), Merged(f, i, p, b))
  }

  lemma FreeNormal(f: seq<Region>, i: int, p: int, b: int)
    requires Normal(f) && Fits(f, i, p, b)
    ensures Normal(FreeAt(f, i, p, b))
  {
    var m, n := Low(f, i, p), High(f, i, p + b);
    assert i > 0 ==> RegionOk(f[i - 1]);
    assert i < |f| ==> RegionOk(f[i]);
    assert 0 < m < i ==> Before(f, m - 1, m);
    assert i < n < |f| ==> Before(f, i, n);
    SpliceNormal(f, m, n, Merged(f, i, p, b));
  }

  lemma FreeCovers(f: seq<Region>, i: int, p: int, b: int, x: int)
    requires Normal(f) && Fits(f, i, p, b)
    ensures Covers(FreeAt(f, i, p, b), x) <==> Covers(f, x) || p <= x < p + b
  {
    var m, n := Low(f, i, p), High(f, i, p + b);
    assert i > 0 ==> RegionOk(f[i - 1]);
    assert i < |f| ==> RegionOk(f[i]);
    SpliceCovers(f, m, n, Merged(f, i, p, b), x);
  }

  lemma FreeSum(f: seq<Region>, i: int, p: int, b: int)
    requires Fits(f, i, p, b)
    ensures Sum(FreeAt(f, i, p, b)) == Sum(f) + b
  {
    var m, n := Low(f, i, p), High(f, i, p + b);
    SpliceSum(f, m, n, Merged(f, i, p, b));
    if n - m == 1 {
      assert f[m..n] == [f[m]];
    } else if n - m == 2 {
      assert f[m..n] == [f[m]] + [f[m + 1]];
      SumConcat([f[m]], [f[m + 1]]);
      assert Sum([f[m + 1]]) == f[m + 1].size + Sum([]);
    }
    assert n - m > 0 ==> Sum([f[m]]) == f[m].size + Sum([]);
  }

  /** Some byte of the block is free. */
  ghost predicate Overlapping(f: seq<Region>, p: int, b: int) {
    exists x :: p <= x < p + b && Covers(f, x)
  }

  /** What the free list becomes when a block is freed that overlaps nothing. */
  ghost predicate Freed(f: seq<Region>, p: int, b: int, f': seq<Region>) {
    exists i :: Fits(f, i, p, b) && f' == FreeAt(f, i, p, b)
  }

  /** A block either fits in one place or overlaps a region. */
  lemma Overlaps(f: seq<Region>, i: int, p: int, b: int)
    requires Normal(f) && 0 <= i <= |f| && b > 0
    requires i > 0 ==> f[i - 1].End() <= p
    requires i < |f| ==> p <= f[i].addr || p < f[i].End()
    ensures (i < |f| && p + b > f[i].addr) <==> Overlapping(f, p, b)
  {
    if i < |f| && p + b > f[i].addr {
      assert RegionOk(f[i]);
      var x := if p <= f[i].addr then f[i].addr else p;
      assert Covers(f, x);
    }
    if x :| p <= x < p + b && Covers(f, x) {
      var j :| 0 <= j < |f| && f[j].addr <= x < f[j].End();
      assert j > i ==> Before(f, i, j);
      assert j < i - 1 ==> Before(f, j, i - 1);
      assert i < |f| ==> RegionOk(f[i]);
      assert i > 0 ==> RegionOk(f[i - 1]);
    }
  }

  ghost predicate Whole(f: seq<Region>, p: int, b: int) {
    exists i :: 0 <= i < |f| && f[i].addr <= p && p + b <= f[i].End()
  }

  /** Consecutive free bytes are in one region: whatever can be satisfied at all can be satisfied from one node. */
  lemma {:induction false} ConsecutiveInOne(f: seq<Region>, p: int, b: int)
    requires Normal(f) && b > 0
    ensures (forall x :: p <= x < p + b ==> Covers(f, x)) <==> Whole(f, p, b)
  {
    if Whole(f, p, b) {
      var i :| 0 <= i < |f| && f[i].addr <= p && p + b <= f[i].End();
      forall x | p <= x < p + b ensures Covers(f, x) {
        assert f[i].addr <= x < f[i].End();
      }
    }
    if forall x :: p <= x < p + b ==> Covers(f, x) {
      assert Covers(f, p);
      var i :| 0 <= i < |f| && f[i].addr <= p < f[i].End();
      if f[i].End() < p + b {
        assert Covers(f, f[i].End());
        var j :| 0 <= j < |f| && f[j].addr <= f[i].End() < f[j].End();
        assert RegionOk(f[i]) && (j < i ==> Before(f, j, i)) && (i < j ==> Before(f, i, j));
      }
    }
  }

  lemma FreeWhole(f: seq<Region>, i: int, p: int, b: int, q: int, c: int)
    requires Normal(f) && Fits(f, i, p, b) && c > 0
    requires forall x :: q <= x < q + c ==> Covers(f, x) || p <= x < p + b
    ensures Whole(FreeAt(f, i, p, b), q, c)
  {
    FreeNormal(f, i, p, b);
    forall x | q <= x < q + c ensures Covers(FreeAt(f, i, p, b), x) {
      FreeCovers(f, i, p, b, x);
    }
    ConsecutiveInOne(FreeAt(f, i, p, b), q, c);
  }

  /** The free bytes from lo up to hi. */
  ghost function FreeBytes(f: seq<Region>, lo: int, hi: int): set<int> {
    set x | lo <= x < hi && Covers(f, x)
  }

  ghost function Interval(lo: int, hi: int): (r: set<int>)
    ensures forall x :: x in r <==> lo <= x < hi
    ensures |r| == if lo <= hi then hi - lo else 0
    decreases hi - lo
  {
    if hi <= lo then {} else Interval(lo, hi - 1) + {hi - 1}
  }

  /** The sizes add up to the number of free bytes. */
  lemma {:induction false} SumCounts(f: seq<Region>, lo: int, hi: int)
    requires Normal(f) && forall i :: 0 <= i < |f| ==> lo <= f[i].addr && f[i].End() <= hi
    ensures |FreeBytes(f, lo, hi)| == Sum(f)
  {
    if f == [] {
      assert FreeBytes(f, lo, hi) == {};
    } else {
      NormalTail(f);
      forall i | 0 <= i < |f[1..]| ensures lo <= f[1..][i].addr && f[1..][i].End() <= hi {
        assert f[1..][i] == f[i + 1];
      }
      SumCounts(f[1..], lo, hi);
      assert RegionOk(f[0]);
      var head := Interval(f[0].addr, f[0].End());
      forall x ensures x in FreeBytes(f, lo, hi) <==> x in FreeBytes(f[1..], lo, hi) || x in head {
        CoversHead(f, x);
      }
      assert FreeBytes(f, lo, hi) == FreeBytes(f[1..], lo, hi) + head;
      forall x | x in head ensures x !in FreeBytes(f[1..], lo, hi) {
        TailBeyond(f, x);
      }
    }
  }
}
