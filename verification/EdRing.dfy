/**
 The line nodes of the editor buffer and the circular queue they form.

 A list state is a sequence of nodes whose element 0 is the buffer head.  A node
 is "linked at" position i of a list state when its two links are those the
 circular queue gives to position i.  A node that has been cut out of the queue
 keeps being linked at its old position of the old state: that is what undo relies on.
 */
module EdRing {

  class Line {
    var forw: Line
    var back: Line
    const seek: nat  // address of the text in the scratch file
    const len: nat   // length of the text
    ghost const text: string

    constructor (seek: nat, len: nat, ghost text: string)
      ensures this.seek == seek && this.len == len && this.text == text
      ensures forw == this && back == this
    {
      this.seek, this.len, this.text := seek, len, text;
      forw, back := this, this;
    }
  }

  function IncMod(l: int, k: int): int {
    if l + 1 > k then 0 else l + 1
  }

  function DecMod(l: int, k: int): int {
    if l - 1 < 0 then k else l - 1
  }

  /** L has the node at position i nowhere else. */
  ghost predicate OnlyAt(L: seq<Line>, i: int)
    requires 0 <= i < |L|
  {
    forall j :: 0 <= j < |L| && j != i ==> L[j] != L[i]
  }

  ghost predicate Distinct(L: seq<Line>) {
    forall i :: 0 <= i < |L| ==> OnlyAt(L, i)
  }

  ghost predicate LinkedAt(L: seq<Line>, i: int)
    requires 0 <= i < |L|
    reads L[i]
  {
    L[i].forw == L[IncMod(i, |L| - 1)] && L[i].back == L[DecMod(i, |L| - 1)]
  }

  ghost predicate Ring(L: seq<Line>)
    reads L
  {
    && |L| > 0
    && Distinct(L)
    && forall i :: 0 <= i < |L| ==> LinkedAt(L, i)
  }

  /** The nodes at positions p .. p + n of L carry the links they have in the queue L. */
  ghost predicate SegmentLinked(L: seq<Line>, p: int, n: int)
    requires 0 <= p <= p + n <= |L|
    reads L[p..p + n]
  {
    forall i :: p <= i < p + n ==> LinkedAt(L, i)
  }

  ghost function Cut(L: seq<Line>, p: int, n: int): seq<Line>
    requires 0 <= p <= p + n <= |L|
  {
    L[..p] + L[p + n..]
  }

  ghost function Insert(L: seq<Line>, p: int, x: Line): seq<Line>
    requires 0 <= p <= |L|
  {
    L[..p] + [x] + L[p..]
  }

  /** The two adjacent blocks i..j and j..k change places. */
  ghost function Swap(L: seq<Line>, i: int, j: int, k: int): seq<Line>
    requires 0 <= i <= j <= k <= |L|
  {
    L[..i] + L[j..k] + L[i..j] + L[k..]
  }

  /** Where the node at position m came from when i..j and j..k change places. */
  ghost function SwapIndex(i: int, j: int, k: int, m: int): int {
    if m < i || k <= m then m else if m < i + (k - j) then j + (m - i) else m - (k - j)
  }

  lemma SwapAt(L: seq<Line>, i: int, j: int, k: int, m: int)
    requires 0 <= i <= j <= k <= |L| && 0 <= m < |L|
    ensures |Swap(L, i, j, k)| == |L| && Swap(L, i, j, k)[m] == L[SwapIndex(i, j, k, m)]
  {
  }

  lemma DistinctSwap(L: seq<Line>, i: int, j: int, k: int)
    requires 0 <= i <= j <= k <= |L| && Distinct(L)
    ensures Distinct(Swap(L, i, j, k))
  {
    var L' := Swap(L, i, j, k);
    forall a | 0 <= a < |L'| ensures OnlyAt(L', a) {
      SwapAt(L, i, j, k, a);
      assert OnlyAt(L, SwapIndex(i, j, k, a));
      forall b | 0 <= b < |L'| && b != a ensures L'[b] != L'[a] {
        SwapAt(L, i, j, k, b);
      }
    }
  }

  /** Position m of L carries the links it needs once i..j and j..k have changed places. */
  ghost predicate SwapLinkedAt(L: seq<Line>, i: int, j: int, k: int, m: int)
    requires 1 <= i < j < k <= |L| && 0 <= m < |L|
    reads L[m]
  {
    var n := IncMod(k - 1, |L| - 1);
    && L[m].forw == (if m == i - 1 then L[j] else if m == k - 1 then L[i] else if m == j - 1 then L[n]
                     else L[IncMod(m, |L| - 1)])
    && L[m].back == (if m == j then L[i - 1] else if m == i then L[k - 1] else if m == n then L[j - 1]
                     else L[DecMod(m, |L| - 1)])
  }

  ghost predicate SwapLinks(L: seq<Line>, i: int, j: int, k: int)
    requires 1 <= i < j < k <= |L|
    reads L
  {
    forall m :: 0 <= m < |L| ==> SwapLinkedAt(L, i, j, k, m)
  }

  lemma SwapLinkedAtRing(L: seq<Line>, L': seq<Line>, i: int, j: int, k: int, m: int)
    requires 1 <= i < j < k <= |L| == |L'| && 0 <= m < |L|
    requires forall m :: 0 <= m < |L| ==> L'[m] == L[SwapIndex(i, j, k, m)]
    requires SwapLinkedAt(L, i, j, k, SwapIndex(i, j, k, m))
    ensures LinkedAt(L', m)
  {
    var next, prev := IncMod(m, |L| - 1), DecMod(m, |L| - 1);
    assert L'[next] == L[SwapIndex(i, j, k, next)] && L'[prev] == L[SwapIndex(i, j, k, prev)];
  }

  lemma SwapLinksRing(L: seq<Line>, i: int, j: int, k: int)
    requires 1 <= i < j < k <= |L| && Distinct(L)
    requires SwapLinks(L, i, j, k)
    ensures Ring(Swap(L, i, j, k))
  {
    var L' := Swap(L, i, j, k);
    DistinctSwap(L, i, j, k);
    forall m | 0 <= m < |L| ensures L'[m] == L[SwapIndex(i, j, k, m)] {
      SwapAt(L, i, j, k, m);
    }
    forall m | 0 <= m < |L'| ensures LinkedAt(L', m) {
      SwapLinkedAtRing(L, L', i, j, k, m);
    }
  }

  lemma DistinctCut(L: seq<Line>, p: int, n: int)
    requires 0 <= p <= p + n <= |L| && Distinct(L)
    ensures Distinct(Cut(L, p, n))
  {
    var L' := Cut(L, p, n);
    forall a | 0 <= a < |L'| ensures OnlyAt(L', a) {
      assert OnlyAt(L, if a < p then a else a + n);
    }
  }

  lemma DistinctInsert(L: seq<Line>, p: int, x: Line)
    requires 0 <= p <= |L| && Distinct(L) && x !in L
    ensures Distinct(Insert(L, p, x))
  {
    var L' := Insert(L, p, x);
    forall a | 0 <= a < |L'| ensures OnlyAt(L', a) {
      if a != p {
        assert OnlyAt(L, if a < p then a else a - 1);
      }
    }
  }

  method Reque(pred: Line, succ: Line)
    modifies pred`forw, succ`back
    ensures pred.forw == succ && succ.back == pred
  {
    pred.forw := succ;
    succ.back := pred;
  }

  /** The n nodes from position p on leave the queue, and keep their links. */
  method UnlinkSegment(pred: Line, succ: Line, ghost L: seq<Line>, ghost p: int, ghost n: int)
    requires Ring(L)
    requires 1 <= p < p + n <= |L|
    requires pred == L[p - 1] && succ == L[IncMod(p + n - 1, |L| - 1)]
    modifies L
    ensures Ring(Cut(L, p, n)) && SegmentLinked(L, p, n)
  {
    assert OnlyAt(L, p - 1) && OnlyAt(L, IncMod(p + n - 1, |L| - 1));
    Reque(pred, succ);
    ghost var L' := Cut(L, p, n);
    DistinctCut(L, p, n);
    forall i | p <= i < p + n ensures LinkedAt(L, i) {
      assert old(LinkedAt(L, i));
    }
    forall i | 0 <= i < |L'| ensures LinkedAt(L', i) {
      ghost var k := if i < p then i else i + n;
      assert L'[i] == L[k];
      assert old(LinkedAt(L, k));
    }
  }

  /** Undo of a deletion: the segment h..t, which kept its links, enters the queue again. */
  method RelinkSegment(h: Line, t: Line, ghost L: seq<Line>, ghost p: nat, ghost n: nat)
    requires 1 <= p < p + n <= |L|
    requires Distinct(L)
    requires Ring(Cut(L, p, n)) && SegmentLinked(L, p, n)
    requires h == L[p] && t == L[p + n - 1]
    modifies L
    ensures Ring(L)
  {
    ghost var L' := Cut(L, p, n);
    assert LinkedAt(L, p) && LinkedAt(L, p + n - 1);
    assert OnlyAt(L, p - 1) && OnlyAt(L, p) && OnlyAt(L, p + n - 1) && OnlyAt(L, IncMod(p + n - 1, |L| - 1));
    Reque(h.back, h);
    Reque(t, t.forw);
    forall i | 0 <= i < |L| ensures LinkedAt(L, i) {
      if p <= i < p + n {
        assert old(LinkedAt(L, i));
      } else {
        ghost var k := if i < p then i else i - n;
        assert L'[k] == L[i];
        assert old(LinkedAt(L', k));
      }
    }
  }

  /** The nodes around the block that moves when i..j and j..k change places: the
      block moves down past j..k, or it is j..k that moves up past i..j. */
  ghost function SourceBorder(L: seq<Line>, i: int, j: int, k: int, down: bool): (Line, Line)
    requires 1 <= i < j < k <= |L|
  {
    if down then (L[i - 1], L[j]) else (L[j - 1], L[IncMod(k - 1, |L| - 1)])
  }

  /** The nodes between which that block is put. */
  ghost function TargetBorder(L: seq<Line>, i: int, j: int, k: int, down: bool): (Line, Line)
    requires 1 <= i < j < k <= |L|
  {
    if down then (L[k - 1], L[IncMod(k - 1, |L| - 1)]) else (L[i - 1], L[i])
  }

  /** Takes the block between b1 and a1 out of the queue and puts it between b2 and a2. */
  method Transplant(b1: Line, a1: Line, b2: Line, a2: Line,
                    ghost L: seq<Line>, ghost i: int, ghost j: int, ghost k: int, ghost down: bool)
    requires Ring(L) && 1 <= i < j < k <= |L|
    requires (b1, a1) == SourceBorder(L, i, j, k, down)
    requires (b2, a2) == TargetBorder(L, i, j, k, down)
    modifies L
    ensures Ring(Swap(L, i, j, k))
  {
    ghost var n := IncMod(k - 1, |L| - 1);
    assert LinkedAt(L, i) && LinkedAt(L, j) && LinkedAt(L, i - 1) && LinkedAt(L, j - 1) && LinkedAt(L, k - 1);
    assert LinkedAt(L, n);
    assert OnlyAt(L, i) && OnlyAt(L, j) && OnlyAt(L, i - 1) && OnlyAt(L, j - 1) && OnlyAt(L, k - 1) && OnlyAt(L, n);
    Reque(b2, b1.forw);
    Reque(a1.back, a2);
    Reque(b1, a1);
    assert SwapLinks(L, i, j, k) by {
      forall m | 0 <= m < |L| ensures SwapLinkedAt(L, i, j, k, m) {
        assert old(LinkedAt(L, m));
      }
    }
    SwapLinksRing(L, i, j, k);
  }

  /** Links elem into the queue after its p-th node. */
  method Insque(elem: Line, pred: Line, ghost L: seq<Line>, ghost p: nat)
    requires Ring(L) && p < |L| && pred == L[p] && elem !in L
    modifies L, elem
    ensures Ring(Insert(L, p + 1, elem))
  {
    assert LinkedAt(L, p);
    assert OnlyAt(L, p) && OnlyAt(L, IncMod(p, |L| - 1));
    Reque(elem, pred.forw);
    Reque(pred, elem);
    ghost var L' := Insert(L, p + 1, elem);
    DistinctInsert(L, p + 1, elem);
    forall m | 0 <= m < |L'| ensures LinkedAt(L', m) {
      if m != p + 1 {
        ghost var n := if m <= p then m else m - 1;
        assert L'[m] == L[n];
        assert old(LinkedAt(L, n));
      } else {
        assert old(LinkedAt(L, p));
      }
    }
  }
}
