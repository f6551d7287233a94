/**
 The undo stack as a history: the list states the buffer went through since the
 stack was cleared, the edit between each two of them, and the undo records of each edit.
 Popping the whole stack turns a history into its reversal, which is a history again.
 */
module EdHistory {
  import opened Basics
  import opened EdRing

  datatype UndoType = UADD | UDEL | UMOV | VMOV {
    /** type ^= 1 */
    function Flip(): UndoType {
      match this
      case UADD => UDEL
      case UDEL => UADD
      case UMOV => VMOV
      case VMOV => UMOV
    }

    predicate IsMove() {
      UMOV? || VMOV?
    }
  }

  datatype Undo = Undo(kind: UndoType, h: Line, t: Line)

  datatype Edit =
    | Add(p: int, n: int)                          // n nodes appear at position p
    | Del(p: int, n: int)                          // the n nodes at position p disappear
    | Mov(i: int, j: int, k: int, down: bool)      // i..j and j..k change places
  {
    function Inverse(): Edit {
      match this
      case Add(p, n) => Del(p, n)
      case Del(p, n) => Add(p, n)
      case Mov(i, j, k, down) => Mov(i, i + (k - j), k, !down)
    }
  }

  /** e leads from list state L to list state L'. */
  ghost predicate Step(e: Edit, L: seq<Line>, L': seq<Line>) {
    match e
    case Add(p, n) => 1 <= p < p + n <= |L'| && L == Cut(L', p, n)
    case Del(p, n) => 1 <= p < p + n <= |L| && L' == Cut(L, p, n)
    case Mov(i, j, k, down) => 1 <= i < j < k <= |L| && L' == Swap(L, i, j, k)
  }

  /** rs are the undo records of the edit e from L to L'. */
  ghost predicate IsRecord(rs: seq<Undo>, e: Edit, L: seq<Line>, L': seq<Line>)
    requires Step(e, L, L')
  {
    match e
    case Add(p, n) => rs == [Undo(UADD, L'[p], L'[p + n - 1])]
    case Del(p, n) => rs == [Undo(UDEL, L[p], L[p + n - 1])]
    case Mov(i, j, k, down) =>
      && |rs| == 2 && rs[0].kind.IsMove() && rs[1].kind.IsMove()
      && (rs[0].h, rs[0].t) == SourceBorder(L, i, j, k, down)
      && (rs[1].h, rs[1].t) == TargetBorder(L, i, j, k, down)
  }

  datatype Log = Log(states: seq<seq<Line>>, edits: seq<Edit>, recs: seq<seq<Undo>>)

  /** The states that hold x are consecutive. */
  ghost predicate Interval(states: seq<seq<Line>>, x: Line) {
    forall a, b, c :: 0 <= a < b < c < |states| && x in states[a] && x in states[c] ==> x in states[b]
  }

  /** A node that has left the list never comes back, and none is added twice. */
  ghost predicate Convex(states: seq<seq<Line>>) {
    forall a, x {:trigger Interval(states, x), states[a]} ::
      0 <= a < |states| && x in states[a] ==> Interval(states, x)
  }

  ghost predicate LogStep(log: Log, g: int)
    requires 0 <= g < |log.edits| == |log.recs| && |log.states| == |log.edits| + 1
  {
    && Step(log.edits[g], log.states[g], log.states[g + 1])
    && IsRecord(log.recs[g], log.edits[g], log.states[g], log.states[g + 1])
  }

  ghost predicate LogOk(log: Log) {
    && |log.states| == |log.edits| + 1
    && |log.recs| == |log.edits|
    && (forall g :: 0 <= g < |log.edits| ==> LogStep(log, g))
    && Convex(log.states)
    && (forall g {:trigger Distinct(log.states[g])} :: 0 <= g < |log.states| ==> Distinct(log.states[g]))
  }

  ghost function FlipGroup(rs: seq<Undo>): seq<Undo> {
    if rs == [] then [] else [rs[0].(kind := rs[0].kind.Flip())] + rs[1..]
  }

  function Reverse<T>(s: seq<T>): (r: seq<T>)
    ensures |r| == |s|
    ensures forall i :: 0 <= i < |s| ==> r[i] == s[|s| - 1 - i]
  {
    if s == [] then [] else Reverse(s[1..]) + [s[0]]
  }

  ghost function ReverseLog(log: Log): Log
    requires |log.recs| == |log.edits|
  {
    var k := |log.edits|;
    Log(Reverse(log.states),
        seq(k, i requires 0 <= i < k => log.edits[k - 1 - i].Inverse()),
        seq(k, i requires 0 <= i < k => Reverse(FlipGroup(log.recs[k - 1 - i]))))
  }

  lemma ReverseStep(e: Edit, L: seq<Line>, L': seq<Line>, rs: seq<Undo>)
    requires Step(e, L, L') && IsRecord(rs, e, L, L')
    ensures Step(e.Inverse(), L', L)
    ensures IsRecord(Reverse(FlipGroup(rs)), e.Inverse(), L', L)
  {
    if e.Mov? {
      SwapBack(L, e.i, e.j, e.k);
      ReverseMove(e.i, e.j, e.k, e.down, L, rs);
    }
  }

  lemma ReverseMove(i: int, j: int, k: int, down: bool, L: seq<Line>, rs: seq<Undo>)
    requires 1 <= i < j < k <= |L| && IsRecord(rs, Mov(i, j, k, down), L, Swap(L, i, j, k))
    ensures |Swap(L, i, j, k)| == |L|
    ensures Step(Mov(i, j, k, down).Inverse(), Swap(L, i, j, k), L)
    ensures IsRecord(Reverse(FlipGroup(rs)), Mov(i, j, k, down).Inverse(), Swap(L, i, j, k), L)
  {
    SwapBack(L, i, j, k);
    BordersBack(L, i, j, k, down);
    var back := Reverse(FlipGroup(rs));
    assert back[0] == rs[1] && back[1] == rs[0].(kind := rs[0].kind.Flip());
    assert back[0].kind.IsMove() && back[1].kind.IsMove();
  }

  lemma SwapBack(L: seq<Line>, i: int, j: int, k: int)
    requires 1 <= i < j < k <= |L|
    ensures |Swap(L, i, j, k)| == |L| && Swap(Swap(L, i, j, k), i, i + (k - j), k) == L
  {
    var L' := Swap(L, i, j, k);
    SwapAt(L, i, j, k, 0);
    forall m | 0 <= m < |L| ensures |Swap(L', i, i + (k - j), k)| == |L| && Swap(L', i, i + (k - j), k)[m] == L[m] {
      SwapAt(L', i, i + (k - j), k, m);
      SwapAt(L, i, j, k, SwapIndex(i, i + (k - j), k, m));
    }
  }

  /** Where the block was and where it is change places. */
  lemma BordersBack(L: seq<Line>, i: int, j: int, k: int, down: bool)
    requires 1 <= i < j < k <= |L|
    ensures |Swap(L, i, j, k)| == |L|
    ensures SourceBorder(Swap(L, i, j, k), i, i + (k - j), k, !down) == TargetBorder(L, i, j, k, down)
    ensures TargetBorder(Swap(L, i, j, k), i, i + (k - j), k, !down) == SourceBorder(L, i, j, k, down)
  {
    SwapAt(L, i, j, k, i - 1);
    SwapAt(L, i, j, k, i);
    SwapAt(L, i, j, k, i + (k - j) - 1);
    SwapAt(L, i, j, k, i + (k - j));
    SwapAt(L, i, j, k, k - 1);
    SwapAt(L, i, j, k, IncMod(k - 1, |L| - 1));
  }

  lemma ReverseConvex(states: seq<seq<Line>>)
    requires Convex(states)
    ensures Convex(Reverse(states))
  {
    var rev, k := Reverse(states), |states| - 1;
    forall a, x | 0 <= a < |rev| && x in rev[a] ensures Interval(rev, x) {
      assert x in states[k - a] && Interval(states, x);
      forall a, b, c | 0 <= a < b < c <= k && x in rev[a] && x in rev[c] ensures x in rev[b] {
        assert x in states[k - c] && x in states[k - a] && x in states[k - b];
      }
    }
  }

  lemma ReverseLogAt(log: Log, g: int)
    requires |log.states| == |log.edits| + 1 && |log.recs| == |log.edits| && 0 <= g < |log.edits|
    ensures var rev, k := ReverseLog(log), |log.edits| - 1 - g;
            && |rev.states| == |rev.edits| + 1 == |rev.recs| + 1 == |log.states|
            && rev.states[g] == log.states[k + 1] && rev.states[g + 1] == log.states[k]
            && rev.edits[g] == log.edits[k].Inverse() && rev.recs[g] == Reverse(FlipGroup(log.recs[k]))
  {
  }

  lemma ReverseLogStep(log: Log, g: int)
    requires |log.states| == |log.edits| + 1 && |log.recs| == |log.edits| && 0 <= g < |log.edits|
    requires LogStep(log, |log.edits| - 1 - g)
    ensures |ReverseLog(log).states| == |ReverseLog(log).edits| + 1 == |ReverseLog(log).recs| + 1 == |log.states|
    ensures LogStep(ReverseLog(log), g)
  {
    var k := |log.edits| - 1 - g;
    ReverseLogAt(log, g);
    ReverseStep(log.edits[k], log.states[k], log.states[k + 1], log.recs[k]);
  }

  lemma ReverseLogOk(log: Log)
    requires LogOk(log)
    ensures LogOk(ReverseLog(log))
  {
    var rev := ReverseLog(log);
    var k := |log.edits|;
    forall g | 0 <= g < k ensures LogStep(rev, g) {
      assert LogStep(log, k - 1 - g);
      ReverseLogStep(log, g);
    }
    ReverseConvex(log.states);
    forall g | 0 <= g < |rev.states| ensures Distinct(rev.states[g]) {
      assert Distinct(log.states[k - g]);
    }
  }

  /** Undoing an undo: the states of the history come back in their first order. */
  lemma ReverseLogTwice(log: Log)
    requires LogOk(log)
    ensures LogOk(ReverseLog(log))
    ensures ReverseLog(ReverseLog(log)).states == log.states
    ensures ReverseLog(ReverseLog(log)).edits == log.edits
  {
    ReverseLogOk(log);
    var twice := ReverseLog(ReverseLog(log));
    forall g | 0 <= g < |log.edits| ensures twice.edits[g] == log.edits[g] {
      assert twice.edits[g] == log.edits[g].Inverse().Inverse();
    }
  }

  ghost function Extend(log: Log, e: Edit, L': seq<Line>, rs: seq<Undo>): Log {
    Log(log.states + [L'], log.edits + [e], log.recs + [rs])
  }

  lemma ExtendOk(log: Log, e: Edit, L': seq<Line>, rs: seq<Undo>)
    requires LogOk(log)
    requires Step(e, log.states[|log.edits|], L') && IsRecord(rs, e, log.states[|log.edits|], L')
    requires Distinct(L')
    requires forall x, a :: x in L' && 0 <= a < |log.states| && x in log.states[a] ==> x in log.states[|log.edits|]
    ensures LogOk(Extend(log, e, L', rs))
  {
    var log' := Extend(log, e, L', rs);
    forall g | 0 <= g < |log'.edits| ensures LogStep(log', g) {
      assert g < |log.edits| ==> LogStep(log, g);
    }
    forall a, x | 0 <= a < |log'.states| && x in log'.states[a] ensures Interval(log'.states, x) {
      assert a < |log.states| ==> Interval(log.states, x);
      assert x in log.states[|log.edits|] ==> Interval(log.states, x);
    }
  }

  /** The last addition gets one more node x right after its others. */
  ghost function Grow(log: Log, x: Line): Log
    requires LogOk(log) && |log.edits| > 0 && log.edits[|log.edits| - 1].Add?
  {
    var g := |log.edits| - 1;
    var e, L := log.edits[g], log.states[g + 1];
    assert LogStep(log, g);
    log.(states := log.states[..g + 1] + [Insert(L, e.p + e.n, x)],
         edits := log.edits[..g] + [Add(e.p, e.n + 1)],
         recs := log.recs[..g] + [[Undo(UADD, L[e.p], x)]])
  }

  lemma GrowConvex(log: Log, x: Line)
    requires LogOk(log) && |log.edits| > 0 && log.edits[|log.edits| - 1].Add?
    requires forall a :: 0 <= a < |log.states| ==> x !in log.states[a]
    ensures Convex(Grow(log, x).states)
  {
    var states := Grow(log, x).states;
    forall a, y | 0 <= a < |states| && y in states[a] ensures Interval(states, y) {
      if y != x {
        assert y in log.states[a] && Interval(log.states, y);
        forall a, b, c | 0 <= a < b < c < |states| && y in states[a] && y in states[c] ensures y in states[b] {
          assert y in log.states[a] && y in log.states[c] && y in log.states[b];
        }
      }
    }
  }

  lemma GrowStep(p: int, n: int, L: seq<Line>, x: Line)
    requires 1 <= p < p + n <= |L|
    ensures Cut(Insert(L, p + n, x), p, n + 1) == Cut(L, p, n)
    ensures Insert(L, p + n, x)[p] == L[p] && Insert(L, p + n, x)[p + n] == x
  {
  }

  lemma GrowOk(log: Log, x: Line)
    requires LogOk(log) && |log.edits| > 0 && log.edits[|log.edits| - 1].Add?
    requires forall a :: 0 <= a < |log.states| ==> x !in log.states[a]
    ensures LogOk(Grow(log, x))
  {
    var g := |log.edits| - 1;
    var log' := Grow(log, x);
    var e, L := log.edits[g], log.states[g + 1];
    assert LogStep(log, g);
    forall i | 0 <= i < |log'.edits| ensures LogStep(log', i) {
      if i < g {
        assert LogStep(log, i);
        assert log'.states[i] == log.states[i] && log'.states[i + 1] == log.states[i + 1];
      } else {
        GrowStep(e.p, e.n, L, x);
      }
    }
    GrowConvex(log, x);
    DistinctInsert(L, e.p + e.n, x);
    forall i | 0 <= i < |log'.states| ensures Distinct(log'.states[i]) {
      assert i <= g ==> log'.states[i] == log.states[i];
    }
  }

  lemma {:induction false} FlattenConcat(a: seq<seq<Undo>>, b: seq<seq<Undo>>)
    ensures Flatten(a + b) == Flatten(a) + Flatten(b)
  {
    if b == [] {
      assert a + b == a;
    } else {
      assert (a + b)[..|a + b| - 1] == a + b[..|b| - 1];
      FlattenConcat(a, b[..|b| - 1]);
    }
  }

  ghost function FlipAll(recs: seq<seq<Undo>>): seq<seq<Undo>> {
    seq(|recs|, i requires 0 <= i < |recs| => FlipGroup(recs[i]))
  }

  ghost function ReverseGroups(recs: seq<seq<Undo>>): seq<seq<Undo>> {
    seq(|recs|, i requires 0 <= i < |recs| => Reverse(recs[|recs| - 1 - i]))
  }

  lemma ReverseConcat<T>(a: seq<T>, b: seq<T>)
    ensures Reverse(a + b) == Reverse(b) + Reverse(a)
  {
  }

  /** Reversing the stack record by record reverses the groups and each group. */
  lemma {:induction false} FlattenReverse(recs: seq<seq<Undo>>)
    ensures Flatten(ReverseGroups(recs)) == Reverse(Flatten(recs))
  {
    if recs != [] {
      var k := |recs| - 1;
      FlattenReverse(recs[..k]);
      ReverseConcat(Flatten(recs[..k]), recs[k]);
      assert ReverseGroups(recs) == [Reverse(recs[k])] + ReverseGroups(recs[..k]);
      FlattenConcat([Reverse(recs[k])], ReverseGroups(recs[..k]));
      assert Flatten([Reverse(recs[k])]) == Flatten([]) + Reverse(recs[k]);
    }
  }

  /** What pop leaves on the stack is the stack of the reversed history. */
  lemma PoppedStack(log: Log)
    requires LogOk(log)
    ensures Flatten(ReverseLog(log).recs) == Reverse(Flatten(FlipAll(log.recs)))
  {
    FlattenReverse(FlipAll(log.recs));
    assert ReverseGroups(FlipAll(log.recs)) == ReverseLog(log).recs;
  }

  /** The nodes an edit takes out of the list are in no later state. */
  lemma DeletedStaysOut(log: Log, g: int, i: int, c: int)
    requires LogOk(log) && 0 <= g < |log.edits| && log.edits[g].Del?
    requires LogStep(log, g) && log.edits[g].p <= i < log.edits[g].p + log.edits[g].n
    requires g < c < |log.states|
    ensures log.states[g][i] !in log.states[c]
  {
    var x := log.states[g][i];
    assert Distinct(log.states[g]) && OnlyAt(log.states[g], i);
    assert x !in log.states[g + 1] && Interval(log.states, x);
  }

  /** The nodes an edit adds are in no earlier state. */
  lemma AddedIsNew(log: Log, g: int, i: int, c: int)
    requires LogOk(log) && 0 <= g < |log.edits| && log.edits[g].Add?
    requires LogStep(log, g) && log.edits[g].p <= i < log.edits[g].p + log.edits[g].n
    requires 0 <= c <= g
    ensures log.states[g + 1][i] !in log.states[c]
  {
    var x := log.states[g + 1][i];
    assert Distinct(log.states[g + 1]) && OnlyAt(log.states[g + 1], i);
    assert x !in log.states[g] && Interval(log.states, x);
  }

  /** The nodes that edit g detached still carry the links of the state before it. */
  ghost predicate Detached(log: Log, g: int)
    requires LogOk(log) && 0 <= g < |log.edits|
    reads log.states[g]
  {
    assert LogStep(log, g);
    log.edits[g].Del? ==> SegmentLinked(log.states[g], log.edits[g].p, log.edits[g].n)
  }

  /** The nodes that edit g had added, now detached, still carry the links of the state after it. */
  ghost predicate Withdrawn(log: Log, g: int)
    requires LogOk(log) && 0 <= g < |log.edits|
    reads log.states[g + 1]
  {
    assert LogStep(log, g);
    log.edits[g].Add? ==> SegmentLinked(log.states[g + 1], log.edits[g].p, log.edits[g].n)
  }

  /** The links as they are when the edits from g on have been popped. */
  ghost predicate LinksAt(log: Log, g: int, nodes: set<Line>)
    requires LogOk(log) && 0 <= g <= |log.edits|
    requires forall a, x :: 0 <= a < |log.states| && x in log.states[a] ==> x in nodes
    reads nodes
  {
    && Ring(log.states[g])
    && (forall a :: 0 <= a < g ==> Detached(log, a))
    && (forall a :: g <= a < |log.edits| ==> Withdrawn(log, a))
  }
}
