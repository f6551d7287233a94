/** pop_undo_stack's walk down the stack: each record is taken back by relinking. */
module EdUndo {
  import opened Basics
  import opened EdRing
  import opened EdHistory

  /** Takes back edit g, whose records end at position n of the stack, by relinking. */
  method RelinkRecord(ustack: seq<Undo>, n: nat, ghost log: Log, ghost g: nat) returns (m: nat)
    requires LogOk(log) && g < |log.edits|
    requires Ring(log.states[g + 1]) && Detached(log, g)
    requires |log.recs[g]| <= n <= |ustack| && ustack[n - |log.recs[g]|..n] == log.recs[g]
    modifies log.states[g], log.states[g + 1]
    ensures Ring(log.states[g]) && Withdrawn(log, g)
    ensures m == n - |log.recs[g]| < n
  {
    assert LogStep(log, g);
    ghost var e, L, L' := log.edits[g], log.states[g], log.states[g + 1];
    ghost var rs := log.recs[g];
    assert ustack[n - 1] == ustack[n - |rs|..n][|rs| - 1] == rs[|rs| - 1];
    assert ustack[n - |rs|] == ustack[n - |rs|..n][0] == rs[0];
    m := n - 1;
    if ustack[m].kind == UADD {
      assert LinkedAt(L', e.p) && LinkedAt(L', e.p + e.n - 1);
      UnlinkSegment(ustack[m].h.back, ustack[m].t.forw, L', e.p, e.n);
    } else if ustack[m].kind == UDEL {
      RelinkSegment(ustack[m].h, ustack[m].t, L, e.p, e.n);
    } else {
      ReverseStep(e, L, L', rs);
      ghost var back := e.Inverse();
      Transplant(ustack[m].h, ustack[m].t, ustack[m - 1].h, ustack[m - 1].t, L', back.i, back.j, back.k, back.down);
      m := m - 1;
    }
  }

  /** As RelinkRecord; the other detached segments keep their links, since none of their nodes is written. */
  method PopRecord(ustack: seq<Undo>, n: nat, ghost log: Log, ghost g: nat, ghost nodes: set<Line>) returns (m: nat)
    requires LogOk(log) && g < |log.edits|
    requires forall a, x :: 0 <= a < |log.states| && x in log.states[a] ==> x in nodes
    requires LinksAt(log, g + 1, nodes)
    requires |log.recs[g]| <= n <= |ustack| && ustack[n - |log.recs[g]|..n] == log.recs[g]
    modifies nodes
    ensures LinksAt(log, g, nodes)
    ensures m == n - |log.recs[g]| < n
  {
    assert LogStep(log, g) && Detached(log, g);
    m := RelinkRecord(ustack, n, log, g);
    forall a | 0 <= a < g && log.edits[a].Del? ensures Detached(log, a) {
      assert LogStep(log, a) && old(Detached(log, a));
      ghost var e, L := log.edits[a], log.states[a];
      forall i | e.p <= i < e.p + e.n ensures LinkedAt(L, i) {
        DeletedStaysOut(log, a, i, g);
        DeletedStaysOut(log, a, i, g + 1);
        assert old(LinkedAt(L, i));
      }
    }
    forall a | g < a < |log.edits| && log.edits[a].Add? ensures Withdrawn(log, a) {
      assert LogStep(log, a) && old(Withdrawn(log, a));
      ghost var e, L := log.edits[a], log.states[a + 1];
      forall i | e.p <= i < e.p + e.n ensures LinkedAt(L, i) {
        AddedIsNew(log, a, i, g);
        AddedIsNew(log, a, i, g + 1);
        assert old(LinkedAt(L, i));
      }
    }
  }

  lemma FlattenSplit(recs: seq<seq<Undo>>, g: nat)
    requires g < |recs|
    ensures Flatten(recs[..g + 1]) == Flatten(recs[..g]) + recs[g]
    ensures Flatten(FlipAll(recs[g..])) == FlipGroup(recs[g]) + Flatten(FlipAll(recs[g + 1..]))
  {
    assert recs[..g + 1][..g] == recs[..g];
    assert FlipAll(recs[g..]) == [FlipGroup(recs[g])] + FlipAll(recs[g + 1..]);
    FlattenConcat([FlipGroup(recs[g])], FlipAll(recs[g + 1..]));
    assert Flatten([FlipGroup(recs[g])]) == Flatten([]) + FlipGroup(recs[g]);
  }

  lemma TopRecords(ustack: seq<Undo>, n: nat, below: seq<Undo>, rs: seq<Undo>)
    requires n <= |ustack| && ustack[..n] == below + rs
    ensures n - |rs| >= 0
    ensures ustack[n - |rs|..n] == rs && ustack[..n - |rs|] == below
  {
    assert ustack[..n][..n - |rs|] == ustack[..n - |rs|];
    assert ustack[..n][n - |rs|..] == ustack[n - |rs|..n];
  }

  lemma FlipAt(ustack: seq<Undo>, m: nat, n: nat, rs: seq<Undo>, tail: seq<Undo>)
    requires m < n <= |ustack| && ustack[m..n] == rs && ustack[n..] == tail
    ensures var flipped := ustack[m := ustack[m].(kind := ustack[m].kind.Flip())];
            flipped[m..] == FlipGroup(rs) + tail && flipped[..m] == ustack[..m]
  {
    assert ustack[m..] == rs + tail;
    assert ustack[m] == rs[0];
  }

  /** The stack when the edits from g on have been taken back: n entries are still to be popped. */
  ghost predicate StackAt(ustack: seq<Undo>, n: int, log: Log, g: int)
    requires LogOk(log) && 0 <= g <= |log.edits|
  {
    && 0 <= n <= |ustack|
    && ustack[..n] == Flatten(log.recs[..g])
    && ustack[n..] == Flatten(FlipAll(log.recs[g..]))
  }

  lemma StackDown(ustack: seq<Undo>, n: int, log: Log, g: int)
    requires LogOk(log) && 0 <= g < |log.edits| && StackAt(ustack, n, log, g + 1)
    ensures 0 < |log.recs[g]| <= n
    ensures ustack[n - |log.recs[g]|..n] == log.recs[g]
    ensures var m := n - |log.recs[g]|;
            StackAt(ustack[m := ustack[m].(kind := ustack[m].kind.Flip())], m, log, g)
  {
    FlattenSplit(log.recs, g);
    assert LogStep(log, g);
    TopRecords(ustack, n, Flatten(log.recs[..g]), log.recs[g]);
    FlipAt(ustack, n - |log.recs[g]|, n, log.recs[g], ustack[n..]);
  }

  lemma FlattenSome(log: Log, g: int)
    requires LogOk(log) && 0 <= g <= |log.edits|
    ensures g > 0 ==> Flatten(log.recs[..g]) != []
  {
    if g > 0 {
      FlattenSplit(log.recs, g - 1);
      assert LogStep(log, g - 1);
    }
  }

  lemma StackEmpty(ustack: seq<Undo>, log: Log, g: int)
    requires LogOk(log) && 0 <= g <= |log.edits|
    requires StackAt(ustack, 0, log, g)
    ensures g == 0 && ustack == Flatten(FlipAll(log.recs))
  {
    FlattenSome(log, g);
    assert log.recs[0..] == log.recs && ustack[0..] == ustack;
  }

  lemma StackFull(log: Log)
    requires LogOk(log)
    ensures StackAt(Flatten(log.recs), |Flatten(log.recs)|, log, |log.edits|)
    ensures |Flatten(log.recs)| > 0 ==> |log.edits| > 0
  {
    assert log.recs[..|log.edits|] == log.recs && FlipAll(log.recs[|log.edits|..]) == [];
  }

  /** Takes back all edits of the log, last one first. */
  method PopRecords(ustack: seq<Undo>, ghost log: Log, ghost nodes: set<Line>) returns (flipped: seq<Undo>)
    requires LogOk(log) && ustack == Flatten(log.recs)
    requires forall a, x :: 0 <= a < |log.states| && x in log.states[a] ==> x in nodes
    requires LinksAt(log, |log.edits|, nodes)
    modifies nodes
    ensures LinksAt(log, 0, nodes)
    ensures flipped == Flatten(FlipAll(log.recs))
  {
    flipped := ustack;
    var n := |ustack|;
    ghost var g := |log.edits|;
    StackFull(log);
    while n > 0
      invariant 0 <= g <= |log.edits|
      invariant LinksAt(log, g, nodes)
      invariant StackAt(flipped, n, log, g)
    {
      assert g > 0;
      g := g - 1;
      StackDown(flipped, n, log, g);
      n := PopRecord(flipped, n, log, g, nodes);
      flipped := flipped[n := flipped[n].(kind := flipped[n].kind.Flip())];
    }
    StackEmpty(flipped, log, g);
  }

  /** Exchanges the k-th entry from the bottom with the k-th from the top, for the top half. */
  method ReverseStack(ustack: seq<Undo>) returns (r: seq<Undo>)
    ensures r == Reverse(ustack)
  {
    r := ustack;
    var n := |ustack|;
    while n > (|ustack| + 1) / 2
      invariant (|ustack| + 1) / 2 <= n <= |r| == |ustack|
      invariant forall i :: |ustack| - n <= i < n ==> r[i] == ustack[i]
      invariant forall i :: n <= i < |ustack| ==> r[i] == ustack[|ustack| - 1 - i]
      invariant forall i :: 0 <= i < |ustack| - n ==> r[i] == ustack[|ustack| - 1 - i]
    {
      n := n - 1;
      r := r[n := r[|ustack| - 1 - n]][|ustack| - 1 - n := r[n]];
    }
  }
}
