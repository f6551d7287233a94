/** g/re/d: the selected lines of the range go, and no others, though every deletion renumbers the lines still to visit. */
module EdGlobalDelete {
  import opened Basics
  import opened EdRing
  import opened EdActive
  import opened EdBuffer
  import opened EdCommands
  import opened EdTexts
  import opened EdMeaning
  import opened EdRuns
  import opened EdGlobal

  /** The texts that are not selected. */
  function Unselected(T: seq<string>, sel: string -> bool): seq<string> {
    if T == [] then [] else (if sel(T[0]) then [] else [T[0]]) + Unselected(T[1..], sel)
  }

  lemma {:induction false} WithoutConcat(A: seq<Line>, B: seq<Line>, S: set<Line>)
    ensures Without(A + B, S) == Without(A, S) + Without(B, S)
  {
    if A == [] {
      assert A + B == B;
    } else {
      assert (A + B)[1..] == A[1..] + B;
      WithoutConcat(A[1..], B, S);
    }
  }

  lemma {:induction false} WithoutNone(A: seq<Line>, S: set<Line>)
    requires forall x :: x in A ==> x !in S
    ensures Without(A, S) == A
  {
    if A != [] {
      WithoutNone(A[1..], S);
    }
  }

  lemma {:induction false} WithoutTwice(A: seq<Line>, S: set<Line>, T: set<Line>)
    ensures Without(Without(A, S), T) == Without(A, S + T)
  {
    if A != [] {
      WithoutTwice(A[1..], S, T);
      if A[0] !in S {
        assert Without(A, S)[1..] == Without(A[1..], S);
      }
    }
  }

  lemma {:induction false} WithoutTexts(A: seq<Line>, S: set<Line>, sel: string -> bool)
    requires forall x :: x in A ==> (x in S <==> sel(x.text))
    ensures AllTexts(Without(A, S)) == Unselected(AllTexts(A), sel)
  {
    if A != [] {
      WithoutTexts(A[1..], S, sel);
      TextsSlice(A, 1, |A|);
      TextsConcat([A[0]], Without(A[1..], S));
      assert AllTexts([A[0]]) == [A[0].text];
    }
  }

  lemma CutOne(L: seq<Line>, c: int)
    requires Distinct(L) && 0 <= c < |L|
    ensures Cut(L, c, 1) == Without(L, {L[c]})
  {
    assert OnlyAt(L, c);
    assert L == L[..c] + ([L[c]] + L[c + 1..]);
    WithoutConcat(L[..c], [L[c]] + L[c + 1..], {L[c]});
    WithoutConcat([L[c]], L[c + 1..], {L[c]});
    WithoutNone(L[..c], {L[c]});
    WithoutNone(L[c + 1..], {L[c]});
  }

  /** Of the lines listed, the first q have been deleted; the others are still listed. */
  ghost predicate Deleting(ed: Editor, L: seq<Line>, current: int, list: seq<Line>, q: int)
    reads ed, ed.act
  {
    StillListed(ed, list, q) && ed.lines == Without(L, NodeSet(list[..q])) && DeletedAt(L, list, q, current, ed.lines, ed.currentAddr)
  }

  /** The current line is the one after the last one deleted, or the last one. */
  ghost predicate DeletedAt(L: seq<Line>, list: seq<Line>, q: int, current: int, lines: seq<Line>, current': int)
    requires 0 <= q <= |list|
  {
    if q == 0 then current' == current
    else
      var before, x := Without(L, NodeSet(list[..q - 1])), list[q - 1];
      exists c :: IsAt(before, c, x) && current' == Min(c, |lines| - 1)
  }

  ghost predicate IsAt(L: seq<Line>, c: int, x: Line) {
    0 <= c < |L| && L[c] == x
  }

  /** The first q lines of the list have been visited, and the others are still listed. */
  ghost predicate StillListed(ed: Editor, list: seq<Line>, q: int)
    reads ed, ed.act
  {
    0 <= q <= |list| == |ed.act.list| && ed.act.ptr == q && ed.act.list[q..] == list[q..]
  }

  /** The next line listed is visited. */
  method VisitListed(ed: Editor, ghost list: seq<Line>, ghost q: int) returns (lp: Line?)
    requires ed.Valid() && ed.isGlobal && StillListed(ed, list, q)
    modifies ed`currentAddr, ed.act`ptr
    ensures ed.Valid() && |ed.act.list| == |list| && ed.act.list[q..] == list[q..] && Once(ed.act.list)
    ensures if lp == null then q == |list| == ed.act.ptr && ed.currentAddr == old(ed.currentAddr)
            else q < |list| && ed.act.ptr == q + 1 && lp == list[q]
                 && 1 <= ed.currentAddr <= ed.addrLast && ed.lines[ed.currentAddr] == lp
  {
    hide Editor.PartsValid;
    ListedOnce(ed);
    assert q < |list| ==> ed.act.list[q] == ed.act.list[q..][0] == list[q];
    lp := VisitNext(ed);
  }

  /** Taking the line visited off the list, or no line, leaves the others listed. */
  lemma ListedNext(list: seq<Line>, q: int, was: seq<Line?>, now: seq<Line?>, S: set<Line>)
    requires 0 <= q < |list| == |was| && Once(was) && was[q..] == list[q..]
    requires now == Unset(was, S) && forall x :: x in S ==> x == list[q]
    ensures now[q + 1..] == list[q + 1..]
  {
    assert was[q] == was[q..][0] && OnceAt(was, q);
    forall i | q + 1 <= i < |list| ensures now[i] == list[i] {
      assert was[i] == was[q..][i - q] == list[q..][i - q];
    }
  }

  lemma ListedOnce(ed: Editor)
    requires ed.Valid()
    ensures Once(ed.act.list)
  {
  }

  /** The next line listed is visited, and deleted. */
  method DeleteNext(ed: Editor, ghost L: seq<Line>, ghost current: int, ghost list: seq<Line>, ghost q: int) returns (lp: Line?)
    requires ed.Valid() && ed.isGlobal && Deleting(ed, L, current, list, q)
    modifies ed`cursor, ed`on, ed`currentAddr, ed`addrLast, ed`lines, ed`nodes, ed`ustack, ed`log, ed`modified, ed.nodes, ed.sf, ed.act
    ensures ed.Valid() && SameBase(old(ed.log), ed.log)
    ensures forall x :: x in ed.nodes && x !in old(ed.nodes) ==> fresh(x)
    ensures if lp == null then q == |list| && Deleting(ed, L, current, list, q) else q < |list| && Deleting(ed, L, current, list, q + 1)
  {
    hide Editor.PartsValid, Without, Unset, NodeSet, Meant, Taken, TakenOff;
    ghost var was := ed.act.list;
    lp := VisitListed(ed, list, q);
    if lp != null {
      ghost var c, lines := ed.currentAddr, ed.lines;
      ghost var m := ed.currentAddr;
      PerformDelete(ed, ed.currentAddr, ed.currentAddr);
      DeletedHere(lines, c, m, ed.lines, ed.currentAddr, was, ed.act.list);
      DeletedNext(L, lines, c, list, q, was, ed.act.list);
      assert IsAt(lines, c, list[q]);
    }
  }

  lemma OneLine(L: seq<Line>, c: int)
    requires 0 <= c < |L|
    ensures L[c..c + 1] == [L[c]]
  {
  }

  /** What one deletion does to the current address and to the list. */
  lemma DeletedHere(lines: seq<Line>, c: int, current: int, lines': seq<Line>, current': int, was: seq<Line?>, now: seq<Line?>)
    requires 1 <= c < |lines| && Meant(Delete(c, c), lines, current, lines', current') && lines' == Cut(lines, c, 1)
    requires now == TakenOff(was, true, Taken(Delete(c, c), lines))
    ensures current' == Min(c, |lines'| - 1) && lines[c..c + 1] == [lines[c]] && now == Unset(was, NodeSet(lines[c..c + 1]))
  {
    OneLine(lines, c);
  }

  lemma DeletedNext(L: seq<Line>, lines: seq<Line>, c: int, list: seq<Line>, q: int, was: seq<Line?>, now: seq<Line?>)
    requires Distinct(lines) && 0 <= c < |lines| && 0 <= q < |list| == |was| && lines[c] == list[q] && Once(was)
    requires was[q..] == list[q..] && lines == Without(L, NodeSet(list[..q]))
    requires lines[c..c + 1] == [list[q]] && now == Unset(was, NodeSet(lines[c..c + 1]))
    ensures |now| == |list|
    ensures now[q + 1..] == list[q + 1..]
    ensures Cut(lines, c, 1) == Without(L, NodeSet(list[..q + 1]))
  {
    CutOne(lines, c);
    WithoutTwice(L, NodeSet(list[..q]), {list[q]});
    assert list[..q + 1] == list[..q] + [list[q]];
    assert NodeSet(list[..q + 1]) == NodeSet(list[..q]) + {list[q]};
    ListedNext(list, q, was, now, NodeSet(lines[c..c + 1]));
  }

  /** exec_global with the command d: deletes all lines listed. */
  method DeleteListed(ed: Editor, ghost list: seq<Line>)
    requires ed.Valid() && ed.isGlobal && ed.act.list == list && ed.act.ptr == 0
    modifies ed`cursor, ed`on, ed`currentAddr, ed`addrLast, ed`lines, ed`nodes, ed`ustack, ed`log, ed`modified,
             ed`uCurrentAddr, ed`uAddrLast, ed`freed, ed.nodes, ed.sf, ed.act, ed.marks
    ensures ed.Valid() && (forall x :: x in ed.nodes && x !in old(ed.nodes) ==> fresh(x))
    ensures ed.log.states != [] && ed.log.states[0] == old(ed.lines) && ed.uCurrentAddr == old(ed.currentAddr)
    ensures ed.lines == Without(old(ed.lines), NodeSet(list))
    ensures DeletedAt(old(ed.lines), list, |list|, old(ed.currentAddr), ed.lines, ed.currentAddr)
  {
    ed.ClearUndoStack();
    DeleteAll(ed, list);
  }

  method DeleteAll(ed: Editor, ghost list: seq<Line>)
    requires ed.Valid() && ed.isGlobal && ed.act.list == list && ed.act.ptr == 0
    modifies ed`cursor, ed`on, ed`currentAddr, ed`addrLast, ed`lines, ed`nodes, ed`ustack, ed`log, ed`modified, ed.nodes, ed.sf, ed.act
    ensures ed.Valid() && SameBase(old(ed.log), ed.log)
    ensures forall x :: x in ed.nodes && x !in old(ed.nodes) ==> fresh(x)
    ensures ed.lines == Without(old(ed.lines), NodeSet(list))
    ensures DeletedAt(old(ed.lines), list, |list|, old(ed.currentAddr), ed.lines, ed.currentAddr)
  {
    hide Editor.PartsValid;
    ghost var L, current, q := ed.lines, ed.currentAddr, 0;
    WithoutNone(L, NodeSet(list[..0]));
    while true
      invariant ed.Valid() && SameBase(old(ed.log), ed.log)
      invariant forall x :: x in ed.nodes && x !in old(ed.nodes) ==> fresh(x)
      invariant Deleting(ed, L, current, list, q)
      decreases |list| - q
    {
      var lp := DeleteNext(ed, L, current, list, q);
      if lp == null {
        assert list[..q] == list;
        return;
      }
      q := q + 1;
    }
  }

  /** What is left of a buffer when the selected lines of a range are gone. */
  lemma SelectedGone(L: seq<Line>, p: int, q: int, sel: string -> bool, S: set<Line>)
    requires Distinct(L) && 0 <= p <= q <= |L| && forall x :: x in S <==> x in Selected(L[p..q], sel)
    ensures AllTexts(Without(L, S)) == AllTexts(L)[..p] + Unselected(AllTexts(L)[p..q], sel) + AllTexts(L)[q..]
  {
    hide Without, Selected, Unselected, Distinct;
    var A, B, C := L[..p], L[p..q], L[q..];
    forall x | x in L ensures x in B ==> (x in S <==> sel(x.text)) {
      SelectedIn(B, sel, x);
    }
    forall x | x in A || x in C ensures x !in S {
      SelectedIn(B, sel, x);
      OutsideRange(L, p, q, x);
    }
    WithoutInside(L, p, q, S);
    WithoutTexts(B, S, sel);
    ThreeTexts(L, p, q, Without(B, S));
  }

  lemma WithoutInside(L: seq<Line>, p: int, q: int, S: set<Line>)
    requires 0 <= p <= q <= |L| && forall x :: x in L[..p] || x in L[q..] ==> x !in S
    ensures Without(L, S) == L[..p] + Without(L[p..q], S) + L[q..]
  {
    var A, B, C := L[..p], L[p..q], L[q..];
    assert L == A + (B + C);
    WithoutConcat(A, B + C, S);
    WithoutConcat(B, C, S);
    WithoutNone(A, S);
    WithoutNone(C, S);
  }

  lemma ThreeTexts(L: seq<Line>, p: int, q: int, M: seq<Line>)
    requires 0 <= p <= q <= |L|
    ensures AllTexts(L[..p] + M + L[q..]) == AllTexts(L)[..p] + AllTexts(M) + AllTexts(L)[q..]
    ensures AllTexts(L[p..q]) == AllTexts(L)[p..q]
  {
    TextsConcat(L[..p] + M, L[q..]);
    TextsConcat(L[..p], M);
    TextsSlice(L, 0, p);
    TextsSlice(L, p, q);
    TextsSlice(L, q, |L|);
  }

  lemma OutsideRange(L: seq<Line>, p: int, q: int, x: Line)
    requires Distinct(L) && 0 <= p <= q <= |L|
    ensures x in L[..p] || x in L[q..] ==> x !in L[p..q]
  {
    if x in L[p..q] {
      var i :| p <= i < q && L[i] == x;
      assert OnlyAt(L, i);
    }
  }

  /** The place of the last text selected, or -1. */
  function LastChosen(T: seq<string>, sel: string -> bool): (k: int)
    ensures -1 <= k < |T|
  {
    if T == [] then -1
    else if sel(T[|T| - 1]) then |T| - 1
    else LastChosen(T[..|T| - 1], sel)
  }

  lemma {:induction false} LastSelected(B: seq<Line>, sel: string -> bool)
    ensures var k := LastChosen(AllTexts(B), sel);
      if k == -1 then Selected(B, sel) == [] else Selected(B, sel) == Selected(B[..k], sel) + [B[k]]
  {
    if B != [] {
      var n := |B| - 1;
      LastSelected(B[..n], sel);
      TextsSlice(B, 0, n);
      assert AllTexts(B)[..n] == AllTexts(B[..n]);
      var k := LastChosen(AllTexts(B[..n]), sel);
      assert k >= 0 ==> B[..n][..k] == B[..k];
    }
  }

  /** Where the current line is after g/re/d. */
  lemma DeletedCurrent(L: seq<Line>, p: int, q: int, sel: string -> bool, list: seq<Line>, current: int, lines: seq<Line>, current': int)
    requires Distinct(L) && 0 <= p < q <= |L| && list == Selected(L[p..q], sel)
    requires DeletedAt(L, list, |list|, current, lines, current')
    ensures current' == DeletedTo(AllTexts(L), p, q - 1, sel, current, |lines| - 1)
  {
    hide Selected, Unselected, Without, Distinct;
    var B, T := L[p..q], AllTexts(L);
    TextsSlice(L, p, q);
    LastSelected(B, sel);
    var k := LastChosen(AllTexts(B), sel);
    if k != -1 {
      var n := |list| - 1;
      assert B[..k] == L[p..p + k] && list[..n] == Selected(L[p..p + k], sel) && list[n] == L[p + k];
      var c :| IsAt(Without(L, NodeSet(list[..n])), c, list[n]) && current' == Min(c, |lines| - 1);
      PlaceWithout(L, p, k, sel, NodeSet(list[..n]), c);
      assert T[p..q][..k] == T[p..p + k];
    }
  }

  /** Where a line is when the selected ones before it are gone. */
  lemma PlaceWithout(L: seq<Line>, p: int, k: int, sel: string -> bool, S: set<Line>, c: int)
    requires Distinct(L) && 0 <= p <= p + k < |L| && 0 <= k && (forall x :: x in S <==> x in Selected(L[p..p + k], sel))
    requires IsAt(Without(L, S), c, L[p + k])
    ensures c == p + |Unselected(AllTexts(L)[p..p + k], sel)|
  {
    hide Selected, Unselected, Without;
    var i := p + k;
    var A, x, C := L[..i], L[i], L[i + 1..];
    assert OnlyAt(L, i);
    assert L == A + ([x] + C);
    SelectedIn(L[p..i], sel, x);
    WithoutConcat(A, [x] + C, S);
    WithoutConcat([x], C, S);
    WithoutNone([x], S);
    assert Without(L, S) == Without(A, S) + ([x] + Without(C, S));
    WithoutIn(A, S, x);
    WithoutIn(C, S, x);
    assert c == |Without(A, S)|;
    HeadGone(L, p, i, sel, S);
  }

  lemma HeadGone(L: seq<Line>, p: int, i: int, sel: string -> bool, S: set<Line>)
    requires Distinct(L) && 0 <= p <= i <= |L| && forall x :: x in S <==> x in Selected(L[p..i], sel)
    ensures |Without(L[..i], S)| == p + |Unselected(AllTexts(L)[p..i], sel)|
  {
    hide Selected, Unselected, Without;
    var A := L[..i];
    DistinctHead(L, i);
    assert A[p..i] == L[p..i];
    SelectedGone(A, p, i, sel, S);
    TextsSlice(L, 0, i);
    assert AllTexts(A)[p..i] == AllTexts(L)[p..i] && AllTexts(A)[i..] == [];
  }

  lemma DistinctHead(L: seq<Line>, i: int)
    requires Distinct(L) && 0 <= i <= |L|
    ensures Distinct(L[..i])
  {
    forall k | 0 <= k < i ensures OnlyAt(L[..i], k) {
      assert OnlyAt(L, k);
    }
  }

  /** The current line after g/re/d: the one after the last one deleted, or the last one; without a deletion it stays. */
  ghost function DeletedTo(T: seq<string>, first: int, second: int, sel: string -> bool, current: int, last: int): int
    requires 0 <= first <= second < |T|
  {
    var U := T[first..second + 1];
    var k := LastChosen(U, sel);
    if k == -1 then current else Min(first + |Unselected(U[..k], sel)|, last)
  }

  /** g/re/d. */
  method GlobalDelete(ed: Editor, first: int, second: int, sel: string -> bool)
    requires ed.Valid() && !ed.isGlobal && 1 <= first <= second <= ed.addrLast
    modifies ed`cursor, ed`on, ed`currentAddr, ed`addrLast, ed`lines, ed`nodes, ed`ustack, ed`log, ed`modified,
             ed`uCurrentAddr, ed`uAddrLast, ed`freed, ed`isGlobal, ed.nodes, ed.sf, ed.act, ed.marks
    ensures ed.Valid() && !ed.isGlobal && (forall x :: x in ed.nodes && x !in old(ed.nodes) ==> fresh(x))
    ensures ed.log.states != [] && ed.log.states[0] == old(ed.lines) && ed.uCurrentAddr == old(ed.currentAddr)
    ensures var T := AllTexts(old(ed.lines));
            AllTexts(ed.lines) == T[..first] + Unselected(T[first..second + 1], sel) + T[second + 1..]
    ensures ed.currentAddr == DeletedTo(AllTexts(old(ed.lines)), first, second, sel, old(ed.currentAddr), |ed.lines| - 1)
  {
    hide Editor.PartsValid, DeletedAt, Unselected, Without, DeletedTo, LastChosen, Selected;
    ghost var L, current := ed.lines, ed.currentAddr;
    ghost var list := ListSelected(ed, first, second, sel);
    SelectedGone(ed.lines, first, second + 1, sel, NodeSet(list));
    DeleteListed(ed, list);
    DeletedCurrent(L, first, second + 1, sel, list, current, ed.lines, ed.currentAddr);
    EndGlobal(ed);
  }

  method ListSelected(ed: Editor, first: int, second: int, sel: string -> bool) returns (ghost list: seq<Line>)
    requires ed.Valid() && !ed.isGlobal && 1 <= first <= second <= ed.addrLast
    modifies ed`cursor, ed`on, ed`isGlobal, ed.sf, ed.act
    ensures ed.Valid() && ed.isGlobal && ed.act.list == list && ed.act.ptr == 0
    ensures list == Selected(ed.lines[first..second + 1], sel)
  {
    BuildActiveList(ed, first, second, sel);
    SelectedPending(ed.lines, ed.head, first, second + 1, sel);
    forall i | 0 <= i < |ed.act.list| ensures ed.act.list[i] != null {
      SelectedIn(ed.lines[first..second + 1], sel, ed.act.list[i]);
    }
    list := ed.act.list;
    ed.isGlobal := true;
  }
}
