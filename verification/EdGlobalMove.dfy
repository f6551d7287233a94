/** g/re/m0: the selected lines of the range come to the front in reverse order, and the others keep theirs. */
module EdGlobalMove {
  import opened EdRing
  import opened EdHistory
  import opened EdActive
  import opened EdBuffer
  import opened EdLog
  import opened EdCommands
  import opened EdTexts
  import opened EdRuns
  import opened EdGlobal
  import opened EdGlobalDelete

  /** The texts that are selected. */
  function Chosen(T: seq<string>, sel: string -> bool): seq<string> {
    if T == [] then []
    else
      var k := |T| - 1;
      Chosen(T[..k], sel) + if sel(T[k]) then [T[k]] else []
  }

  /** The first q lines of the list are at the front, the last of them first. */
  ghost function MovedUpTo(L: seq<Line>, list: seq<Line>, q: int): seq<Line>
    requires 0 <= q <= |list| && |L| > 0
  {
    L[..1] + Reverse(list[..q]) + Without(L[1..], NodeSet(list[..q]))
  }

  lemma ToFront(lines: seq<Line>, c: int)
    requires Distinct(lines) && 1 <= c < |lines|
    ensures Moved(lines, c, c, 0) == lines[..1] + [lines[c]] + Without(lines[1..], {lines[c]})
  {
    SwapFront(lines, c);
    WithoutIt(lines, c);
  }

  lemma SwapFront(lines: seq<Line>, c: int)
    requires 1 <= c < |lines|
    ensures Moved(lines, c, c, 0) == lines[..1] + [lines[c]] + (lines[1..c] + lines[c + 1..])
  {
    OneLine(lines, c);
  }

  lemma WithoutIt(lines: seq<Line>, c: int)
    requires Distinct(lines) && 1 <= c < |lines|
    ensures Without(lines[1..], {lines[c]}) == lines[1..c] + lines[c + 1..]
  {
    var x := lines[c];
    assert OnlyAt(lines, c);
    assert lines[1..] == lines[1..c] + ([x] + lines[c + 1..]);
    WithoutConcat(lines[1..c], [x] + lines[c + 1..], {x});
    WithoutConcat([x], lines[c + 1..], {x});
    WithoutNone(lines[1..c], {x});
    WithoutNone(lines[c + 1..], {x});
  }

  /** No line is listed twice. */
  ghost predicate Single(list: seq<Line>) {
    forall i, j :: 0 <= i < j < |list| ==> list[i] != list[j]
  }

  lemma MovedNext(L: seq<Line>, lines: seq<Line>, c: int, list: seq<Line>, q: int)
    requires Distinct(lines) && 1 <= c < |lines| && 0 <= q < |list| && lines[c] == list[q] && |L| > 0 && Single(list)
    requires lines == MovedUpTo(L, list, q)
    ensures Moved(lines, c, c, 0) == MovedUpTo(L, list, q + 1)
  {
    hide Moved, Distinct;
    var x, R, W := list[q], Reverse(list[..q]), Without(L[1..], NodeSet(list[..q]));
    ToFront(lines, c);
    assert lines[..1] == L[..1] && lines[1..] == R + W;
    WithoutConcat(R, W, {x});
    WithoutNone(R, {x});
    WithoutTwice(L[1..], NodeSet(list[..q]), {x});
    FrontMore(list, q);
    assert L[..1] + [x] + (R + Without(W, {x})) == L[..1] + ([x] + R) + Without(W, {x});
  }

  lemma FrontMore(list: seq<Line>, q: int)
    requires 0 <= q < |list|
    ensures Reverse(list[..q + 1]) == [list[q]] + Reverse(list[..q])
    ensures NodeSet(list[..q + 1]) == NodeSet(list[..q]) + {list[q]}
  {
    assert list[..q + 1] == list[..q] + [list[q]];
    ReverseConcat(list[..q], [list[q]]);
  }

  ghost predicate Moving(ed: Editor, L: seq<Line>, current: int, list: seq<Line>, q: int)
    requires |L| > 0
    reads ed, ed.act
  {
    StillListed(ed, list, q) && ed.lines == MovedUpTo(L, list, q) && ed.currentAddr == if q == 0 then current else 1
  }

  /** The next line listed is visited, and moved to the front. */
  method MoveNext(ed: Editor, ghost L: seq<Line>, ghost current: int, ghost list: seq<Line>, ghost q: int) returns (lp: Line?)
    requires |L| > 0 && Single(list) && ed.Valid() && ed.isGlobal && Moving(ed, L, current, list, q)
    modifies ed`cursor, ed`on, ed`currentAddr, ed`addrLast, ed`lines, ed`nodes, ed`ustack, ed`log, ed`modified, ed.nodes, ed.sf, ed.act
    ensures ed.Valid() && SameBase(old(ed.log), ed.log)
    ensures forall x :: x in ed.nodes && x !in old(ed.nodes) ==> fresh(x)
    ensures if lp == null then q == |list| && Moving(ed, L, current, list, q) else q < |list| && Moving(ed, L, current, list, q + 1)
  {
    hide Editor.PartsValid, MovedUpTo;
    ghost var was := ed.act.list;
    lp := VisitListed(ed, list, q);
    if lp != null {
      ghost var c, lines := ed.currentAddr, ed.lines;
      OneLine(lines, c);
      PerformMove(ed, ed.currentAddr, ed.currentAddr, 0);
      MovedNext(L, lines, c, list, q);
      ListedNext(list, q, was, ed.act.list, NodeSet(lines[c..c + 1]));
    }
  }

  method MoveAll(ed: Editor, ghost list: seq<Line>)
    requires ed.Valid() && ed.isGlobal && ed.act.list == list && ed.act.ptr == 0 && Single(list)
    modifies ed`cursor, ed`on, ed`currentAddr, ed`addrLast, ed`lines, ed`nodes, ed`ustack, ed`log, ed`modified, ed.nodes, ed.sf, ed.act
    ensures ed.Valid() && SameBase(old(ed.log), ed.log)
    ensures forall x :: x in ed.nodes && x !in old(ed.nodes) ==> fresh(x)
    ensures |old(ed.lines)| > 0 && ed.lines == MovedUpTo(old(ed.lines), list, |list|)
    ensures ed.currentAddr == if list == [] then old(ed.currentAddr) else 1
  {
    hide Editor.PartsValid, MovedUpTo;
    ghost var L, current, q := ed.lines, ed.currentAddr, 0;
    NoneMoved(L, list);
    while true
      invariant ed.Valid() && SameBase(old(ed.log), ed.log)
      invariant forall x :: x in ed.nodes && x !in old(ed.nodes) ==> fresh(x)
      invariant Moving(ed, L, current, list, q)
      decreases |list| - q
    {
      var lp := MoveNext(ed, L, current, list, q);
      if lp == null {
        return;
      }
      q := q + 1;
    }
  }

  lemma NoneMoved(L: seq<Line>, list: seq<Line>)
    requires |L| > 0
    ensures MovedUpTo(L, list, 0) == L
  {
    WithoutNone(L[1..], NodeSet(list[..0]));
    assert Reverse(list[..0]) == [];
  }

  /** exec_global with the command m0. */
  method MoveListed(ed: Editor, ghost list: seq<Line>)
    requires ed.Valid() && ed.isGlobal && ed.act.list == list && ed.act.ptr == 0 && Single(list)
    modifies ed`cursor, ed`on, ed`currentAddr, ed`addrLast, ed`lines, ed`nodes, ed`ustack, ed`log, ed`modified,
             ed`uCurrentAddr, ed`uAddrLast, ed`freed, ed.nodes, ed.sf, ed.act, ed.marks
    ensures ed.Valid() && (forall x :: x in ed.nodes && x !in old(ed.nodes) ==> fresh(x))
    ensures ed.log.states != [] && ed.log.states[0] == old(ed.lines) && ed.uCurrentAddr == old(ed.currentAddr)
    ensures |old(ed.lines)| > 0 && ed.lines == MovedUpTo(old(ed.lines), list, |list|)
    ensures ed.currentAddr == if list == [] then old(ed.currentAddr) else 1
  {
    ed.ClearUndoStack();
    MoveAll(ed, list);
  }

  lemma {:induction false} ReverseTexts(S: seq<Line>)
    ensures AllTexts(Reverse(S)) == Reverse(AllTexts(S))
  {
    var a, b := AllTexts(Reverse(S)), Reverse(AllTexts(S));
    forall i | 0 <= i < |S| ensures a[i] == b[i] {
    }
  }

  lemma {:induction false} SelectedTexts(L: seq<Line>, sel: string -> bool, list: seq<Line>)
    requires list == Selected(L, sel)
    ensures AllTexts(list) == Chosen(AllTexts(L), sel)
  {
    if L != [] {
      var k := |L| - 1;
      var rest := if sel(L[k].text) then list[..|list| - 1] else list;
      SelectedTexts(L[..k], sel, rest);
      TextsSlice(L, 0, k);
      assert AllTexts(L)[..k] == AllTexts(L[..k]);
      if sel(L[k].text) {
        TextsConcat(rest, [L[k]]);
        assert list == rest + [L[k]];
      }
    }
  }

  /** On all lines, g/re/m0 turns the file round. */
  lemma MovedWhole(T: seq<string>)
    requires |T| > 1
    ensures T[..1] + Reverse(Chosen(T[1..], t => true)) + (T[1..1] + Unselected(T[1..], t => true) + T[|T|..])
            == T[..1] + Reverse(T[1..])
  {
    ChosenAll(T[1..]);
  }

  lemma {:induction false} ChosenAll(T: seq<string>)
    ensures Chosen(T, t => true) == T && Unselected(T, t => true) == []
  {
    if T != [] {
      ChosenAll(T[..|T| - 1]);
      ChosenAll(T[1..]);
    }
  }

  /** What the buffer is in the end. */
  lemma MovedGone(L: seq<Line>, p: int, q: int, sel: string -> bool, list: seq<Line>)
    requires Distinct(L) && 1 <= p <= q <= |L| && list == Selected(L[p..q], sel)
    ensures AllTexts(MovedUpTo(L, list, |list|))
            == AllTexts(L)[..1] + Reverse(Chosen(AllTexts(L)[p..q], sel))
               + (AllTexts(L)[1..p] + Unselected(AllTexts(L)[p..q], sel) + AllTexts(L)[q..])
  {
    hide Selected, Without, Unselected, Chosen;
    var S, T := NodeSet(list), AllTexts(L);
    assert list[..|list|] == list;
    SelectedGone(L, p, q, sel, S);
    FirstStays(L, p, q, sel, S);
    assert L == L[..1] + L[1..];
    WithoutConcat(L[..1], L[1..], S);
    TextsConcat(L[..1], Without(L[1..], S));
    TextsSlice(L, 0, 1);
    assert AllTexts(L[..1]) == T[..1];
    var rest := AllTexts(Without(L[1..], S));
    var U := Unselected(T[p..q], sel);
    assert T[..1] + rest == T[..p] + U + T[q..];
    assert rest == (T[..1] + rest)[1..] == T[1..p] + U + T[q..];
    ReverseTexts(list);
    SelectedTexts(L[p..q], sel, list);
    TextsSlice(L, p, q);
    TextsConcat(L[..1] + Reverse(list), Without(L[1..], S));
    TextsConcat(L[..1], Reverse(list));
  }

  lemma FirstStays(L: seq<Line>, p: int, q: int, sel: string -> bool, S: set<Line>)
    requires Distinct(L) && 1 <= p <= q <= |L| && forall x :: x in S <==> x in Selected(L[p..q], sel)
    ensures Without(L[..1], S) == L[..1]
  {
    SelectedIn(L[p..q], sel, L[0]);
    OutsideRange(L, p, q, L[0]);
    assert L[..p][0] == L[0];
    WithoutNone(L[..1], S);
  }

  /** g/re/m0. */
  method GlobalMove(ed: Editor, first: int, second: int, sel: string -> bool)
    requires ed.Valid() && !ed.isGlobal && 1 <= first <= second <= ed.addrLast
    modifies ed`cursor, ed`on, ed`currentAddr, ed`addrLast, ed`lines, ed`nodes, ed`ustack, ed`log, ed`modified,
             ed`uCurrentAddr, ed`uAddrLast, ed`freed, ed`isGlobal, ed.nodes, ed.sf, ed.act, ed.marks
    ensures ed.Valid() && !ed.isGlobal && (forall x :: x in ed.nodes && x !in old(ed.nodes) ==> fresh(x))
    ensures ed.log.states != [] && ed.log.states[0] == old(ed.lines) && ed.uCurrentAddr == old(ed.currentAddr)
    ensures var T := AllTexts(old(ed.lines));
            AllTexts(ed.lines) == T[..1] + Reverse(Chosen(T[first..second + 1], sel))
                                  + (T[1..first] + Unselected(T[first..second + 1], sel) + T[second + 1..])
            && ed.currentAddr == if LastChosen(T[first..second + 1], sel) == -1 then old(ed.currentAddr) else 1
  {
    hide Editor.PartsValid, MovedUpTo, Chosen, Unselected, Selected, Single, Reverse, LastChosen;
    ghost var list := ListSelected(ed, first, second, sel);
    ListedSingle(ed, list);
    MovedGone(ed.lines, first, second + 1, sel, list);
    LastSelected(ed.lines[first..second + 1], sel);
    TextsSlice(ed.lines, first, second + 1);
    MoveListed(ed, list);
    EndGlobal(ed);
  }

  lemma ListedSingle(ed: Editor, list: seq<Line>)
    requires ed.Valid() && ed.act.list == list
    ensures Single(list)
  {
    forall i, j | 0 <= i < j < |list| ensures list[i] != list[j] {
      assert OnceAt(ed.act.list, i);
    }
  }
}
