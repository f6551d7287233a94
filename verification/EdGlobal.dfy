/** The global command from its range on, and the marks as addresses. */
module EdGlobal {
  import opened EdRing
  import opened EdBuffer
  import opened EdLog
  import opened EdRuns
  import opened EdTurns
  import EdStreams

  /** The lines whose text is selected, in order. */
  ghost function Selected(L: seq<Line>, sel: string -> bool): seq<Line?> {
    if L == [] then []
    else
      var k := |L| - 1;
      Selected(L[..k], sel) + if sel(L[k].text) then [L[k]] else []
  }

  lemma {:induction false} SelectedIn(L: seq<Line>, sel: string -> bool, x: Line?)
    ensures x in Selected(L, sel) <==> x != null && x in L && sel(x.text)
  {
    if L != [] {
      var k := |L| - 1;
      SelectedIn(L[..k], sel, x);
      assert L == L[..k] + [L[k]];
    }
  }

  lemma SelectedNext(L: seq<Line>, p: int, i: int, sel: string -> bool)
    requires 0 <= p <= i < |L|
    ensures Selected(L[p..i + 1], sel) == Selected(L[p..i], sel) + if sel(L[i].text) then [L[i]] else []
  {
    assert L[p..i + 1][..i - p] == L[p..i];
  }

  /** Puts the selected lines of the range on the list, and no others. */
  method BuildActiveList(ed: Editor, first: int, second: int, sel: string -> bool)
    requires ed.Valid() && !ed.isGlobal && 1 <= first <= second <= ed.addrLast
    modifies ed`cursor, ed`on, ed.sf, ed.act
    ensures ed.Valid() && ed.sf.data == old(ed.sf.data)
    ensures ed.act.list == Selected(ed.lines[first..second + 1], sel) && ed.act.ptr == 0
  {
    hide Editor.PartsValid, Editor.LogValid;
    ClearActiveList(ed);
    var lp := ed.GetAddressedLineNode(first);
    var n := first;
    while n <= second
      invariant first <= n <= second + 1 && ed.Valid() && ed.sf.data == old(ed.sf.data)
      invariant lp == ed.lines[IncMod(n - 1, ed.addrLast)]
      invariant ed.act.list == Selected(ed.lines[first..n], sel) && ed.act.ptr == 0
    {
      SelectedNext(ed.lines, first, n, sel);
      SelectLine(ed, lp, first, n, sel);
      assert LinkedAt(ed.lines, n);
      lp := lp.forw;
      n := n + 1;
    }
  }

  method ClearActiveList(ed: Editor)
    requires ed.Valid()
    modifies ed.act
    ensures ed.Valid() && ed.act.list == [] && ed.act.ptr == 0
  {
    ed.act.Clear();
  }

  method SelectLine(ed: Editor, lp: Line, ghost first: int, ghost n: int, sel: string -> bool)
    requires ed.Valid() && !ed.isGlobal && 1 <= first <= n <= ed.addrLast && lp == ed.lines[n]
    requires ed.act.list == Selected(ed.lines[first..n], sel) && ed.act.ptr == 0
    modifies ed.sf, ed.act
    ensures ed.Valid() && ed.sf.data == old(ed.sf.data)
    ensures ed.act.list == old(ed.act.list) + (if sel(lp.text) then [lp] else []) && ed.act.ptr == 0
  {
    assert LinkedAt(ed.lines, n) && OwnText(ed.sf.data, lp);
    var s := ed.GetSbufLine(lp);
    assert s == lp.text;
    if sel(s) {
      SelectedIn(ed.lines[first..n], sel, lp);
      assert OnlyAt(ed.lines, n);
      Activate(ed, lp);
    }
  }

  method Activate(ed: Editor, lp: Line)
    requires ed.Valid() && !ed.isGlobal && lp !in ed.act.list && ed.act.ptr == 0
    modifies ed.act
    ensures ed.Valid() && ed.act.list == old(ed.act.list) + [lp] && ed.act.ptr == 0
  {
    ed.act.SetActiveNode(lp);
  }

  /** The selected lines are in the buffer, and none is the head. */
  lemma SelectedPending(L: seq<Line>, head: Line, p: int, q: int, sel: string -> bool)
    requires 1 <= p <= q <= |L| && L[0] == head && Distinct(L)
    ensures PendingIn(Selected(L[p..q], sel), 0, L, head)
  {
    var list := Selected(L[p..q], sel);
    forall j | 0 <= j < |list| && list[j] != null ensures list[j] in L && list[j] != head {
      SelectedIn(L[p..q], sel, list[j]);
      var i :| p <= i < q && L[i] == list[j];
      assert OnlyAt(L, 0);
    }
  }

  /** g: marks the selected lines first, and then runs the commands for each that is still there when its turn comes. */
  method Global(ed: Editor, io: EdStreams.Io, first: int, second: int, sel: string -> bool, script: nat -> seq<Relative>)
    returns (ok: bool, ghost turns: seq<Turn>)
    requires ed.Valid() && !ed.isGlobal && 1 <= first <= second <= ed.addrLast
    requires ScriptOk(script)
    modifies ed`cursor, ed`on, ed`currentAddr, ed`addrLast, ed`lines, ed`nodes, ed`ustack, ed`log, ed`modified,
             ed`uCurrentAddr, ed`uAddrLast, ed`freed, ed`isGlobal, ed.nodes, ed.sf, ed.act, ed.marks, io
    ensures ed.Valid() && !ed.isGlobal
    ensures ed.log.states != [] && ed.log.states[0] == old(ed.lines) && ed.uCurrentAddr == old(ed.currentAddr)
    ensures !ok ==>
      StuckTurns(turns, script, Selected(old(ed.lines)[first..second + 1], sel), old(ed.lines), old(ed.currentAddr), 0)
    ensures ok ==>
      && Turns(turns, Selected(old(ed.lines)[first..second + 1], sel), old(ed.lines), old(ed.currentAddr), 0,
               ed.act.list, ed.lines, ed.currentAddr)
      && Follows(turns, script) && NoneFrom(ed.act.list, NextFrom(turns, 0), |ed.act.list|)
  {
    BuildActiveList(ed, first, second, sel);
    SelectedPending(ed.lines, ed.head, first, second + 1, sel);
    ed.isGlobal := true;
    ok, turns := ExecGlobal(ed, io, script);
    EndGlobal(ed);
  }

  method EndGlobal(ed: Editor)
    requires ed.Valid()
    modifies ed`isGlobal
    ensures ed.Valid() && !ed.isGlobal
  {
    ed.isGlobal := false;
  }

  /** k: marks a line. */
  method MarkLine(ed: Editor, addr: int, c: char) returns (ok: bool)
    requires ed.Valid() && 1 <= addr <= ed.addrLast
    modifies ed`cursor, ed`on, ed.marks
    ensures ed.Valid() && ok == ('a' <= c <= 'z')
    ensures ed.marks.mark == if ok then old(ed.marks.mark)[(c - 'a') as int := ed.lines[addr]] else old(ed.marks.mark)
  {
    var lp := ed.GetAddressedLineNode(addr);
    assert LinkedAt(ed.lines, addr);
    ok := ed.marks.MarkLineNode(lp, c);
  }

  /** The address a mark stands for: that of its line wherever it is now; an error if the line is not in the buffer. */
  method GetMarkedNodeAddr(ed: Editor, c: char) returns (addr: int)
    requires ed.Valid()
    ensures !('a' <= c <= 'z') ==> addr == ERR
    ensures 'a' <= c <= 'z' ==>
      var lp := ed.marks.mark[(c - 'a') as int];
      if exists i :: 0 <= i < |ed.lines| && ed.lines[i] == lp then 0 <= addr <= ed.addrLast && ed.lines[addr] == lp
      else addr == if ed.addrLast == 0 then 0 else ERR
  {
    if !('a' <= c <= 'z') {
      return ERR;
    }
    addr := ed.GetLineNodeAddr(ed.marks.mark[(c - 'a') as int]);
  }
}
