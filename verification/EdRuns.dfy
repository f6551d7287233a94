/** Whole runs: the editing commands, the global command over them, and undo of what they did. */
module EdRuns {
  import opened EdRing
  import opened EdHistory
  import opened EdActive
  import opened EdBuffer
  import opened EdLog
  import opened EdCommands
  import opened EdTexts
  import opened EdMeaning
  import opened EdTurns
  import opened Basics

  method PerformAppend(ed: Editor, addr: int, input: seq<string>)
    requires ed.Valid() && 0 <= addr <= ed.addrLast && LineInput(input)
    modifies ed`cursor, ed`on, ed`currentAddr, ed`addrLast, ed`lines, ed`nodes, ed`ustack, ed`log, ed`modified, ed.nodes, ed.sf, ed.act
    ensures ed.Valid() && SameBase(old(ed.log), ed.log)
    ensures forall x :: x in ed.nodes && x !in old(ed.nodes) ==> fresh(x)
    ensures ed.act.ptr == old(ed.act.ptr) && ed.act.list == TakenOff(old(ed.act.list), ed.isGlobal, {})
    ensures Meant(Append(addr, input), old(ed.lines), old(ed.currentAddr), ed.lines, ed.currentAddr)
    ensures addr < old(ed.addrLast) ==>
      Meant(InsertBefore(addr + 1, input), old(ed.lines), old(ed.currentAddr), ed.lines, ed.currentAddr)
  {
    TakenOffTwice(ed.act.list, ed.isGlobal, {}, {});
    AppendLines(ed, addr, input);
    OwnLines(ed);
    AppendMeant(old(ed.lines), ed.lines, addr, input, old(ed.currentAddr), ed.sf.data);
  }

  method PerformChange(ed: Editor, first: int, second: int, input: seq<string>)
    requires ed.Valid() && 1 <= first <= second <= ed.addrLast && LineInput(input)
    modifies ed`cursor, ed`on, ed`currentAddr, ed`addrLast, ed`lines, ed`nodes, ed`ustack, ed`log, ed`modified, ed.nodes, ed.sf, ed.act
    ensures ed.Valid() && SameBase(old(ed.log), ed.log)
    ensures forall x :: x in ed.nodes && x !in old(ed.nodes) ==> fresh(x)
    ensures ed.act.ptr == old(ed.act.ptr)
    ensures ed.act.list == TakenOff(old(ed.act.list), ed.isGlobal, Taken(Change(first, second, input), old(ed.lines)))
    ensures Meant(Change(first, second, input), old(ed.lines), old(ed.currentAddr), ed.lines, ed.currentAddr)
  {
    hide Editor.PartsValid, Meant, NodeSet, Unset, HaveTexts, Own, InputLength;
    ed.DeleteLines(first, second);
    AppendLines(ed, ed.currentAddr, input);
    OwnLines(ed);
    ChangeMeant(old(ed.lines), ed.lines, first, second, input, old(ed.currentAddr), ed.sf.data);
  }

  method PerformDelete(ed: Editor, first: int, second: int)
    requires ed.Valid() && 1 <= first <= second <= ed.addrLast
    modifies ed`cursor, ed`on, ed`currentAddr, ed`addrLast, ed`lines, ed`nodes, ed`ustack, ed`log, ed`modified, ed.nodes, ed.sf, ed.act
    ensures ed.Valid() && SameBase(old(ed.log), ed.log)
    ensures forall x :: x in ed.nodes && x !in old(ed.nodes) ==> fresh(x)
    ensures ed.act.ptr == old(ed.act.ptr)
    ensures ed.act.list == TakenOff(old(ed.act.list), ed.isGlobal, Taken(Delete(first, second), old(ed.lines)))
    ensures Meant(Delete(first, second), old(ed.lines), old(ed.currentAddr), ed.lines, ed.currentAddr)
    ensures ed.lines == Cut(old(ed.lines), first, second - first + 1)
  {
    hide Editor.PartsValid, Meant, NodeSet, Unset;
    ed.DeleteLines(first, second);
    DeleteMeant(old(ed.lines), first, second, old(ed.currentAddr));
    var addr := IncMod(ed.currentAddr, ed.addrLast);
    if addr != 0 {
      ed.currentAddr := addr;
    }
  }

  method PerformJoin(ed: Editor, first: int, second: int)
    requires ed.Valid() && 1 <= first <= second <= ed.addrLast
    modifies ed`cursor, ed`on, ed`currentAddr, ed`addrLast, ed`lines, ed`nodes, ed`ustack, ed`log, ed`modified, ed.nodes, ed.sf, ed.act
    ensures ed.Valid() && SameBase(old(ed.log), ed.log)
    ensures forall x :: x in ed.nodes && x !in old(ed.nodes) ==> fresh(x)
    ensures ed.act.ptr == old(ed.act.ptr)
    ensures ed.act.list == TakenOff(old(ed.act.list), ed.isGlobal, Taken(Join(first, second), old(ed.lines)))
    ensures Meant(Join(first, second), old(ed.lines), old(ed.currentAddr), ed.lines, ed.currentAddr)
  {
    TakenOffTwice(ed.act.list, ed.isGlobal, {}, {});
    if first != second {
      JoinRange(ed, first, second);
    }
  }

  method JoinRange(ed: Editor, first: int, second: int)
    requires ed.Valid() && 1 <= first < second <= ed.addrLast
    modifies ed`cursor, ed`on, ed`currentAddr, ed`addrLast, ed`lines, ed`nodes, ed`ustack, ed`log, ed`modified, ed.nodes, ed.sf, ed.act
    ensures ed.Valid() && SameBase(old(ed.log), ed.log)
    ensures forall x :: x in ed.nodes && x !in old(ed.nodes) ==> fresh(x)
    ensures ed.act.ptr == old(ed.act.ptr)
    ensures ed.act.list == TakenOff(old(ed.act.list), ed.isGlobal, Taken(Join(first, second), old(ed.lines)))
    ensures Meant(Join(first, second), old(ed.lines), old(ed.currentAddr), ed.lines, ed.currentAddr)
  {
    JoinLines(ed, first, second);
    OwnLines(ed);
    JoinMeant(old(ed.lines), ed.lines, first, second, old(ed.currentAddr), ed.sf.data);
  }

  method PerformMove(ed: Editor, first: int, second: int, addr: int)
    requires ed.Valid() && Movable(first, second, addr, ed.addrLast)
    modifies ed`cursor, ed`on, ed`currentAddr, ed`addrLast, ed`lines, ed`nodes, ed`ustack, ed`log, ed`modified, ed.nodes, ed.sf, ed.act
    ensures ed.Valid() && SameBase(old(ed.log), ed.log)
    ensures forall x :: x in ed.nodes && x !in old(ed.nodes) ==> fresh(x)
    ensures ed.act.ptr == old(ed.act.ptr)
    ensures ed.act.list == TakenOff(old(ed.act.list), ed.isGlobal, Taken(Move(first, second, addr), old(ed.lines)))
    ensures Meant(Move(first, second, addr), old(ed.lines), old(ed.currentAddr), ed.lines, ed.currentAddr)
    ensures ed.lines == Moved(old(ed.lines), first, second, addr)
  {
    hide Editor.PartsValid;
    MovedTexts(ed.lines, first, second, addr);
    ed.MoveLines(first, second, addr);
  }

  method PerformCopy(ed: Editor, first: int, second: int, addr: int)
    requires ed.Valid() && 1 <= first <= second <= ed.addrLast && 0 <= addr <= ed.addrLast
    modifies ed`cursor, ed`on, ed`currentAddr, ed`addrLast, ed`lines, ed`nodes, ed`ustack, ed`log, ed`modified, ed.nodes, ed.sf, ed.act
    ensures ed.Valid() && SameBase(old(ed.log), ed.log)
    ensures forall x :: x in ed.nodes && x !in old(ed.nodes) ==> fresh(x)
    ensures ed.act.ptr == old(ed.act.ptr) && ed.act.list == TakenOff(old(ed.act.list), ed.isGlobal, {})
    ensures Meant(Copy(first, second, addr), old(ed.lines), old(ed.currentAddr), ed.lines, ed.currentAddr)
  {
    TakenOffTwice(ed.act.list, ed.isGlobal, {}, {});
    CopyLines(ed, first, second, addr);
    CopyMeant(old(ed.lines), ed.lines, first, second, addr, old(ed.currentAddr));
  }

  method PerformSubstitute(ed: Editor, first: int, second: int, cmd: EdReplace.Command) returns (ok: bool)
    requires ed.Valid() && 1 <= first <= second <= ed.addrLast && EdSubst.Matches(cmd.pat)
    modifies ed`cursor, ed`on, ed`currentAddr, ed`addrLast, ed`lines, ed`nodes, ed`ustack, ed`log, ed`modified, ed.nodes, ed.sf, ed.act
    ensures ed.Valid() && SameBase(old(ed.log), ed.log)
    ensures forall x :: x in ed.nodes && x !in old(ed.nodes) ==> fresh(x)
    ensures ed.act.ptr == old(ed.act.ptr) && Thinned(ed.act.list, old(ed.act.list))
    ensures ok <==> Succeeds(Substitute(first, second, cmd), AllTexts(old(ed.lines)), ed.isGlobal)
    ensures ok ==> ed.act.list == TakenOff(old(ed.act.list), ed.isGlobal, Taken(Substitute(first, second, cmd), old(ed.lines)))
    ensures ok ==> Meant(Substitute(first, second, cmd), old(ed.lines), old(ed.currentAddr), ed.lines, ed.currentAddr)
  {
    hide Editor.PartsValid, Meant, Unset, EdReplace.ChangedLines, EdReplace.Searched;
    var status;
    ghost var parts, last;
    status, parts, last := EdReplace.SearchAndReplace(ed, cmd, first, second);
    ok := status == EdReplace.Done;
    TakenOffTwice(old(ed.act.list), ed.isGlobal, EdReplace.ChangedLines(cmd, old(ed.lines)[first..first + |parts|]), {});
    if status == EdReplace.EndlessLoop {
      SubstituteFails(cmd, old(ed.lines), first, second, first + |parts|, ed.isGlobal);
    } else {
      SubstituteSucceeds(cmd, old(ed.lines), first, second, parts, last, ed.lines, ed.currentAddr, ed.isGlobal);
    }
    if ok {
      SubstituteMeant(cmd, old(ed.lines), first, second, parts, last, ed.lines, old(ed.currentAddr), ed.currentAddr);
    }
  }

  /** Reads the file, if it can be opened, in after line addr. */
  method PerformRead(ed: Editor, io: EdStreams.Io, addr: int, file: Option<string>) returns (ok: bool)
    requires ed.Valid() && 0 <= addr <= ed.addrLast
    modifies ed`cursor, ed`on, ed`currentAddr, ed`addrLast, ed`lines, ed`nodes, ed`ustack, ed`log, ed`modified, ed.nodes, ed.sf, io
    ensures ed.Valid() && SameBase(old(ed.log), ed.log)
    ensures forall x :: x in ed.nodes && x !in old(ed.nodes) ==> fresh(x)
    ensures var n := |ed.lines| - |old(ed.lines)|; ed.modified == (old(ed.modified) || (ok && n != 0 && n != ed.addrLast))
    ensures ok <==> file.Some?
    ensures ok ==> Meant(Read(addr, file), old(ed.lines), old(ed.currentAddr), ed.lines, ed.currentAddr)
  {
    ok := file.Some?;
    if ok {
      ReadIn(ed, io, addr, file.value);
      var n := ed.currentAddr - addr;
      ed.modified := ed.modified || (n != 0 && n != ed.addrLast);
    }
  }

  method ReadIn(ed: Editor, io: EdStreams.Io, addr: int, file: string)
    requires ed.Valid() && 0 <= addr <= ed.addrLast
    modifies ed`cursor, ed`on, ed`currentAddr, ed`addrLast, ed`lines, ed`nodes, ed`ustack, ed`log, ed.nodes, ed.sf, io
    ensures ed.Valid() && SameBase(old(ed.log), ed.log)
    ensures forall x :: x in ed.nodes && x !in old(ed.nodes) ==> fresh(x)
    ensures Meant(Read(addr, Some(file)), old(ed.lines), old(ed.currentAddr), ed.lines, ed.currentAddr)
  {
    hide Editor.PartsValid;
    var size := EdStreams.ReadStream(ed, io, addr, file);
    OwnLines(ed);
    ReadMeant(old(ed.lines), ed.lines, addr, file, old(ed.currentAddr), ed.sf.data);
  }

  /** Performs the command; when it succeeds the texts have become what the command means. */
  method Perform(ed: Editor, io: EdStreams.Io, c: Edits) returns (ok: bool)
    requires ed.Valid() && Legal(c, ed.addrLast) && WellFormed(c)
    modifies ed`cursor, ed`on, ed`currentAddr, ed`addrLast, ed`lines, ed`nodes, ed`ustack, ed`log, ed`modified, ed.nodes, ed.sf, ed.act, io
    ensures ed.Valid() && SameBase(old(ed.log), ed.log)
    ensures forall x :: x in ed.nodes && x !in old(ed.nodes) ==> fresh(x)
    ensures ed.act.ptr == old(ed.act.ptr) && Thinned(ed.act.list, old(ed.act.list))
    ensures ok ==> ed.act.list == TakenOff(old(ed.act.list), ed.isGlobal, Taken(c, old(ed.lines)))
    ensures ok <==> Succeeds(c, AllTexts(old(ed.lines)), ed.isGlobal)
    ensures ok ==> Meant(c, old(ed.lines), old(ed.currentAddr), ed.lines, ed.currentAddr)
  {
    hide Editor.PartsValid, Meant, Unset, NodeSet;
    ok := true;
    TakenOffTwice(ed.act.list, ed.isGlobal, Taken(c, ed.lines), {});
    match c
    case Append(addr, input) => PerformAppend(ed, addr, input);
    case InsertBefore(addr, input) => PerformAppend(ed, addr - 1, input);
    case Change(first, second, input) => PerformChange(ed, first, second, input);
    case Delete(first, second) => PerformDelete(ed, first, second);
    case Join(first, second) => PerformJoin(ed, first, second);
    case Move(first, second, addr) => PerformMove(ed, first, second, addr);
    case Copy(first, second, addr) => PerformCopy(ed, first, second, addr);
    case Substitute(first, second, cmd) => ok := PerformSubstitute(ed, first, second, cmd);
    case Read(addr, file) => ok := PerformRead(ed, io, addr, file);
  }

  /** One command; outside a global command it starts a new undo history. */
  method ExecCommand(ed: Editor, io: EdStreams.Io, c: Edits) returns (ok: bool)
    requires ed.Valid() && WellFormed(c)
    modifies ed`cursor, ed`on, ed`currentAddr, ed`addrLast, ed`lines, ed`nodes, ed`ustack, ed`log, ed`modified,
             ed`uCurrentAddr, ed`uAddrLast, ed`freed, ed.nodes, ed.sf, ed.act, ed.marks, io
    ensures ed.Valid()
    ensures forall x :: x in ed.nodes && x !in old(ed.nodes) ==> fresh(x)
    ensures ed.act.ptr == old(ed.act.ptr) && Thinned(ed.act.list, old(ed.act.list))
    ensures ok <==> Legal(c, |old(ed.lines)| - 1) && Succeeds(c, AllTexts(old(ed.lines)), ed.isGlobal)
    ensures !Legal(c, old(ed.addrLast)) ==> !ok && ed.lines == old(ed.lines) && ed.log == old(ed.log)
    ensures ok ==> Legal(c, |old(ed.lines)| - 1) && Meant(c, old(ed.lines), old(ed.currentAddr), ed.lines, ed.currentAddr)
    ensures ed.isGlobal ==> SameBase(old(ed.log), ed.log) && ed.uCurrentAddr == old(ed.uCurrentAddr)
    ensures !ed.isGlobal && Legal(c, old(ed.addrLast)) ==>
      ed.log.states != [] && ed.log.states[0] == old(ed.lines) && ed.uCurrentAddr == old(ed.currentAddr)
  {
    hide Editor.PartsValid, Meant, Taken, TakenOff, Succeeds;
    if !Legal(c, ed.addrLast) {
      return false;
    }
    if !ed.isGlobal {
      ed.ClearUndoStack();
    }
    ok := Perform(ed, io, c);
  }

  /** The commands for one line of a global command; the first that fails ends it. */
  method ExecList(ed: Editor, io: EdStreams.Io, cs: seq<Relative>) returns (ok: bool, ghost run: seq<Did>)
    requires ed.Valid() && ed.isGlobal && AllWellFormed(cs)
    modifies ed`cursor, ed`on, ed`currentAddr, ed`addrLast, ed`lines, ed`nodes, ed`ustack, ed`log, ed`modified,
             ed.nodes, ed.sf, ed.act, io
    ensures ed.Valid() && SameBase(old(ed.log), ed.log)
    ensures forall x :: x in ed.nodes && x !in old(ed.nodes) ==> fresh(x)
    ensures ed.act.ptr == old(ed.act.ptr) && Thinned(ed.act.list, old(ed.act.list))
    ensures ok ==> |run| == |cs| && RunOf(run, cs) && RunFrom(run, old(ed.lines), old(ed.currentAddr), ed.lines, ed.currentAddr)
    ensures !ok ==> StuckRun(run, cs, old(ed.lines), old(ed.currentAddr))
    ensures ok ==> ed.act.list == Unset(old(ed.act.list), TakenBy(run))
  {
    hide Editor.PartsValid, Unset, Thinned, RunFrom, TakenBy, RunOf, Meant, Taken, StuckRun, Succeeds;
    ok, run := true, [];
    StartRun(cs, ed.act.list, ed.lines, ed.currentAddr);
    var i := 0;
    while i < |cs| && ok
      invariant 0 <= i <= |cs|
      invariant ed.Valid() && SameBase(old(ed.log), ed.log)
      invariant forall x :: x in ed.nodes && x !in old(ed.nodes) ==> fresh(x)
      invariant ed.act.ptr == old(ed.act.ptr) && Thinned(ed.act.list, old(ed.act.list))
      invariant !ok ==> StuckRun(run, cs, old(ed.lines), old(ed.currentAddr))
      invariant ok ==> |run| == i && Running(run, cs, old(ed.act.list), old(ed.lines), old(ed.currentAddr), ed.act.list, ed.lines, ed.currentAddr)
    {
      ok, run := ExecNext(ed, io, cs, i, run, old(ed.act.list), old(ed.lines), old(ed.currentAddr));
      i := i + 1;
    }
  }

  /** The commands done so far, and what they have done. */
  ghost predicate Running(run: seq<Did>, cs: seq<Relative>, list: seq<Line?>, L: seq<Line>, current: int,
                          list': seq<Line?>, L': seq<Line>, current': int)
  {
    RunOf(run, cs) && RunFrom(run, L, current, L', current') && list' == Unset(list, TakenBy(run))
  }

  lemma StartRun(cs: seq<Relative>, list: seq<Line?>, L: seq<Line>, current: int)
    ensures Running([], cs, list, L, current, list, L, current) && Thinned(list, list)
  {
    UnsetTwice(list, {}, {});
  }

  method ExecNext(ed: Editor, io: EdStreams.Io, cs: seq<Relative>, i: nat, ghost run: seq<Did>,
                  ghost list: seq<Line?>, ghost L: seq<Line>, ghost current: int)
    returns (ok: bool, ghost run': seq<Did>)
    requires ed.Valid() && ed.isGlobal && AllWellFormed(cs) && i < |cs| && |run| == i && Thinned(ed.act.list, list)
    requires Running(run, cs, list, L, current, ed.act.list, ed.lines, ed.currentAddr)
    modifies ed`cursor, ed`on, ed`currentAddr, ed`addrLast, ed`lines, ed`nodes, ed`ustack, ed`log, ed`modified,
             ed.nodes, ed.sf, ed.act, io
    ensures ed.Valid() && SameBase(old(ed.log), ed.log)
    ensures forall x :: x in ed.nodes && x !in old(ed.nodes) ==> fresh(x)
    ensures ed.act.ptr == old(ed.act.ptr) && Thinned(ed.act.list, list)
    ensures !ok ==> StuckRun(run', cs, L, current)
    ensures ok ==> |run'| == i + 1 && Running(run', cs, list, L, current, ed.act.list, ed.lines, ed.currentAddr)
  {
    hide Editor.PartsValid, Unset, Thinned, RunFrom, TakenBy, RunOf, Meant, Taken, StuckRun, Succeeds;
    var c := cs[i](ed.currentAddr, ed.addrLast);
    ghost var now, M, m := ed.act.list, ed.lines, ed.currentAddr;
    run' := run + [Did(c, M, m)];
    ok := Legal(c, ed.addrLast);
    if ok {
      ok := Perform(ed, io, c);
      ThinnedTrans(ed.act.list, now, list);
      if ok {
        RunningMore(run, cs, list, L, current, now, M, m, c, ed.act.list, ed.lines, ed.currentAddr);
      }
    }
    if !ok {
      RunningStuck(run, cs, list, L, current, now, M, m, c);
    }
  }

  lemma RunningStuck(run: seq<Did>, cs: seq<Relative>, list: seq<Line?>, L: seq<Line>, current: int,
                     now: seq<Line?>, M: seq<Line>, m: int, c: Edits)
    requires Running(run, cs, list, L, current, now, M, m) && |run| < |cs| && c == cs[|run|](m, |M| - 1)
    requires !CanDo(Did(c, M, m))
    ensures StuckRun(run + [Did(c, M, m)], cs, L, current)
  {
    hide Unset, TakenBy;
    RunStuck(run, cs, L, current, M, m, c);
  }

  lemma RunningMore(run: seq<Did>, cs: seq<Relative>, list: seq<Line?>, L: seq<Line>, current: int,
                    now: seq<Line?>, M: seq<Line>, m: int, c: Edits, list': seq<Line?>, L': seq<Line>, current': int)
    requires Running(run, cs, list, L, current, now, M, m) && |run| < |cs| && c == cs[|run|](m, |M| - 1)
    requires CanDo(Did(c, M, m)) && Meant(c, M, m, L', current') && list' == TakenOff(now, true, Taken(c, M))
    ensures Running(run + [Did(c, M, m)], cs, list, L, current, list', L', current')
  {
    hide Meant, Succeeds, Taken, RunFrom, TakenBy, RunOf, Unset;
    RunMore(run, cs, L, current, M, m, c, L', current');
    UnsetTwice(list, TakenBy(run), Taken(c, M));
  }

  /** The next line of a global command becomes the current line.  It is always found: no line that
      left the buffer is on the list. */
  method VisitNext(ed: Editor) returns (lp: Line?)
    requires ed.Valid() && ed.isGlobal
    modifies ed`currentAddr, ed.act`ptr
    ensures ed.Valid()
    ensures var p, q, list := old(ed.act.ptr), ed.act.ptr, ed.act.list;
      && p <= q <= |list|
      && if lp == null then q == |list| && NoneFrom(list, p, q)
         else p < q && list[q - 1] == lp && NoneFrom(list, p, q - 1)
    ensures if lp == null then ed.currentAddr == old(ed.currentAddr)
            else 1 <= ed.currentAddr <= ed.addrLast && ed.lines[ed.currentAddr] == lp
  {
    lp := ed.act.NextActiveNode();
    if lp != null {
      assert lp in ed.lines && lp != ed.head;
      var n := ed.GetLineNodeAddr(lp);
      ed.currentAddr := n;
    }
  }

  /** The global command: script holds the commands for the first line visited, the second, and so on.  When it
      runs to its end it has visited, in order, every line of the list that no command took off before its turn.
      The undo history starts with the buffer as it was before. */
  method ExecGlobal(ed: Editor, io: EdStreams.Io, script: nat -> seq<Relative>) returns (ok: bool, ghost turns: seq<Turn>)
    requires ed.Valid() && ed.isGlobal && ScriptOk(script)
    modifies ed`cursor, ed`on, ed`currentAddr, ed`addrLast, ed`lines, ed`nodes, ed`ustack, ed`log, ed`modified,
             ed`uCurrentAddr, ed`uAddrLast, ed`freed, ed.nodes, ed.sf, ed.act, ed.marks, io
    ensures ed.Valid() && (forall x :: x in ed.nodes && x !in old(ed.nodes) ==> fresh(x))
    ensures ed.log.states != [] && ed.log.states[0] == old(ed.lines) && ed.uCurrentAddr == old(ed.currentAddr)
    ensures Thinned(ed.act.list, old(ed.act.list))
    ensures ok ==> Turns(turns, old(ed.act.list), old(ed.lines), old(ed.currentAddr), old(ed.act.ptr), ed.act.list, ed.lines, ed.currentAddr)
    ensures !ok ==> StuckTurns(turns, script, old(ed.act.list), old(ed.lines), old(ed.currentAddr), old(ed.act.ptr))
    ensures ok ==> Follows(turns, script) && NoneFrom(ed.act.list, NextFrom(turns, old(ed.act.ptr)), |ed.act.list|)
  {
    ed.ClearUndoStack();
    ok, turns := VisitLines(ed, io, script);
  }

  method VisitLines(ed: Editor, io: EdStreams.Io, script: nat -> seq<Relative>) returns (ok: bool, ghost turns: seq<Turn>)
    requires ed.Valid() && ed.isGlobal && ScriptOk(script)
    modifies ed`cursor, ed`on, ed`currentAddr, ed`addrLast, ed`lines, ed`nodes, ed`ustack, ed`log, ed`modified,
             ed.nodes, ed.sf, ed.act, io
    ensures ed.Valid() && SameBase(old(ed.log), ed.log)
    ensures forall x :: x in ed.nodes && x !in old(ed.nodes) ==> fresh(x)
    ensures Thinned(ed.act.list, old(ed.act.list))
    ensures ok ==> Turns(turns, old(ed.act.list), old(ed.lines), old(ed.currentAddr), old(ed.act.ptr), ed.act.list, ed.lines, ed.currentAddr)
    ensures !ok ==> StuckTurns(turns, script, old(ed.act.list), old(ed.lines), old(ed.currentAddr), old(ed.act.ptr))
    ensures ok ==> Follows(turns, script) && NoneFrom(ed.act.list, NextFrom(turns, old(ed.act.ptr)), |ed.act.list|)
  {
    hide Editor.PartsValid, Unset, Thinned, Turns, Follows, StuckTurns;
    ghost var list, L, current, p := ed.act.list, ed.lines, ed.currentAddr, ed.act.ptr;
    var k := 0;
    ok, turns := true, [];
    StartTurns(script, list, L, current, p);
    while true
      invariant k == |turns| && ok
      invariant ed.Valid() && SameBase(old(ed.log), ed.log)
      invariant forall x :: x in ed.nodes && x !in old(ed.nodes) ==> fresh(x)
      invariant Thinned(ed.act.list, list) && |ed.act.list| == |list| && ed.act.ptr == NextFrom(turns, p)
      invariant Turns(turns, list, L, current, p, ed.act.list, ed.lines, ed.currentAddr) && Follows(turns, script)
      decreases |list| - ed.act.ptr
    {
      var lp;
      lp, ok, turns := VisitLine(ed, io, script, k, list, L, current, p, turns);
      if lp == null || !ok {
        return;
      }
      k := k + 1;
    }
  }

  lemma StartTurns(script: nat -> seq<Relative>, list: seq<Line?>, L: seq<Line>, current: int, p: nat)
    ensures Turns([], list, L, current, p, list, L, current) && Follows([], script) && Thinned(list, list)
  {
  }

  /** One turn of the global command's loop. */
  method VisitLine(ed: Editor, io: EdStreams.Io, script: nat -> seq<Relative>, k: nat, ghost list: seq<Line?>, ghost L: seq<Line>, ghost current: int, ghost p: nat,
                   ghost turns: seq<Turn>)
    returns (lp: Line?, ok: bool, ghost turns': seq<Turn>)
    requires ed.Valid() && ed.isGlobal && ScriptOk(script) && k == |turns|
    requires Thinned(ed.act.list, list) && ed.act.ptr == NextFrom(turns, p)
    requires Turns(turns, list, L, current, p, ed.act.list, ed.lines, ed.currentAddr) && Follows(turns, script)
    modifies ed`cursor, ed`on, ed`currentAddr, ed`addrLast, ed`lines, ed`nodes, ed`ustack, ed`log, ed`modified,
             ed.nodes, ed.sf, ed.act, io
    ensures ed.Valid() && SameBase(old(ed.log), ed.log)
    ensures forall x :: x in ed.nodes && x !in old(ed.nodes) ==> fresh(x)
    ensures Thinned(ed.act.list, list) && |ed.act.list| == |list|
    ensures ok ==> Turns(turns', list, L, current, p, ed.act.list, ed.lines, ed.currentAddr) && Follows(turns', script)
    ensures !ok ==> StuckTurns(turns', script, list, L, current, p)
    ensures lp == null ==> ok && turns' == turns && NoneFrom(ed.act.list, NextFrom(turns, p), |ed.act.list|)
    ensures ed.act.ptr <= |list|
    ensures lp != null && ok ==> |turns'| == k + 1 && ed.act.ptr == NextFrom(turns', p) && old(ed.act.ptr) < ed.act.ptr
  {
    hide Editor.PartsValid, Unset, Turns, Follows, RunFrom, RunOf, TakenBy, StuckRun, StuckTurns;
    ghost var now, M, m := ed.act.list, ed.lines, ed.currentAddr;
    assert |now| == |list| by {
      assert Thinned(now, list);
    }
    lp := VisitNext(ed);
    ok, turns' := true, turns;
    if lp != null {
      ghost var q, at := ed.act.ptr - 1, ed.currentAddr;
      ghost var run;
      assert AllWellFormed(script(k));
      ok, run := ExecList(ed, io, script(k));
      ThinnedTrans(ed.act.list, now, list);
      ghost var t := Turn(q, now, M, m, at, run);
      turns' := turns + [t];
      if ok {
        TurnsMore(turns, script, list, L, current, p, t, ed.act.list, ed.lines, ed.currentAddr);
      } else {
        TurnsStuck(turns, script, list, L, current, p, t);
      }
    }
  }

  /** A global command and u: whatever the commands were and whether or not they failed, every line is
      again where it was, with its links, and so are the current and the last address. */
  method GlobalThenUndo(ed: Editor, io: EdStreams.Io, script: nat -> seq<Relative>)
    requires ed.Valid() && ed.isGlobal && ScriptOk(script)
    modifies ed`cursor, ed`on, ed`currentAddr, ed`addrLast, ed`lines, ed`nodes, ed`ustack, ed`log, ed`modified,
             ed`uCurrentAddr, ed`uAddrLast, ed`freed, ed`isGlobal, ed.nodes, ed.sf, ed.act, ed.marks, io
    ensures ed.Valid() && !ed.isGlobal && (forall x :: x in ed.nodes && x !in old(ed.nodes) ==> fresh(x))
    ensures ed.lines == old(ed.lines) && ed.addrLast == old(ed.addrLast) && ed.currentAddr == old(ed.currentAddr)
    ensures forall x :: x in ed.lines ==> x.forw == old(x.forw) && x.back == old(x.back)
    ensures OwnTexts(NodeSet(ed.lines), old(ed.sf.data)) && OwnTexts(NodeSet(ed.lines), ed.sf.data)
  {
    hide Turns, StuckTurns, Follows, StuckRun, Thinned;
    var ok;
    ghost var turns;
    ok, turns := ExecGlobal(ed, io, script);
    ed.isGlobal := false;
    var status := ed.PopUndoStack();
    forall x | x in ed.lines ensures x.forw == old(x.forw) && x.back == old(x.back) {
      ghost var i :| 0 <= i < |ed.lines| && ed.lines[i] == x;
      assert LinkedAt(ed.lines, i) && old(LinkedAt(ed.lines, i));
    }
  }

  /** The same for one command. */
  method CommandThenUndo(ed: Editor, io: EdStreams.Io, c: Edits)
    requires ed.Valid() && !ed.isGlobal && Legal(c, ed.addrLast) && WellFormed(c)
    modifies ed`cursor, ed`on, ed`currentAddr, ed`addrLast, ed`lines, ed`nodes, ed`ustack, ed`log, ed`modified,
             ed`uCurrentAddr, ed`uAddrLast, ed`freed, ed.nodes, ed.sf, ed.act, ed.marks, io
    ensures ed.Valid() && (forall x :: x in ed.nodes && x !in old(ed.nodes) ==> fresh(x))
    ensures ed.lines == old(ed.lines) && ed.addrLast == old(ed.addrLast) && ed.currentAddr == old(ed.currentAddr)
    ensures forall x :: x in ed.lines ==> x.forw == old(x.forw) && x.back == old(x.back)
    ensures OwnTexts(NodeSet(ed.lines), old(ed.sf.data)) && OwnTexts(NodeSet(ed.lines), ed.sf.data)
  {
    var ok := ExecCommand(ed, io, c);
    var status := ed.PopUndoStack();
    forall x | x in ed.lines ensures x.forw == old(x.forw) && x.back == old(x.back) {
      ghost var i :| 0 <= i < |ed.lines| && ed.lines[i] == x;
      assert LinkedAt(ed.lines, i) && old(LinkedAt(ed.lines, i));
    }
  }

  /** u is its own inverse, in any state in which undo is enabled. */
  method UndoThenRedo(ed: Editor)
    requires ed.Valid() && ed.uCurrentAddr != -1
    modifies ed`cursor, ed`on, ed`currentAddr, ed`addrLast, ed`lines, ed`ustack, ed`log, ed`modified,
             ed`uCurrentAddr, ed`uAddrLast, ed.nodes, ed.act
    ensures ed.Valid()
    ensures ed.lines == old(ed.lines) && ed.addrLast == old(ed.addrLast) && ed.currentAddr == old(ed.currentAddr)
    ensures ed.uCurrentAddr == old(ed.uCurrentAddr) && ed.uAddrLast == old(ed.uAddrLast)
    ensures ed.log.states == old(ed.log.states) && ed.log.edits == old(ed.log.edits)
    ensures forall x :: x in ed.lines ==> x.forw == old(x.forw) && x.back == old(x.back)
  {
    ReverseLogTwice(ed.log);
    var status := ed.PopUndoStack();
    status := ed.PopUndoStack();
    forall x | x in ed.lines ensures x.forw == old(x.forw) && x.back == old(x.back) {
      ghost var i :| 0 <= i < |ed.lines| && ed.lines[i] == x;
      assert LinkedAt(ed.lines, i) && old(LinkedAt(ed.lines, i));
    }
  }
}
