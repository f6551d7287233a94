/** The editor buffer: the line queue with its cursor, the edits, and undo. */
module EdBuffer {
  import opened Basics
  import opened EdRing
  import opened EdHistory
  import opened EdUndo
  import opened EdLog
  import opened EdActive
  import opened EdMarks
  import opened EdScratch

  const ERR: int := -2

  class Editor {
    const head: Line
    const sf: ScratchFile
    const act: ActiveList
    const marks: Marks
    var cursor: Line        // the node get_addressed_line_node returned last
    var on: int             // and its address
    var currentAddr: int
    var addrLast: int
    var ustack: seq<Undo>
    var uCurrentAddr: int
    var uAddrLast: int
    var modified: bool
    var isGlobal: bool
    ghost var lines: seq<Line>  // the queue, from the head on
    ghost var log: Log          // what happened since the undo stack was cleared
    ghost var nodes: set<Line>  // the allocated nodes: linked, or detached by a deletion that can be undone
    ghost var freed: set<Line>

    /** The queue, the addresses and the cursor belong together. */
    ghost predicate RingValid()
      reads `lines, `nodes, `addrLast, `currentAddr, `on, `cursor, nodes
    {
      && RingIn(lines, nodes)
      && AddressesFit(lines, head, addrLast, currentAddr, on, cursor)
    }

    ghost predicate LogValid()
      reads `log, `nodes, `uCurrentAddr, `uAddrLast, `ustack, nodes
    {
      HistoryValid() && ustack == Flatten(log.recs)
    }

    ghost predicate HistoryValid()
      reads `log, `nodes, `uCurrentAddr, `uAddrLast, nodes
    {
      && LogFits(log, head, uCurrentAddr, uAddrLast)
      && AllIn(log.states, nodes)
      && AllDetached(log, nodes)
    }

    ghost predicate PartsValid()
      reads `lines, `nodes, `freed, `isGlobal, sf, act, marks
    {
      TextsValid() && act.Valid() && (isGlobal ==> PendingIn(act.list, act.ptr, lines, head))
    }

    ghost predicate TextsValid()
      reads `nodes, `freed, sf, marks
    {
      && sf.Valid() && marks.Valid()
      && OwnTexts(nodes, sf.data) && '\n' !in sf.data
      && MarksIn(marks.mark, nodes)
      && freed !! nodes
    }

    ghost predicate Valid()
      reads this, nodes, sf, act, marks
    {
      && RingValid() && LogValid() && PartsValid()
      && log.states[|log.edits|] == lines
      && NoneElse(log.states, nodes, {})
    }

    constructor ()
      ensures Valid() && lines == [head] && currentAddr == 0 && !isGlobal
      ensures uCurrentAddr == -1 && log == Log([[head]], [], [])
      ensures fresh(sf) && fresh(act) && fresh(marks) && fresh(nodes)
    {
      var h := new Line(0, 0, "");
      head := h;
      sf := new ScratchFile();
      act := new ActiveList();
      marks := new Marks();
      cursor, on, currentAddr, addrLast := h, 0, 0, 0;
      ustack, uCurrentAddr, uAddrLast := [], -1, -1;
      modified, isGlobal := false, false;
      lines, log, nodes, freed := [h], Log([[h]], [], []), {h}, {};
      new;
      assert LinkedAt(lines, 0);
    }

    /** The n-th node, found from the nearest of the cursor and the two ends of the buffer;
        past the end, the last one. */
    method GetAddressedLineNode(n: int) returns (lp: Line)
      requires RingValid() && 0 <= n
      modifies `cursor, `on
      ensures RingValid()
      ensures on == (if n <= addrLast then n else addrLast) && lp == lines[on]
    {
      if n > on {
        if n <= (on + addrLast) / 2 {
          while on < n
            invariant 0 <= on <= n && cursor == lines[on]
          {
            assert LinkedAt(lines, on);
            cursor, on := cursor.forw, on + 1;
          }
        } else {
          assert LinkedAt(lines, 0);
          cursor, on := head.back, addrLast;
          while on > n
            invariant 0 <= on <= addrLast && cursor == lines[on] && (on < n ==> on == addrLast)
          {
            assert LinkedAt(lines, on);
            cursor, on := cursor.back, on - 1;
          }
        }
      } else if n >= on / 2 {
        while on > n
          invariant n <= on <= addrLast && cursor == lines[on]
        {
          assert LinkedAt(lines, on);
          cursor, on := cursor.back, on - 1;
        }
      } else {
        cursor, on := head, 0;
        while on < n
          invariant 0 <= on <= n && cursor == lines[on]
        {
          assert LinkedAt(lines, on);
          cursor, on := cursor.forw, on + 1;
        }
      }
      lp := cursor;
    }

    /** The address of a node.  For a node that is not in the buffer the answer is an error,
        except that an empty buffer answers 0. */
    method GetLineNodeAddr(lp: Line?) returns (n: int)
      requires RingValid()
      ensures if exists i :: 0 <= i < |lines| && lines[i] == lp then 0 <= n <= addrLast && lines[n] == lp
              else n == if addrLast == 0 then 0 else ERR
    {
      var cp := head;
      n := 0;
      while true
        invariant 0 <= n <= addrLast && cp == lines[n]
        invariant forall i :: 0 <= i < n ==> lines[i] != lp
        decreases addrLast - n
      {
        if cp == lp {
          break;
        }
        assert LinkedAt(lines, n);
        cp := cp.forw;
        if cp == head {
          assert OnlyAt(lines, 0);
          assert n == addrLast;
          break;
        }
        n := n + 1;
      }
      if n != 0 && cp == head {
        n := ERR;
      }
    }

    method PushUndoStack(kind: UndoType, from: int, to: int)
      requires RingValid() && 0 <= from <= addrLast && 0 <= to <= addrLast
      modifies `cursor, `on, `ustack
      ensures RingValid()
      ensures ustack == old(ustack) + [Undo(kind, lines[from], lines[to])]
    {
      var t := GetAddressedLineNode(to);
      var h := GetAddressedLineNode(from);
      ustack := ustack + [Undo(kind, h, t)];
    }

    /** A node has just been linked in as the current line, and is not in the log yet. */
    ghost predicate AddPending()
      reads this, nodes, sf, act, marks
    {
      && RingValid() && LogValid() && PartsValid()
      && 0 < currentAddr <= |log.states[|log.edits|]|
      && lines == Insert(log.states[|log.edits|], currentAddr, lines[currentAddr])
      && !InSome(log.states, lines[currentAddr])
      && NoneElse(log.states, nodes, {lines[currentAddr]})
    }

    /** INSQUE, which writes to no detached node. */
    method LinkLine(lp: Line, cp: Line)
      requires RingValid() && LogValid() && log.states[|log.edits|] == lines
      requires lp !in nodes && cp == lines[currentAddr]
      modifies nodes, lp
      ensures Ring(Insert(lines, currentAddr + 1, lp))
      ensures AllDetached(log, nodes)
    {
      Insque(lp, cp, lines, currentAddr);
      forall a | 0 <= a < |log.edits| && log.edits[a].Del? ensures Detached(log, a) {
        assert LogStep(log, a) && old(Detached(log, a));
        ghost var e, L := log.edits[a], log.states[a];
        forall i | e.p <= i < e.p + e.n ensures LinkedAt(L, i) {
          DeletedStaysOut(log, a, i, |log.edits|);
          assert old(LinkedAt(L, i));
        }
      }
    }

    /** Links lp in after the current line, and makes it the current line. */
    method AddLineNode(lp: Line)
      requires Valid() && lp !in nodes && lp !in freed && OwnText(sf.data, lp)
      modifies `cursor, `on, `currentAddr, `addrLast, `lines, `nodes, nodes, lp
      ensures AddPending()
      ensures currentAddr == old(currentAddr) + 1 <= |old(lines)| && lines == Insert(old(lines), currentAddr, lp)
      ensures nodes == old(nodes) + {lp}
    {
      var cp := GetAddressedLineNode(currentAddr);
      LinkLine(lp, cp);
      CountLine(lp);
    }

    /** The addresses after a line has been linked in. */
    method CountLine(ghost lp: Line)
      requires AddressesFit(lines, head, addrLast, currentAddr, on, cursor) && on == currentAddr
      requires RingIn(Insert(lines, currentAddr + 1, lp), nodes + {lp})
      requires LogValid() && PartsValid()
      requires log.states[|log.edits|] == lines && NoneElse(log.states, nodes, {})
      requires lp !in nodes && lp !in freed && OwnText(sf.data, lp)
      modifies `currentAddr, `addrLast, `lines, `nodes
      ensures AddPending()
      ensures currentAddr == old(currentAddr) + 1 && lines == Insert(old(lines), currentAddr, lp)
      ensures nodes == old(nodes) + {lp}
    {
      OneMore(log.states, nodes, act.list, act.ptr, lines, head, currentAddr + 1, lp);
      addrLast, currentAddr := addrLast + 1, currentAddr + 1;
      lines := Insert(lines, currentAddr, lp);
      EnterNode(lp);
    }

    /** The current line, just linked in, is one of the nodes from now on. */
    ghost method EnterNode(lp: Line)
      requires RingIn(lines, nodes + {lp}) && AddressesFit(lines, head, addrLast, currentAddr, on, cursor)
      requires LogValid() && PartsValid() && 0 < currentAddr && lp == lines[currentAddr]
      requires AllIn(log.states, nodes + {lp}) && NoneElse(log.states, nodes + {lp}, {lp}) && !InSome(log.states, lp)
      requires currentAddr <= |log.states[|log.edits|]| && lines == Insert(log.states[|log.edits|], currentAddr, lp)
      requires lp !in freed && OwnText(sf.data, lp)
      modifies `nodes
      ensures AddPending() && nodes == old(nodes) + {lp}
    {
      TextsMore(nodes, sf.data, marks.mark, freed, lp);
      nodes := nodes + {lp};
    }

    /** The current line, just linked in, starts a new addition. */
    method PushAddition()
      requires AddPending()
      modifies `cursor, `on, `ustack, `log
      ensures Valid()
      ensures log == Extend(old(log), Add(currentAddr, 1), lines, [Undo(UADD, lines[currentAddr], lines[currentAddr])])
    {
      PushUndoStack(UADD, currentAddr, currentAddr);
      ghost var x := lines[currentAddr];
      ghost var rs := [Undo(UADD, x, x)];
      ghost var L := log.states[|log.edits|];
      assert Cut(Insert(L, currentAddr, x), currentAddr, 1) == L;
      ExtendLog(log, head, uCurrentAddr, uAddrLast, nodes, Add(currentAddr, 1), L, lines, rs);
      ExtendSome(log.states, lines, nodes, {x});
      log := Extend(log, Add(currentAddr, 1), lines, rs);
    }

    /** The current line, just linked in, goes on with the last addition: up->t becomes t. */
    method GrowAddition(t: Line)
      requires AddPending() && t == lines[currentAddr]
      requires |log.edits| > 0 && log.edits[|log.edits| - 1].Add?
      requires var e := log.edits[|log.edits| - 1]; e.p + e.n == currentAddr
      modifies `ustack, `log
      ensures Valid()
      ensures log == Grow(old(log), t)
    {
      GrowLog(log, head, uCurrentAddr, uAddrLast, nodes, t);
      GrowSome(log, nodes, t);
      var top := |ustack| - 1;
      ustack := ustack[top := ustack[top].(t := t)];
      assert LogStep(log, |log.edits| - 1);
      log := Grow(log, t);
    }

    /** Takes the lines from np up to, but not including, mp off the list of a global command. */
    method UnsetActiveNodes(np: Line, mp: Line, ghost from: int, ghost n: int)
      requires RingValid() && act.Valid()
      requires 1 <= from < from + n <= |lines|
      requires np == lines[from] && mp == lines[IncMod(from + n - 1, addrLast)]
      modifies act
      ensures act.Valid() && act.ptr == old(act.ptr)
      ensures act.list == Unset(old(act.list), NodeSet(lines[from..from + n]))
      ensures act.Pending() == Without(old(act.Pending()), NodeSet(lines[from..from + n]))
    {
      var lp := np;
      ghost var i := 0;
      UnsetTwice(act.list, {}, {});
      assert OnlyAt(lines, IncMod(from + n - 1, addrLast));
      while lp != mp
        invariant 0 <= i <= n && lp == lines[IncMod(from + i - 1, addrLast)]
        invariant act.Valid() && act.ptr == old(act.ptr)
        invariant act.list == Unset(old(act.list), NodeSet(lines[from..from + i]))
        decreases n - i
      {
        assert LinkedAt(lines, from + i);
        UnsetTwice(old(act.list), NodeSet(lines[from..from + i]), {lp});
        assert lines[from..from + i + 1] == lines[from..from + i] + [lp];
        act.UnsetActiveNode(lp);
        lp := lp.forw;
        i := i + 1;
      }
      ghost var S := NodeSet(lines[from..from + n]);
      assert Unset(old(act.list), S)[act.ptr..] == Unset(old(act.list)[act.ptr..], S);
      ListedUnset(old(act.list)[act.ptr..], S);
    }

    /** REQUE around the n lines from address from on, which writes to no node detached before. */
    method UnlinkLines(p: Line, succ: Line, ghost from: int, ghost n: int)
      requires RingIn(lines, nodes) && HistoryValid() && log.states[|log.edits|] == lines
      requires 1 <= from < from + n <= |lines|
      requires p == lines[from - 1] && succ == lines[IncMod(from + n - 1, |lines| - 1)]
      modifies nodes
      ensures RingIn(Cut(lines, from, n), nodes) && SegmentLinked(lines, from, n)
      ensures AllDetached(log, nodes)
    {
      UnlinkSegment(p, succ, lines, from, n);
      forall a | 0 <= a < |log.edits| && log.edits[a].Del? ensures Detached(log, a) {
        assert LogStep(log, a) && old(Detached(log, a));
        ghost var e, L := log.edits[a], log.states[a];
        forall i | e.p <= i < e.p + e.n ensures LinkedAt(L, i) {
          DeletedStaysOut(log, a, i, |log.edits|);
          assert old(LinkedAt(L, i));
        }
      }
    }

    /** The addresses and the log after the lines have been unlinked. */
    method CountDeleted(from: int, to: int)
      requires 1 <= from <= to <= addrLast
      requires AddressesFit(lines, head, addrLast, currentAddr, on, cursor) && on == from - 1
      requires HistoryValid()
      requires log.states[|log.edits|] == lines && Distinct(lines) && NoneElse(log.states, nodes, {})
      requires RingIn(Cut(lines, from, to - from + 1), nodes) && SegmentLinked(lines, from, to - from + 1)
      requires ustack == Flatten(log.recs) + [Undo(UDEL, lines[from], lines[to])]
      modifies `addrLast, `currentAddr, `modified, `lines, `log
      ensures RingValid() && LogValid()
      ensures log.states[|log.edits|] == lines && NoneElse(log.states, nodes, {})
      ensures lines == Cut(old(lines), from, to - from + 1) && currentAddr == from - 1 && modified
      ensures log == Extend(old(log), Del(from, to - from + 1), lines, [Undo(UDEL, old(lines)[from], old(lines)[to])])
    {
      ghost var n := to - from + 1;
      ghost var rs := [Undo(UDEL, lines[from], lines[to])];
      ghost var L' := Cut(lines, from, n);
      ExtendLog(log, head, uCurrentAddr, uAddrLast, nodes, Del(from, n), lines, L', rs);
      ExtendSome(log.states, L', nodes, {});
      log := Extend(log, Del(from, n), L', rs);
      lines := L';
      addrLast := addrLast - (to - from + 1);
      currentAddr := from - 1;
      modified := true;
    }

    /** The part of delete_lines that changes no link. */
    method FindDeleted(from: int, to: int) returns (p: Line, n: Line)
      requires RingValid() && act.Valid() && (isGlobal ==> PendingIn(act.list, act.ptr, lines, head))
      requires 1 <= from <= to <= addrLast
      modifies `cursor, `on, `ustack, act
      ensures RingValid() && on == from - 1
      ensures p == lines[from - 1] && n == lines[IncMod(to, addrLast)]
      ensures ustack == old(ustack) + [Undo(UDEL, lines[from], lines[to])]
      ensures act.Valid() && (isGlobal ==> PendingIn(act.list, act.ptr, Cut(lines, from, to - from + 1), head))
      ensures act.ptr == old(act.ptr)
      ensures act.list == if isGlobal then Unset(old(act.list), NodeSet(lines[from..to + 1])) else old(act.list)
    {
      PushUndoStack(UDEL, from, to);
      n := GetAddressedLineNode(IncMod(to, addrLast));
      p := GetAddressedLineNode(from - 1);  // last, so that the cursor is at a line that stays
      if isGlobal {
        UnsetDeleted(p, n, from, to);
      }
    }

    method UnsetDeleted(p: Line, n: Line, ghost from: int, ghost to: int)
      requires RingValid() && act.Valid() && PendingIn(act.list, act.ptr, lines, head)
      requires 1 <= from <= to <= addrLast && p == lines[from - 1] && n == lines[IncMod(to, addrLast)]
      modifies act
      ensures act.Valid() && PendingIn(act.list, act.ptr, Cut(lines, from, to - from + 1), head) && act.ptr == old(act.ptr)
      ensures act.list == Unset(old(act.list), NodeSet(lines[from..to + 1]))
    {
      assert LinkedAt(lines, from - 1);
      UnsetActiveNodes(p.forw, n, from, to - from + 1);
      PendingCut(old(act.list), act.ptr, lines, head, from, to - from + 1);
    }

    method DeleteLines(from: int, to: int)
      requires Valid() && 1 <= from <= to <= addrLast
      modifies `cursor, `on, `ustack, `addrLast, `currentAddr, `modified, `lines, `log, nodes, act
      ensures Valid()
      ensures lines == Cut(old(lines), from, to - from + 1)
      ensures currentAddr == from - 1 && modified
      ensures log == Extend(old(log), Del(from, to - from + 1), lines, [Undo(UDEL, old(lines)[from], old(lines)[to])])
      ensures act.ptr == old(act.ptr)
      ensures act.list == if isGlobal then Unset(old(act.list), NodeSet(old(lines)[from..to + 1])) else old(act.list)
    {
      var p, n := FindDeleted(from, to);
      CutOut(p, n, from, to);
    }

    /** The part of delete_lines after the nodes around the range have been found. */
    method CutOut(p: Line, n: Line, from: int, to: int)
      requires RingValid() && 1 <= from <= to <= addrLast && on == from - 1
      requires p == lines[from - 1] && n == lines[IncMod(to, addrLast)]
      requires HistoryValid()
      requires log.states[|log.edits|] == lines && NoneElse(log.states, nodes, {})
      requires ustack == Flatten(log.recs) + [Undo(UDEL, lines[from], lines[to])]
      requires TextsValid() && act.Valid() && (isGlobal ==> PendingIn(act.list, act.ptr, Cut(lines, from, to - from + 1), head))
      modifies `addrLast, `currentAddr, `modified, `lines, `log, nodes
      ensures Valid()
      ensures lines == Cut(old(lines), from, to - from + 1) && currentAddr == from - 1 && modified
      ensures log == Extend(old(log), Del(from, to - from + 1), lines, [Undo(UDEL, old(lines)[from], old(lines)[to])])
    {
      UnlinkLines(p, n, from, to - from + 1);
      CountDeleted(from, to);
    }

    /** Two blocks of the queue change places, which writes to no detached node. */
    method SwapLines(b1: Line, a1: Line, b2: Line, a2: Line, ghost i: int, ghost j: int, ghost k: int, ghost down: bool)
      requires RingIn(lines, nodes) && HistoryValid() && log.states[|log.edits|] == lines
      requires 1 <= i < j < k <= |lines|
      requires (b1, a1) == SourceBorder(lines, i, j, k, down)
      requires (b2, a2) == TargetBorder(lines, i, j, k, down)
      modifies nodes
      ensures RingIn(Swap(lines, i, j, k), nodes)
      ensures AllDetached(log, nodes)
    {
      Transplant(b1, a1, b2, a2, lines, i, j, k, down);
      SwapMembers(lines, i, j, k);
      forall a | 0 <= a < |log.edits| && log.edits[a].Del? ensures Detached(log, a) {
        assert LogStep(log, a) && old(Detached(log, a));
        ghost var e, L := log.edits[a], log.states[a];
        forall i | e.p <= i < e.p + e.n ensures LinkedAt(L, i) {
          DeletedStaysOut(log, a, i, |log.edits|);
          assert old(LinkedAt(L, i));
        }
      }
    }

    /** The log after the move. */
    method CountMoved(to: int, ghost i: int, ghost j: int, ghost k: int, ghost down: bool, ghost rs: seq<Undo>)
      requires 1 <= i < j < k <= |lines| && 0 <= to <= addrLast
      requires AddressesFit(lines, head, addrLast, currentAddr, on, cursor) && on == i - 1
      requires HistoryValid()
      requires log.states[|log.edits|] == lines && NoneElse(log.states, nodes, {})
      requires RingIn(Swap(lines, i, j, k), nodes)
      requires ustack == Flatten(log.recs) + rs
      requires IsRecord(rs, Mov(i, j, k, down), lines, Swap(lines, i, j, k))
      modifies `currentAddr, `lines, `log
      ensures RingValid() && LogValid()
      ensures log.states[|log.edits|] == lines && NoneElse(log.states, nodes, {})
      ensures lines == Swap(old(lines), i, j, k) && currentAddr == to
      ensures log == Extend(old(log), Mov(i, j, k, down), lines, rs)
    {
      ghost var L' := Swap(lines, i, j, k);
      SwapMembers(lines, i, j, k);
      ExtendLog(log, head, uCurrentAddr, uAddrLast, nodes, Mov(i, j, k, down), lines, L', rs);
      ExtendSome(log.states, L', nodes, {});
      log := Extend(log, Mov(i, j, k, down), L', rs);
      lines := L';
      currentAddr := to;
    }

    /** The part of move_lines that pushes the undo records and finds the nodes around both places. */
    method FindMoved(first: int, second: int, addr: int) returns (b1: Line, a1: Line, b2: Line, a2: Line)
      requires RingValid() && Movable(first, second, addr, addrLast)
      requires addr != first - 1 && addr != second
      modifies `cursor, `on, `ustack
      ensures RingValid() && on == if addr < first then addr else first - 1
      ensures b1 == lines[first - 1] && a1 == lines[IncMod(second, addrLast)]
      ensures b2 == lines[addr] && a2 == lines[IncMod(addr, addrLast)]
      ensures ustack == old(ustack) + [Undo(UMOV, b1, a1), Undo(UMOV, b2, a2)]
    {
      var n, p := IncMod(second, addrLast), first - 1;
      PushUndoStack(UMOV, p, n);
      PushUndoStack(UMOV, addr, IncMod(addr, addrLast));
      a1 := GetAddressedLineNode(n);
      if addr < first {
        b1 := GetAddressedLineNode(p);
        b2 := GetAddressedLineNode(addr);
      } else {
        b2 := GetAddressedLineNode(addr);
        b1 := GetAddressedLineNode(p);
      }
      assert LinkedAt(lines, addr);
      a2 := b2.forw;
    }

    /** The part of move_lines that relinks. */
    method Relocate(first: int, second: int, addr: int) returns (b2: Line, a2: Line)
      requires RingValid() && LogValid() && log.states[|log.edits|] == lines && NoneElse(log.states, nodes, {})
      requires Movable(first, second, addr, addrLast) && addr != first - 1 && addr != second
      modifies `cursor, `on, `ustack, `currentAddr, `lines, `log, nodes
      ensures RingValid() && LogValid() && log.states[|log.edits|] == lines && NoneElse(log.states, nodes, {})
      ensures lines == Moved(old(lines), first, second, addr)
      ensures currentAddr == MovedTo(first, second, addr)
      ensures b2 == old(lines)[addr] && a2 == old(lines)[IncMod(addr, addrLast)]
      ensures log.states == old(log.states) + [lines]
    {
      var b1, a1;
      b1, a1, b2, a2 := FindMoved(first, second, addr);
      ghost var down := addr >= first;
      ghost var i, j, k := if down then first else addr + 1, if down then second + 1 else first,
                           if down then addr + 1 else second + 1;
      ghost var rs := [Undo(UMOV, b1, a1), Undo(UMOV, b2, a2)];
      SwapLines(b1, a1, b2, a2, i, j, k, down);
      CountMoved(addr + (if addr < first then second - first + 1 else 0), i, j, k, down, rs);
    }

    /** The range is where it is to go. */
    method StayPut(first: int, second: int, ghost addr: int) returns (b2: Line, a2: Line)
      requires RingValid() && Movable(first, second, addr, addrLast) && (addr == first - 1 || addr == second)
      modifies `cursor, `on, `currentAddr
      ensures RingValid() && lines == Moved(lines, first, second, addr)
      ensures currentAddr == MovedTo(first, second, addr)
      ensures b2 == lines[first - 1] && a2 == lines[IncMod(second, addrLast)]
    {
      MovedNowhere(lines, first, second, addr);
      a2 := GetAddressedLineNode(IncMod(second, addrLast));
      b2 := GetAddressedLineNode(first - 1);
      currentAddr := second;
    }

    /** All of move_lines but the upkeep of the list of a global command. */
    method Place(first: int, second: int, addr: int) returns (b2: Line, a2: Line)
      requires RingValid() && LogValid() && log.states[|log.edits|] == lines && NoneElse(log.states, nodes, {})
      requires Movable(first, second, addr, addrLast)
      modifies `cursor, `on, `ustack, `currentAddr, `lines, `log, nodes
      ensures RingValid() && LogValid() && log.states[|log.edits|] == lines && NoneElse(log.states, nodes, {})
      ensures lines == Moved(old(lines), first, second, addr)
      ensures currentAddr == MovedTo(first, second, addr)
      ensures b2 == old(lines)[if addr == second then first - 1 else addr]
      ensures a2 == old(lines)[IncMod(if addr == first - 1 then second else addr, addrLast)]
      ensures log.states == old(log.states) || log.states == old(log.states) + [lines]
    {
      if addr == first - 1 || addr == second {
        b2, a2 := StayPut(first, second, addr);
      } else {
        b2, a2 := Relocate(first, second, addr);
      }
    }

    /** Takes the lines that were moved off the list of a global command. */
    method UnsetMoved(b2: Line, a2: Line, ghost L: seq<Line>, first: int, second: int, addr: int)
      requires RingValid() && act.Valid() && (isGlobal ==> PendingIn(act.list, act.ptr, L, head))
      requires Movable(first, second, addr, |L| - 1) && lines == Moved(L, first, second, addr)
      requires b2 == L[if addr == second then first - 1 else addr]
      requires a2 == L[IncMod(if addr == first - 1 then second else addr, |L| - 1)]
      modifies act
      ensures act.Valid() && (isGlobal ==> PendingIn(act.list, act.ptr, lines, head))
      ensures act.ptr == old(act.ptr)
      ensures act.list == if isGlobal then Unset(old(act.list), NodeSet(L[first..second + 1])) else old(act.list)
    {
      if isGlobal {
        MovedPlace(L, first, second, addr);
        MovedMembers(act.list, act.ptr, L, head, first, second, addr, NodeSet(L[first..second + 1]));
        UnsetFollowing(b2, a2, MovedTo(first, second, addr), second - first + 1, NodeSet(L[first..second + 1]));
      }
    }

    /** Takes the n lines after b2 off the list of a global command. */
    method UnsetFollowing(b2: Line, a2: Line, ghost to: int, ghost n: int, ghost S: set<Line>)
      requires RingValid() && act.Valid() && 0 <= to - n < to < |lines| && S == NodeSet(lines[to - n + 1..to - n + 1 + n])
      requires b2 == lines[to - n] && a2 == lines[IncMod(to, |lines| - 1)]
      modifies act
      ensures act.Valid() && act.ptr == old(act.ptr)
      ensures act.list == Unset(old(act.list), S) && act.Pending() == Without(old(act.Pending()), S)
    {
      assert LinkedAt(lines, to - n);
      UnsetActiveNodes(b2.forw, a2, to - n + 1, n);
    }

    method FinishMove(b2: Line, a2: Line, ghost L: seq<Line>, first: int, second: int, addr: int)
      requires RingValid() && LogValid() && log.states[|log.edits|] == lines && NoneElse(log.states, nodes, {})
      requires TextsValid() && act.Valid() && (isGlobal ==> PendingIn(act.list, act.ptr, L, head))
      requires Movable(first, second, addr, |L| - 1) && lines == Moved(L, first, second, addr)
      requires b2 == L[if addr == second then first - 1 else addr]
      requires a2 == L[IncMod(if addr == first - 1 then second else addr, |L| - 1)]
      modifies act, `modified
      ensures modified && Valid()
      ensures act.ptr == old(act.ptr)
      ensures act.list == if isGlobal then Unset(old(act.list), NodeSet(L[first..second + 1])) else old(act.list)
    {
      UnsetMoved(b2, a2, L, first, second, addr);
      modified := true;
    }

    method MoveLines(first: int, second: int, addr: int)
      requires Valid() && Movable(first, second, addr, addrLast)
      modifies `cursor, `on, `ustack, `currentAddr, `modified, `lines, `log, nodes, act
      ensures Valid() && modified
      ensures lines == Moved(old(lines), first, second, addr)
      ensures currentAddr == MovedTo(first, second, addr)
      ensures log.states == old(log.states) || log.states == old(log.states) + [lines]
      ensures act.ptr == old(act.ptr)
      ensures act.list == if isGlobal then Unset(old(act.list), NodeSet(old(lines)[first..second + 1])) else old(act.list)
    {
      var b2, a2 := Place(first, second, addr);
      FinishMove(b2, a2, old(lines), first, second, addr);
    }

    /** The part of pop_undo_stack that relinks and turns the stack round. */
    method TakeBack()
      requires RingIn(lines, nodes) && LogValid()
      requires log.states[|log.edits|] == lines && NoneElse(log.states, nodes, {})
      requires 0 <= currentAddr < |lines|
      modifies `ustack, `lines, `log, nodes
      ensures RingIn(lines, nodes) && log == ReverseLog(old(log)) && lines == old(log.states[0])
      ensures LogFits(log, head, currentAddr, |old(lines)| - 1)
      ensures AllIn(log.states, nodes) && AllDetached(log, nodes) && NoneElse(log.states, nodes, {})
      ensures ustack == Flatten(log.recs)
    {
      var flipped := PopRecords(ustack, log, nodes);
      var reversed := ReverseStack(flipped);
      PoppedStack(log);
      TurnLog(reversed);
    }

    /** The history now runs backwards. */
    method TurnLog(reversed: seq<Undo>)
      requires LogFits(log, head, uCurrentAddr, uAddrLast) && AllIn(log.states, nodes) && NoneElse(log.states, nodes, {})
      requires LinksAt(log, 0, nodes) && log.states[|log.edits|] == lines && 0 <= currentAddr < |lines|
      modifies `ustack, `lines, `log
      ensures LinksAt(old(log), 0, nodes) && log == ReverseLog(old(log)) && lines == old(log.states[0]) && ustack == reversed
      ensures LogFits(log, head, currentAddr, |old(lines)| - 1)
      ensures AllIn(log.states, nodes) && AllDetached(log, nodes) && NoneElse(log.states, nodes, {})
    {
      PoppedLog(log, head, uCurrentAddr, uAddrLast, currentAddr, nodes);
      ustack, lines, log := reversed, log.states[0], ReverseLog(log);
    }

    /** The part of pop_undo_stack after the check that undo is enabled, but for the global list. */
    method UndoAll()
      requires RingValid() && LogValid() && uCurrentAddr != -1
      requires log.states[|log.edits|] == lines && NoneElse(log.states, nodes, {})
      modifies `cursor, `on, `ustack, `currentAddr, `addrLast, `uCurrentAddr, `uAddrLast, `lines, `log, nodes
      ensures RingValid() && LogValid()
      ensures log.states[|log.edits|] == lines && NoneElse(log.states, nodes, {})
      ensures log == ReverseLog(old(log)) && lines == old(log.states[0])
      ensures currentAddr == old(uCurrentAddr) && uCurrentAddr == old(currentAddr)
      ensures addrLast == old(uAddrLast) && uAddrLast == old(addrLast)
    {
      var oCurrentAddr, oAddrLast := currentAddr, addrLast;
      var first := GetAddressedLineNode(0);
      TakeBack();
      SwapAddresses(oCurrentAddr, oAddrLast);
    }

    /** Takes back everything since the undo stack was cleared, so that the next pop brings it again. */
    method PopUndoStack() returns (status: int)
      requires Valid()
      modifies `cursor, `on, `ustack, `currentAddr, `addrLast, `uCurrentAddr, `uAddrLast, `modified, `lines, `log, nodes, act
      ensures Valid()
      ensures status == (if old(uCurrentAddr) == -1 then ERR else 0)
      ensures modified == (old(modified) || (status == 0 && old(ustack) != []))
      ensures status == ERR ==> log == old(log) && lines == old(lines) && currentAddr == old(currentAddr)
      ensures status == 0 ==>
        && log == ReverseLog(old(log)) && lines == old(log.states[0])
        && currentAddr == old(uCurrentAddr) && uCurrentAddr == old(currentAddr)
        && addrLast == old(uAddrLast) && uAddrLast == old(addrLast)
    {
      if uCurrentAddr == -1 || uAddrLast == -1 {
        return ERR;
      }
      modified := modified || |ustack| > 0;
      UndoAll();
      ForgetPending();
      status := 0;
    }

    /** No line is left for a global command to visit. */
    method ForgetPending()
      requires RingValid() && LogValid() && log.states[|log.edits|] == lines && NoneElse(log.states, nodes, {})
      requires TextsValid() && act.Valid()
      modifies act
      ensures Valid()
    {
      if isGlobal {
        act.Clear();
      }
    }

    method SwapAddresses(oCurrentAddr: int, oAddrLast: int)
      modifies `currentAddr, `uCurrentAddr, `addrLast, `uAddrLast
      ensures currentAddr == old(uCurrentAddr) && uCurrentAddr == oCurrentAddr
      ensures addrLast == old(uAddrLast) && uAddrLast == oAddrLast
    {
      currentAddr, uCurrentAddr := uCurrentAddr, oCurrentAddr;
      addrLast, uAddrLast := uAddrLast, oAddrLast;
    }

    /** free: only for a node that is detached and was not freed before. */
    method Free(lp: Line)
      requires lp in nodes && lp !in lines && lp !in freed
      modifies `freed
      ensures freed == old(freed) + {lp}
    {
      freed := freed + {lp};
    }

    /** Frees the detached segment h..t; its links still lead from h to t. */
    method FreeSegment(h: Line, t: Line, ghost L: seq<Line>, ghost p: int, ghost n: int)
      requires 1 <= p < p + n <= |L| && Distinct(L) && SegmentLinked(L, p, n)
      requires h == L[p] && t == L[p + n - 1]
      requires forall x :: x in L[p..p + n] ==> x in nodes && x !in lines && x !in freed
      requires marks.Valid()
      modifies `freed, marks
      ensures marks.Valid() && freed == old(freed) + NodeSet(L[p..p + n])
      ensures marks.mark == Unset(old(marks.mark), NodeSet(L[p..p + n]))
    {
      assert LinkedAt(L, p + n - 1);
      var ep := t.forw;
      ghost var i := 0;
      var lp := h;
      assert OnlyAt(L, IncMod(p + n - 1, |L| - 1));
      while lp != ep
        invariant 0 <= i <= n && lp == L[IncMod(p + i - 1, |L| - 1)]
        invariant marks.Valid() && freed == old(freed) + NodeSet(L[p..p + i])
        invariant marks.mark == Unset(old(marks.mark), NodeSet(L[p..p + i]))
        decreases n - i
      {
        assert LinkedAt(L, p + i) && OnlyAt(L, p + i);
        assert L[p..p + i + 1] == L[p..p + i] + [lp];
        assert lp in L[p..p + n];
        marks.UnmarkLineNode(lp);
        var tl := lp.forw;
        Free(lp);
        lp := tl;
        i := i + 1;
      }
    }

    /** The walk of clear_undo_stack over the records. */
    method FreeDetached()
      requires HistoryValid()
      requires ustack == Flatten(log.recs) && log.states[|log.edits|] == lines
      requires marks.Valid() && freed !! nodes
      modifies `freed, marks
      ensures marks.Valid() && freed == old(freed) + DeletedFrom(log, 0)
      ensures marks.mark == Unset(old(marks.mark), DeletedFrom(log, 0))
    {
      var n := |ustack|;
      ghost var g, half := |log.edits|, false;
      assert log.recs[..g] == log.recs && ustack[..n] == ustack;
      while n > 0
        invariant 0 <= g <= |log.edits| && WalkAt(ustack, n, log, g, half)
        invariant marks.Valid() && freed == old(freed) + DeletedFrom(log, g)
        invariant marks.mark == Unset(old(marks.mark), DeletedFrom(log, g))
      {
        ghost var above := g;
        g, half := WalkStep(ustack, n, log, g, half);
        n := n - 1;
        if ustack[n].kind == UDEL {
          FreeRecord(ustack[n].h, ustack[n].t, g);
          UnsetTwice(old(marks.mark), DeletedFrom(log, above), DeletedFrom(log, g) - DeletedFrom(log, above));
          assert DeletedFrom(log, above) + (DeletedFrom(log, g) - DeletedFrom(log, above)) == DeletedFrom(log, g);
        }
      }
      FlattenSome(log, g);
    }

    method FreeRecord(h: Line, t: Line, ghost g: int)
      requires HistoryValid()
      requires log.states[|log.edits|] == lines
      requires 0 <= g < |log.edits| && log.edits[g].Del? && log.recs[g] == [Undo(UDEL, h, t)]
      requires marks.Valid() && freed !! nodes - DeletedFrom(log, g + 1)
      modifies `freed, marks
      ensures marks.Valid() && freed == old(freed) + (DeletedFrom(log, g) - DeletedFrom(log, g + 1))
      ensures marks.mark == Unset(old(marks.mark), DeletedFrom(log, g) - DeletedFrom(log, g + 1))
    {
      DeletedOnce(log, g);
      ghost var e, L := log.edits[g], log.states[g];
      assert Detached(log, g);
      forall x | x in L[e.p..e.p + e.n] ensures x in nodes && x !in lines && x !in freed {
        ghost var i :| 0 <= i < e.n && L[e.p..e.p + e.n][i] == x;
        DeletedStaysOut(log, g, e.p + i, |log.edits|);
      }
      FreeSegment(h, t, L, e.p, e.n);
      assert DeletedFrom(log, g) - DeletedFrom(log, g + 1) == NodeSet(L[e.p..e.p + e.n]);
    }

    /** Frees every detached node, forgets the edits, and makes the present state the one undo goes back to. */
    method ClearUndoStack()
      requires Valid()
      modifies `ustack, `uCurrentAddr, `uAddrLast, `log, `nodes, `freed, marks
      ensures Valid()
      ensures log == Log([lines], [], [])
      ensures uCurrentAddr == currentAddr && uAddrLast == addrLast
      ensures nodes == NodeSet(lines) && freed == old(freed) + (old(nodes) - NodeSet(lines))
      ensures marks.mark == Unset(old(marks.mark), old(nodes) - NodeSet(lines))
    {
      FreeDetached();
      DeletedAll(log, nodes);
      ClearedLog(lines, head, currentAddr);
      ResetLog();
    }

    method ResetLog()
      modifies `ustack, `uCurrentAddr, `uAddrLast, `log, `nodes
      ensures ustack == [] && uCurrentAddr == currentAddr && uAddrLast == addrLast
      ensures log == Log([lines], [], []) && nodes == NodeSet(lines)
    {
      ustack := [];
      uCurrentAddr, uAddrLast := currentAddr, addrLast;
      log, nodes := Log([lines], [], []), NodeSet(lines);
    }

    /** Puts the text from start up to the next newline into the scratch file, and a node for it
        after the current line; the result is where the next line of text starts. */
    method PutSbufLine(cs: string, start: nat) returns (next: nat)
      requires Valid()
      requires start <= |cs| && '\n' in cs[start..]
      modifies `cursor, `on, `currentAddr, `addrLast, `lines, `nodes, nodes, sf
      ensures start < next <= |cs| && cs[next - 1] == '\n' && '\n' !in cs[start..next - 1]
      ensures AddPending()
      ensures currentAddr == old(currentAddr) + 1 <= |old(lines)|
      ensures fresh(lines[currentAddr]) && lines == Insert(old(lines), currentAddr, lines[currentAddr])
      ensures nodes == old(nodes) + {lines[currentAddr]}
      ensures sf.data == old(sf.data) + cs[start..next - 1]
      ensures HasText(sf.data, lines[currentAddr], cs[start..next - 1])
    {
      var s := EndOfLine(cs, start);
      PutText(cs[start..s]);
      next := s + 1;
    }

    method PutText(text: string)
      requires Valid() && '\n' !in text
      modifies `cursor, `on, `currentAddr, `addrLast, `lines, `nodes, nodes, sf
      ensures AddPending()
      ensures currentAddr == old(currentAddr) + 1 <= |old(lines)|
      ensures fresh(lines[currentAddr]) && lines == Insert(old(lines), currentAddr, lines[currentAddr])
      ensures nodes == old(nodes) + {lines[currentAddr]}
      ensures sf.data == old(sf.data) + text && HasText(sf.data, lines[currentAddr], text)
    {
      var lp := NewText(text);
      AddLineNode(lp);
    }

    method EndOfLine(cs: string, start: nat) returns (s: nat)
      requires start <= |cs| && '\n' in cs[start..]
      ensures start <= s < |cs| && cs[s] == '\n' && '\n' !in cs[start..s]
    {
      s := start;
      while cs[s] != '\n'
        invariant start <= s < |cs| && '\n' !in cs[start..s]
        decreases |cs| - s
      {
        assert cs[start..] == cs[start..s] + [cs[s]] + cs[s + 1..];
        s := s + 1;
      }
    }

    /** Puts text without a newline into the scratch file, and makes a node for it. */
    method NewText(text: string) returns (lp: Line)
      requires Valid() && '\n' !in text
      modifies sf
      ensures Valid() && fresh(lp) && sf.data == old(sf.data) + text
      ensures lp.text == text && OwnText(sf.data, lp)
    {
      OwnTextsKept(nodes, sf.data, text);
      var seek := sf.Put(text);
      lp := new Line(seek, |text|, text);
    }

    method GetSbufLine(lp: Line) returns (text: string)
      requires sf.Valid() && OwnTexts(nodes, sf.data) && lp in nodes
      modifies sf`pos, sf`sfseek, sf`seekWrite
      ensures sf.Valid() && text == lp.text
    {
      assert OwnText(sf.data, lp);
      text := sf.Get(lp.seek, lp.len);
    }
  }
}
