/** The history of the buffer together with the nodes on the heap, and what each edit does to both. */
module EdLog {
  import opened Basics
  import opened EdRing
  import opened EdHistory
  import opened EdUndo
  import opened EdActive

  /** Every node of every state is one of nodes. */
  ghost predicate AllIn(states: seq<seq<Line>>, nodes: set<Line>) {
    forall a, x :: 0 <= a < |states| && x in states[a] ==> x in nodes
  }

  ghost predicate InSome(states: seq<seq<Line>>, x: Line) {
    exists a :: 0 <= a < |states| && x in states[a]
  }

  ghost predicate RingIn(lines: seq<Line>, nodes: set<Line>)
    reads nodes
  {
    && (forall x :: x in lines ==> x in nodes)
    && Ring(lines)
  }

  ghost predicate AddressesFit(lines: seq<Line>, head: Line, addrLast: int, currentAddr: int, on: int, cursor: Line) {
    && lines != [] && lines[0] == head
    && addrLast == |lines| - 1
    && 0 <= currentAddr <= addrLast
    && 0 <= on <= addrLast && cursor == lines[on]
  }

  /** Every one of nodes but new is in some state. */
  ghost predicate NoneElse(states: seq<seq<Line>>, nodes: set<Line>, new_: set<Line>) {
    forall x {:trigger InSome(states, x)} :: x in nodes && x !in new_ ==> InSome(states, x)
  }

  /** Every state starts with the buffer head, and u_current_addr and u_addr_last fit the first one. */
  ghost predicate LogFits(log: Log, head: Line, uCurrentAddr: int, uAddrLast: int) {
    && LogOk(log)
    && (forall a :: 0 <= a < |log.states| ==> log.states[a] != [] && log.states[a][0] == head)
    && (if uCurrentAddr == -1 then uAddrLast == -1
        else uAddrLast == |log.states[0]| - 1 && 0 <= uCurrentAddr <= uAddrLast)
  }

  /** The nodes that deletions detached kept their links. */
  ghost predicate AllDetached(log: Log, nodes: set<Line>)
    requires LogOk(log) && AllIn(log.states, nodes)
    reads nodes
  {
    forall a :: 0 <= a < |log.edits| ==> Detached(log, a)
  }

  /** The text of a line, which stays the same when the file grows. */
  ghost predicate HasText(data: string, x: Line, text: string) {
    x.seek + x.len <= |data| && data[x.seek..x.seek + x.len] == text
  }

  ghost predicate HasTextAt(data: string, L: seq<Line>, texts: seq<string>, i: int)
    requires 0 <= i < |L| == |texts|
  {
    HasText(data, L[i], texts[i])
  }

  ghost predicate HaveTexts(data: string, L: seq<Line>, texts: seq<string>) {
    |L| == |texts| && forall i :: 0 <= i < |L| ==> HasTextAt(data, L, texts, i)
  }

  lemma TextsKept(data: string, more: string, L: seq<Line>, texts: seq<string>)
    requires HaveTexts(data, L, texts)
    ensures HaveTexts(data + more, L, texts)
  {
    forall i | 0 <= i < |L| ensures HasTextAt(data + more, L, texts, i) {
      assert HasTextAt(data, L, texts, i);
      var x := L[i];
      assert (data + more)[x.seek..x.seek + x.len] == data[x.seek..x.seek + x.len];
    }
  }

  lemma TextsExtended(data: string, more: string, L: seq<Line>, texts: seq<string>, x: Line, text: string)
    requires HaveTexts(data, L, texts) && HasText(data + more, x, text)
    ensures HaveTexts(data + more, L + [x], texts + [text])
  {
    TextsKept(data, more, L, texts);
    forall i | 0 <= i < |L| + 1 ensures HasTextAt(data + more, L + [x], texts + [text], i) {
      assert i < |L| ==> HasTextAt(data + more, L, texts, i);
    }
  }

  /** The scratch file still has the text the line was made with. */
  ghost predicate OwnText(data: string, x: Line) {
    HasText(data, x, x.text)
  }

  ghost predicate OwnTexts(nodes: set<Line>, data: string) {
    forall x {:trigger OwnText(data, x)} :: x in nodes ==> OwnText(data, x)
  }

  lemma OwnTextsKept(nodes: set<Line>, data: string, more: string)
    requires OwnTexts(nodes, data)
    ensures OwnTexts(nodes, data + more)
  {
    forall x | x in nodes ensures OwnText(data + more, x) {
      assert OwnText(data, x);
      assert (data + more)[x.seek..x.seek + x.len] == data[x.seek..x.seek + x.len];
    }
  }

  ghost predicate MarksIn(mark: seq<Line?>, nodes: set<Line>) {
    forall i :: 0 <= i < |mark| && mark[i] != null ==> mark[i] in nodes
  }

  /** The lines a global command has still to visit are in the buffer. */
  ghost predicate PendingIn(list: seq<Line?>, ptr: int, lines: seq<Line>, head: Line) {
    forall i :: 0 <= ptr <= i < |list| && list[i] != null ==> list[i] in lines && list[i] != head
  }

  /** A new node is linked in. */
  lemma OneMore(states: seq<seq<Line>>, nodes: set<Line>, list: seq<Line?>, ptr: int, lines: seq<Line>, head: Line, p: int, lp: Line)
    requires AllIn(states, nodes) && NoneElse(states, nodes, {}) && lp !in nodes && 0 <= p <= |lines|
    ensures AllIn(states, nodes + {lp}) && NoneElse(states, nodes + {lp}, {lp}) && !InSome(states, lp)
    ensures PendingIn(list, ptr, lines, head) ==> PendingIn(list, ptr, Insert(lines, p, lp), head)
  {
  }

  lemma TextsMore(nodes: set<Line>, data: string, mark: seq<Line?>, freed: set<Line>, lp: Line)
    requires OwnTexts(nodes, data) && OwnText(data, lp) && MarksIn(mark, nodes) && freed !! nodes && lp !in freed
    ensures OwnTexts(nodes + {lp}, data) && MarksIn(mark, nodes + {lp}) && freed !! nodes + {lp}
  {
  }

  lemma CutMembers(L: seq<Line>, p: int, n: int)
    requires 0 <= p <= p + n <= |L|
    ensures forall x :: x in L && x !in NodeSet(L[p..p + n]) ==> x in Cut(L, p, n)
  {
    assert L == L[..p] + L[p..p + n] + L[p + n..];
  }

  /** Lines taken out of the buffer and off the list of lines to visit. */
  lemma PendingCut(list: seq<Line?>, ptr: int, L: seq<Line>, head: Line, p: int, n: int)
    requires 0 <= p <= p + n <= |L| && PendingIn(list, ptr, L, head)
    ensures PendingIn(Unset(list, NodeSet(L[p..p + n])), ptr, Cut(L, p, n), head)
  {
    CutMembers(L, p, n);
  }

  lemma StatesGrown(states: seq<seq<Line>>, states': seq<seq<Line>>, nodes: set<Line>, new_: set<Line>)
    requires NoneElse(states, nodes, new_)
    requires forall a, x :: 0 <= a < |states| && x in states[a] ==> InSome(states', x)
    requires forall x :: x in new_ ==> InSome(states', x)
    ensures NoneElse(states', nodes, {})
  {
    forall x | x in nodes && x !in new_ ensures InSome(states', x) {
      assert InSome(states, x);
    }
  }

  lemma ExtendSome(states: seq<seq<Line>>, L': seq<Line>, nodes: set<Line>, new_: set<Line>)
    requires NoneElse(states, nodes, new_) && forall x :: x in new_ ==> x in L'
    ensures NoneElse(states + [L'], nodes, {})
  {
    var states' := states + [L'];
    forall a, x | 0 <= a < |states| && x in states[a] ensures InSome(states', x) {
      assert states'[a] == states[a];
    }
    forall x | x in new_ ensures InSome(states', x) {
      assert x in states'[|states|];
    }
    StatesGrown(states, states', nodes, new_);
  }

  lemma GrowSome(log: Log, nodes: set<Line>, x: Line)
    requires LogOk(log) && |log.edits| > 0 && log.edits[|log.edits| - 1].Add?
    requires NoneElse(log.states, nodes, {x})
    ensures NoneElse(Grow(log, x).states, nodes, {})
  {
    var k := |log.edits| - 1;
    var e, L := log.edits[k], log.states[k + 1];
    var states' := Grow(log, x).states;
    assert LogStep(log, k);
    assert states'[k + 1] == Insert(L, e.p + e.n, x);
    assert Insert(L, e.p + e.n, x)[e.p + e.n] == x;
    forall a, y | 0 <= a < |log.states| && y in log.states[a] ensures InSome(states', y) {
      if a <= k {
        assert states'[a] == log.states[a];
      } else {
        var i :| 0 <= i < |L| && L[i] == y;
        assert states'[k + 1][if i < e.p + e.n then i else i + 1] == y;
      }
    }
    StatesGrown(log.states, states', nodes, {x});
  }

  /** One more edit in the log. */
  lemma ExtendLog(log: Log, head: Line, uc: int, ul: int, nodes: set<Line>, e: Edit, L: seq<Line>, L': seq<Line>, rs: seq<Undo>)
    requires LogFits(log, head, uc, ul) && AllIn(log.states, nodes) && AllDetached(log, nodes)
    requires L == log.states[|log.edits|] && Step(e, L, L') && IsRecord(rs, e, L, L')
    requires Distinct(L') && L' != [] && L'[0] == head
    requires forall x :: x in L' ==> x in nodes
    requires forall x :: x in L' && x !in L ==> !InSome(log.states, x)
    requires e.Del? ==> SegmentLinked(L, e.p, e.n)
    ensures LogFits(Extend(log, e, L', rs), head, uc, ul)
    ensures AllIn(Extend(log, e, L', rs).states, nodes)
    ensures AllDetached(Extend(log, e, L', rs), nodes)
    ensures Flatten(Extend(log, e, L', rs).recs) == Flatten(log.recs) + rs
  {
    var log' := Extend(log, e, L', rs);
    forall x, a | x in L' && 0 <= a < |log.states| && x in log.states[a] ensures x in L {
      assert InSome(log.states, x);
    }
    ExtendOk(log, e, L', rs);
    assert log'.recs[..|log.recs|] == log.recs;
    forall a | 0 <= a < |log'.edits| ensures Detached(log', a) {
      assert LogStep(log', a);
      assert a < |log.edits| ==> Detached(log, a);
    }
  }

  /** One more node in the last addition of the log. */
  lemma GrowLog(log: Log, head: Line, uc: int, ul: int, nodes: set<Line>, x: Line)
    requires LogFits(log, head, uc, ul) && AllIn(log.states, nodes) && AllDetached(log, nodes)
    requires |log.edits| > 0 && log.edits[|log.edits| - 1].Add?
    requires x in nodes && !InSome(log.states, x)
    ensures LogFits(Grow(log, x), head, uc, ul)
    ensures AllIn(Grow(log, x).states, nodes)
    ensures AllDetached(Grow(log, x), nodes)
    ensures Flatten(log.recs) != []
    ensures var top := |Flatten(log.recs)| - 1;
            Flatten(Grow(log, x).recs) == Flatten(log.recs)[top := Flatten(log.recs)[top].(t := x)]
    ensures Grow(log, x).states[..|log.edits|] == log.states[..|log.edits|]
  {
    var k := |log.edits| - 1;
    var log' := Grow(log, x);
    GrowOk(log, x);
    assert LogStep(log, k) && LogStep(log', k);
    assert log.recs[..k] == log'.recs[..k];
    forall a | 0 <= a < |log'.edits| ensures Detached(log', a) {
      assert LogStep(log', a);
      assert a < k ==> Detached(log, a);
    }
  }

  /** The log of a popped stack. */
  lemma PoppedLog(log: Log, head: Line, uc: int, ul: int, current: int, nodes: set<Line>)
    requires LogFits(log, head, uc, ul) && AllIn(log.states, nodes) && NoneElse(log.states, nodes, {})
    requires LinksAt(log, 0, nodes)
    requires 0 <= current < |log.states[|log.edits|]|
    ensures LogFits(ReverseLog(log), head, current, |log.states[|log.edits|]| - 1)
    ensures AllIn(ReverseLog(log).states, nodes) && NoneElse(ReverseLog(log).states, nodes, {})
    ensures AllDetached(ReverseLog(log), nodes)
  {
    var rev := ReverseLog(log);
    var k := |log.edits|;
    ReverseLogOk(log);
    forall a, x | 0 <= a < |log.states| && x in log.states[a] ensures InSome(rev.states, x) {
      assert x in rev.states[k - a];
    }
    StatesGrown(log.states, rev.states, nodes, {});
    forall a | 0 <= a < k ensures Detached(rev, a) {
      assert LogStep(rev, a) && LogStep(log, k - 1 - a);
      assert Withdrawn(log, k - 1 - a);
      assert rev.states[a] == log.states[k - a];
      assert rev.edits[a] == log.edits[k - 1 - a].Inverse();
    }
  }

  /** The nodes that the deletions from edit g on took out. */
  ghost function DeletedFrom(log: Log, g: int): set<Line>
    requires LogOk(log) && 0 <= g <= |log.edits|
    decreases |log.edits| - g
  {
    if g == |log.edits| then {}
    else
      assert LogStep(log, g);
      var e := log.edits[g];
      (if e.Del? then NodeSet(log.states[g][e.p..e.p + e.n]) else {}) + DeletedFrom(log, g + 1)
  }

  lemma {:induction false} DeletedLater(log: Log, g: int, x: Line)
    requires LogOk(log) && 0 <= g <= |log.edits| && x in DeletedFrom(log, g)
    ensures exists a :: g <= a < |log.edits| && x in log.states[a]
    ensures x !in log.states[|log.edits|]
    decreases |log.edits| - g
  {
    assert LogStep(log, g);
    var e := log.edits[g];
    if e.Del? && x in log.states[g][e.p..e.p + e.n] {
      var i :| 0 <= i < e.n && log.states[g][e.p..e.p + e.n][i] == x;
      DeletedStaysOut(log, g, e.p + i, |log.edits|);
      assert x in log.states[g];
    } else {
      DeletedLater(log, g + 1, x);
    }
  }

  /** No node is taken out by two deletions. */
  lemma DeletedOnce(log: Log, g: int)
    requires LogOk(log) && 0 <= g < |log.edits| && log.edits[g].Del?
    ensures LogStep(log, g)
    ensures NodeSet(log.states[g][log.edits[g].p..log.edits[g].p + log.edits[g].n]) !! DeletedFrom(log, g + 1)
  {
    assert LogStep(log, g);
    var e := log.edits[g];
    var seg := log.states[g][e.p..e.p + e.n];
    forall x | x in NodeSet(seg) ensures x !in DeletedFrom(log, g + 1) {
      var i :| 0 <= i < e.n && seg[i] == x;
      if x in DeletedFrom(log, g + 1) {
        DeletedLater(log, g + 1, x);
        var a :| g + 1 <= a < |log.edits| && x in log.states[a];
        DeletedStaysOut(log, g, e.p + i, a);
      }
    }
  }

  /** Only a deletion makes nodes leave the list. */
  lemma StepMembers(e: Edit, L: seq<Line>, L': seq<Line>, x: Line)
    requires Step(e, L, L') && x in L
    ensures x in L' || (e.Del? && x in L[e.p..e.p + e.n])
  {
    match e
    case Add(p, n) =>
    case Del(p, n) => assert L == L[..p] + L[p..p + n] + L[p + n..];
    case Mov(i, j, k, down) => SwapMembers(L, i, j, k);
  }

  /** A node that is in some state but not in the last was taken out by a deletion. */
  lemma {:induction false} TakenOut(log: Log, g: int, x: Line)
    requires LogOk(log) && 0 <= g <= |log.edits|
    requires x in log.states[g] && x !in log.states[|log.edits|]
    ensures x in DeletedFrom(log, g)
    decreases |log.edits| - g
  {
    assert LogStep(log, g);
    StepMembers(log.edits[g], log.states[g], log.states[g + 1], x);
    if x in log.states[g + 1] {
      TakenOut(log, g + 1, x);
    }
  }

  lemma {:induction false} DeletedMono(log: Log, a: int, b: int)
    requires LogOk(log) && 0 <= a <= b <= |log.edits|
    ensures DeletedFrom(log, b) <= DeletedFrom(log, a)
    decreases b - a
  {
    if a < b {
      DeletedMono(log, a + 1, b);
    }
  }

  /** The deletions of the log took out just the nodes that are not in the buffer. */
  lemma DeletedAll(log: Log, nodes: set<Line>)
    requires LogOk(log) && AllIn(log.states, nodes) && NoneElse(log.states, nodes, {})
    ensures DeletedFrom(log, 0) == nodes - NodeSet(log.states[|log.edits|])
  {
    forall x | x in nodes - NodeSet(log.states[|log.edits|]) ensures x in DeletedFrom(log, 0) {
      assert InSome(log.states, x);
      var a :| 0 <= a < |log.states| && x in log.states[a];
      TakenOut(log, a, x);
      DeletedMono(log, 0, a);
    }
    forall x | x in DeletedFrom(log, 0) ensures x in nodes - NodeSet(log.states[|log.edits|]) {
      DeletedLater(log, 0, x);
    }
  }

  /** n undo records are still to be looked at: those of the edits before g, and the first record of g if half. */
  ghost predicate WalkAt(ustack: seq<Undo>, n: int, log: Log, g: int, half: bool)
    requires LogOk(log) && 0 <= g <= |log.edits|
  {
    && 0 <= n <= |ustack|
    && (half ==> g < |log.edits| && log.edits[g].Mov? && |log.recs[g]| == 2)
    && ustack[..n] == Flatten(log.recs[..g]) + if half then log.recs[g][..1] else []
  }

  /** One record further down; it is a deletion's just when the next edit down is a deletion. */
  lemma WalkStep(ustack: seq<Undo>, n: int, log: Log, g: int, half: bool) returns (g': int, half': bool)
    requires LogOk(log) && 0 <= g <= |log.edits| && WalkAt(ustack, n, log, g, half) && n > 0
    ensures 0 <= g' <= g && WalkAt(ustack, n - 1, log, g', half')
    ensures ustack[n - 1].kind == UDEL ==>
      g' == g - 1 && log.edits[g'].Del? && log.recs[g'] == [Undo(UDEL, ustack[n - 1].h, ustack[n - 1].t)]
    ensures ustack[n - 1].kind != UDEL ==> DeletedFrom(log, g') == DeletedFrom(log, g)
  {
    assert ustack[..n - 1] == ustack[..n][..n - 1] && ustack[..n][n - 1] == ustack[n - 1];
    if half {
      g', half' := g, false;
      assert LogStep(log, g);
    } else {
      FlattenNone(log.recs, g);
      g' := g - 1;
      half' := log.edits[g'].Mov?;
      WalkDown(ustack[..n], log, g');
      assert ustack[..n - 1] == ustack[..n][..n - 1];
    }
  }

  /** The stack up to edit g, whose record is the last one or whose records are the last two. */
  lemma WalkDown(us: seq<Undo>, log: Log, g: int)
    requires LogOk(log) && 0 <= g < |log.edits| && us == Flatten(log.recs[..g + 1])
    ensures us != []
    ensures log.edits[g].Mov? ==> |log.recs[g]| == 2 && us[..|us| - 1] == Flatten(log.recs[..g]) + log.recs[g][..1]
    ensures !log.edits[g].Mov? ==> us[..|us| - 1] == Flatten(log.recs[..g])
    ensures us[|us| - 1].kind == UDEL ==> log.edits[g].Del? && log.recs[g] == [us[|us| - 1]]
    ensures us[|us| - 1].kind != UDEL ==> DeletedFrom(log, g) == DeletedFrom(log, g + 1)
  {
    FlattenSplit(log.recs, g);
    assert LogStep(log, g);
  }

  lemma FlattenNone(recs: seq<seq<Undo>>, g: int)
    requires 0 <= g <= |recs| && Flatten(recs[..g]) != []
    ensures g > 0
  {
  }

  /** Lines first..second are to go after line addr, which is not one of first..second - 1. */
  ghost predicate Movable(first: int, second: int, addr: int, addrLast: int) {
    && 1 <= first <= second <= addrLast
    && 0 <= addr <= addrLast && !(first <= addr < second)
  }

  /** The queue after the move. */
  ghost function Moved(L: seq<Line>, first: int, second: int, addr: int): seq<Line>
    requires Movable(first, second, addr, |L| - 1)
  {
    if addr < first then Swap(L, addr + 1, first, second + 1) else Swap(L, first, second + 1, addr + 1)
  }

  /** The address of the last moved line. */
  ghost function MovedTo(first: int, second: int, addr: int): int {
    if addr < first then addr + (second - first + 1) else addr
  }

  /** A move takes the lines out in one piece, puts them in after line addr, and keeps the others in order. */
  lemma MovedMeaning(L: seq<Line>, first: int, second: int, addr: int)
    requires Movable(first, second, addr, |L| - 1)
    ensures var n, to := second - first + 1, MovedTo(first, second, addr);
            var L' := Moved(L, first, second, addr);
            && |L'| == |L| && 1 <= to - n + 1
            && L'[to - n + 1..to + 1] == L[first..second + 1]
            && Cut(L', to - n + 1, n) == Cut(L, first, n)
  {
    var n, to := second - first + 1, MovedTo(first, second, addr);
    var L' := Moved(L, first, second, addr);
    if addr < first {
      assert L'[..addr + 1] == L[..addr + 1];
      assert L'[to + 1..] == L[addr + 1..first] + L[second + 1..];
    } else {
      assert L'[..first] == L[..first];
      assert L'[..to - n + 1] == L[..first] + L[second + 1..addr + 1];
      assert L'[to + 1..] == L[addr + 1..];
    }
  }

  /** The moved lines follow line addr, and what followed it follows them. */
  lemma MovedBetween(L: seq<Line>, first: int, second: int, addr: int)
    requires Movable(first, second, addr, |L| - 1) && addr != second
    ensures var n, to := second - first + 1, MovedTo(first, second, addr);
            var L' := Moved(L, first, second, addr);
            && |L'| == |L| && 0 <= to - n < to <= |L| - 1
            && L'[to - n] == L[addr]
            && (addr != first - 1 ==> L'[IncMod(to, |L| - 1)] == L[IncMod(addr, |L| - 1)])
  {
  }

  /** A move to where the lines already are changes nothing. */
  lemma MovedNowhere(L: seq<Line>, first: int, second: int, addr: int)
    requires Movable(first, second, addr, |L| - 1) && (addr == first - 1 || addr == second)
    ensures Moved(L, first, second, addr) == L && MovedTo(first, second, addr) == second
  {
  }

  /** Where the moved lines are found afterwards: between b2 and a2. */
  lemma MovedPlace(L: seq<Line>, first: int, second: int, addr: int)
    requires Movable(first, second, addr, |L| - 1)
    ensures var n, to := second - first + 1, MovedTo(first, second, addr);
            var L' := Moved(L, first, second, addr);
            && |L'| == |L| && 0 <= to - n < to < |L|
            && L'[to - n] == L[if addr == second then first - 1 else addr]
            && L'[IncMod(to, |L| - 1)] == L[IncMod(if addr == first - 1 then second else addr, |L| - 1)]
            && NodeSet(L'[to - n + 1..to - n + 1 + n]) == NodeSet(L[first..second + 1])
  {
    MovedMeaning(L, first, second, addr);
    if addr == first - 1 || addr == second {
      MovedNowhere(L, first, second, addr);
    } else {
      MovedBetween(L, first, second, addr);
    }
  }

  lemma MovedMembers(list: seq<Line?>, ptr: int, L: seq<Line>, head: Line, first: int, second: int, addr: int, S: set<Line>)
    requires Movable(first, second, addr, |L| - 1) && PendingIn(list, ptr, L, head)
    ensures PendingIn(Unset(list, S), ptr, Moved(L, first, second, addr), head)
  {
    MovedSame(L, first, second, addr);
    PendingSame(list, ptr, L, Moved(L, first, second, addr), head, S);
  }

  lemma MovedSame(L: seq<Line>, first: int, second: int, addr: int)
    requires Movable(first, second, addr, |L| - 1)
    ensures forall x :: x in L <==> x in Moved(L, first, second, addr)
  {
    hide Swap;
    if addr < first {
      SwapMembers(L, addr + 1, first, second + 1);
    } else {
      SwapMembers(L, first, second + 1, addr + 1);
    }
  }

  lemma PendingSame(list: seq<Line?>, ptr: int, L: seq<Line>, L': seq<Line>, head: Line, S: set<Line>)
    requires PendingIn(list, ptr, L, head) && forall x :: x in L <==> x in L'
    ensures PendingIn(Unset(list, S), ptr, L', head)
  {
  }

  lemma SwapMembers(L: seq<Line>, i: int, j: int, k: int)
    requires 0 <= i <= j <= k <= |L|
    ensures forall x :: x in L <==> x in Swap(L, i, j, k)
  {
    assert L == L[..i] + L[i..j] + L[j..k] + L[k..];
  }

  lemma ClearedLog(lines: seq<Line>, head: Line, current: int)
    requires Distinct(lines) && lines != [] && lines[0] == head && 0 <= current < |lines|
    ensures LogFits(Log([lines], [], []), head, current, |lines| - 1)
    ensures AllIn([lines], NodeSet(lines)) && NoneElse([lines], NodeSet(lines), {})
    ensures AllDetached(Log([lines], [], []), NodeSet(lines))
  {
    forall x | x in NodeSet(lines) ensures InSome([lines], x) {
      assert x in [lines][0];
    }
    forall a, x | 0 <= a < 1 && x in [lines][a] ensures Interval([lines], x) {
    }
  }
}
