/** The commands that put lines into the buffer, and those that replace them. */
module EdCommands {
  import opened EdRing
  import opened EdHistory
  import opened EdActive
  import opened EdBuffer
  import opened EdLog
  import opened EdTexts

  /** L' is L with k nodes put in at position p. */
  ghost predicate Inserted(L: seq<Line>, L': seq<Line>, p: int, k: int) {
    0 <= p <= p + k <= |L'| && L == Cut(L', p, k)
  }

  lemma InsertedOne(L: seq<Line>, L': seq<Line>, p: int, k: int, x: Line)
    requires Inserted(L, L', p, k)
    ensures Inserted(L, Insert(L', p + k, x), p, k + 1)
    ensures Insert(L', p + k, x)[p..p + k + 1] == L'[p..p + k] + [x]
  {
  }

  /** How many of the lines come before the one that ends the input. */
  function InputLength(input: seq<string>): (n: nat)
    ensures n <= |input|
    ensures forall i :: 0 <= i < n ==> input[i] != "."
    ensures n < |input| ==> input[n] == "."
  {
    if input == [] || input[0] == "." then 0 else 1 + InputLength(input[1..])
  }

  /** The undo history goes on from where it was: the state it starts from is the same. */
  ghost predicate SameBase(log: Log, log': Log) {
    log.states != [] && log'.states != [] && log'.states[0] == log.states[0]
  }

  ghost predicate LineInput(input: seq<string>) {
    forall i :: 0 <= i < |input| ==> '\n' !in input[i]
  }

  /** The last edit of the log is the addition of the k lines at position p. */
  ghost predicate LastAdds(log: Log, p: int, k: int) {
    |log.edits| > 0 && log.edits[|log.edits| - 1] == Add(p, k)
  }

  /** The current line, just linked in, goes into the log. */
  method RecordAddition(ed: Editor, ghost p: int, k: nat)
    requires ed.AddPending() && ed.currentAddr == p + k
    requires k > 0 ==> LastAdds(ed.log, p, k)
    modifies ed`cursor, ed`on, ed`ustack, ed`log
    ensures ed.Valid() && SameBase(old(ed.log), ed.log) && LastAdds(ed.log, p, k + 1)
  {
    if k > 0 {
      var t := ed.GetAddressedLineNode(ed.currentAddr);
      ed.GrowAddition(t);
    } else {
      ed.PushAddition();
    }
  }

  /** Puts one line in after the current line; it goes on with the addition of the k lines
      before it if k > 0, and starts one otherwise. */
  method AppendText(ed: Editor, cs: string, start: nat, ghost p: int, k: nat) returns (next: nat)
    requires ed.Valid() && ed.currentAddr + 1 == p + k
    requires k > 0 ==> LastAdds(ed.log, p, k)
    requires start <= |cs| && '\n' in cs[start..]
    modifies ed`cursor, ed`on, ed`currentAddr, ed`addrLast, ed`lines, ed`nodes, ed`ustack, ed`log, ed.nodes, ed.sf
    ensures start < next <= |cs| && cs[next - 1] == '\n' && '\n' !in cs[start..next - 1]
    ensures ed.Valid() && SameBase(old(ed.log), ed.log) && LastAdds(ed.log, p, k + 1)
    ensures ed.currentAddr == old(ed.currentAddr) + 1 <= |old(ed.lines)|
    ensures ed.lines == Insert(old(ed.lines), ed.currentAddr, ed.lines[ed.currentAddr])
    ensures fresh(ed.lines[ed.currentAddr]) && ed.nodes == old(ed.nodes) + {ed.lines[ed.currentAddr]}
    ensures ed.sf.data == old(ed.sf.data) + cs[start..next - 1]
    ensures HasText(ed.sf.data, ed.lines[ed.currentAddr], cs[start..next - 1])
  {
    next := ed.PutSbufLine(cs, start);
    RecordAddition(ed, p, k);
  }

  /** What an insertion in progress has done: k lines with these texts are in at position p. */
  ghost predicate Inserting(ed: Editor, L: seq<Line>, p: int, texts: seq<string>)
    reads ed, ed.nodes, ed.sf, ed.act, ed.marks
  {
    && ed.Valid()
    && ed.currentAddr + 1 == p + |texts|
    && (texts != [] ==> LastAdds(ed.log, p, |texts|))
    && Inserted(L, ed.lines, p, |texts|)
    && HaveTexts(ed.sf.data, ed.lines[p..p + |texts|], texts)
  }

  /** The next line of an insertion. */
  method InsertText(ed: Editor, cs: string, start: nat, ghost L: seq<Line>, ghost p: int, k: nat, ghost texts: seq<string>)
    returns (next: nat)
    requires Inserting(ed, L, p, texts) && k == |texts|
    requires start <= |cs| && '\n' in cs[start..]
    modifies ed`cursor, ed`on, ed`currentAddr, ed`addrLast, ed`lines, ed`nodes, ed`ustack, ed`log, ed.nodes, ed.sf
    ensures start < next <= |cs| && cs[next - 1] == '\n' && '\n' !in cs[start..next - 1]
    ensures Inserting(ed, L, p, texts + [cs[start..next - 1]])
    ensures SameBase(old(ed.log), ed.log)
    ensures forall x :: x in ed.nodes && x !in old(ed.nodes) ==> fresh(x)
    ensures old(ed.sf.data) <= ed.sf.data
  {
    next := AppendText(ed, cs, start, p, k);
    InsertedOne(L, old(ed.lines), p, k, ed.lines[ed.currentAddr]);
    TextsExtended(old(ed.sf.data), cs[start..next - 1], old(ed.lines)[p..p + k], texts, ed.lines[ed.currentAddr], cs[start..next - 1]);
  }

  /** A line of input ends at its only newline. */
  lemma WholeLine(line: string, next: nat)
    requires '\n' !in line && 0 < next <= |line + "\n"| && (line + "\n")[next - 1] == '\n'
    ensures next == |line| + 1 && (line + "\n")[0..next - 1] == line
  {
  }

  method InsertLine(ed: Editor, line: string, ghost L: seq<Line>, ghost p: int, k: nat, ghost texts: seq<string>)
    requires Inserting(ed, L, p, texts) && k == |texts| && '\n' !in line
    modifies ed`cursor, ed`on, ed`currentAddr, ed`addrLast, ed`lines, ed`nodes, ed`ustack, ed`log, ed.nodes, ed.sf
    ensures Inserting(ed, L, p, texts + [line])
    ensures SameBase(old(ed.log), ed.log)
    ensures forall x :: x in ed.nodes && x !in old(ed.nodes) ==> fresh(x)
    ensures old(ed.sf.data) <= ed.sf.data
  {
    var cs := line + "\n";
    assert cs[|line|] == '\n' && cs[0..] == cs;
    var next := InsertText(ed, cs, 0, L, p, k, texts);
    WholeLine(line, next);
  }

  /** Puts the input in after line n, up to a line that holds a single period. */
  method AppendLines(ed: Editor, n: int, input: seq<string>)
    requires ed.Valid() && 0 <= n <= ed.addrLast && LineInput(input)
    modifies ed`cursor, ed`on, ed`currentAddr, ed`addrLast, ed`lines, ed`nodes, ed`ustack, ed`log, ed`modified, ed.nodes, ed.sf
    ensures ed.Valid() && SameBase(old(ed.log), ed.log)
    ensures forall x :: x in ed.nodes && x !in old(ed.nodes) ==> fresh(x)
    ensures ed.modified == (old(ed.modified) || InputLength(input) > 0)
    ensures ed.currentAddr == n + InputLength(input)
    ensures Inserted(old(ed.lines), ed.lines, n + 1, InputLength(input))
    ensures HaveTexts(ed.sf.data, ed.lines[n + 1..ed.currentAddr + 1], input[..InputLength(input)])
    ensures old(ed.sf.data) <= ed.sf.data
  {
    hide Editor.PartsValid;
    ed.currentAddr := n;
    ed.modified := ed.modified || InputLength(input) > 0;
    AppendInput(ed, n, input);
  }

  method AppendInput(ed: Editor, n: int, input: seq<string>)
    requires Inserting(ed, ed.lines, n + 1, []) && n >= 0 && LineInput(input)
    modifies ed`cursor, ed`on, ed`currentAddr, ed`addrLast, ed`lines, ed`nodes, ed`ustack, ed`log, ed.nodes, ed.sf
    ensures Inserting(ed, old(ed.lines), n + 1, input[..InputLength(input)])
    ensures SameBase(old(ed.log), ed.log)
    ensures forall x :: x in ed.nodes && x !in old(ed.nodes) ==> fresh(x)
    ensures old(ed.sf.data) <= ed.sf.data
  {
    hide Editor.PartsValid;
    var i := 0;
    ghost var texts: seq<string> := [];
    while i < |input| && input[i] != "."
      invariant 0 <= i <= InputLength(input)
      invariant texts == input[..i]
      invariant Inserting(ed, old(ed.lines), n + 1, texts)
      invariant SameBase(old(ed.log), ed.log)
      invariant forall x :: x in ed.nodes && x !in old(ed.nodes) ==> fresh(x)
      invariant old(ed.sf.data) <= ed.sf.data
    {
      InsertLine(ed, input[i], old(ed.lines), n + 1, i, texts);
      TakeOneMore(input, i);
      texts := texts + [input[i]];
      i := i + 1;
    }
  }

  lemma TakeOneMore(s: seq<string>, i: nat)
    requires i < |s|
    ensures s[..i + 1] == s[..i] + [s[i]]
  {
  }

  /** x has its text where y has it: x is a copy of the node y. */
  ghost predicate SamePlace(x: Line, y: Line) {
    x.seek == y.seek && x.len == y.len && x.text == y.text
  }

  ghost predicate CopyAt(N: seq<Line>, S: seq<Line>, i: int)
    requires 0 <= i < |N| <= |S|
  {
    SamePlace(N[i], S[i])
  }

  /** N holds copies of the first lines of S. */
  ghost predicate Copies(N: seq<Line>, S: seq<Line>) {
    |N| <= |S| && forall i :: 0 <= i < |N| ==> CopyAt(N, S, i)
  }

  lemma CopiesOneMore(N: seq<Line>, S: seq<Line>, x: Line)
    requires Copies(N, S) && |N| < |S| && SamePlace(x, S[|N|])
    ensures Copies(N + [x], S)
  {
    forall i | 0 <= i < |N| + 1 ensures CopyAt(N + [x], S, i) {
      assert i < |N| ==> CopyAt(N, S, i);
    }
  }

  /** What copy_lines has done when c of the lines S are copied after line addr of L. */
  ghost predicate Copying(ed: Editor, L: seq<Line>, S: seq<Line>, addr: int, c: int)
    reads ed, ed.nodes, ed.sf, ed.act, ed.marks
  {
    && ed.Valid()
    && ed.currentAddr == addr + c && c >= 0
    && (c > 0 ==> LastAdds(ed.log, addr + 1, c))
    && Inserted(L, ed.lines, addr + 1, c)
    && Copies(ed.lines[addr + 1..addr + 1 + c], S)
  }

  method DupLineNode(lp: Line) returns (np: Line)
    ensures fresh(np) && SamePlace(np, lp)
  {
    np := new Line(lp.seek, lp.len, lp.text);
  }

  /** Links a copy of np in after the current line; up->t becomes the copy if an addition is going on. */
  method AddCopy(ed: Editor, np: Line, ghost p: int, k: nat)
    requires ed.Valid() && np in ed.nodes && ed.currentAddr + 1 == p + k
    requires k > 0 ==> LastAdds(ed.log, p, k)
    modifies ed`cursor, ed`on, ed`currentAddr, ed`addrLast, ed`lines, ed`nodes, ed`ustack, ed`log, ed.nodes
    ensures ed.Valid() && SameBase(old(ed.log), ed.log) && LastAdds(ed.log, p, k + 1)
    ensures ed.currentAddr == old(ed.currentAddr) + 1 <= |old(ed.lines)|
    ensures ed.lines == Insert(old(ed.lines), ed.currentAddr, ed.lines[ed.currentAddr])
    ensures fresh(ed.lines[ed.currentAddr]) && ed.nodes == old(ed.nodes) + {ed.lines[ed.currentAddr]}
    ensures SamePlace(ed.lines[ed.currentAddr], np)
  {
    assert OwnText(ed.sf.data, np);
    var lp := DupLineNode(np);
    ed.AddLineNode(lp);
    RecordCopy(ed, lp, p, k);
  }

  method RecordCopy(ed: Editor, lp: Line, ghost p: int, k: nat)
    requires ed.AddPending() && ed.currentAddr == p + k && lp == ed.lines[ed.currentAddr]
    requires k > 0 ==> LastAdds(ed.log, p, k)
    modifies ed`cursor, ed`on, ed`ustack, ed`log
    ensures ed.Valid() && SameBase(old(ed.log), ed.log) && LastAdds(ed.log, p, k + 1)
  {
    if k > 0 {
      ed.GrowAddition(lp);
    } else {
      ed.PushAddition();
    }
  }

  method CopyLine(ed: Editor, np: Line, c: nat, ghost L: seq<Line>, ghost S: seq<Line>, ghost addr: int)
    requires Copying(ed, L, S, addr, c) && c < |S| && np == S[c] && np in ed.nodes
    modifies ed`cursor, ed`on, ed`currentAddr, ed`addrLast, ed`lines, ed`nodes, ed`ustack, ed`log, ed.nodes
    ensures Copying(ed, L, S, addr, c + 1)
    ensures SameBase(old(ed.log), ed.log)
    ensures forall x :: x in ed.nodes && x !in old(ed.nodes) ==> fresh(x)
  {
    hide Editor.PartsValid;
    AddCopy(ed, np, addr + 1, c);
    InsertedOne(L, old(ed.lines), addr + 1, c, ed.lines[ed.currentAddr]);
    CopiesOneMore(old(ed.lines)[addr + 1..addr + 1 + c], S, ed.lines[ed.currentAddr]);
  }

  /** Away from the insertion, nodes are followed by what followed them before. */
  lemma FollowsStill(L: seq<Line>, L': seq<Line>, p: int, k: int, j: int)
    requires Inserted(L, L', p, k) && Ring(L')
    requires 0 <= j && j + 1 < |L| && j + 1 != p
    ensures L[j].forw == L[j + 1]
  {
    var j' := if j < p then j else j + k;
    assert L'[j'] == L[j] && L'[j' + 1] == L[j + 1];
    assert LinkedAt(L', j');
  }

  /** Copies the c-th of the lines S = first..second and goes on to the line after it. */
  method CopyNext(ed: Editor, np: Line, c: nat, ghost L: seq<Line>, ghost S: seq<Line>, ghost first: int, ghost addr: int, ghost more: bool)
    returns (next: Line)
    requires 1 <= first <= first + |S| <= |L| && 0 <= addr < |L| && S == L[first..first + |S|]
    requires Copying(ed, L, S, addr, c) && c < |S| && np == S[c]
    requires more ==> c + 1 < |S| && first + c != addr
    modifies ed`cursor, ed`on, ed`currentAddr, ed`addrLast, ed`lines, ed`nodes, ed`ustack, ed`log, ed.nodes
    ensures Copying(ed, L, S, addr, c + 1)
    ensures more ==> next == S[c + 1]
    ensures SameBase(old(ed.log), ed.log)
    ensures forall x :: x in ed.nodes && x !in old(ed.nodes) ==> fresh(x)
  {
    StillIn(ed, L, addr + 1, c, first + c);
    CopyLine(ed, np, c, L, S, addr);
    if more {
      FollowsStill(L, ed.lines, addr + 1, c + 1, first + c);
    }
    next := np.forw;
  }

  /** One run of the inner loop: n of the lines S from np on, the c-th of them. */
  method CopyPass(ed: Editor, start: Line, c: nat, n: nat, ghost L: seq<Line>, ghost S: seq<Line>, ghost first: int, ghost addr: int)
    requires 1 <= first <= first + |S| <= |L| && 0 <= addr < |L| && S == L[first..first + |S|]
    requires Copying(ed, L, S, addr, c) && c + n <= |S|
    requires n > 0 ==> start == S[c] && (addr < first + c || first + c + n - 1 <= addr)
    modifies ed`cursor, ed`on, ed`currentAddr, ed`addrLast, ed`lines, ed`nodes, ed`ustack, ed`log, ed.nodes
    ensures Copying(ed, L, S, addr, c + n)
    ensures SameBase(old(ed.log), ed.log)
    ensures forall x :: x in ed.nodes && x !in old(ed.nodes) ==> fresh(x)
  {
    hide Editor.PartsValid;
    var np, k := start, c;
    while k < c + n
      invariant c <= k <= c + n
      invariant Copying(ed, L, S, addr, k)
      invariant k < c + n ==> np == S[k]
      invariant SameBase(old(ed.log), ed.log)
      invariant forall x :: x in ed.nodes && x !in old(ed.nodes) ==> fresh(x)
    {
      np := CopyNext(ed, np, k, L, S, first, addr, k + 1 < c + n);
      k := k + 1;
    }
  }

  lemma StillIn(ed: Editor, L: seq<Line>, p: int, k: int, j: int)
    requires ed.Valid() && Inserted(L, ed.lines, p, k) && 0 <= j < |L|
    ensures L[j] in ed.nodes
  {
    assert ed.lines[if j < p then j else j + k] == L[j];
  }

  /** Copies lines first..second to after line addr.  When addr is inside the range, the lines up to addr
      are copied first, and the others are then found beyond the copies. */
  method CopyLines(ed: Editor, first: int, second: int, addr: int)
    requires ed.Valid() && 1 <= first <= second <= ed.addrLast && 0 <= addr <= ed.addrLast
    modifies ed`cursor, ed`on, ed`currentAddr, ed`addrLast, ed`lines, ed`nodes, ed`ustack, ed`log, ed`modified, ed.nodes
    ensures ed.Valid() && SameBase(old(ed.log), ed.log) && ed.modified
    ensures forall x :: x in ed.nodes && x !in old(ed.nodes) ==> fresh(x)
    ensures ed.currentAddr == addr + (second - first + 1)
    ensures Inserted(old(ed.lines), ed.lines, addr + 1, second - first + 1)
    ensures Copies(ed.lines[addr + 1..ed.currentAddr + 1], old(ed.lines)[first..second + 1])
  {
    hide Editor.PartsValid;
    ghost var L, S := ed.lines, ed.lines[first..second + 1];
    var np := StartCopy(ed, first, second, addr);
    CopyRange(ed, first, second, addr, np, L, S);
  }

  method StartCopy(ed: Editor, first: int, second: int, addr: int) returns (np: Line)
    requires ed.Valid() && 1 <= first <= second <= ed.addrLast && 0 <= addr <= ed.addrLast
    modifies ed`cursor, ed`on, ed`currentAddr, ed`modified
    ensures np == ed.lines[first] && ed.modified
    ensures Copying(ed, ed.lines, ed.lines[first..second + 1], addr, 0)
  {
    np := ed.GetAddressedLineNode(first);
    ed.currentAddr, ed.modified := addr, true;
    assert ed.lines[addr + 1..addr + 1] == [];
  }

  /** One run of the outer loop's body; the next line found is the one that followed line addr. */
  method CopyTurn(ed: Editor, start: Line, c: nat, n: nat, ghost L: seq<Line>, ghost S: seq<Line>, ghost first: int, ghost addr: int)
    returns (np: Line)
    requires 1 <= first <= first + |S| <= |L| && 0 <= addr < |L| && S == L[first..first + |S|]
    requires Copying(ed, L, S, addr, c) && c + n <= |S|
    requires n > 0 ==> start == S[c] && (addr < first + c || first + c + n - 1 <= addr)
    modifies ed`cursor, ed`on, ed`currentAddr, ed`addrLast, ed`lines, ed`nodes, ed`ustack, ed`log, ed.nodes
    ensures Copying(ed, L, S, addr, c + n)
    ensures first <= addr + 1 < first + |S| ==> np == S[addr + 1 - first]
    ensures SameBase(old(ed.log), ed.log)
    ensures forall x :: x in ed.nodes && x !in old(ed.nodes) ==> fresh(x)
  {
    hide Editor.PartsValid;
    CopyPass(ed, start, c, n, L, S, first, addr);
    np := FindNext(ed, c + n, L, S, addr);
  }

  /** The line after the copies, which followed line addr. */
  method FindNext(ed: Editor, ghost c: nat, ghost L: seq<Line>, ghost S: seq<Line>, ghost addr: int) returns (np: Line)
    requires 0 <= addr < |L| && Copying(ed, L, S, addr, c)
    modifies ed`cursor, ed`on
    ensures Copying(ed, L, S, addr, c)
    ensures addr + 1 < |L| ==> np == L[addr + 1]
  {
    InsertedNext(L, ed.lines, addr + 1, c);
    np := ed.GetAddressedLineNode(ed.currentAddr + 1);
  }

  /** Between two runs: n lines are to be copied next, from np on, and then the last m. */
  ghost predicate Turning(S: seq<Line>, first: int, addr: int, np: Line, c: int, n: int, m: int) {
    && n >= 0 && m >= 0 && c >= 0 && c + n + m == |S|
    && (n > 0 ==> np == S[c] && (addr < first + c || first + c + n - 1 <= addr))
    && (m > 0 ==> n > 0 && first + c + n == addr + 1)
  }

  lemma Turned(S: seq<Line>, first: int, addr: int, np: Line, c: int, n: int, m: int, next: Line)
    requires Turning(S, first, addr, np, c, n, m) && n > 0
    requires first <= addr + 1 < first + |S| ==> next == S[addr + 1 - first]
    ensures Turning(S, first, addr, next, c + n, m, 0)
  {
  }

  lemma InsertedNext(L: seq<Line>, L': seq<Line>, p: int, k: int)
    requires Inserted(L, L', p, k)
    ensures |L'| == |L| + k && (p < |L| ==> L'[p + k] == L[p])
  {
  }

  /** The outer loop of copy_lines, which runs once or twice. */
  method CopyRange(ed: Editor, first: int, second: int, addr: int, start: Line, ghost L: seq<Line>, ghost S: seq<Line>)
    requires 1 <= first <= second < |L| && S == L[first..second + 1] && 0 <= addr < |L|
    requires Copying(ed, L, S, addr, 0) && start == S[0]
    modifies ed`cursor, ed`on, ed`currentAddr, ed`addrLast, ed`lines, ed`nodes, ed`ustack, ed`log, ed.nodes
    ensures Copying(ed, L, S, addr, |S|)
    ensures SameBase(old(ed.log), ed.log)
    ensures forall x :: x in ed.nodes && x !in old(ed.nodes) ==> fresh(x)
  {
    hide Editor.PartsValid;
    var np := start;
    var n, m := second - first + 1, 0;
    if first <= addr < second {
      n := addr - first + 1;
      m := second - addr;
    }
    var c := 0;
    while n > 0
      invariant Turning(S, first, addr, np, c, n, m)
      invariant Copying(ed, L, S, addr, c)
      invariant SameBase(old(ed.log), ed.log)
      invariant forall x :: x in ed.nodes && x !in old(ed.nodes) ==> fresh(x)
      decreases n + m
    {
      ghost var was := np;
      np := CopyTurn(ed, np, c, n, L, S, first, addr);
      Turned(S, first, addr, was, c, n, m, np);
      c := c + n;
      n, m := m, 0;
    }
  }

  /** The texts of the lines at positions a..b one after the other. */
  ghost function JoinedText(L: seq<Line>, a: int, b: int): string
    requires 0 <= a <= b <= |L|
    decreases b - a
  {
    if a == b then "" else JoinedText(L, a, b - 1) + L[b - 1].text
  }

  lemma {:induction false} JoinedOneLine(data: string, L: seq<Line>, a: int, b: int)
    requires 0 <= a <= b <= |L| && '\n' !in data && Own(L, data)
    ensures '\n' !in JoinedText(L, a, b)
    decreases b - a
  {
    if a < b {
      JoinedOneLine(data, L, a, b - 1);
      assert OwnText(data, L[b - 1]);
    }
  }

  /** Collects the texts of the lines from bp up to, but not including, ep. */
  method GatherText(ed: Editor, start: Line, ep: Line, ghost from: int, ghost to: int) returns (buf: string)
    requires RingIn(ed.lines, ed.nodes) && ed.sf.Valid() && OwnTexts(ed.nodes, ed.sf.data)
    requires 1 <= from <= to < |ed.lines|
    requires start == ed.lines[from] && ep == ed.lines[IncMod(to, |ed.lines| - 1)]
    modifies ed.sf`pos, ed.sf`sfseek, ed.sf`seekWrite
    ensures ed.sf.Valid()
    ensures buf == JoinedText(ed.lines, from, to + 1)
  {
    var bp := start;
    ghost var L, i := ed.lines, from;
    assert OnlyAt(L, IncMod(to, |L| - 1));
    buf := "";
    while bp != ep
      invariant from <= i <= to + 1 && bp == L[IncMod(i - 1, |L| - 1)]
      invariant ed.sf.Valid()
      invariant buf == JoinedText(L, from, i)
      decreases |L| - i
    {
      var s := ed.GetSbufLine(bp);
      buf := buf + s;
      assert LinkedAt(L, i);
      bp := bp.forw;
      i := i + 1;
    }
  }

  /** Replaces lines from..to by one line with their texts joined. */
  method JoinLines(ed: Editor, from: int, to: int)
    requires ed.Valid() && 1 <= from <= to <= ed.addrLast
    modifies ed`cursor, ed`on, ed`currentAddr, ed`addrLast, ed`lines, ed`nodes, ed`ustack, ed`log, ed`modified, ed.nodes, ed.sf, ed.act
    ensures ed.Valid() && SameBase(old(ed.log), ed.log) && ed.modified
    ensures forall x :: x in ed.nodes && x !in old(ed.nodes) ==> fresh(x)
    ensures ed.currentAddr == from < |ed.lines|
    ensures Inserted(Cut(old(ed.lines), from, to - from + 1), ed.lines, from, 1)
    ensures HasText(ed.sf.data, ed.lines[from], JoinedText(old(ed.lines), from, to + 1))
    ensures old(ed.sf.data) <= ed.sf.data
    ensures ed.act.ptr == old(ed.act.ptr)
    ensures ed.act.list == TakenOff(old(ed.act.list), ed.isGlobal, NodeSet(old(ed.lines)[from..to + 1]))
  {
    var buf := CollectText(ed, from, to);
    ReplaceLines(ed, from, to, buf);
  }

  method CollectText(ed: Editor, from: int, to: int) returns (buf: string)
    requires ed.Valid() && 1 <= from <= to <= ed.addrLast
    modifies ed`cursor, ed`on, ed.sf`pos, ed.sf`sfseek, ed.sf`seekWrite
    ensures ed.Valid()
    ensures buf == JoinedText(ed.lines, from, to + 1) && '\n' !in buf
  {
    OwnLines(ed);
    JoinedOneLine(ed.sf.data, ed.lines, from, to + 1);
    var ep := ed.GetAddressedLineNode(IncMod(to, ed.addrLast));
    var bp := ed.GetAddressedLineNode(from);
    buf := GatherText(ed, bp, ep, from, to);
  }

  method ReplaceLines(ed: Editor, from: int, to: int, line: string)
    requires ed.Valid() && 1 <= from <= to <= ed.addrLast && '\n' !in line
    modifies ed`cursor, ed`on, ed`currentAddr, ed`addrLast, ed`lines, ed`nodes, ed`ustack, ed`log, ed`modified, ed.nodes, ed.sf, ed.act
    ensures ed.Valid() && SameBase(old(ed.log), ed.log) && ed.modified
    ensures forall x :: x in ed.nodes && x !in old(ed.nodes) ==> fresh(x)
    ensures ed.currentAddr == from < |ed.lines|
    ensures Inserted(Cut(old(ed.lines), from, to - from + 1), ed.lines, from, 1)
    ensures HasText(ed.sf.data, ed.lines[from], line)
    ensures old(ed.sf.data) <= ed.sf.data
    ensures ed.act.ptr == old(ed.act.ptr)
    ensures ed.act.list == TakenOff(old(ed.act.list), ed.isGlobal, NodeSet(old(ed.lines)[from..to + 1]))
  {
    ed.DeleteLines(from, to);
    ReplaceBy(ed, line, from);
  }

  /** Puts one line in where the current line's successor was, as an addition of its own. */
  method ReplaceBy(ed: Editor, line: string, ghost p: int)
    requires ed.Valid() && ed.currentAddr + 1 == p && '\n' !in line
    modifies ed`cursor, ed`on, ed`currentAddr, ed`addrLast, ed`lines, ed`nodes, ed`ustack, ed`log, ed.nodes, ed.sf
    ensures ed.Valid() && SameBase(old(ed.log), ed.log)
    ensures forall x :: x in ed.nodes && x !in old(ed.nodes) ==> fresh(x)
    ensures ed.currentAddr == p < |ed.lines| && Inserted(old(ed.lines), ed.lines, p, 1)
    ensures HasText(ed.sf.data, ed.lines[p], line)
    ensures old(ed.sf.data) <= ed.sf.data
  {
    var cs := line + "\n";
    assert cs[|line|] == '\n' && cs[0..] == cs;
    var next := AppendText(ed, cs, 0, p, 0);
    WholeLine(line, next);
    InsertedOne(old(ed.lines), old(ed.lines), p, 0, ed.lines[p]);
  }
}
