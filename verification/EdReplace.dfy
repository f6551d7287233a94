/** The s command on a range of lines: every line of the range is looked at once, whatever the others turned into. */
module EdReplace {
  import opened Basics
  import opened EdRing
  import opened EdActive
  import opened EdBuffer
  import opened EdTexts
  import opened EdCommands
  import EdSubst

  /** The newline-terminated lines of a text. */
  function LinesOf(s: string): seq<string> {
    var e := FirstNewline(s);
    if e == |s| then [] else [s[..e]] + LinesOf(s[e + 1..])
  }

  lemma LinesFrom(cs: string, start: nat, next: nat)
    requires start < next <= |cs| && cs[next - 1] == '\n' && '\n' !in cs[start..next - 1]
    ensures LinesOf(cs[start..]) == [cs[start..next - 1]] + LinesOf(cs[next..])
  {
    var s, e := cs[start..], next - 1 - start;
    assert s[..e] == cs[start..next - 1] && s[e + 1..] == cs[next..];
    FirstIs(s, e);
  }

  /** The lines of cs up to txt are texts, and more text follows if txt is not the end. */
  ghost predicate LinesSoFar(cs: string, txt: nat, texts: seq<string>) {
    && txt <= |cs| && cs != "" && cs[|cs| - 1] == '\n'
    && LinesOf(cs) == texts + LinesOf(cs[txt..])
  }

  lemma LinesSoFarNext(cs: string, txt: nat, next: nat, texts: seq<string>)
    requires LinesSoFar(cs, txt, texts)
    requires txt < next <= |cs| && cs[next - 1] == '\n' && '\n' !in cs[txt..next - 1]
    ensures LinesSoFar(cs, next, texts + [cs[txt..next - 1]])
  {
    LinesFrom(cs, txt, next);
  }

  lemma MoreLines(cs: string, txt: nat)
    requires txt < |cs| && cs[|cs| - 1] == '\n'
    ensures '\n' in cs[txt..]
  {
    assert cs[txt..][|cs| - 1 - txt] == '\n';
  }

  /** put_sbuf_line, and the update of the undo record. */
  method PutNext(ed: Editor, cs: string, txt: nat, k: nat, ghost texts: seq<string>, ghost L: seq<Line>, ghost p: int)
    returns (next: nat)
    requires Inserting(ed, L, p, texts) && k == |texts|
    requires txt < |cs| && LinesSoFar(cs, txt, texts)
    modifies ed`cursor, ed`on, ed`currentAddr, ed`addrLast, ed`lines, ed`nodes, ed`ustack, ed`log, ed.nodes, ed.sf
    ensures txt < next <= |cs| && LinesSoFar(cs, next, texts + [cs[txt..next - 1]])
    ensures Inserting(ed, L, p, texts + [cs[txt..next - 1]])
    ensures SameBase(old(ed.log), ed.log)
    ensures forall x :: x in ed.nodes && x !in old(ed.nodes) ==> fresh(x)
    ensures old(ed.sf.data) <= ed.sf.data
  {
    MoreLines(cs, txt);
    next := InsertText(ed, cs, txt, L, p, k, texts);
    LinesSoFarNext(cs, txt, next, texts);
  }

  /** Puts the lines of cs in after the current line, as one addition. */
  method PutLines(ed: Editor, cs: string, ghost p: int)
    requires ed.Valid() && ed.currentAddr + 1 == p && cs != "" && cs[|cs| - 1] == '\n'
    modifies ed`cursor, ed`on, ed`currentAddr, ed`addrLast, ed`lines, ed`nodes, ed`ustack, ed`log, ed.nodes, ed.sf
    ensures Inserting(ed, old(ed.lines), p, LinesOf(cs))
    ensures SameBase(old(ed.log), ed.log)
    ensures forall x :: x in ed.nodes && x !in old(ed.nodes) ==> fresh(x)
    ensures old(ed.sf.data) <= ed.sf.data
  {
    ghost var texts, L := [], ed.lines;
    var txt, k := 0, 0;
    StartLines(cs, ed, p);
    while txt < |cs|
      invariant k == |texts| && LinesSoFar(cs, txt, texts)
      invariant Inserting(ed, L, p, texts)
      invariant SameBase(old(ed.log), ed.log)
      invariant forall x :: x in ed.nodes && x !in old(ed.nodes) ==> fresh(x)
      invariant old(ed.sf.data) <= ed.sf.data
      decreases |cs| - txt
    {
      var next := PutNext(ed, cs, txt, k, texts, L, p);
      texts := texts + [cs[txt..next - 1]];
      txt, k := next, k + 1;
    }
    assert cs[txt..] == "" && texts + [] == texts;
  }

  lemma StartLines(cs: string, ed: Editor, p: int)
    requires ed.Valid() && ed.currentAddr + 1 == p && cs != "" && cs[|cs| - 1] == '\n'
    ensures LinesSoFar(cs, 0, []) && Inserting(ed, ed.lines, p, [])
  {
    assert cs[0..] == cs && ed.lines[p..p] == [];
  }

  /** delete_lines on one line, then the lines of out in its place. */
  method ReplaceLine(ed: Editor, a: int, out: string) returns (ghost part: seq<Line>)
    requires ed.Valid() && 1 <= a <= ed.addrLast && out != "" && out[|out| - 1] == '\n'
    modifies ed`cursor, ed`on, ed`currentAddr, ed`addrLast, ed`lines, ed`nodes, ed`ustack, ed`log, ed`modified, ed.nodes, ed.sf, ed.act
    ensures ed.Valid() && SameBase(old(ed.log), ed.log)
    ensures (forall x :: x in ed.nodes && x !in old(ed.nodes) ==> fresh(x)) && old(ed.sf.data) <= ed.sf.data
    ensures ed.currentAddr == a - 1 + |part|
    ensures ed.lines == old(ed.lines)[..a] + part + old(ed.lines)[a + 1..]
    ensures AllTexts(part) == LinesOf(out)
    ensures ed.act.ptr == old(ed.act.ptr) && ed.act.list == TakenOff(old(ed.act.list), ed.isGlobal, {old(ed.lines)[a]})
  {
    OneLine(ed.lines, a);
    ed.DeleteLines(a, a);
    PutLines(ed, out, a);
    part := InsteadOf(old(ed.lines), ed.lines, a, |LinesOf(out)|);
    OwnLines(ed);
    OwnSlice(ed.lines, a, a + |part|, ed.sf.data);
    TextsAre(part, LinesOf(out), ed.sf.data);
  }

  lemma InsteadOf(L: seq<Line>, L': seq<Line>, a: int, n: nat) returns (part: seq<Line>)
    requires 0 <= a < |L| && Inserted(Cut(L, a, 1), L', a, n)
    ensures part == L'[a..a + n] && L' == L[..a] + part + L[a + 1..]
  {
    part := L'[a..a + n];
    assert L' == L'[..a] + part + L'[a + n..];
    assert Cut(L', a, n)[..a] == L'[..a] && Cut(L', a, n)[a..] == L'[a + n..];
  }

  datatype Command = Command(pat: EdSubst.Matcher, template: string, kth: nat, global: bool)

  ghost function Result(cmd: Command, x: Line): EdSubst.Outcome
    requires EdSubst.Matches(cmd.pat)
  {
    EdSubst.Substituted(cmd.pat, cmd.template, x.text, cmd.kth, cmd.global)
  }

  /** A line that is changed leaves the buffer. */
  ghost function IfChanged(cmd: Command, x: Line): set<Line>
    requires EdSubst.Matches(cmd.pat)
  {
    if Result(cmd, x).Replaced? then {x} else {}
  }

  ghost function ChangedLines(cmd: Command, S: seq<Line>): set<Line>
    requires EdSubst.Matches(cmd.pat)
  {
    set x | x in S && Result(cmd, x).Replaced?
  }

  lemma TakenOffNone(cmd: Command, list: seq<Line?>, isGlobal: bool, L: seq<Line>, first: int)
    requires EdSubst.Matches(cmd.pat) && 0 <= first <= |L|
    ensures TakenOff(list, isGlobal, ChangedLines(cmd, L[first..first])) == list
  {
    assert L[first..first] == [] && ChangedLines(cmd, []) == {};
    TakenOffTwice(list, isGlobal, {}, {});
  }

  lemma TakenOffNext(cmd: Command, list: seq<Line?>, isGlobal: bool, L: seq<Line>, first: int, lc: int)
    requires EdSubst.Matches(cmd.pat) && 0 <= first <= first + lc < |L| && lc >= 0
    ensures TakenOff(TakenOff(list, isGlobal, ChangedLines(cmd, L[first..first + lc])), isGlobal, IfChanged(cmd, L[first + lc]))
            == TakenOff(list, isGlobal, ChangedLines(cmd, L[first..first + lc + 1]))
    ensures Result(cmd, L[first + lc]).Endless? ==>
      ChangedLines(cmd, L[first..first + lc + 1]) == ChangedLines(cmd, L[first..first + lc])
  {
    var S, x := L[first..first + lc], L[first + lc];
    assert L[first..first + lc + 1] == S + [x];
    assert ChangedLines(cmd, S + [x]) == ChangedLines(cmd, S) + IfChanged(cmd, x);
    TakenOffTwice(list, isGlobal, ChangedLines(cmd, S), IfChanged(cmd, x));
  }

  lemma OneLine(L: seq<Line>, a: int)
    requires 0 <= a < |L|
    ensures NodeSet(L[a..a + 1]) == {L[a]}
  {
  }

  /** What became of line x: it stays, or these lines have come in its place. */
  ghost predicate PartOk(cmd: Command, x: Line, part: seq<Line>)
    requires EdSubst.Matches(cmd.pat)
  {
    match Result(cmd, x)
    case Unchanged => part == [x]
    case Replaced(out) => AllTexts(part) == LinesOf(out)
    case Endless => false
  }

  ghost predicate PartAt(cmd: Command, visited: seq<Line>, parts: seq<seq<Line>>, i: int)
    requires EdSubst.Matches(cmd.pat) && 0 <= i < |parts| == |visited|
  {
    PartOk(cmd, visited[i], parts[i])
  }

  /** The parts are what became of the lines visited, one by one. */
  ghost predicate PartsOk(cmd: Command, visited: seq<Line>, parts: seq<seq<Line>>)
    requires EdSubst.Matches(cmd.pat)
  {
    |parts| == |visited| && forall i :: 0 <= i < |parts| ==> PartAt(cmd, visited, parts, i)
  }

  lemma PartsNext(cmd: Command, visited: seq<Line>, parts: seq<seq<Line>>, x: Line, part: seq<Line>)
    requires EdSubst.Matches(cmd.pat) && PartsOk(cmd, visited, parts) && PartOk(cmd, x, part)
    ensures PartsOk(cmd, visited + [x], parts + [part])
  {
    forall i | 0 <= i < |parts| + 1 ensures PartAt(cmd, visited + [x], parts + [part], i) {
      assert i < |parts| ==> PartAt(cmd, visited, parts, i);
    }
  }

  /** The lines after before that were visited have become parts, and after is still to be visited. */
  ghost predicate ReplacingAt(cmd: Command, before: seq<Line>, visited: seq<Line>, after: seq<Line>, parts: seq<seq<Line>>,
                              lines: seq<Line>, current: int)
    requires EdSubst.Matches(cmd.pat)
  {
    && before != [] && current == |before| - 1 + |Flatten(parts)|
    && lines == before + Flatten(parts) + after
    && PartsOk(cmd, visited, parts)
  }

  /** The next line of the range is the next line of the old buffer, whatever the lines before it turned into. */
  lemma RangeNext(before: seq<Line>, flat: seq<Line>, x: Line, after: seq<Line>, lines: seq<Line>)
    requires before != [] && lines == before + flat + ([x] + after)
    ensures 1 <= |before| + |flat| < |lines| && lines[|before| + |flat|] == x
    ensures lines[..|before| + |flat|] == before + flat && lines[|before| + |flat| + 1..] == after
  {
  }

  lemma TurnedLines(before: seq<Line>, flat: seq<Line>, x: Line, after: seq<Line>, lines: seq<Line>, part: seq<Line>, lines': seq<Line>)
    requires before != [] && lines == before + flat + ([x] + after)
    requires var a := |before| + |flat|; a < |lines| && lines' == lines[..a] + part + lines[a + 1..]
    ensures lines' == before + (flat + part) + after
  {
    RangeNext(before, flat, x, after, lines);
  }

  /** What a turn of the loop did to the range. */
  lemma ReplacingStep(cmd: Command, before: seq<Line>, visited: seq<Line>, x: Line, after: seq<Line>, parts: seq<seq<Line>>,
                      lines: seq<Line>, part: seq<Line>, lines': seq<Line>, current: int)
    requires EdSubst.Matches(cmd.pat)
    requires ReplacingAt(cmd, before, visited, [x] + after, parts, lines, |before| - 1 + |Flatten(parts)|)
    requires PartOk(cmd, x, part)
    requires current == |before| - 1 + |Flatten(parts)| + |part|
    requires var a := |before| + |Flatten(parts)|; a < |lines| && lines' == lines[..a] + part + lines[a + 1..]
    ensures ReplacingAt(cmd, before, visited + [x], after, parts + [part], lines', current)
  {
    FlattenOneMore(parts, part);
    TurnedLines(before, Flatten(parts), x, after, lines, part, lines');
    PartsNext(cmd, visited, parts, x, part);
  }

  /** One turn of the loop: line a is looked at, and replaced if there is something to substitute. */
  method VisitLine(ed: Editor, cmd: Command, a: int) returns (res: EdSubst.Outcome, ghost part: seq<Line>)
    requires EdSubst.Matches(cmd.pat) && ed.Valid() && 1 <= a <= ed.addrLast
    modifies ed`cursor, ed`on, ed`currentAddr, ed`addrLast, ed`lines, ed`nodes, ed`ustack, ed`log, ed`modified, ed.nodes, ed.sf, ed.act
    ensures ed.Valid() && SameBase(old(ed.log), ed.log)
    ensures forall x :: x in ed.nodes && x !in old(ed.nodes) ==> fresh(x)
    ensures res == Result(cmd, old(ed.lines)[a])
    ensures ed.currentAddr == a - 1 + |part| && ed.lines == old(ed.lines)[..a] + part + old(ed.lines)[a + 1..]
    ensures if res.Replaced? then AllTexts(part) == LinesOf(res.text) else part == [old(ed.lines)[a]]
    ensures ed.act.ptr == old(ed.act.ptr) && ed.act.list == TakenOff(old(ed.act.list), ed.isGlobal, IfChanged(cmd, old(ed.lines)[a]))
  {
    TakenOffTwice(ed.act.list, ed.isGlobal, {}, {});
    var txt := FetchLine(ed, a);
    res := EdSubst.SubstituteMatchingText(cmd.pat, cmd.template, txt, cmd.kth, cmd.global);
    if res.Replaced? {
      part := ReplaceLine(ed, a, res.text);
    } else {
      part := [ed.lines[a]];
    }
  }

  method FetchLine(ed: Editor, a: int) returns (txt: string)
    requires ed.Valid() && 1 <= a <= ed.addrLast
    modifies ed`cursor, ed`on, ed`currentAddr, ed.sf`pos, ed.sf`sfseek, ed.sf`seekWrite
    ensures ed.Valid() && ed.currentAddr == a
    ensures txt == ed.lines[a].text
  {
    ed.currentAddr := a;
    var lp := ed.GetAddressedLineNode(a);
    txt := ed.GetSbufLine(lp);
  }

  /** A turn of the loop as seen from the range. */
  method ReplaceNext(ed: Editor, cmd: Command, ghost before: seq<Line>, ghost visited: seq<Line>, ghost x: Line,
                     ghost after: seq<Line>, ghost parts: seq<seq<Line>>)
    returns (res: EdSubst.Outcome, ghost part: seq<Line>)
    requires EdSubst.Matches(cmd.pat) && ed.Valid()
    requires ReplacingAt(cmd, before, visited, [x] + after, parts, ed.lines, ed.currentAddr)
    modifies ed`cursor, ed`on, ed`currentAddr, ed`addrLast, ed`lines, ed`nodes, ed`ustack, ed`log, ed`modified, ed.nodes, ed.sf, ed.act
    ensures ed.Valid() && SameBase(old(ed.log), ed.log)
    ensures forall x :: x in ed.nodes && x !in old(ed.nodes) ==> fresh(x)
    ensures res == Result(cmd, x)
    ensures !res.Endless? ==> ReplacingAt(cmd, before, visited + [x], after, parts + [part], ed.lines, ed.currentAddr)
    ensures res.Unchanged? ==> part == [x]
    ensures ed.act.ptr == old(ed.act.ptr) && ed.act.list == TakenOff(old(ed.act.list), ed.isGlobal, IfChanged(cmd, x))
  {
    ghost var lines := ed.lines;
    RangeNext(before, Flatten(parts), x, after, ed.lines);
    res, part := VisitLine(ed, cmd, ed.currentAddr + 1);
    if !res.Endless? {
      ReplacingStep(cmd, before, visited, x, after, parts, lines, part, ed.lines, ed.currentAddr);
    }
  }

  datatype Status = Done | NoMatch | EndlessLoop

  /** The last line that was changed left its last line at address xa. */
  ghost predicate LastChange(cmd: Command, before: seq<Line>, visited: seq<Line>, parts: seq<seq<Line>>, last: int, xa: int)
    requires EdSubst.Matches(cmd.pat)
  {
    && -1 <= last < |parts| == |visited|
    && (last >= 0 ==> Result(cmd, visited[last]).Replaced? && xa == |before| - 1 + |Flatten(parts[..last + 1])|)
    && forall j :: last < j < |parts| ==> Result(cmd, visited[j]).Unchanged?
  }

  lemma LastChangeNext(cmd: Command, before: seq<Line>, visited: seq<Line>, parts: seq<seq<Line>>, last: int, xa: int, x: Line, part: seq<Line>)
    requires EdSubst.Matches(cmd.pat) && LastChange(cmd, before, visited, parts, last, xa)
    ensures Result(cmd, x).Unchanged? ==> LastChange(cmd, before, visited + [x], parts + [part], last, xa)
    ensures Result(cmd, x).Replaced? ==>
      LastChange(cmd, before, visited + [x], parts + [part], |parts|, |before| - 1 + |Flatten(parts + [part])|)
  {
    assert last >= 0 ==> (parts + [part])[..last + 1] == parts[..last + 1];
    assert (parts + [part])[..|parts| + 1] == parts + [part];
  }

  lemma {:induction false} NothingChanged(cmd: Command, before: seq<Line>, visited: seq<Line>, parts: seq<seq<Line>>, xa: int)
    requires EdSubst.Matches(cmd.pat) && PartsOk(cmd, visited, parts) && LastChange(cmd, before, visited, parts, -1, xa)
    ensures Flatten(parts) == visited
  {
    if parts != [] {
      var k := |parts| - 1;
      assert PartAt(cmd, visited, parts, k);
      forall i | 0 <= i < k ensures PartAt(cmd, visited[..k], parts[..k], i) {
        assert PartAt(cmd, visited, parts, i);
      }
      NothingChanged(cmd, before, visited[..k], parts[..k], xa);
      assert visited == visited[..k] + [visited[k]];
    }
  }

  /** The loop of search_and_replace between two turns. */
  ghost predicate Searching(ed: Editor, cmd: Command, L: seq<Line>, first: int, lc: int, parts: seq<seq<Line>>, last: int, xa: int)
    requires EdSubst.Matches(cmd.pat) && 1 <= first <= first + lc <= |L| && lc >= 0
    reads ed, ed.nodes, ed.sf, ed.act, ed.marks
  {
    && ed.Valid() && 0 <= xa <= ed.addrLast
    && ReplacingAt(cmd, L[..first], L[first..first + lc], L[first + lc..], parts, ed.lines, ed.currentAddr)
    && LastChange(cmd, L[..first], L[first..first + lc], parts, last, xa)
  }

  method SearchNext(ed: Editor, cmd: Command, xa: int, ghost L: seq<Line>, ghost first: int, ghost lc: int,
                    ghost parts: seq<seq<Line>>, ghost last: int, ghost list: seq<Line?>)
    returns (res: EdSubst.Outcome, ghost part: seq<Line>)
    requires EdSubst.Matches(cmd.pat) && 1 <= first <= first + lc < |L| && lc >= 0
    requires ed.act.list == TakenOff(list, ed.isGlobal, ChangedLines(cmd, L[first..first + lc]))
    requires Searching(ed, cmd, L, first, lc, parts, last, xa)
    modifies ed`cursor, ed`on, ed`currentAddr, ed`addrLast, ed`lines, ed`nodes, ed`ustack, ed`log, ed`modified, ed.nodes, ed.sf, ed.act
    ensures ed.Valid() && SameBase(old(ed.log), ed.log)
    ensures forall x :: x in ed.nodes && x !in old(ed.nodes) ==> fresh(x)
    ensures res == Result(cmd, L[first + lc])
    ensures res.Replaced? ==> Searching(ed, cmd, L, first, lc + 1, parts + [part], lc, ed.currentAddr)
    ensures res.Unchanged? ==> Searching(ed, cmd, L, first, lc + 1, parts + [part], last, xa)
    ensures ed.act.ptr == old(ed.act.ptr)
    ensures ed.act.list == TakenOff(list, ed.isGlobal, ChangedLines(cmd, L[first..first + if res.Endless? then lc else lc + 1]))
  {
    hide Editor.PartsValid, TakenOff, ChangedLines, IfChanged;
    ghost var x := L[first + lc];
    TakenOffNext(cmd, list, ed.isGlobal, L, first, lc);
    assert L[first + lc..] == [x] + L[first + lc + 1..];
    assert L[first..first + lc + 1] == L[first..first + lc] + [x];
    res, part := ReplaceNext(ed, cmd, L[..first], L[first..first + lc], x, L[first + lc + 1..], parts);
    LastChangeNext(cmd, L[..first], L[first..first + lc], parts, last, xa, x, part);
  }

  /** Each line of the range was looked at exactly once and has become its part, and all other lines are as they
      were; xa is the last line of the last part that was changed. */
  ghost predicate Searched(cmd: Command, L: seq<Line>, first: int, second: int, parts: seq<seq<Line>>, last: int,
                           lines: seq<Line>, xa: int)
    requires EdSubst.Matches(cmd.pat) && 1 <= first <= second < |L|
  {
    && PartsOk(cmd, L[first..second + 1], parts)
    && lines == L[..first] + Flatten(parts) + L[second + 1..]
    && LastChange(cmd, L[..first], L[first..second + 1], parts, last, xa)
  }

  lemma SearchedAll(ed: Editor, cmd: Command, L: seq<Line>, first: int, second: int, lc: int, parts: seq<seq<Line>>, last: int, xa: int)
    requires EdSubst.Matches(cmd.pat) && 1 <= first <= second < |L| && lc == second - first + 1
    requires Searching(ed, cmd, L, first, lc, parts, last, xa)
    ensures Searched(cmd, L, first, second, parts, last, ed.lines, xa)
  {
  }

  /** The loop of search_and_replace over the range, the current line being the one before it. */
  method SearchRange(ed: Editor, cmd: Command, first: int, second: int, xa0: int)
    returns (endless: bool, nsubs: nat, xa: int, ghost parts: seq<seq<Line>>, ghost last: int)
    requires EdSubst.Matches(cmd.pat) && 1 <= first <= second < |ed.lines|
    requires Searching(ed, cmd, ed.lines, first, 0, [], -1, xa0)
    modifies ed`cursor, ed`on, ed`currentAddr, ed`addrLast, ed`lines, ed`nodes, ed`ustack, ed`log, ed`modified, ed.nodes, ed.sf, ed.act
    ensures ed.Valid() && SameBase(old(ed.log), ed.log)
    ensures forall x :: x in ed.nodes && x !in old(ed.nodes) ==> fresh(x)
    ensures !endless ==> 0 <= xa <= ed.addrLast && Searched(cmd, old(ed.lines), first, second, parts, last, ed.lines, xa)
    ensures if last == -1 then nsubs == 0 && xa == xa0 else nsubs > 0
    ensures endless ==> |parts| < second - first + 1 && Result(cmd, old(ed.lines)[first + |parts|]).Endless?
    ensures |parts| <= second - first + 1 && (!endless ==> |parts| == second - first + 1)
    ensures ed.act.ptr == old(ed.act.ptr) && ed.act.list == TakenOff(old(ed.act.list), ed.isGlobal, ChangedLines(cmd, old(ed.lines)[first..first + |parts|]))
  {
    hide Editor.PartsValid, TakenOff, ChangedLines, ReplacingAt, LastChange, Searched;
    var lc := 0;
    nsubs, xa, endless := 0, xa0, false;
    ghost var L := ed.lines;
    parts, last := [], -1;
    TakenOffNone(cmd, ed.act.list, ed.isGlobal, L, first);
    while lc <= second - first && !endless
      invariant 0 <= lc <= second - first + 1
      invariant ed.Valid() && (!endless ==> Searching(ed, cmd, L, first, lc, parts, last, xa))
      invariant if last == -1 then nsubs == 0 && xa == xa0 else nsubs > 0
      invariant SameBase(old(ed.log), ed.log)
      invariant forall x :: x in ed.nodes && x !in old(ed.nodes) ==> fresh(x)
      invariant endless ==> lc < second - first + 1 && Result(cmd, L[first + lc]).Endless?
      invariant |parts| == lc && ed.act.ptr == old(ed.act.ptr)
      invariant ed.act.list == TakenOff(old(ed.act.list), ed.isGlobal, ChangedLines(cmd, L[first..first + lc]))
      decreases second - first + 1 - lc, !endless
    {
      var res;
      ghost var part;
      res, part := SearchNext(ed, cmd, xa, L, first, lc, parts, last, old(ed.act.list));
      if res.Endless? {
        endless := true;
      } else {
        if res.Replaced? {
          nsubs, xa, last := nsubs + 1, ed.currentAddr, lc;
        }
        parts, lc := parts + [part], lc + 1;
      }
    }
    if !endless {
      SearchedAll(ed, cmd, L, first, second, lc, parts, last, xa);
    }
  }

  method SearchFrom(ed: Editor, cmd: Command, first: int, second: int)
    returns (endless: bool, nsubs: nat, xa: int, ghost parts: seq<seq<Line>>, ghost last: int)
    requires EdSubst.Matches(cmd.pat) && ed.Valid() && 1 <= first <= second <= ed.addrLast
    modifies ed`cursor, ed`on, ed`currentAddr, ed`addrLast, ed`lines, ed`nodes, ed`ustack, ed`log, ed`modified, ed.nodes, ed.sf, ed.act
    ensures ed.Valid() && SameBase(old(ed.log), ed.log)
    ensures forall x :: x in ed.nodes && x !in old(ed.nodes) ==> fresh(x)
    ensures 0 <= xa <= ed.addrLast || endless
    ensures !endless ==> Searched(cmd, old(ed.lines), first, second, parts, last, ed.lines, xa)
    ensures nsubs == 0 <==> last == -1
    ensures nsubs == 0 ==> xa == old(ed.currentAddr)
    ensures endless ==> |parts| < second - first + 1 && Result(cmd, old(ed.lines)[first + |parts|]).Endless?
    ensures |parts| <= second - first + 1 && (!endless ==> |parts| == second - first + 1)
    ensures ed.act.ptr == old(ed.act.ptr) && ed.act.list == TakenOff(old(ed.act.list), ed.isGlobal, ChangedLines(cmd, old(ed.lines)[first..first + |parts|]))
  {
    xa := BeginSearch(ed, cmd, first);
    endless, nsubs, xa, parts, last := SearchRange(ed, cmd, first, second, xa);
  }

  method BeginSearch(ed: Editor, cmd: Command, first: int) returns (xa: int)
    requires EdSubst.Matches(cmd.pat) && ed.Valid() && 1 <= first <= ed.addrLast
    modifies ed`currentAddr
    ensures xa == old(ed.currentAddr) && Searching(ed, cmd, ed.lines, first, 0, [], -1, xa)
  {
    xa := ed.currentAddr;
    ed.currentAddr := first - 1;
    StartSearch(ed, cmd, first, xa);
  }

  /** The s command on lines first..second. */
  method SearchAndReplace(ed: Editor, cmd: Command, first: int, second: int) returns (status: Status, ghost parts: seq<seq<Line>>, ghost last: int)
    requires EdSubst.Matches(cmd.pat) && ed.Valid() && 1 <= first <= second <= ed.addrLast
    modifies ed`cursor, ed`on, ed`currentAddr, ed`addrLast, ed`lines, ed`nodes, ed`ustack, ed`log, ed`modified, ed.nodes, ed.sf, ed.act
    ensures ed.Valid() && SameBase(old(ed.log), ed.log)
    ensures forall x :: x in ed.nodes && x !in old(ed.nodes) ==> fresh(x)
    ensures status != EndlessLoop ==>
      Searched(cmd, old(ed.lines), first, second, parts, last, ed.lines, ed.currentAddr)
    ensures status != EndlessLoop && last == -1 ==> ed.lines == old(ed.lines) && ed.currentAddr == old(ed.currentAddr)
    ensures status == NoMatch ==> last == -1 && !ed.isGlobal
    ensures status == Done ==> last >= 0 || ed.isGlobal
    ensures status == EndlessLoop ==> |parts| < second - first + 1 && Result(cmd, old(ed.lines)[first + |parts|]).Endless?
    ensures |parts| <= second - first + 1 && (status != EndlessLoop ==> |parts| == second - first + 1)
    ensures ed.act.ptr == old(ed.act.ptr) && ed.act.list == TakenOff(old(ed.act.list), ed.isGlobal, ChangedLines(cmd, old(ed.lines)[first..first + |parts|]))
  {
    var endless, nsubs, xa;
    endless, nsubs, xa, parts, last := SearchFrom(ed, cmd, first, second);
    if endless {
      return EndlessLoop, parts, last;
    }
    ed.currentAddr := xa;
    if last == -1 {
      WholeRange(cmd, old(ed.lines), first, second, parts, xa);
    }
    status := if nsubs == 0 && !ed.isGlobal then NoMatch else Done;
  }

  lemma StartSearch(ed: Editor, cmd: Command, first: int, xa: int)
    requires EdSubst.Matches(cmd.pat) && ed.Valid() && 1 <= first <= ed.addrLast && 0 <= xa <= ed.addrLast
    requires ed.currentAddr == first - 1
    ensures Searching(ed, cmd, ed.lines, first, 0, [], -1, xa)
  {
    var L := ed.lines;
    assert L[first..first] == [] && L[..first] + [] + L[first..] == L;
  }

  lemma WholeRange(cmd: Command, L: seq<Line>, first: int, second: int, parts: seq<seq<Line>>, xa: int)
    requires EdSubst.Matches(cmd.pat) && 1 <= first <= second < |L| && PartsOk(cmd, L[first..second + 1], parts)
    requires LastChange(cmd, L[..first], L[first..second + 1], parts, -1, xa)
    ensures L[..first] + Flatten(parts) + L[second + 1..] == L
  {
    NothingChanged(cmd, L[..first], L[first..second + 1], parts, xa);
  }
}
