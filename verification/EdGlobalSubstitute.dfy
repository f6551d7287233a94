/** g/re/s: each selected line of the range becomes the lines of its substitution, and the others stay. */
module EdGlobalSubstitute {
  import opened Basics
  import opened EdRing
  import opened EdActive
  import opened EdBuffer
  import opened EdCommands
  import opened EdTexts
  import opened EdMeaning
  import opened EdGlobal
  import opened EdGlobalDelete

  /** The substitution on the selected texts only. */
  ghost function SubstChosen(cmd: EdReplace.Command, T: seq<string>, sel: string -> bool): seq<string>
    requires EdSubst.Matches(cmd.pat)
  {
    if T == [] then [] else (if sel(T[0]) then SubstLine(cmd, T[0]) else [T[0]]) + SubstChosen(cmd, T[1..], sel)
  }

  /** The lines with some of them replaced. */
  ghost function Spread(L: seq<Line>, parts: map<Line, seq<Line>>): seq<Line> {
    if L == [] then [] else (if L[0] in parts then parts[L[0]] else [L[0]]) + Spread(L[1..], parts)
  }

  lemma {:induction false} SpreadConcat(A: seq<Line>, B: seq<Line>, parts: map<Line, seq<Line>>)
    ensures Spread(A + B, parts) == Spread(A, parts) + Spread(B, parts)
  {
    if A == [] {
      assert A + B == B;
    } else {
      assert (A + B)[1..] == A[1..] + B;
      SpreadConcat(A[1..], B, parts);
    }
  }

  lemma {:induction false} SpreadOther(A: seq<Line>, parts: map<Line, seq<Line>>, x: Line, part: seq<Line>)
    requires x !in A
    ensures Spread(A, parts[x := part]) == Spread(A, parts)
  {
    if A != [] {
      SpreadOther(A[1..], parts, x, part);
    }
  }

  lemma {:induction false} SpreadNone(A: seq<Line>, parts: map<Line, seq<Line>>)
    requires forall x :: x in A ==> x !in parts
    ensures Spread(A, parts) == A
  {
    if A != [] {
      SpreadNone(A[1..], parts);
    }
  }

  /** Replacing a line in the buffer, wherever it is by now. */
  lemma SpreadNext(L: seq<Line>, parts: map<Line, seq<Line>>, lines: seq<Line>, c: int, x: Line, part: seq<Line>)
    requires Distinct(L) && Distinct(lines) && lines == Spread(L, parts) && x in L && x !in parts
    requires 0 <= c < |lines| && lines[c] == x
    ensures lines[..c] + part + lines[c + 1..] == Spread(L, parts[x := part])
  {
    var i :| 0 <= i < |L| && L[i] == x;
    var A, B := L[..i], L[i + 1..];
    assert OnlyAt(L, i);
    assert L == A + ([x] + B);
    SpreadThree(A, x, B, parts);
    SpreadThree(A, x, B, parts[x := part]);
    SpreadOther(A, parts, x, part);
    SpreadOther(B, parts, x, part);
    Located(lines, Spread(A, parts), x, Spread(B, parts), c);
  }

  lemma SpreadThree(A: seq<Line>, x: Line, B: seq<Line>, parts: map<Line, seq<Line>>)
    ensures Spread(A + ([x] + B), parts) == Spread(A, parts) + (if x in parts then parts[x] else [x]) + Spread(B, parts)
  {
    SpreadConcat(A, [x] + B, parts);
    assert ([x] + B)[1..] == B;
  }

  lemma Located(lines: seq<Line>, U: seq<Line>, x: Line, V: seq<Line>, c: int)
    requires Distinct(lines) && lines == U + [x] + V && 0 <= c < |lines| && lines[c] == x
    ensures c == |U| && lines[..c] == U && lines[c + 1..] == V
  {
    assert lines[|U|] == x && OnlyAt(lines, c);
  }

  /** The parts are what the substitution makes of the lines. */
  ghost predicate AllParts(cmd: EdReplace.Command, parts: map<Line, seq<Line>>)
    requires EdSubst.Matches(cmd.pat)
  {
    forall x :: x in parts ==> EdReplace.PartOk(cmd, x, parts[x])
  }

  lemma PartText(cmd: EdReplace.Command, x: Line, part: seq<Line>)
    requires EdSubst.Matches(cmd.pat) && EdReplace.PartOk(cmd, x, part)
    ensures AllTexts(part) == SubstLine(cmd, x.text)
  {
  }

  lemma {:induction false} SpreadTexts(cmd: EdReplace.Command, A: seq<Line>, parts: map<Line, seq<Line>>, sel: string -> bool)
    requires EdSubst.Matches(cmd.pat) && AllParts(cmd, parts)
    requires forall x :: x in A ==> (x in parts <==> sel(x.text))
    ensures AllTexts(Spread(A, parts)) == SubstChosen(cmd, AllTexts(A), sel)
  {
    hide EdReplace.PartOk;
    if A != [] {
      SpreadTexts(cmd, A[1..], parts, sel);
      TextsSlice(A, 1, |A|);
      var first := if A[0] in parts then parts[A[0]] else [A[0]];
      TextsConcat(first, Spread(A[1..], parts));
      if A[0] in parts {
        PartText(cmd, A[0], parts[A[0]]);
      } else {
        assert AllTexts([A[0]]) == [A[0].text];
      }
    }
  }

  /** The first q lines of the list have been replaced by their parts. */
  ghost predicate Substituting(ed: Editor, cmd: EdReplace.Command, L: seq<Line>, current: int, list: seq<Line>, q: int, parts: map<Line, seq<Line>>)
    requires EdSubst.Matches(cmd.pat)
    reads ed, ed.act
  {
    StillListed(ed, list, q) && PartsFor(cmd, L, list, q, parts, ed.lines) && CurrentFor(L, current, list, q, parts, ed.currentAddr)
  }

  /** The current line is the last one of the part visited last. */
  ghost predicate CurrentFor(L: seq<Line>, current: int, list: seq<Line>, q: int, parts: map<Line, seq<Line>>, current': int)
    requires 0 <= q <= |list|
  {
    if q == 0 then current' == current
    else
      var x := list[q - 1];
      exists i :: IsAt(L, i, x) && current' == |Spread(L[..i + 1], parts)| - 1
  }

  ghost predicate PartsFor(cmd: EdReplace.Command, L: seq<Line>, list: seq<Line>, q: int, parts: map<Line, seq<Line>>, lines: seq<Line>)
    requires EdSubst.Matches(cmd.pat) && 0 <= q <= |list|
  {
    AllParts(cmd, parts) && parts.Keys == NodeSet(list[..q]) && lines == Spread(L, parts)
  }

  /** No line is listed twice, and all are in the buffer. */
  ghost predicate ListIn(list: seq<Line>, L: seq<Line>) {
    (forall i, j :: 0 <= i < j < |list| ==> list[i] != list[j]) && forall i :: 0 <= i < |list| ==> list[i] in L
  }

  lemma PartsNext(cmd: EdReplace.Command, L: seq<Line>, list: seq<Line>, q: int, parts: map<Line, seq<Line>>, lines: seq<Line>,
                  c: int, part: seq<Line>)
    requires EdSubst.Matches(cmd.pat) && 0 <= q < |list| && PartsFor(cmd, L, list, q, parts, lines)
    requires Distinct(L) && Distinct(lines) && ListIn(list, L) && 0 <= c < |lines| && lines[c] == list[q]
    requires EdReplace.PartOk(cmd, list[q], part)
    ensures PartsFor(cmd, L, list, q + 1, parts[list[q] := part], lines[..c] + part + lines[c + 1..])
  {
    hide EdReplace.PartOk, Spread;
    var x := list[q];
    assert list[..q + 1] == list[..q] + [x];
    assert x !in NodeSet(list[..q]);
    SpreadNext(L, parts, lines, c, x, part);
  }

  lemma CurrentNext(cmd: EdReplace.Command, L: seq<Line>, current: int, list: seq<Line>, q: int, parts: map<Line, seq<Line>>,
                    lines: seq<Line>, c: int, part: seq<Line>)
    requires EdSubst.Matches(cmd.pat) && 0 <= q < |list| && PartsFor(cmd, L, list, q, parts, lines)
    requires Distinct(L) && Distinct(lines) && ListIn(list, L) && 0 <= c < |lines| && lines[c] == list[q]
    ensures CurrentFor(L, current, list, q + 1, parts[list[q] := part], c - 1 + |part|)
  {
    hide Spread, AllParts;
    var x := list[q];
    var i :| 0 <= i < |L| && L[i] == x;
    var A, B := L[..i], L[i + 1..];
    assert OnlyAt(L, i);
    assert L == A + ([x] + B) && L[..i + 1] == A + ([x] + []);
    assert x !in NodeSet(list[..q]);
    SpreadThree(A, x, B, parts);
    Located(lines, Spread(A, parts), x, Spread(B, parts), c);
    SpreadOther(A, parts, x, part);
    SpreadThree(A, x, [], parts[x := part]);
    SpreadNone([], parts[x := part]);
    assert IsAt(L, i, list[q + 1 - 1]);
  }

  /** The next line listed is visited, and the substitution done on it. */
  method SubstituteNext(ed: Editor, cmd: EdReplace.Command, ghost L: seq<Line>, ghost current: int, ghost list: seq<Line>, ghost q: int,
                        ghost parts: map<Line, seq<Line>>)
    returns (lp: Line?, ok: bool, ghost parts': map<Line, seq<Line>>)
    requires EdSubst.Matches(cmd.pat) && Distinct(L) && ListIn(list, L)
    requires ed.Valid() && ed.isGlobal && Substituting(ed, cmd, L, current, list, q, parts)
    modifies ed`cursor, ed`on, ed`currentAddr, ed`addrLast, ed`lines, ed`nodes, ed`ustack, ed`log, ed`modified, ed.nodes, ed.sf, ed.act
    ensures ed.Valid() && SameBase(old(ed.log), ed.log)
    ensures forall x :: x in ed.nodes && x !in old(ed.nodes) ==> fresh(x)
    ensures lp == null ==> ok && q == |list| && parts' == parts && Substituting(ed, cmd, L, current, list, q, parts)
    ensures lp != null ==> q < |list|
    ensures lp != null && ok ==> Substituting(ed, cmd, L, current, list, q + 1, parts') && !EdReplace.Result(cmd, list[q]).Endless?
    ensures !ok ==> EdReplace.Result(cmd, list[q]).Endless?
  {
    hide Editor.PartsValid, PartsFor, CurrentFor;
    ghost var was := ed.act.list;
    lp := VisitListed(ed, list, q);
    ok, parts' := true, parts;
    if lp != null {
      ghost var c, lines, part := ed.currentAddr, ed.lines, [];
      DistinctLines(ed);
      ok, part := SubstituteHere(ed, cmd);
      if ok {
        PartsNext(cmd, L, list, q, parts, lines, c, part);
        CurrentNext(cmd, L, current, list, q, parts, lines, c, part);
        ListedNext(list, q, was, ed.act.list, EdReplace.IfChanged(cmd, list[q]));
        parts' := parts[list[q] := part];
      }
    }
  }

  lemma DistinctLines(ed: Editor)
    requires ed.Valid()
    ensures Distinct(ed.lines)
  {
  }

  /** s on the current line; without a match that is no error in a global command. */
  method SubstituteHere(ed: Editor, cmd: EdReplace.Command) returns (ok: bool, ghost part: seq<Line>)
    requires EdSubst.Matches(cmd.pat) && ed.Valid() && ed.isGlobal && 1 <= ed.currentAddr <= ed.addrLast
    modifies ed`cursor, ed`on, ed`currentAddr, ed`addrLast, ed`lines, ed`nodes, ed`ustack, ed`log, ed`modified, ed.nodes, ed.sf, ed.act
    ensures ed.Valid() && SameBase(old(ed.log), ed.log)
    ensures forall x :: x in ed.nodes && x !in old(ed.nodes) ==> fresh(x)
    ensures ed.act.ptr == old(ed.act.ptr)
    ensures old(ed.currentAddr) < |old(ed.lines)|
    ensures var c, lines := old(ed.currentAddr), old(ed.lines);
      if !ok then EdReplace.Result(cmd, lines[c]).Endless?
      else
        && ed.currentAddr == c - 1 + |part|
        && EdReplace.PartOk(cmd, lines[c], part) && ed.lines == lines[..c] + part + lines[c + 1..]
        && ed.act.list == Unset(old(ed.act.list), EdReplace.IfChanged(cmd, lines[c]))
  {
    hide Editor.PartsValid, EdReplace.LastChange;
    ghost var c, lines := ed.currentAddr, ed.lines;
    var status;
    ghost var parts, last;
    status, parts, last := EdReplace.SearchAndReplace(ed, cmd, ed.currentAddr, ed.currentAddr);
    ok := status != EdReplace.EndlessLoop;
    if ok {
      part := OnePart(cmd, lines, c, parts);
      OneCurrent(cmd, lines, c, parts, last, part, ed.lines, ed.currentAddr);
    } else {
      part := [];
      assert parts == [];
    }
  }

  lemma OneCurrent(cmd: EdReplace.Command, L: seq<Line>, c: int, parts: seq<seq<Line>>, last: int, part: seq<Line>,
                   lines: seq<Line>, xa: int)
    requires EdSubst.Matches(cmd.pat) && 1 <= c < |L| && |parts| == 1 && Flatten(parts) == part
    requires EdReplace.Searched(cmd, L, c, c, parts, last, lines, xa) && EdReplace.PartOk(cmd, L[c], part)
    requires last == -1 ==> xa == c
    ensures xa == c - 1 + |part|
  {
    OneLine(L, c);
    if last >= 0 {
      assert last == 0 && parts[..1] == parts;
    } else {
      assert EdReplace.Result(cmd, L[c..c + 1][0]).Unchanged?;
    }
  }

  lemma OnePart(cmd: EdReplace.Command, L: seq<Line>, c: int, parts: seq<seq<Line>>) returns (part: seq<Line>)
    requires EdSubst.Matches(cmd.pat) && 0 <= c < |L| && EdReplace.PartsOk(cmd, L[c..c + 1], parts) && |parts| == 1
    ensures EdReplace.PartOk(cmd, L[c], part) && Flatten(parts) == part
    ensures EdReplace.ChangedLines(cmd, L[c..c + |parts|]) == EdReplace.IfChanged(cmd, L[c])
  {
    part := parts[0];
    OneLine(L, c);
    assert EdReplace.PartAt(cmd, L[c..c + 1], parts, 0);
    FlattenOneMore([], part);
    assert parts == [] + [part] && Flatten([]) + part == part;
  }

  method SubstituteAll(ed: Editor, cmd: EdReplace.Command, ghost list: seq<Line>) returns (ok: bool, ghost parts: map<Line, seq<Line>>)
    requires EdSubst.Matches(cmd.pat) && ed.Valid() && ed.isGlobal && ed.act.list == list && ed.act.ptr == 0 && ListIn(list, ed.lines)
    modifies ed`cursor, ed`on, ed`currentAddr, ed`addrLast, ed`lines, ed`nodes, ed`ustack, ed`log, ed`modified, ed.nodes, ed.sf, ed.act
    ensures ed.Valid() && SameBase(old(ed.log), ed.log)
    ensures forall x :: x in ed.nodes && x !in old(ed.nodes) ==> fresh(x)
    ensures ok <==> forall i :: 0 <= i < |list| ==> !EdReplace.Result(cmd, list[i]).Endless?
    ensures ok ==> PartsFor(cmd, old(ed.lines), list, |list|, parts, ed.lines)
    ensures ok ==> CurrentFor(old(ed.lines), old(ed.currentAddr), list, |list|, parts, ed.currentAddr)
  {
    hide Editor.PartsValid, PartsFor, ListIn;
    ghost var L, current, q := ed.lines, ed.currentAddr, 0;
    DistinctLines(ed);
    ok, parts := true, map[];
    NoParts(cmd, L, list);
    while true
      invariant ok && ed.Valid() && SameBase(old(ed.log), ed.log)
      invariant forall x :: x in ed.nodes && x !in old(ed.nodes) ==> fresh(x)
      invariant Substituting(ed, cmd, L, current, list, q, parts)
      invariant forall i :: 0 <= i < q ==> !EdReplace.Result(cmd, list[i]).Endless?
      decreases |list| - q
    {
      var lp;
      lp, ok, parts := SubstituteNext(ed, cmd, L, current, list, q, parts);
      if lp == null || !ok {
        return;
      }
      q := q + 1;
    }
  }

  lemma NoParts(cmd: EdReplace.Command, L: seq<Line>, list: seq<Line>)
    requires EdSubst.Matches(cmd.pat)
    ensures PartsFor(cmd, L, list, 0, map[], L)
  {
    SpreadNone(L, map[]);
  }

  /** exec_global with the command s. */
  method SubstituteListed(ed: Editor, cmd: EdReplace.Command, ghost list: seq<Line>) returns (ok: bool, ghost parts: map<Line, seq<Line>>)
    requires EdSubst.Matches(cmd.pat) && ed.Valid() && ed.isGlobal && ed.act.list == list && ed.act.ptr == 0 && ListIn(list, ed.lines)
    modifies ed`cursor, ed`on, ed`currentAddr, ed`addrLast, ed`lines, ed`nodes, ed`ustack, ed`log, ed`modified,
             ed`uCurrentAddr, ed`uAddrLast, ed`freed, ed.nodes, ed.sf, ed.act, ed.marks
    ensures ed.Valid() && (forall x :: x in ed.nodes && x !in old(ed.nodes) ==> fresh(x))
    ensures ed.log.states != [] && ed.log.states[0] == old(ed.lines) && ed.uCurrentAddr == old(ed.currentAddr)
    ensures ok <==> forall i :: 0 <= i < |list| ==> !EdReplace.Result(cmd, list[i]).Endless?
    ensures ok ==> PartsFor(cmd, old(ed.lines), list, |list|, parts, ed.lines)
    ensures ok ==> CurrentFor(old(ed.lines), old(ed.currentAddr), list, |list|, parts, ed.currentAddr)
  {
    ed.ClearUndoStack();
    ok, parts := SubstituteAll(ed, cmd, list);
  }

  /** What the buffer is in the end. */
  lemma SelectedSubstituted(cmd: EdReplace.Command, L: seq<Line>, p: int, q: int, sel: string -> bool, list: seq<Line>,
                            parts: map<Line, seq<Line>>, lines: seq<Line>)
    requires EdSubst.Matches(cmd.pat) && Distinct(L) && 0 <= p <= q <= |L| && list == Selected(L[p..q], sel)
    requires PartsFor(cmd, L, list, |list|, parts, lines)
    ensures AllTexts(lines) == AllTexts(L)[..p] + SubstChosen(cmd, AllTexts(L)[p..q], sel) + AllTexts(L)[q..]
  {
    hide Spread, Selected, SubstChosen, Distinct, AllParts;
    var A, B, C := L[..p], L[p..q], L[q..];
    assert list[..|list|] == list;
    forall x | x in L ensures x in B ==> (x in parts <==> sel(x.text)) {
      SelectedIn(B, sel, x);
      assert x in parts <==> x in NodeSet(list);
    }
    forall x | x in A || x in C ensures x !in parts {
      SelectedIn(B, sel, x);
      OutsideRange(L, p, q, x);
      assert x in parts <==> x in NodeSet(list);
    }
    SpreadInside(L, p, q, parts);
    SpreadTexts(cmd, B, parts, sel);
    ThreeTexts(L, p, q, Spread(B, parts));
  }

  /** The current line after g/re/s: the last one of what the last text selected has become; without a selection it stays. */
  ghost function SubstitutedTo(cmd: EdReplace.Command, T: seq<string>, first: int, second: int, sel: string -> bool, current: int): int
    requires EdSubst.Matches(cmd.pat) && 0 <= first <= second < |T|
  {
    var U := T[first..second + 1];
    var k := LastChosen(U, sel);
    if k == -1 then current else first + |SubstChosen(cmd, U[..k + 1], sel)| - 1
  }

  lemma SubstitutedCurrent(cmd: EdReplace.Command, L: seq<Line>, first: int, second: int, sel: string -> bool, list: seq<Line>,
                           parts: map<Line, seq<Line>>, lines: seq<Line>, current: int, current': int)
    requires EdSubst.Matches(cmd.pat) && Distinct(L) && 0 <= first <= second < |L| && list == Selected(L[first..second + 1], sel)
    requires PartsFor(cmd, L, list, |list|, parts, lines) && CurrentFor(L, current, list, |list|, parts, current')
    ensures current' == SubstitutedTo(cmd, AllTexts(L), first, second, sel, current)
  {
    hide Spread, Selected, SubstChosen, Distinct, AllParts, PartsFor;
    var B, T := L[first..second + 1], AllTexts(L);
    TextsSlice(L, first, second + 1);
    LastSelected(B, sel);
    var k := LastChosen(AllTexts(B), sel);
    if k != -1 {
      var n := first + k;
      var i :| IsAt(L, i, list[|list| - 1]) && current' == |Spread(L[..i + 1], parts)| - 1;
      assert list[|list| - 1] == L[n];
      SameplaceOnly(L, i, n);
      SpreadHead(cmd, L, first, second, sel, list, parts, lines, n);
      assert T[first..second + 1][..k + 1] == T[first..n + 1];
    }
  }

  lemma SameplaceOnly(L: seq<Line>, i: int, n: int)
    requires Distinct(L) && 0 <= i < |L| && 0 <= n < |L| && L[i] == L[n]
    ensures i == n
  {
    assert OnlyAt(L, n);
  }

  lemma SpreadHead(cmd: EdReplace.Command, L: seq<Line>, first: int, second: int, sel: string -> bool, list: seq<Line>,
                   parts: map<Line, seq<Line>>, lines: seq<Line>, n: int)
    requires EdSubst.Matches(cmd.pat) && Distinct(L) && 0 <= first <= n <= second < |L| && list == Selected(L[first..second + 1], sel)
    requires PartsFor(cmd, L, list, |list|, parts, lines)
    ensures |Spread(L[..n + 1], parts)| == first + |SubstChosen(cmd, AllTexts(L)[first..n + 1], sel)|
  {
    hide Spread, Selected, SubstChosen, Distinct, AllParts;
    var B, H := L[first..second + 1], L[..n + 1];
    assert list[..|list|] == list;
    var C := L[first..n + 1];
    assert H[first..n + 1] == C && H[n + 1..] == [] && H[..first] == L[..first];
    forall x | x in C ensures x in parts <==> sel(x.text) {
      var i :| 0 <= i < |C| && C[i] == x;
      assert B[i] == x;
      SelectedIn(B, sel, x);
      assert x in parts <==> x in NodeSet(list);
    }
    forall x | x in H[..first] || x in H[n + 1..] ensures x !in parts {
      SelectedIn(B, sel, x);
      OutsideRange(L, first, second + 1, x);
      assert x in parts <==> x in NodeSet(list);
    }
    SpreadInside(H, first, n + 1, parts);
    SpreadTexts(cmd, C, parts, sel);
    TextsSlice(L, first, n + 1);
  }

  lemma SpreadInside(L: seq<Line>, p: int, q: int, parts: map<Line, seq<Line>>)
    requires 0 <= p <= q <= |L| && forall x :: x in L[..p] || x in L[q..] ==> x !in parts
    ensures Spread(L, parts) == L[..p] + Spread(L[p..q], parts) + L[q..]
  {
    var A, B, C := L[..p], L[p..q], L[q..];
    assert L == A + (B + C);
    SpreadConcat(A, B + C, parts);
    SpreadConcat(B, C, parts);
    SpreadNone(A, parts);
    SpreadNone(C, parts);
  }

  /** None of the selected texts makes the substitution go round for ever. */
  ghost predicate AllEnd(cmd: EdReplace.Command, T: seq<string>, sel: string -> bool)
  {
    forall i :: 0 <= i < |T| && sel(T[i]) ==> EndsAt(cmd, T[i])
  }

  lemma AllEndListed(cmd: EdReplace.Command, B: seq<Line>, sel: string -> bool, list: seq<Line>)
    requires EdSubst.Matches(cmd.pat) && list == Selected(B, sel)
    ensures AllEnd(cmd, AllTexts(B), sel) <==> forall i :: 0 <= i < |list| ==> !EdReplace.Result(cmd, list[i]).Endless?
  {
    hide Selected, EdSubst.Substituted, EdSubst.Ends;
    if AllEnd(cmd, AllTexts(B), sel) {
      forall i | 0 <= i < |list| ensures !EdReplace.Result(cmd, list[i]).Endless? {
        SelectedIn(B, sel, list[i]);
        var j :| 0 <= j < |B| && B[j] == list[i];
        assert AllTexts(B)[j] == list[i].text;
        EdSubst.OutcomeMeaning(cmd.pat, cmd.template, list[i].text, cmd.kth, cmd.global);
      }
    } else {
      var j :| 0 <= j < |B| && sel(AllTexts(B)[j]) && !EndsAt(cmd, AllTexts(B)[j]);
      EdSubst.OutcomeMeaning(cmd.pat, cmd.template, AllTexts(B)[j], cmd.kth, cmd.global);
      SelectedIn(B, sel, B[j]);
      var i :| 0 <= i < |list| && list[i] == B[j];
      assert EdReplace.Result(cmd, list[i]).Endless?;
    }
  }

  lemma ListedIn(ed: Editor, first: int, second: int, sel: string -> bool, list: seq<Line>)
    requires ed.Valid() && ed.act.list == list && 1 <= first <= second <= ed.addrLast
    requires list == Selected(ed.lines[first..second + 1], sel)
    ensures ListIn(list, ed.lines)
  {
    forall i, j | 0 <= i < j < |list| ensures list[i] != list[j] {
      assert OnceAt(ed.act.list, i);
    }
    forall i | 0 <= i < |list| ensures list[i] in ed.lines {
      SelectedIn(ed.lines[first..second + 1], sel, list[i]);
    }
  }

  /** g/re/s: it fails just when the substitution of a selected line goes round for ever. */
  method GlobalSubstitute(ed: Editor, first: int, second: int, sel: string -> bool, cmd: EdReplace.Command) returns (ok: bool)
    requires EdSubst.Matches(cmd.pat) && ed.Valid() && !ed.isGlobal && 1 <= first <= second <= ed.addrLast
    modifies ed`cursor, ed`on, ed`currentAddr, ed`addrLast, ed`lines, ed`nodes, ed`ustack, ed`log, ed`modified,
             ed`uCurrentAddr, ed`uAddrLast, ed`freed, ed`isGlobal, ed.nodes, ed.sf, ed.act, ed.marks
    ensures ed.Valid() && !ed.isGlobal && (forall x :: x in ed.nodes && x !in old(ed.nodes) ==> fresh(x))
    ensures ed.log.states != [] && ed.log.states[0] == old(ed.lines) && ed.uCurrentAddr == old(ed.currentAddr)
    ensures var T := AllTexts(old(ed.lines));
      && second < |T| && (ok <==> AllEnd(cmd, T[first..second + 1], sel))
      && (ok ==> AllTexts(ed.lines) == T[..first] + SubstChosen(cmd, T[first..second + 1], sel) + T[second + 1..])
      && (ok ==> ed.currentAddr == SubstitutedTo(cmd, T, first, second, sel, old(ed.currentAddr)))
  {
    hide Editor.PartsValid, PartsFor, ListIn, Selected, AllEnd, SubstChosen, CurrentFor, SubstitutedTo;
    ghost var list := ListSelected(ed, first, second, sel);
    ghost var L, current := ed.lines, ed.currentAddr;
    ListedIn(ed, first, second, sel, list);
    DistinctLines(ed);
    AllEndListed(cmd, L[first..second + 1], sel, list);
    TextsSlice(L, first, second + 1);
    ghost var parts;
    ok, parts := SubstituteListed(ed, cmd, list);
    if ok {
      SelectedSubstituted(cmd, L, first, second + 1, sel, list, parts, ed.lines);
      SubstitutedCurrent(cmd, L, first, second, sel, list, parts, ed.lines, current, ed.currentAddr);
    }
    EndGlobal(ed);
  }
}
