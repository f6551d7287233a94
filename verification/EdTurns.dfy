/** What a global command has done: which lines it has visited, and what the commands did at each visit. */
module EdTurns {
  import opened EdRing
  import opened EdActive
  import opened EdTexts
  import opened EdMeaning

  /** A command whose addresses depend on the current and the last address. */
  type Relative = (int, int) -> Edits

  ghost predicate AllWellFormed(cs: seq<Relative>) {
    forall i, current, last :: 0 <= i < |cs| ==> WellFormed(cs[i](current, last))
  }

  ghost predicate ScriptOk(script: nat -> seq<Relative>) {
    forall k :: AllWellFormed(script(k))
  }

  /** A command that has been done, and the buffer it found. */
  datatype Did = Did(c: Edits, lines: seq<Line>, current: int)

  /** A global command performs it: its addresses are legal, and it succeeds. */
  ghost predicate CanDo(d: Did) {
    Legal(d.c, |d.lines| - 1) && WellFormed(d.c) && Succeeds(d.c, AllTexts(d.lines), true)
  }

  /** The commands, one after the other, lead from the buffer L to L'. */
  ghost predicate RunFrom(run: seq<Did>, L: seq<Line>, current: int, L': seq<Line>, current': int) {
    if run == [] then L' == L && current' == current
    else
      var d := run[|run| - 1];
      && RunFrom(run[..|run| - 1], L, current, d.lines, d.current)
      && CanDo(d) && Meant(d.c, d.lines, d.current, L', current')
  }

  /** What they take off the list of the global command. */
  ghost function TakenBy(run: seq<Did>): set<Line> {
    if run == [] then {}
    else
      var d := run[|run| - 1];
      TakenBy(run[..|run| - 1]) + if Legal(d.c, |d.lines| - 1) && WellFormed(d.c) then Taken(d.c, d.lines) else {}
  }

  /** They are the first commands of cs, at the addresses of that time. */
  ghost predicate RunOf(run: seq<Did>, cs: seq<Relative>) {
    |run| <= |cs| && forall i :: 0 <= i < |run| ==> run[i].c == cs[i](run[i].current, |run[i].lines| - 1)
  }

  lemma RunMore(run: seq<Did>, cs: seq<Relative>, L: seq<Line>, current: int, M: seq<Line>, m: int, c: Edits, L': seq<Line>, current': int)
    requires RunFrom(run, L, current, M, m) && RunOf(run, cs) && |run| < |cs| && c == cs[|run|](m, |M| - 1)
    requires CanDo(Did(c, M, m)) && Meant(c, M, m, L', current')
    ensures var run' := run + [Did(c, M, m)];
            RunFrom(run', L, current, L', current') && RunOf(run', cs) && TakenBy(run') == TakenBy(run) + Taken(c, M)
  {
    hide Meant, Taken, Legal, WellFormed, Succeeds;
    assert (run + [Did(c, M, m)])[..|run|] == run;
  }

  /** The last of the commands is the first that the global command cannot perform. */
  ghost predicate StuckRun(run: seq<Did>, cs: seq<Relative>, L: seq<Line>, current: int) {
    && run != [] && RunOf(run, cs)
    && var n := |run| - 1;
       RunFrom(run[..n], L, current, run[n].lines, run[n].current) && !CanDo(run[n])
  }

  lemma RunStuck(run: seq<Did>, cs: seq<Relative>, L: seq<Line>, current: int, M: seq<Line>, m: int, c: Edits)
    requires RunFrom(run, L, current, M, m) && RunOf(run, cs) && |run| < |cs| && c == cs[|run|](m, |M| - 1)
    requires !CanDo(Did(c, M, m))
    ensures StuckRun(run + [Did(c, M, m)], cs, L, current)
  {
    hide CanDo;
    assert (run + [Did(c, M, m)])[..|run|] == run;
  }

  ghost predicate NoneFrom(list: seq<Line?>, from: nat, to: nat)
    requires to <= |list|
  {
    forall i :: from <= i < to ==> list[i] == null
  }

  /** A visit to an entry of the list: the line is found at an address of the buffer, and the commands are run there. */
  datatype Turn = Turn(visit: nat, list: seq<Line?>, lines: seq<Line>, current: int, at: int, run: seq<Did>)

  /** Where the next line to visit is looked for. */
  ghost function NextFrom(turns: seq<Turn>, p: nat): nat {
    if turns == [] then p else turns[|turns| - 1].visit + 1
  }

  /** A visit is to the first entry still on the list. */
  ghost predicate VisitOk(t: Turn, from: nat) {
    && from <= t.visit < |t.list| && NoneFrom(t.list, from, t.visit)
    && 1 <= t.at < |t.lines| && t.list[t.visit] == t.lines[t.at]
  }

  /**
   The visits of a global command lead from one buffer and list to another: each is to the first entry still on the
   list, its commands have the meaning they have by themselves, and exactly what they take is taken off the list.
   */
  ghost predicate Turns(turns: seq<Turn>, list: seq<Line?>, L: seq<Line>, current: int, p: nat,
                        list': seq<Line?>, L': seq<Line>, current': int)
  {
    if turns == [] then list' == list && L' == L && current' == current
    else
      var t, before := turns[|turns| - 1], turns[..|turns| - 1];
      && Turns(before, list, L, current, p, t.list, t.lines, t.current) && VisitOk(t, NextFrom(before, p))
      && RunFrom(t.run, t.lines, t.at, L', current') && list' == Unset(t.list, TakenBy(t.run))
  }

  /** The k-th visit runs the k-th list of commands to its end. */
  ghost predicate Follows(turns: seq<Turn>, script: nat -> seq<Relative>) {
    forall k: nat :: k < |turns| ==> FollowsAt(turns, script, k)
  }

  ghost predicate FollowsAt(turns: seq<Turn>, script: nat -> seq<Relative>, k: nat)
    requires k < |turns|
  {
    |turns[k].run| == |script(k)| && RunOf(turns[k].run, script(k))
  }

  lemma TurnsMore(turns: seq<Turn>, script: nat -> seq<Relative>, list: seq<Line?>, L: seq<Line>, current: int, p: nat,
                  t: Turn, list': seq<Line?>, L': seq<Line>, current': int)
    requires Turns(turns, list, L, current, p, t.list, t.lines, t.current) && VisitOk(t, NextFrom(turns, p))
    requires RunFrom(t.run, t.lines, t.at, L', current') && list' == Unset(t.list, TakenBy(t.run))
    requires Follows(turns, script) && |t.run| == |script(|turns|)| && RunOf(t.run, script(|turns|))
    ensures Turns(turns + [t], list, L, current, p, list', L', current') && Follows(turns + [t], script)
    ensures NextFrom(turns + [t], p) == t.visit + 1
  {
    hide RunFrom, RunOf, TakenBy, Unset, VisitOk;
    var turns' := turns + [t];
    assert turns'[..|turns|] == turns;
    forall k: nat | k < |turns'| ensures FollowsAt(turns', script, k) {
      assert k < |turns| ==> FollowsAt(turns, script, k);
    }
  }

  /** The last visit is the first whose commands the global command cannot all perform. */
  ghost predicate StuckTurns(turns: seq<Turn>, script: nat -> seq<Relative>, list: seq<Line?>, L: seq<Line>, current: int, p: nat) {
    && turns != []
    && var t, before := turns[|turns| - 1], turns[..|turns| - 1];
       && Turns(before, list, L, current, p, t.list, t.lines, t.current) && VisitOk(t, NextFrom(before, p))
       && Follows(before, script) && StuckRun(t.run, script(|before|), t.lines, t.at)
  }

  lemma TurnsStuck(turns: seq<Turn>, script: nat -> seq<Relative>, list: seq<Line?>, L: seq<Line>, current: int, p: nat, t: Turn)
    requires Turns(turns, list, L, current, p, t.list, t.lines, t.current) && VisitOk(t, NextFrom(turns, p))
    requires Follows(turns, script) && StuckRun(t.run, script(|turns|), t.lines, t.at)
    ensures StuckTurns(turns + [t], script, list, L, current, p)
  {
    hide StuckRun, VisitOk, Follows, Turns;
    assert (turns + [t])[..|turns|] == turns;
  }

  /** What holds at visit j. */
  lemma {:induction false} TurnAt(turns: seq<Turn>, list: seq<Line?>, L: seq<Line>, current: int, p: nat,
                                  list': seq<Line?>, L': seq<Line>, current': int, j: nat)
    requires Turns(turns, list, L, current, p, list', L', current') && j < |turns|
    ensures var t := turns[j];
            Turns(turns[..j], list, L, current, p, t.list, t.lines, t.current) && VisitOk(t, NextFrom(turns[..j], p))
  {
    hide Unset, RunFrom, VisitOk;
    var n := |turns| - 1;
    if j < n {
      var t := turns[n];
      TurnAt(turns[..n], list, L, current, p, t.list, t.lines, t.current, j);
      assert turns[..n][..j] == turns[..j];
    }
  }

  lemma {:induction false} TurnsThinned(turns: seq<Turn>, list: seq<Line?>, L: seq<Line>, current: int, p: nat,
                                        list': seq<Line?>, L': seq<Line>, current': int)
    requires Turns(turns, list, L, current, p, list', L', current')
    ensures Thinned(list', list)
  {
    if turns != [] {
      var t, before := turns[|turns| - 1], turns[..|turns| - 1];
      TurnsThinned(before, list, L, current, p, t.list, t.lines, t.current);
      UnsetThinned(t.list, TakenBy(t.run));
      ThinnedTrans(list', t.list, list);
    }
  }

  lemma UnsetThinned(list: seq<Line?>, S: set<Line>)
    ensures Thinned(Unset(list, S), list)
  {
  }

  lemma {:induction false} TurnsOrdered(turns: seq<Turn>, list: seq<Line?>, L: seq<Line>, current: int, p: nat,
                                        list': seq<Line?>, L': seq<Line>, current': int, j: nat, k: nat)
    requires Turns(turns, list, L, current, p, list', L', current') && j < k < |turns|
    ensures turns[j].visit < turns[k].visit
    decreases k
  {
    TurnAt(turns, list, L, current, p, list', L', current', k);
    assert turns[..k][k - 1] == turns[k - 1];
    if j < k - 1 {
      TurnsOrdered(turns, list, L, current, p, list', L', current', j, k - 1);
    }
  }

  ghost predicate IsVisited(turns: seq<Turn>, i: nat) {
    exists k :: 0 <= k < |turns| && turns[k].visit == i
  }

  /** The list at visit j, or at the end. */
  ghost function ListAt(turns: seq<Turn>, list': seq<Line?>, j: nat): seq<Line?> {
    if j < |turns| then turns[j].list else list'
  }

  /**
   An entry is visited exactly if it is on the list at its turn: j is the number of visits before it, and its turn
   comes with the list as it is at visit j, or at the end.
   */
  lemma VisitedExactly(turns: seq<Turn>, list: seq<Line?>, L: seq<Line>, current: int, p: nat,
                       list': seq<Line?>, L': seq<Line>, current': int, i: nat, j: nat)
    requires Turns(turns, list, L, current, p, list', L', current') && NoneFrom(list', NextFrom(turns, p), |list'|)
    requires p <= i < |list| && j <= |turns|
    requires (j > 0 ==> turns[j - 1].visit < i) && (j < |turns| ==> i <= turns[j].visit)
    ensures var at := ListAt(turns, list', j);
      |at| == |list| && (IsVisited(turns, i) <==> at[i] != null) && (at[i] != null ==> at[i] == list[i])
  {
    hide Turns;
    var at := ListAt(turns, list', j);
    TurnsThinned(turns, list, L, current, p, list', L', current');
    if j < |turns| {
      var t := turns[j];
      TurnAt(turns, list, L, current, p, list', L', current', j);
      TurnsThinned(turns[..j], list, L, current, p, t.list, t.lines, t.current);
      assert j > 0 ==> turns[..j][j - 1] == turns[j - 1];
      if i == t.visit {
        assert IsVisited(turns, i);
      }
    }
    assert ThinnedAt(at, list, i);
    forall m | 0 <= m < |turns| && m != j ensures turns[m].visit != i {
      if m < j - 1 {
        TurnsOrdered(turns, list, L, current, p, list', L', current', m, j - 1);
      } else if m > j {
        TurnsOrdered(turns, list, L, current, p, list', L', current', j, m);
      }
    }
  }

  /** The visits and removals of a global command, apart from the buffer. */
  ghost function Events(turns: seq<Turn>): seq<Event> {
    if turns == [] then []
    else Events(turns[..|turns| - 1]) + [Visit, Remove(TakenBy(turns[|turns| - 1].run))]
  }

  /** The lines visited, in order. */
  ghost function LinesVisited(turns: seq<Turn>): seq<Line?> {
    if turns == [] then []
    else
      var t := turns[|turns| - 1];
      LinesVisited(turns[..|turns| - 1]) + if t.visit < |t.list| then [t.list[t.visit]] else []
  }

  /** One run after another. */
  lemma {:induction false} RunsConcat(pending: seq<Line>, run: seq<Event>, more: seq<Event>)
    ensures Visited(pending, run + more) == Visited(pending, run) + Visited(Remaining(pending, run), more)
    ensures Remaining(pending, run + more) == Remaining(Remaining(pending, run), more)
    decreases run
  {
    if run == [] {
      assert run + more == more;
    } else {
      assert (run + more)[1..] == run[1..] + more;
      match run[0]
      case Visit => RunsConcat(if pending == [] then [] else pending[1..], run[1..], more);
      case Remove(S) => RunsConcat(Without(pending, S), run[1..], more);
    }
  }

  /** A visit takes the first line still listed. */
  lemma FirstListed(list: seq<Line?>, from: nat, visit: nat)
    requires from <= visit < |list| && NoneFrom(list, from, visit) && list[visit] != null
    ensures Listed(list[from..]) == [list[visit]] + Listed(list[visit + 1..])
  {
    var nulls := list[from..visit];
    assert list[from..] == nulls + ([list[visit]] + list[visit + 1..]);
    NoneListed(nulls);
    ListedConcat(nulls, [list[visit]] + list[visit + 1..]);
    assert ([list[visit]] + list[visit + 1..])[1..] == list[visit + 1..];
  }

  lemma {:induction false} NoneListed(list: seq<Line?>)
    requires forall i :: 0 <= i < |list| ==> list[i] == null
    ensures Listed(list) == []
  {
    if list != [] {
      NoneListed(list[1..]);
    }
  }

  lemma VisitAndRemove(pending: seq<Line>, S: set<Line>)
    requires pending != []
    ensures Visited(pending, [Visit, Remove(S)]) == [pending[0]]
    ensures Remaining(pending, [Visit, Remove(S)]) == Without(pending[1..], S)
  {
    hide Without;
    var run, rest := [Visit, Remove(S)], pending[1..];
    assert run[1..] == [Remove(S)];
    RemoveOnly(rest, S);
    assert Visited(pending, run) == [pending[0]] + Visited(rest, run[1..]);
    assert Remaining(pending, run) == Remaining(rest, run[1..]);
  }

  lemma RemoveOnly(pending: seq<Line>, S: set<Line>)
    ensures Visited(pending, [Remove(S)]) == [] && Remaining(pending, [Remove(S)]) == Without(pending, S)
  {
    hide Without;
    var run, rest := [Remove(S)], Without(pending, S);
    assert run[1..] == [];
    assert Visited(pending, run) == Visited(rest, run[1..]) && Remaining(pending, run) == Remaining(rest, run[1..]);
  }

  /** A global command is a run of visits and removals on the lines listed at its beginning. */
  lemma {:induction false} TurnsAreEvents(turns: seq<Turn>, list: seq<Line?>, L: seq<Line>, current: int, p: nat,
                                          list': seq<Line?>, L': seq<Line>, current': int)
    requires Turns(turns, list, L, current, p, list', L', current') && p <= |list|
    ensures NextFrom(turns, p) <= |list'| == |list|
    ensures LinesVisited(turns) == Visited(Listed(list[p..]), Events(turns))
    ensures Listed(list'[NextFrom(turns, p)..]) == Remaining(Listed(list[p..]), Events(turns))
  {
    hide RunFrom, TakenBy, Unset, Listed, Remaining, Visited, Without;
    if turns == [] {
      NoEvents(Listed(list[p..]));
    } else {
      var t, before := turns[|turns| - 1], turns[..|turns| - 1];
      var from, S, pending := NextFrom(before, p), TakenBy(t.run), Listed(list[p..]);
      TurnsAreEvents(before, list, L, current, p, t.list, t.lines, t.current);
      FirstListed(t.list, from, t.visit);
      RunsConcat(pending, Events(before), [Visit, Remove(S)]);
      VisitAndRemove(Listed(t.list[from..]), S);
      ListedUnset(t.list[t.visit + 1..], S);
      UnsetSlice(t.list, S, t.visit + 1);
    }
  }

  lemma UnsetSlice(list: seq<Line?>, S: set<Line>, k: nat)
    requires k <= |list|
    ensures |Unset(list, S)| == |list| && Unset(list, S)[k..] == Unset(list[k..], S)
  {
  }

  lemma NoEvents(pending: seq<Line>)
    ensures Visited(pending, []) == [] && Remaining(pending, []) == pending
  {
  }

  /**
   The lines visited are lines of the list in its order, each at most once, and every other line of the list has been
   taken off by a command.
   */
  lemma TurnsInOrder(turns: seq<Turn>, list: seq<Line?>, L: seq<Line>, current: int, p: nat,
                     list': seq<Line?>, L': seq<Line>, current': int)
    requires Turns(turns, list, L, current, p, list', L', current') && NoneFrom(list', NextFrom(turns, p), |list'|)
    requires p <= |list| && Distinct(Listed(list[p..]))
    ensures forall i :: 0 <= i < |LinesVisited(turns)| ==> LinesVisited(turns)[i] != null
    ensures Subsequence(LinesVisited(turns), Listed(list[p..]))
    ensures forall x :: x in Listed(list[p..]) ==> x in LinesVisited(turns) || Removes(Events(turns), x)
  {
    TurnsAreEvents(turns, list, L, current, p, list', L', current');
    VisitedOrder(Listed(list[p..]), Events(turns));
    NoneListed(list'[NextFrom(turns, p)..]);
  }
}
