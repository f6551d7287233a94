/** The list of lines a global command is to visit. */
module EdActive {
  import opened EdRing

  ghost function NodeSet(s: seq<Line>): set<Line> {
    set x | x in s
  }

  /** The entries that are in S become null. */
  ghost function Unset(list: seq<Line?>, S: set<Line>): seq<Line?> {
    seq(|list|, i requires 0 <= i < |list| => if list[i] != null && list[i] in S then null else list[i])
  }

  /** The lines still listed, in order. */
  ghost function Listed(list: seq<Line?>): seq<Line> {
    if list == [] then []
    else if list[0] == null then Listed(list[1..])
    else [list[0]] + Listed(list[1..])
  }

  ghost function Without(s: seq<Line>, S: set<Line>): seq<Line> {
    if s == [] then []
    else if s[0] in S then Without(s[1..], S)
    else [s[0]] + Without(s[1..], S)
  }

  lemma {:induction false} ListedUnset(list: seq<Line?>, S: set<Line>)
    ensures Listed(Unset(list, S)) == Without(Listed(list), S)
  {
    if list != [] {
      assert Unset(list, S)[1..] == Unset(list[1..], S);
      ListedUnset(list[1..], S);
    }
  }

  lemma {:induction false} ListedConcat(a: seq<Line?>, b: seq<Line?>)
    ensures Listed(a + b) == Listed(a) + Listed(b)
  {
    if a == [] {
      assert a + b == b;
    } else {
      assert (a + b)[1..] == a[1..] + b;
      ListedConcat(a[1..], b);
    }
  }

  lemma UnsetTwice(list: seq<Line?>, S: set<Line>, T: set<Line>)
    ensures Unset(Unset(list, S), T) == Unset(list, S + T)
    ensures Unset(list, {}) == list
  {
  }

  lemma {:induction false} WithoutIn(s: seq<Line>, S: set<Line>, x: Line)
    ensures x in Without(s, S) <==> x in s && x !in S
  {
    if s != [] {
      WithoutIn(s[1..], S, x);
    }
  }

  /** The k-th place after start on a round of n. */
  function Around(start: nat, k: nat, n: nat): (p: nat)
    requires start < n && k < n
    ensures p < n
  {
    if start + k < n then start + k else start + k - n
  }

  ghost predicate NotAmong(list: seq<Line?>, start: nat, k: nat, lp: Line)
    requires start < |list| && k <= |list|
  {
    forall i: nat :: i < k ==> list[Around(start, i, |list|)] != lp
  }

  /** No line is listed twice. */
  ghost predicate Once(list: seq<Line?>) {
    forall i :: 0 <= i < |list| ==> OnceAt(list, i)
  }

  ghost predicate OnceAt(list: seq<Line?>, i: int)
    requires 0 <= i < |list|
  {
    list[i] != null ==> forall j :: 0 <= j < |list| && j != i ==> list[j] != list[i]
  }

  lemma OnceMore(list: seq<Line?>, lp: Line)
    requires Once(list) && lp !in list
    ensures Once(list + [lp])
  {
    forall i | 0 <= i < |list| + 1 ensures OnceAt(list + [lp], i) {
      assert i < |list| ==> OnceAt(list, i);
    }
  }

  lemma UnsetOne(list: seq<Line?>, n: nat, lp: Line)
    requires n < |list| && list[n] == lp && Once(list)
    ensures list[n := null] == Unset(list, {lp}) && Once(list[n := null])
  {
    assert OnceAt(list, n);
    var list' := list[n := null];
    forall i | 0 <= i < |list'| ensures OnceAt(list', i) {
      assert OnceAt(list, i);
    }
  }

  lemma UnsetNone(list: seq<Line?>, start: nat, lp: Line)
    requires list == [] || (start < |list| && NotAmong(list, start, |list|, lp))
    ensures list == Unset(list, {lp})
  {
    forall j | 0 <= j < |list| ensures list[j] != lp {
      var i := if j >= start then j - start else j - start + |list|;
      assert Around(start, i, |list|) == j;
    }
  }

  class ActiveList {
    var list: seq<Line?>
    var ptr: nat   // next entry to visit
    var ndx: nat   // where the next removal starts to search

    ghost predicate Valid()
      reads this
    {
      && ptr <= |list|
      && (if list == [] then ndx == 0 else ndx < |list|)
      && Once(list)
    }

    /** The lines still to be visited. */
    ghost function Pending(): seq<Line>
      requires Valid()
      reads this
    {
      Listed(list[ptr..])
    }

    constructor ()
      ensures Valid() && list == [] && Pending() == []
    {
      list, ptr, ndx := [], 0, 0;
    }

    method Clear()
      modifies this
      ensures Valid() && list == [] && Pending() == []
    {
      list, ptr, ndx := [], 0, 0;
    }

    method SetActiveNode(lp: Line)
      requires Valid() && lp !in list
      modifies this
      ensures Valid() && list == old(list) + [lp] && ptr == old(ptr)
      ensures Pending() == old(Pending()) + [lp]
    {
      assert (list + [lp])[ptr..] == list[ptr..] + [lp];
      ListedConcat(list[ptr..], [lp]);
      OnceMore(list, lp);
      list := list + [lp];
    }

    /** The removal of one line: the search starts at ndx and goes round at most once. */
    method UnsetActiveNode(lp: Line)
      requires Valid()
      modifies this
      ensures Valid() && ptr == old(ptr)
      ensures list == Unset(old(list), {lp})
    {
      var i := 0;
      ghost var start := ndx;
      while i < |list|
        invariant 0 <= i <= |list| && list == old(list) && ptr == old(ptr) && Valid()
        invariant i < |list| ==> ndx == Around(start, i, |list|)
        invariant list != [] ==> NotAmong(list, start, i, lp)
      {
        if list[ndx] == lp {
          UnsetOne(list, ndx, lp);
          list := list[ndx := null];
          ndx := IncMod(ndx, |list| - 1);
          return;
        } else {
          ndx := IncMod(ndx, |list| - 1);
        }
        i := i + 1;
      }
      UnsetNone(list, start, lp);
    }

    method NextActiveNode() returns (lp: Line?)
      requires Valid()
      modifies `ptr
      ensures Valid()
      ensures if old(Pending()) == [] then lp == null && Pending() == []
              else lp == old(Pending())[0] && Pending() == old(Pending())[1..]
      ensures old(ptr) <= ptr <= |list| && (lp == null <==> old(Pending()) == [])
      ensures if lp == null then ptr == |list| && forall i :: old(ptr) <= i < ptr ==> list[i] == null
              else old(ptr) < ptr && list[ptr - 1] == lp && forall i :: old(ptr) <= i < ptr - 1 ==> list[i] == null
    {
      while ptr < |list| && list[ptr] == null
        invariant old(ptr) <= ptr <= |list| && Listed(list[ptr..]) == old(Pending())
        invariant forall i :: old(ptr) <= i < ptr ==> list[i] == null
      {
        assert list[ptr..][1..] == list[ptr + 1..];
        ptr := ptr + 1;
      }
      if ptr < |list| {
        assert list[ptr..][1..] == list[ptr + 1..];
        lp := list[ptr];
        ptr := ptr + 1;
      } else {
        lp := null;
      }
    }
  }

  /** What a global command does to the list while it visits the lines. */
  datatype Event = Visit | Remove(lines: set<Line>)

  /** The lines the visits of a run yield, in order. */
  ghost function Visited(pending: seq<Line>, run: seq<Event>): seq<Line>
    decreases run
  {
    if run == [] then []
    else match run[0]
      case Visit => if pending == [] then Visited([], run[1..]) else [pending[0]] + Visited(pending[1..], run[1..])
      case Remove(S) => Visited(Without(pending, S), run[1..])
  }

  /** The lines still pending when a run is over. */
  ghost function Remaining(pending: seq<Line>, run: seq<Event>): seq<Line>
    decreases run
  {
    if run == [] then pending
    else match run[0]
      case Visit => Remaining(if pending == [] then [] else pending[1..], run[1..])
      case Remove(S) => Remaining(Without(pending, S), run[1..])
  }

  ghost predicate Removes(run: seq<Event>, x: Line) {
    exists i :: 0 <= i < |run| && run[i].Remove? && x in run[i].lines
  }

  /** s is t with some elements left out: order is kept and nothing is repeated. */
  ghost predicate Subsequence(s: seq<Line>, t: seq<Line>) {
    if s == [] then true
    else if t == [] then false
    else if s[0] == t[0] then Subsequence(s[1..], t[1..])
    else Subsequence(s, t[1..])
  }

  lemma {:induction false} WithoutDistinct(s: seq<Line>, S: set<Line>)
    requires Distinct(s)
    ensures Distinct(Without(s, S))
  {
    if s != [] {
      DistinctTail(s);
      WithoutDistinct(s[1..], S);
      if s[0] !in S {
        var rest := Without(s[1..], S);
        WithoutIn(s[1..], S, s[0]);
        DistinctInsert(rest, 0, s[0]);
        assert Insert(rest, 0, s[0]) == Without(s, S);
      }
    }
  }

  lemma {:induction false} WithoutSubsequence(s: seq<Line>, S: set<Line>, v: seq<Line>)
    requires Subsequence(v, Without(s, S))
    ensures Subsequence(v, s)
  {
    if s != [] {
      if s[0] in S {
        WithoutSubsequence(s[1..], S, v);
        SubsequenceTail(v, s);
      } else if v != [] && v[0] == s[0] {
        WithoutSubsequence(s[1..], S, v[1..]);
      } else {
        WithoutSubsequence(s[1..], S, v);
      }
    }
  }

  lemma DistinctTail(s: seq<Line>)
    requires s != [] && Distinct(s)
    ensures Distinct(s[1..]) && s[0] !in s[1..]
  {
    DistinctCut(s, 0, 1);
    assert Cut(s, 0, 1) == s[1..] && OnlyAt(s, 0);
  }

  lemma {:induction false} SubsequenceTail(v: seq<Line>, s: seq<Line>)
    requires s != [] && Subsequence(v, s[1..])
    ensures Subsequence(v, s)
    decreases |v| + |s|
  {
    if v != [] && v[0] == s[0] {
      SubsequenceDrop(v, s[1..]);
    }
  }

  lemma {:induction false} SubsequenceDrop(v: seq<Line>, s: seq<Line>)
    requires v != [] && Subsequence(v, s)
    ensures Subsequence(v[1..], s)
    decreases |v| + |s|
  {
    if v[0] != s[0] {
      SubsequenceDrop(v, s[1..]);
    }
    SubsequenceTail(v[1..], s);
  }

  /** Whatever is removed on the way, the visits follow the build order, repeat
      nothing, and miss no line but those removed. */
  lemma {:induction false} VisitedOrder(pending: seq<Line>, run: seq<Event>)
    requires Distinct(pending)
    ensures Subsequence(Visited(pending, run), pending)
    ensures forall x :: x in pending ==> x in Visited(pending, run) || x in Remaining(pending, run) || Removes(run, x)
    decreases run
  {
    if run != [] {
      var rest := run[1..];
      assert forall x :: Removes(rest, x) ==> Removes(run, x) by {
        forall x | Removes(rest, x) ensures Removes(run, x) {
          var i :| 0 <= i < |rest| && rest[i].Remove? && x in rest[i].lines;
          assert run[i + 1] == rest[i];
        }
      }
      match run[0]
      case Visit =>
        if pending == [] {
          VisitedOrder([], rest);
        } else {
          DistinctTail(pending);
          VisitedOrder(pending[1..], rest);
        }
      case Remove(S) =>
        WithoutDistinct(pending, S);
        VisitedOrder(Without(pending, S), rest);
        forall x | x in pending ensures x in Without(pending, S) || x in S {
          WithoutIn(pending, S, x);
        }
        WithoutSubsequence(pending, S, Visited(Without(pending, S), rest));
    }
  }

  /** A line removed before its turn is not visited afterwards. */
  lemma {:induction false} RemovedNotVisited(pending: seq<Line>, S: set<Line>, run: seq<Event>)
    requires Distinct(pending)
    ensures forall x :: x in S ==> x !in Visited(pending, [Remove(S)] + run)
  {
    assert ([Remove(S)] + run)[1..] == run;
    WithoutDistinct(pending, S);
    VisitedOrder(Without(pending, S), run);
    SubsequenceIn(Visited(Without(pending, S), run), Without(pending, S));
    forall x | x in S ensures x !in Without(pending, S) {
      WithoutIn(pending, S, x);
    }
  }

  lemma {:induction false} SubsequenceIn(v: seq<Line>, s: seq<Line>)
    requires Subsequence(v, s)
    ensures forall x :: x in v ==> x in s
  {
    if v != [] {
      if v[0] == s[0] {
        SubsequenceIn(v[1..], s[1..]);
        assert v == [v[0]] + v[1..];
      } else {
        SubsequenceIn(v, s[1..]);
      }
    }
  }

  ghost predicate ThinnedAt(a: seq<Line?>, b: seq<Line?>, i: int)
    requires 0 <= i < |a| == |b|
  {
    a[i] == null || a[i] == b[i]
  }

  /** a is b with some entries removed. */
  ghost predicate Thinned(a: seq<Line?>, b: seq<Line?>) {
    |a| == |b| && forall i :: 0 <= i < |a| ==> ThinnedAt(a, b, i)
  }

  /** The list without the lines of S; only a global command has a list. */
  ghost function TakenOff(list: seq<Line?>, isGlobal: bool, S: set<Line>): seq<Line?> {
    if isGlobal then Unset(list, S) else list
  }

  lemma TakenOffTwice(list: seq<Line?>, isGlobal: bool, S: set<Line>, T: set<Line>)
    ensures TakenOff(TakenOff(list, isGlobal, S), isGlobal, T) == TakenOff(list, isGlobal, S + T)
    ensures TakenOff(list, isGlobal, {}) == list && Thinned(TakenOff(list, isGlobal, S), list)
  {
    UnsetTwice(list, S, T);
  }

  lemma ThinnedTrans(a: seq<Line?>, b: seq<Line?>, c: seq<Line?>)
    requires Thinned(a, b) && Thinned(b, c)
    ensures Thinned(a, c)
  {
    forall i | 0 <= i < |a| ensures ThinnedAt(a, c, i) {
      assert ThinnedAt(a, b, i) && ThinnedAt(b, c, i);
    }
  }
}
