/** What the editing commands mean for a plain list of texts; address 0 stands for the place before the first line. */
module EdMeaning {
  import opened EdRing
  import opened EdActive
  import opened EdLog
  import opened EdTexts
  import opened EdCommands
  import opened Basics
  import EdStreams
  import EdSubst
  import EdReplace

  /** An editing command with its addresses resolved. */
  datatype Edits =
    | Append(addr: int, input: seq<string>)
    | InsertBefore(addr: int, input: seq<string>)
    | Change(first: int, second: int, input: seq<string>)
    | Delete(first: int, second: int)
    | Join(first: int, second: int)
    | Move(first: int, second: int, addr: int)
    | Copy(first: int, second: int, addr: int)
    | Substitute(first: int, second: int, cmd: EdReplace.Command)
    | Read(addr: int, file: Option<string>)   // None: it cannot be opened

  /** check_addr_range */
  predicate InRange(first: int, second: int, addrLast: int) {
    !(first > second || 1 > first || second > addrLast)
  }

  /** The address checks of a command, which come before anything else. */
  predicate Legal(c: Edits, addrLast: int) {
    match c
    case Append(addr, _) => 0 <= addr <= addrLast
    case InsertBefore(addr, _) => addr != 0 && 0 <= addr <= addrLast
    case Change(first, second, _) => InRange(first, second, addrLast)
    case Delete(first, second) => InRange(first, second, addrLast)
    case Join(first, second) => InRange(first, second, addrLast)
    case Move(first, second, addr) =>
      InRange(first, second, addrLast) && 0 <= addr <= addrLast && !(first <= addr < second)
    case Copy(first, second, addr) => InRange(first, second, addrLast) && 0 <= addr <= addrLast
    case Substitute(first, second, _) => InRange(first, second, addrLast)
    case Read(addr, _) => 0 <= addr <= addrLast
  }

  /** Which addresses a command takes: a line or the place before the first, or lines in order, and no move into itself. */
  lemma LegalAddresses(c: Edits, addrLast: int)
    ensures c.Append? || c.Read? ==> (Legal(c, addrLast) <==> 0 <= c.addr <= addrLast)
    ensures c.InsertBefore? ==> (Legal(c, addrLast) <==> 1 <= c.addr <= addrLast)
    ensures c.Change? || c.Delete? || c.Join? || c.Substitute? || c.Move? || c.Copy? ==>
      (Legal(c, addrLast) ==> 1 <= c.first <= c.second <= addrLast)
    ensures c.Change? || c.Delete? || c.Join? || c.Substitute? ==>
      (1 <= c.first <= c.second <= addrLast ==> Legal(c, addrLast))
    ensures c.Copy? && 1 <= c.first <= c.second <= addrLast ==> (Legal(c, addrLast) <==> 0 <= c.addr <= addrLast)
    ensures c.Move? && 1 <= c.first <= c.second <= addrLast ==>
      (Legal(c, addrLast) <==> 0 <= c.addr <= addrLast && (c.addr < c.first || c.second <= c.addr))
  {
  }

  /** Input comes in lines, and matchers keep what regexec promises. */
  ghost predicate WellFormed(c: Edits) {
    match c
    case Append(_, input) => LineInput(input)
    case InsertBefore(_, input) => LineInput(input)
    case Change(_, _, input) => LineInput(input)
    case Substitute(_, _, cmd) => EdSubst.Matches(cmd.pat)
    case _ => true
  }

  /** A line after substitution: itself, or the lines it is replaced by. */
  ghost function SubstLine(cmd: EdReplace.Command, t: string): seq<string>
    requires EdSubst.Matches(cmd.pat)
  {
    match EdSubst.Substituted(cmd.pat, cmd.template, t, cmd.kth, cmd.global)
    case Replaced(out) => EdReplace.LinesOf(out)
    case _ => [t]
  }

  ghost function SubstAll(cmd: EdReplace.Command, T: seq<string>): seq<string>
    requires EdSubst.Matches(cmd.pat)
  {
    if T == [] then [] else SubstAll(cmd, T[..|T| - 1]) + SubstLine(cmd, T[|T| - 1])
  }

  ghost function SubstRange(cmd: EdReplace.Command, T: seq<string>, first: int, second: int): seq<string>
    requires EdSubst.Matches(cmd.pat) && 0 <= first <= second < |T|
  {
    PutIn(TakenOut(T, first, second), first, SubstAll(cmd, T[first..second + 1]))
  }

  /** T with ins put in at position p. */
  ghost function PutIn(T: seq<string>, p: int, ins: seq<string>): seq<string>
    requires 0 <= p <= |T|
  {
    T[..p] + ins + T[p..]
  }

  ghost function TakenOut(T: seq<string>, first: int, second: int): seq<string>
    requires 0 <= first <= second < |T|
  {
    T[..first] + T[second + 1..]
  }

  /** The lines are taken out and put in behind line addr of before, wherever that is then. */
  ghost function Rearranged(T: seq<string>, first: int, second: int, addr: int): seq<string>
    requires Movable(first, second, addr, |T| - 1)
  {
    var p := if addr < first then addr + 1 else addr - (second - first);
    PutIn(TakenOut(T, first, second), p, T[first..second + 1])
  }

  ghost function JoinedRange(T: seq<string>, first: int, second: int): seq<string>
    requires 0 <= first <= second < |T|
  {
    PutIn(TakenOut(T, first, second), first, [Flatten(T[first..second + 1])])
  }

  ghost function Typed(input: seq<string>): seq<string> {
    input[..InputLength(input)]
  }

  ghost function FileLines(file: Option<string>): seq<string> {
    if file.Some? then EdStreams.Lines(file.value) else []
  }

  /** The texts after the command. */
  ghost function Edited(c: Edits, T: seq<string>): seq<string>
    requires Legal(c, |T| - 1) && WellFormed(c)
  {
    match c
    case Append(addr, input) => PutIn(T, addr + 1, Typed(input))
    case InsertBefore(addr, input) => PutIn(T, addr, Typed(input))
    case Change(first, second, input) => PutIn(TakenOut(T, first, second), first, Typed(input))
    case Delete(first, second) => TakenOut(T, first, second)
    case Join(first, second) =>
      if first == second then T else JoinedRange(T, first, second)
    case Move(first, second, addr) => Rearranged(T, first, second, addr)
    case Copy(first, second, addr) => PutIn(T, addr + 1, T[first..second + 1])
    case Substitute(first, second, cmd) => SubstRange(cmd, T, first, second)
    case Read(addr, file) => PutIn(T, addr + 1, FileLines(file))
  }

  ghost predicate EndsAt(cmd: EdReplace.Command, t: string) {
    EdSubst.Ends(cmd.pat, cmd.template, t, cmd.kth, cmd.global)
  }

  ghost predicate ChangesAt(cmd: EdReplace.Command, t: string) {
    EdSubst.Changes(cmd.pat, cmd.template, t, cmd.kth, cmd.global)
  }

  /** Whether a command with legal addresses succeeds: all do but r without a file, and s without a change or an end. */
  ghost predicate Succeeds(c: Edits, T: seq<string>, isGlobal: bool)
    requires Legal(c, |T| - 1)
  {
    match c
    case Read(_, file) => file.Some?
    case Substitute(first, second, cmd) =>
      && (forall i :: first <= i <= second ==> EndsAt(cmd, T[i]))
      && (isGlobal || exists i :: first <= i <= second && ChangesAt(cmd, T[i]))
    case _ => true
  }

  /** The lines a command takes out of the buffer or to another place; they leave the list of a global command. */
  ghost function Taken(c: Edits, L: seq<Line>): set<Line>
    requires Legal(c, |L| - 1) && WellFormed(c)
  {
    match c
    case Change(first, second, _) => NodeSet(L[first..second + 1])
    case Delete(first, second) => NodeSet(L[first..second + 1])
    case Join(first, second) => if first == second then {} else NodeSet(L[first..second + 1])
    case Move(first, second, _) => NodeSet(L[first..second + 1])
    case Substitute(first, second, cmd) => EdReplace.ChangedLines(cmd, L[first..second + 1])
    case _ => {}
  }

  /** The last line that came of the last line changed. */
  ghost function SubstCurrent(cmd: EdReplace.Command, T: seq<string>, first: int, second: int, current: int): int
    requires EdSubst.Matches(cmd.pat) && 0 <= first <= second < |T|
  {
    var S := T[first..second + 1];
    var k := LastChanged(cmd, S);
    if k == -1 then current else first - 1 + |SubstAll(cmd, S[..k + 1])|
  }

  /** The current address after the command. */
  ghost function CurrentAfter(c: Edits, T: seq<string>, current: int): int
    requires Legal(c, |T| - 1) && WellFormed(c)
  {
    var last := |T| - 1;
    match c
    case Append(addr, input) => addr + InputLength(input)
    case InsertBefore(addr, input) => addr - 1 + InputLength(input)
    case Change(first, second, input) => first - 1 + InputLength(input)
    case Delete(first, second) => if first <= last - (second - first + 1) then first else last - (second - first + 1)
    case Join(first, second) => if first == second then current else first
    case Move(first, second, addr) => MovedTo(first, second, addr)
    case Copy(first, second, addr) => addr + (second - first + 1)
    case Substitute(first, second, cmd) => SubstCurrent(cmd, T, first, second, current)
    case Read(addr, file) => addr + |FileLines(file)|
  }

  /** The buffer has gone from L to L' as the command says. */
  ghost predicate Meant(c: Edits, L: seq<Line>, current: int, L': seq<Line>, current': int)
    requires Legal(c, |L| - 1) && WellFormed(c)
  {
    AllTexts(L') == Edited(c, AllTexts(L)) && current' == CurrentAfter(c, AllTexts(L), current)
  }

  lemma InsertedTexts(L: seq<Line>, L': seq<Line>, p: int, k: int, ins: seq<string>, data: string)
    requires Inserted(L, L', p, k) && Own(L', data) && HaveTexts(data, L'[p..p + k], ins)
    ensures AllTexts(L') == PutIn(AllTexts(L), p, ins)
  {
    var S := L'[p..p + k];
    OwnSlice(L', p, p + k, data);
    TextsAre(S, ins, data);
    InsertedParts(L, L', p, k);
    PutInTexts(L, p, S);
  }

  lemma InsertedParts(L: seq<Line>, L': seq<Line>, p: int, k: int)
    requires Inserted(L, L', p, k)
    ensures |L| == |L'| - k && L' == L[..p] + L'[p..p + k] + L[p..] && L[..p] == L[0..p]
  {
  }

  lemma PutInTexts(L: seq<Line>, p: int, N: seq<Line>)
    requires 0 <= p <= |L|
    ensures AllTexts(L[..p] + N + L[p..]) == PutIn(AllTexts(L), p, AllTexts(N))
  {
    TextsConcat(L[..p] + N, L[p..]);
    TextsConcat(L[..p], N);
    TextsSlice(L, 0, p);
    TextsSlice(L, p, |L|);
    assert L[..p] == L[0..p];
  }

  lemma CutTexts(L: seq<Line>, first: int, second: int)
    requires 0 <= first <= second < |L|
    ensures AllTexts(Cut(L, first, second - first + 1)) == TakenOut(AllTexts(L), first, second)
  {
    TextsConcat(L[..first], L[second + 1..]);
    TextsSlice(L, 0, first);
    TextsSlice(L, second + 1, |L|);
    assert L[..first] == L[0..first];
  }

  /** Lines taken out, and others put in their place. */
  lemma ReplacedTexts(L: seq<Line>, L': seq<Line>, first: int, second: int, k: int, ins: seq<string>, data: string)
    requires 0 <= first <= second < |L| && Inserted(Cut(L, first, second - first + 1), L', first, k)
    requires Own(L', data) && HaveTexts(data, L'[first..first + k], ins)
    ensures AllTexts(L') == PutIn(TakenOut(AllTexts(L), first, second), first, ins)
  {
    CutTexts(L, first, second);
    InsertedTexts(Cut(L, first, second - first + 1), L', first, k, ins, data);
  }

  lemma JoinedMeaning(L: seq<Line>, L': seq<Line>, data: string, first: int, second: int)
    requires 0 <= first <= second < |L| && Own(L', data)
    requires Inserted(Cut(L, first, second - first + 1), L', first, 1)
    requires HasText(data, L'[first], JoinedText(L, first, second + 1))
    ensures AllTexts(L') == JoinedRange(AllTexts(L), first, second)
  {
    var text := JoinedText(L, first, second + 1);
    JoinedTexts(L, first, second + 1);
    OneText(data, L', first, text);
    ReplacedTexts(L, L', first, second, 1, [text], data);
  }

  lemma OneText(data: string, L: seq<Line>, p: int, text: string)
    requires 0 <= p < |L| && HasText(data, L[p], text)
    ensures HaveTexts(data, L[p..p + 1], [text])
  {
    var S := L[p..p + 1];
    forall i | 0 <= i < |S| ensures HasTextAt(data, S, [text], i) {
      assert S[i] == L[p];
    }
  }

  lemma CopiedMeaning(L: seq<Line>, L': seq<Line>, first: int, second: int, addr: int)
    requires 0 <= first <= second < |L| && 0 <= addr < |L|
    requires Inserted(L, L', addr + 1, second - first + 1)
    requires Copies(L'[addr + 1..addr + (second - first + 1) + 1], L[first..second + 1])
    ensures AllTexts(L') == PutIn(AllTexts(L), addr + 1, AllTexts(L)[first..second + 1])
  {
    var S, N := L[first..second + 1], L'[addr + 1..addr + 1 + (second - first + 1)];
    CopiedTexts(N, S);
    TextsSlice(L, first, second + 1);
    InsertedParts(L, L', addr + 1, |S|);
    PutInTexts(L, addr + 1, N);
  }

  lemma {:induction false} JoinedTexts(L: seq<Line>, a: int, b: int)
    requires 0 <= a <= b <= |L|
    ensures JoinedText(L, a, b) == Flatten(AllTexts(L)[a..b])
    decreases b - a
  {
    if a < b {
      JoinedTexts(L, a, b - 1);
      ConcatNext(AllTexts(L), a, b);
    }
  }

  lemma ConcatNext(T: seq<string>, a: int, b: int)
    requires 0 <= a < b <= |T|
    ensures Flatten(T[a..b]) == Flatten(T[a..b - 1]) + T[b - 1]
  {
    assert T[a..b][..b - a - 1] == T[a..b - 1];
  }

  lemma SwapTexts(L: seq<Line>, i: int, j: int, k: int)
    requires 0 <= i <= j <= k <= |L|
    ensures var T := AllTexts(L); AllTexts(Swap(L, i, j, k)) == T[..i] + T[j..k] + T[i..j] + T[k..]
  {
    TextsConcat(L[..i] + L[j..k] + L[i..j], L[k..]);
    TextsConcat(L[..i] + L[j..k], L[i..j]);
    TextsConcat(L[..i], L[j..k]);
    TextsSlice(L, 0, i);
    TextsSlice(L, i, j);
    TextsSlice(L, j, k);
    TextsSlice(L, k, |L|);
    assert L[..i] == L[0..i];
  }

  lemma PartDown(T: seq<string>, first: int, second: int, addr: int)
    requires 0 <= first <= second <= addr < |T|
    ensures PutIn(TakenOut(T, first, second), addr - (second - first), T[first..second + 1])
            == T[..first] + T[second + 1..addr + 1] + T[first..second + 1] + T[addr + 1..]
  {
    var out, p := TakenOut(T, first, second), addr - (second - first);
    assert out[..p] == T[..first] + T[second + 1..addr + 1] && out[p..] == T[addr + 1..];
  }

  lemma PartUp(T: seq<string>, first: int, second: int, addr: int)
    requires 0 <= addr < first <= second < |T|
    ensures PutIn(TakenOut(T, first, second), addr + 1, T[first..second + 1])
            == T[..addr + 1] + T[first..second + 1] + T[addr + 1..first] + T[second + 1..]
  {
    var out := TakenOut(T, first, second);
    assert out[..addr + 1] == T[..addr + 1] && out[addr + 1..] == T[addr + 1..first] + T[second + 1..];
  }

  lemma MovedTexts(L: seq<Line>, first: int, second: int, addr: int)
    requires Movable(first, second, addr, |L| - 1)
    ensures AllTexts(Moved(L, first, second, addr)) == Rearranged(AllTexts(L), first, second, addr)
  {
    if addr < first {
      MovedUp(L, first, second, addr);
    } else {
      MovedDown(L, first, second, addr);
    }
  }

  lemma MovedUp(L: seq<Line>, first: int, second: int, addr: int)
    requires Movable(first, second, addr, |L| - 1) && addr < first
    ensures AllTexts(Moved(L, first, second, addr)) == Rearranged(AllTexts(L), first, second, addr)
  {
    SwapTexts(L, addr + 1, first, second + 1);
    PartUp(AllTexts(L), first, second, addr);
  }

  lemma MovedDown(L: seq<Line>, first: int, second: int, addr: int)
    requires Movable(first, second, addr, |L| - 1) && second <= addr
    ensures AllTexts(Moved(L, first, second, addr)) == Rearranged(AllTexts(L), first, second, addr)
  {
    SwapTexts(L, first, second + 1, addr + 1);
    PartDown(AllTexts(L), first, second, addr);
  }

  lemma CopiedTexts(N: seq<Line>, S: seq<Line>)
    requires Copies(N, S) && |N| == |S|
    ensures AllTexts(N) == AllTexts(S)
  {
    forall i | 0 <= i < |N| ensures N[i].text == S[i].text {
      assert CopyAt(N, S, i);
    }
  }

  lemma {:induction false} PartsTexts(cmd: EdReplace.Command, visited: seq<Line>, parts: seq<seq<Line>>)
    requires EdSubst.Matches(cmd.pat) && EdReplace.PartsOk(cmd, visited, parts)
    ensures AllTexts(Flatten(parts)) == SubstAll(cmd, AllTexts(visited))
    decreases |parts|
  {
    if parts != [] {
      var k := |parts| - 1;
      PartsHead(cmd, visited, parts, k);
      PartsTexts(cmd, visited[..k], parts[..k]);
      TextsConcat(Flatten(parts[..k]), parts[k]);
      assert AllTexts(visited)[..k] == AllTexts(visited[..k]);
    }
  }

  lemma PartsHead(cmd: EdReplace.Command, visited: seq<Line>, parts: seq<seq<Line>>, k: int)
    requires EdSubst.Matches(cmd.pat) && EdReplace.PartsOk(cmd, visited, parts) && 0 <= k <= |parts|
    ensures EdReplace.PartsOk(cmd, visited[..k], parts[..k])
    ensures k < |parts| ==> AllTexts(parts[k]) == SubstLine(cmd, visited[k].text)
  {
    assert k < |parts| ==> EdReplace.PartAt(cmd, visited, parts, k);
    forall i | 0 <= i < k ensures EdReplace.PartAt(cmd, visited[..k], parts[..k], i) {
      assert EdReplace.PartAt(cmd, visited, parts, i);
    }
  }

  /** The last text of T that is changed. */
  ghost function LastChanged(cmd: EdReplace.Command, T: seq<string>): (last: int)
    requires EdSubst.Matches(cmd.pat)
    ensures -1 <= last < |T|
  {
    if T == [] then -1
    else if EdSubst.Substituted(cmd.pat, cmd.template, T[|T| - 1], cmd.kth, cmd.global).Replaced? then |T| - 1
    else LastChanged(cmd, T[..|T| - 1])
  }

  lemma {:induction false} LastChangedIs(cmd: EdReplace.Command, before: seq<Line>, visited: seq<Line>, parts: seq<seq<Line>>, last: int, xa: int)
    requires EdSubst.Matches(cmd.pat) && EdReplace.LastChange(cmd, before, visited, parts, last, xa)
    ensures LastChanged(cmd, AllTexts(visited)) == last
    decreases |visited|
  {
    if last < |visited| - 1 {
      var k := |visited| - 1;
      assert EdReplace.Result(cmd, visited[k]).Unchanged?;
      assert parts[..k][..last + 1] == parts[..last + 1];
      LastChangedIs(cmd, before, visited[..k], parts[..k], last, xa);
      assert AllTexts(visited)[..k] == AllTexts(visited[..k]);
    }
  }

  lemma SearchedTexts(cmd: EdReplace.Command, L: seq<Line>, first: int, second: int, parts: seq<seq<Line>>, last: int,
                      lines: seq<Line>, xa: int)
    requires EdSubst.Matches(cmd.pat) && 1 <= first <= second < |L|
    requires EdReplace.Searched(cmd, L, first, second, parts, last, lines, xa)
    ensures AllTexts(lines) == SubstRange(cmd, AllTexts(L), first, second)
  {
    PartsTexts(cmd, L[first..second + 1], parts);
    SplicedTexts(L, first, second, Flatten(parts));
  }

  lemma SearchedCurrent(cmd: EdReplace.Command, before: seq<Line>, visited: seq<Line>, parts: seq<seq<Line>>, last: int, xa: int)
    requires EdSubst.Matches(cmd.pat) && EdReplace.PartsOk(cmd, visited, parts)
    requires EdReplace.LastChange(cmd, before, visited, parts, last, xa)
    ensures last == LastChanged(cmd, AllTexts(visited))
    ensures last >= 0 ==> xa == |before| - 1 + |SubstAll(cmd, AllTexts(visited)[..last + 1])|
  {
    LastChangedIs(cmd, before, visited, parts, last, xa);
    PartsHead(cmd, visited, parts, last + 1);
    PartsTexts(cmd, visited[..last + 1], parts[..last + 1]);
    assert AllTexts(visited[..last + 1]) == AllTexts(visited)[..last + 1];
  }

  lemma AppendMeant(L: seq<Line>, L': seq<Line>, addr: int, input: seq<string>, current: int, data: string)
    requires 0 <= addr < |L| && LineInput(input) && Own(L', data)
    requires Inserted(L, L', addr + 1, InputLength(input))
    requires HaveTexts(data, L'[addr + 1..addr + InputLength(input) + 1], Typed(input))
    ensures Meant(Append(addr, input), L, current, L', addr + InputLength(input))
    ensures addr + 1 < |L| ==> Meant(InsertBefore(addr + 1, input), L, current, L', addr + InputLength(input))
  {
    InsertedTexts(L, L', addr + 1, InputLength(input), Typed(input), data);
  }

  lemma ReadMeant(L: seq<Line>, L': seq<Line>, addr: int, file: string, current: int, data: string)
    requires 0 <= addr < |L| && Own(L', data)
    requires Inserted(L, L', addr + 1, |EdStreams.Lines(file)|)
    requires HaveTexts(data, L'[addr + 1..addr + 1 + |EdStreams.Lines(file)|], EdStreams.Lines(file))
    ensures Meant(Read(addr, Some(file)), L, current, L', addr + |EdStreams.Lines(file)|)
  {
    InsertedTexts(L, L', addr + 1, |EdStreams.Lines(file)|, EdStreams.Lines(file), data);
  }

  lemma ChangeMeant(L: seq<Line>, L': seq<Line>, first: int, second: int, input: seq<string>, current: int, data: string)
    requires 1 <= first <= second < |L| && LineInput(input) && Own(L', data)
    requires Inserted(Cut(L, first, second - first + 1), L', first, InputLength(input))
    requires HaveTexts(data, L'[first..first + InputLength(input)], Typed(input))
    ensures Meant(Change(first, second, input), L, current, L', first - 1 + InputLength(input))
  {
    ReplacedTexts(L, L', first, second, InputLength(input), Typed(input), data);
  }

  lemma DeleteMeant(L: seq<Line>, first: int, second: int, current: int)
    requires 1 <= first <= second < |L|
    ensures var L' := Cut(L, first, second - first + 1);
      Meant(Delete(first, second), L, current, L', if first <= |L'| - 1 then first else |L'| - 1)
  {
    CutTexts(L, first, second);
  }

  lemma JoinMeant(L: seq<Line>, L': seq<Line>, first: int, second: int, current: int, data: string)
    requires 1 <= first < second < |L| && Own(L', data)
    requires Inserted(Cut(L, first, second - first + 1), L', first, 1)
    requires HasText(data, L'[first], JoinedText(L, first, second + 1))
    ensures Meant(Join(first, second), L, current, L', first)
  {
    hide Cut, AllTexts, JoinedText, JoinedRange;
    JoinedMeaning(L, L', data, first, second);
  }

  lemma CopyMeant(L: seq<Line>, L': seq<Line>, first: int, second: int, addr: int, current: int)
    requires 1 <= first <= second < |L| && 0 <= addr < |L|
    requires Inserted(L, L', addr + 1, second - first + 1)
    requires Copies(L'[addr + 1..addr + (second - first + 1) + 1], L[first..second + 1])
    ensures Meant(Copy(first, second, addr), L, current, L', addr + (second - first + 1))
  {
    CopiedMeaning(L, L', first, second, addr);
  }

  /** What search_and_replace has done is what the substitution means. */
  lemma SubstituteMeant(cmd: EdReplace.Command, L: seq<Line>, first: int, second: int, parts: seq<seq<Line>>, last: int,
                        lines: seq<Line>, current: int, xa: int)
    requires EdSubst.Matches(cmd.pat) && 1 <= first <= second < |L|
    requires EdReplace.Searched(cmd, L, first, second, parts, last, lines, xa)
    requires last == -1 ==> xa == current
    ensures Meant(Substitute(first, second, cmd), L, current, lines, xa)
  {
    hide SubstRange, SubstCurrent, AllTexts, EdReplace.Searched;
    SearchedTexts(cmd, L, first, second, parts, last, lines, xa);
    CurrentMeant(cmd, L, first, second, parts, last, lines, current, xa);
  }

  lemma CurrentMeant(cmd: EdReplace.Command, L: seq<Line>, first: int, second: int, parts: seq<seq<Line>>, last: int,
                     lines: seq<Line>, current: int, xa: int)
    requires EdSubst.Matches(cmd.pat) && 1 <= first <= second < |L|
    requires EdReplace.Searched(cmd, L, first, second, parts, last, lines, xa)
    requires last == -1 ==> xa == current
    ensures xa == SubstCurrent(cmd, AllTexts(L), first, second, current)
  {
    TextsSlice(L, first, second + 1);
    SearchedCurrent(cmd, L[..first], L[first..second + 1], parts, last, xa);
  }

  lemma SplicedTexts(L: seq<Line>, first: int, second: int, flat: seq<Line>)
    requires 0 <= first <= second < |L|
    ensures AllTexts(L[..first] + flat + L[second + 1..]) == PutIn(TakenOut(AllTexts(L), first, second), first, AllTexts(flat))
    ensures AllTexts(L[first..second + 1]) == AllTexts(L)[first..second + 1]
  {
    TextsConcat(L[..first] + flat, L[second + 1..]);
    TextsConcat(L[..first], flat);
    TextsSlice(L, first, second + 1);
    TextsSlice(L, 0, first);
    TextsSlice(L, second + 1, |L|);
    var T := AllTexts(L);
    assert L[..first] == L[0..first];
    assert TakenOut(T, first, second)[..first] == T[..first] && TakenOut(T, first, second)[first..] == T[second + 1..];
  }

  /** What search_and_replace answers is whether the substitution succeeds. */
  lemma SubstituteSucceeds(cmd: EdReplace.Command, L: seq<Line>, first: int, second: int, parts: seq<seq<Line>>, last: int,
                           lines: seq<Line>, xa: int, isGlobal: bool)
    requires EdSubst.Matches(cmd.pat) && 1 <= first <= second < |L|
    requires EdReplace.Searched(cmd, L, first, second, parts, last, lines, xa)
    ensures Succeeds(Substitute(first, second, cmd), AllTexts(L), isGlobal) <==> last >= 0 || isGlobal
  {
    hide EdSubst.Ends, EdSubst.Changes, EdSubst.Substituted;
    var T, R := AllTexts(L), L[first..second + 1];
    forall i | first <= i <= second
      ensures EndsAt(cmd, T[i]) && (ChangesAt(cmd, T[i]) <==> EdReplace.Result(cmd, L[i]).Replaced?)
    {
      assert R[i - first] == L[i] && EdReplace.PartAt(cmd, R, parts, i - first);
      EdSubst.OutcomeMeaning(cmd.pat, cmd.template, T[i], cmd.kth, cmd.global);
    }
    if last >= 0 {
      assert R[last] == L[first + last] && ChangesAt(cmd, T[first + last]);
    } else {
      forall i | first <= i <= second ensures !ChangesAt(cmd, T[i]) {
        assert EdReplace.Result(cmd, R[i - first]).Unchanged? && R[i - first] == L[i];
      }
    }
  }

  lemma SubstituteFails(cmd: EdReplace.Command, L: seq<Line>, first: int, second: int, i: int, isGlobal: bool)
    requires EdSubst.Matches(cmd.pat) && 1 <= first <= i <= second < |L| && EdReplace.Result(cmd, L[i]).Endless?
    ensures !Succeeds(Substitute(first, second, cmd), AllTexts(L), isGlobal)
  {
    EdSubst.OutcomeMeaning(cmd.pat, cmd.template, AllTexts(L)[i], cmd.kth, cmd.global);
    assert !EndsAt(cmd, AllTexts(L)[i]);
  }
}
