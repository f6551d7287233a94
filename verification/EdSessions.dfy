/** Sessions: editing commands, global commands and u, as they look to a user. */
module EdSessions {
  import opened EdHistory
  import opened EdBuffer
  import opened EdTexts
  import opened EdMeaning
  import opened EdRuns
  import opened EdGlobalDelete
  import opened EdGlobalMove
  import opened EdGlobalSubstitute

  /** What a user sees of the editor: the texts, the current address, and what u would bring back of both. */
  datatype Doc = Doc(texts: seq<string>, current: int, before: seq<string>, beforeCurrent: int)

  /** What a global command does to each line it selects. */
  datatype Action = DeleteEach | MoveEach | SubstituteEach(cmd: EdReplace.Command)

  datatype Request =
    | Do(c: Edits)
    | OnEach(first: int, second: int, sel: string -> bool, action: Action)   // g/re/d, g/re/m0, g/re/s
    | TakeBack

  ghost predicate RequestOk(r: Request) {
    match r
    case Do(c) => WellFormed(c)
    case OnEach(_, _, _, action) => action.SubstituteEach? ==> EdSubst.Matches(action.cmd.pat)
    case TakeBack => true
  }

  /** The texts after a global command. */
  ghost function TextsAfter(action: Action, T: seq<string>, first: int, second: int, sel: string -> bool): seq<string>
    requires InRange(first, second, |T| - 1) && (action.SubstituteEach? ==> EdSubst.Matches(action.cmd.pat))
  {
    var U := T[first..second + 1];
    match action
    case DeleteEach => T[..first] + Unselected(U, sel) + T[second + 1..]
    case MoveEach => T[..1] + Reverse(Chosen(U, sel)) + (T[1..first] + Unselected(U, sel) + T[second + 1..])
    case SubstituteEach(cmd) => T[..first] + SubstChosen(cmd, U, sel) + T[second + 1..]
  }

  /** The current address after it. */
  ghost function AddressAfter(action: Action, T: seq<string>, first: int, second: int, sel: string -> bool, current: int): int
    requires InRange(first, second, |T| - 1) && (action.SubstituteEach? ==> EdSubst.Matches(action.cmd.pat))
  {
    match action
    case DeleteEach => DeletedTo(T, first, second, sel, current, |TextsAfter(action, T, first, second, sel)| - 1)
    case MoveEach => if LastChosen(T[first..second + 1], sel) == -1 then current else 1
    case SubstituteEach(cmd) => SubstitutedTo(cmd, T, first, second, sel, current)
  }

  /** Whether a request succeeds: its addresses are legal, what it does succeeds, and there is something for u to bring back. */
  ghost predicate CanServe(r: Request, d: Doc) {
    match r
    case Do(c) => Legal(c, |d.texts| - 1) && WellFormed(c) && Succeeds(c, d.texts, false)
    case OnEach(first, second, sel, action) =>
      && RequestOk(r) && InRange(first, second, |d.texts| - 1)
      && (action.SubstituteEach? ==> AllEnd(action.cmd, d.texts[first..second + 1], sel))
    case TakeBack => d.beforeCurrent != -1
  }

  /** A command, global or not, keeps what there was for u; u exchanges the two. */
  ghost function Served(r: Request, d: Doc): Doc
    requires CanServe(r, d)
  {
    match r
    case Do(c) => Doc(Edited(c, d.texts), CurrentAfter(c, d.texts, d.current), d.texts, d.current)
    case OnEach(first, second, sel, action) =>
      Doc(TextsAfter(action, d.texts, first, second, sel), AddressAfter(action, d.texts, first, second, sel, d.current),
          d.texts, d.current)
    case TakeBack => Doc(d.before, d.beforeCurrent, d.texts, d.current)
  }

  /** Whether all requests succeed, one after the other. */
  ghost predicate AllServed(rs: seq<Request>, d: Doc) {
    rs == [] || (CanServe(rs[0], d) && AllServed(rs[1..], Served(rs[0], d)))
  }

  ghost function After(rs: seq<Request>, d: Doc): Doc
    requires AllServed(rs, d)
  {
    if rs == [] then d else After(rs[1..], Served(rs[0], d))
  }

  ghost function DocOf(ed: Editor): Doc
    requires ed.log.states != []
    reads ed
  {
    Doc(AllTexts(ed.lines), ed.currentAddr, AllTexts(ed.log.states[0]), ed.uCurrentAddr)
  }

  lemma HasBase(ed: Editor)
    requires ed.Valid()
    ensures ed.log.states != [] && |ed.log.recs| == |ed.log.edits| && |ed.lines| == ed.addrLast + 1
    ensures ReverseLog(ed.log).states != [] && ReverseLog(ed.log).states[0] == ed.lines
  {
  }

  method Serve(ed: Editor, io: EdStreams.Io, r: Request) returns (ok: bool)
    requires ed.Valid() && !ed.isGlobal && RequestOk(r)
    modifies ed`cursor, ed`on, ed`currentAddr, ed`addrLast, ed`lines, ed`nodes, ed`ustack, ed`log, ed`modified,
             ed`uCurrentAddr, ed`uAddrLast, ed`freed, ed`isGlobal, ed.nodes, ed.sf, ed.act, ed.marks, io
    ensures ed.Valid() && !ed.isGlobal && (forall x :: x in ed.nodes && x !in old(ed.nodes) ==> fresh(x))
    ensures old(ed.log.states) != [] && ed.log.states != []
    ensures ok <==> CanServe(r, old(DocOf(ed)))
    ensures ok ==> DocOf(ed) == Served(r, old(DocOf(ed)))
  {
    hide Editor.PartsValid, Succeeds, TextsAfter, AddressAfter, Edited, CurrentAfter, AllEnd;
    HasBase(ed);
    match r
    case Do(c) => ok := ExecCommand(ed, io, c);
    case OnEach(first, second, sel, action) => ok := ServeEach(ed, first, second, sel, action);
    case TakeBack =>
      var status := ed.PopUndoStack();
      ok := status == 0;
  }

  /** A global command on a legal range. */
  method ServeEach(ed: Editor, first: int, second: int, sel: string -> bool, action: Action) returns (ok: bool)
    requires ed.Valid() && !ed.isGlobal && (action.SubstituteEach? ==> EdSubst.Matches(action.cmd.pat))
    modifies ed`cursor, ed`on, ed`currentAddr, ed`addrLast, ed`lines, ed`nodes, ed`ustack, ed`log, ed`modified,
             ed`uCurrentAddr, ed`uAddrLast, ed`freed, ed`isGlobal, ed.nodes, ed.sf, ed.act, ed.marks
    ensures ed.Valid() && !ed.isGlobal && (forall x :: x in ed.nodes && x !in old(ed.nodes) ==> fresh(x))
    ensures ok <==>
      && InRange(first, second, |old(ed.lines)| - 1)
      && (action.SubstituteEach? ==> AllEnd(action.cmd, AllTexts(old(ed.lines))[first..second + 1], sel))
    ensures ok ==> ed.log.states != [] && ed.log.states[0] == old(ed.lines) && ed.uCurrentAddr == old(ed.currentAddr)
    ensures ok ==> AllTexts(ed.lines) == TextsAfter(action, AllTexts(old(ed.lines)), first, second, sel)
    ensures ok ==> ed.currentAddr == AddressAfter(action, AllTexts(old(ed.lines)), first, second, sel, old(ed.currentAddr))
  {
    hide Editor.PartsValid, Unselected, Chosen, Reverse, SubstChosen, AllEnd, LastChosen, DeletedTo, SubstitutedTo;
    HasBase(ed);
    ok := InRange(first, second, ed.addrLast);
    if ok {
      match action
      case DeleteEach => GlobalDelete(ed, first, second, sel);
      case MoveEach => GlobalMove(ed, first, second, sel);
      case SubstituteEach(cmd) => ok := GlobalSubstitute(ed, first, second, sel, cmd);
    }
  }

  /** A session succeeds, request by request, and does what the requests mean for plain lists of texts. */
  method RunSession(ed: Editor, io: EdStreams.Io, rs: seq<Request>) returns (ok: bool)
    requires ed.Valid() && !ed.isGlobal && forall i :: 0 <= i < |rs| ==> RequestOk(rs[i])
    modifies ed`cursor, ed`on, ed`currentAddr, ed`addrLast, ed`lines, ed`nodes, ed`ustack, ed`log, ed`modified,
             ed`uCurrentAddr, ed`uAddrLast, ed`freed, ed`isGlobal, ed.nodes, ed.sf, ed.act, ed.marks, io
    ensures ed.Valid() && !ed.isGlobal && (forall x :: x in ed.nodes && x !in old(ed.nodes) ==> fresh(x))
    ensures old(ed.log.states) != [] && ed.log.states != []
    ensures ok <==> AllServed(rs, old(DocOf(ed)))
    ensures ok ==> DocOf(ed) == After(rs, old(DocOf(ed)))
  {
    hide Editor.PartsValid, CanServe, Served, AllServed, After;
    HasBase(ed);
    ok := true;
    ghost var d := DocOf(ed);
    assert rs[0..] == rs;
    for i := 0 to |rs|
      invariant ed.Valid() && !ed.isGlobal && (forall x :: x in ed.nodes && x !in old(ed.nodes) ==> fresh(x))
      invariant ed.log.states != [] && (AllServed(rs, d) <==> AllServed(rs[i..], DocOf(ed)))
      invariant AllServed(rs, d) ==> After(rs, d) == After(rs[i..], DocOf(ed))
    {
      ServedFirst(rs[i..], DocOf(ed));
      assert rs[i..][1..] == rs[i + 1..];
      ok := Serve(ed, io, rs[i]);
      if !ok {
        return;
      }
    }
    NoneLeft(rs[|rs|..], DocOf(ed));
  }

  lemma ServedFirst(rs: seq<Request>, d: Doc)
    requires rs != []
    ensures AllServed(rs, d) <==> CanServe(rs[0], d) && AllServed(rs[1..], Served(rs[0], d))
    ensures AllServed(rs, d) ==> After(rs, d) == After(rs[1..], Served(rs[0], d))
  {
    hide CanServe, Served;
  }

  lemma NoneLeft(rs: seq<Request>, d: Doc)
    requires rs == []
    ensures AllServed(rs, d) && After(rs, d) == d
  {
  }
}
