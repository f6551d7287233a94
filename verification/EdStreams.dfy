/** Reading a file into the buffer and writing lines to a file. */
module EdStreams {
  import opened Basics
  import opened EdRing
  import opened EdBuffer
  import opened EdLog
  import opened EdCommands

  const NUL: char := '\0'

  /** The lines of a file; the last one may lack its newline. */
  function Lines(s: string): seq<string>
    decreases |s|
  {
    if s == "" then []
    else
      var k := FirstNewline(s);
      [s[..k]] + if k < |s| then Lines(s[k + 1..]) else []
  }

  /** Each line with its newline, which the last one gets only if terminated. */
  function Text(lines: seq<string>, terminated: bool): string {
    if lines == [] then ""
    else lines[0] + (if |lines| > 1 || terminated then "\n" else "") + Text(lines[1..], terminated)
  }

  predicate Unterminated(s: string) {
    s != "" && s[|s| - 1] != '\n'
  }

  /** A file is the text of its lines, but for a newline added to the last. */
  lemma {:induction false} TextOfLines(s: string, terminated: bool)
    requires terminated || Unterminated(s) || s == ""
    ensures Text(Lines(s), terminated) == s + if terminated && Unterminated(s) then "\n" else ""
    decreases |s|
  {
    if s != "" {
      var k := FirstNewline(s);
      if k < |s| {
        var line, t := s[..k], s[k + 1..];
        Pieces(s, k, line, t);
        TextOfLines(t, terminated);
        TextFirst(line, Lines(t), terminated);
        TextRest(s, line, t, terminated);
      } else {
        LastLine(s, terminated);
      }
    }
  }

  lemma Pieces(s: string, k: nat, line: string, t: string)
    requires k < |s| && s[k] == '\n' && line == s[..k] && t == s[k + 1..]
    ensures s == line + "\n" + t && (Unterminated(s) <==> Unterminated(t))
  {
  }

  lemma TextRest(s: string, line: string, t: string, terminated: bool)
    requires s == line + "\n" + t && (Unterminated(s) <==> Unterminated(t)) && (t == "" ==> terminated)
    ensures line + (if t != "" || terminated then "\n" else "") + (t + if terminated && Unterminated(t) then "\n" else "")
            == s + if terminated && Unterminated(s) then "\n" else ""
  {
  }

  lemma LastLine(s: string, terminated: bool)
    requires s != "" && FirstNewline(s) == |s|
    ensures Unterminated(s) && Text(Lines(s), terminated) == s + if terminated then "\n" else ""
  {
    assert s[..|s|] == s;
    TextFirst(s, [], terminated);
  }

  lemma TextFirst(line: string, rest: seq<string>, terminated: bool)
    ensures Text([line] + rest, terminated) == line + (if rest != [] || terminated then "\n" else "") + Text(rest, terminated)
  {
    assert ([line] + rest)[1..] == rest;
  }

  lemma {:induction false} TextNext(lines: seq<string>, line: string, terminated: bool)
    ensures Text(lines + [line], terminated) == Text(lines, true) + line + if terminated then "\n" else ""
  {
    if lines == [] {
      assert lines + [line] == [line];
    } else {
      assert (lines + [line])[1..] == lines[1..] + [line];
      TextNext(lines[1..], line, terminated);
    }
  }

  class Io {
    var isBinary: bool
    var newlineAdded: bool

    constructor ()
      ensures !isBinary && !newlineAdded
    {
      isBinary, newlineAdded := false, false;
    }

    /** The flags of the file just read, and those from before it. */
    method Combine(size: nat, appended: bool, oNewlineAdded: bool, oIsBinary: bool, ghost file: string) returns (size': nat)
      requires isBinary == (NUL in file) && newlineAdded == Unterminated(file)
      requires size == |file| + if newlineAdded && !isBinary then 1 else 0
      modifies this
      ensures isBinary == (oIsBinary || NUL in file)
      ensures newlineAdded == if appended then Unterminated(file) || file == "" else oNewlineAdded
      ensures size' == |file| + if Unterminated(file) && !(NUL in file && appended) then 1 else 0
    {
      size' := size;
      if isBinary && newlineAdded && !appended {
        size' := size' + 1;
      }
      if size' == 0 {
        newlineAdded := true;
      }
      newlineAdded := if appended then newlineAdded else oNewlineAdded;
      isBinary := isBinary || oIsBinary;
    }

    /** The next line of the file, from pos on, with a newline; the length is that without one added to binary text. */
    method GetStreamLine(file: string, pos: nat) returns (sbuf: string, len: nat, next: nat)
      requires pos <= |file|
      modifies this
      ensures var rest := file[pos..]; var k := FirstNewline(rest);
        if rest == "" then len == 0 && next == pos && newlineAdded == old(newlineAdded) && isBinary == old(isBinary)
        else
          && sbuf == rest[..k] + "\n" && isBinary == (old(isBinary) || NUL in rest[..k])
          && newlineAdded == (old(newlineAdded) || k == |rest|)
          && next == pos + Past(rest, k)
          && len == if isBinary && newlineAdded then |sbuf| - 1 else |sbuf|
    {
      var i := 0;
      sbuf := "";
      ghost var rest := file[pos..];
      while pos + i < |file| && file[pos + i] != '\n'
        invariant pos + i <= |file| && sbuf == rest[..i] && '\n' !in sbuf
        invariant isBinary == (old(isBinary) || NUL in sbuf) && newlineAdded == old(newlineAdded)
      {
        sbuf := sbuf + [file[pos + i]];
        if file[pos + i] == NUL {
          isBinary := true;
        }
        i := i + 1;
      }
      FirstIs(rest, i);
      next := pos + i;
      if next < |file| {
        sbuf := sbuf + "\n";
        i := i + 1;
        next := next + 1;
      } else if i != 0 {
        sbuf := sbuf + "\n";
        i := i + 1;
        newlineAdded := true;
      }
      len := if isBinary && newlineAdded && i != 0 then i - 1 else i;
    }
  }

  /** Where the next line begins. */
  function Past(s: string, k: nat): nat
    requires k <= |s|
  {
    if k < |s| then k + 1 else k
  }

  lemma LinesStep(s: string, k: nat, line: string, rest: string)
    requires s != "" && k == FirstNewline(s) && line == s[..k] && rest == s[Past(s, k)..]
    ensures Lines(s) == [line] + Lines(rest)
  {
    assert k == |s| ==> rest == "";
  }

  lemma LinesFrom(file: string, pos: nat, k: nat, next: nat, texts: seq<string>, line: string, rest: string, later: string)
    requires pos < |file| && rest == file[pos..] && k == FirstNewline(rest) && line == rest[..k]
    requires next == pos + Past(rest, k) && later == file[next..]
    requires texts + Lines(rest) == Lines(file)
    ensures texts + [line] + Lines(later) == Lines(file)
  {
    assert rest[Past(rest, k)..] == later;
    LinesStep(rest, k, line, later);
    Assoc(texts, [line], Lines(later));
  }

  /** What has been seen of the file when one more line has. */
  lemma SeenMore(file: string, pos: nat, k: nat, next: nat, line: string)
    requires pos < |file| && k == FirstNewline(file[pos..]) && line == file[pos..][..k] && next == pos + Past(file[pos..], k)
    ensures next <= |file| && (NUL in file[..next] <==> NUL in file[..pos] || NUL in line)
    ensures k == |file[pos..]| <==> next == |file| && Unterminated(file)
  {
    var rest := file[pos..];
    assert file[..next] == file[..pos] + line + if k < |rest| then "\n" else "";
    assert k < |rest| ==> file[next - 1] == '\n';
    assert k == |rest| ==> rest[|rest| - 1] == rest[..k][|rest| - 1];
  }

  /** One line of a file goes in after the node lp, the current line; the record of the addition ends with it. */
  method ReadLine(ed: Editor, sbuf: string, ghost line: string, lp: Line, ghost L: seq<Line>, ghost p: int, k: nat, ghost texts: seq<string>)
    returns (lp': Line)
    requires Inserting(ed, L, p, texts) && k == |texts| && lp == ed.lines[ed.currentAddr]
    requires sbuf == line + "\n" && '\n' !in line
    modifies ed`cursor, ed`on, ed`currentAddr, ed`addrLast, ed`lines, ed`nodes, ed`ustack, ed`log, ed.nodes, ed.sf
    ensures Inserting(ed, L, p, texts + [line]) && lp' == ed.lines[ed.currentAddr]
    ensures SameBase(old(ed.log), ed.log) && (forall x :: x in ed.nodes && x !in old(ed.nodes) ==> fresh(x)) && old(ed.sf.data) <= ed.sf.data
  {
    lp' := LinkText(ed, sbuf, line, lp, p, k);
    InsertedOne(L, old(ed.lines), p, k, ed.lines[ed.currentAddr]);
    TextsExtended(old(ed.sf.data), line, old(ed.lines)[p..p + k], texts, ed.lines[ed.currentAddr], line);
  }

  method LinkText(ed: Editor, sbuf: string, ghost line: string, lp: Line, ghost p: int, k: nat) returns (lp': Line)
    requires ed.Valid() && ed.currentAddr + 1 == p + k && lp == ed.lines[ed.currentAddr]
    requires k > 0 ==> LastAdds(ed.log, p, k)
    requires sbuf == line + "\n" && '\n' !in line
    modifies ed`cursor, ed`on, ed`currentAddr, ed`addrLast, ed`lines, ed`nodes, ed`ustack, ed`log, ed.nodes, ed.sf
    ensures ed.Valid() && SameBase(old(ed.log), ed.log) && LastAdds(ed.log, p, k + 1)
    ensures ed.currentAddr == old(ed.currentAddr) + 1 <= |old(ed.lines)| && lp' == ed.lines[ed.currentAddr]
    ensures ed.lines == Insert(old(ed.lines), ed.currentAddr, ed.lines[ed.currentAddr])
    ensures fresh(ed.lines[ed.currentAddr]) && ed.nodes == old(ed.nodes) + {ed.lines[ed.currentAddr]}
    ensures ed.sf.data == old(ed.sf.data) + line
    ensures HasText(ed.sf.data, ed.lines[ed.currentAddr], line)
  {
    assert sbuf[0..][|line|] == '\n';
    var next := ed.PutSbufLine(sbuf, 0);
    WholeLine(line, next);
    lp' := NextNode(ed, lp);
    RecordRead(ed, lp', p, k);
  }

  /** lp->q_forw, where lp is the line before the current line. */
  method NextNode(ed: Editor, lp: Line) returns (lp': Line)
    requires ed.RingValid() && 0 < ed.currentAddr && lp == ed.lines[ed.currentAddr - 1]
    ensures lp' == ed.lines[ed.currentAddr]
  {
    assert LinkedAt(ed.lines, ed.currentAddr - 1);
    lp' := lp.forw;
  }

  method RecordRead(ed: Editor, lp: Line, ghost p: int, k: nat)
    requires ed.AddPending() && ed.currentAddr == p + k && lp == ed.lines[ed.currentAddr]
    requires k > 0 ==> LastAdds(ed.log, p, k)
    modifies ed`cursor, ed`on, ed`ustack, ed`log
    ensures ed.Valid() && SameBase(old(ed.log), ed.log) && LastAdds(ed.log, p, k + 1)
  {
    if k > 0 {
      ed.GrowAddition(lp);
    } else {
      ed.PushAddition();
    }
  }

  method StartReading(ed: Editor, n: int) returns (lp: Line)
    requires ed.Valid() && 0 <= n <= ed.addrLast
    modifies ed`cursor, ed`on, ed`currentAddr
    ensures Inserting(ed, ed.lines, n + 1, []) && lp == ed.lines[ed.currentAddr]
  {
    lp := ed.GetAddressedLineNode(n);
    ed.currentAddr := n;
  }

  /** Reads the file in after line n. */
  method ReadStream(ed: Editor, io: Io, n: int, file: string) returns (size: nat)
    requires ed.Valid() && 0 <= n <= ed.addrLast
    modifies ed`cursor, ed`on, ed`currentAddr, ed`addrLast, ed`lines, ed`nodes, ed`ustack, ed`log, ed.nodes, ed.sf, io
    ensures Inserting(ed, old(ed.lines), n + 1, Lines(file))
    ensures SameBase(old(ed.log), ed.log) && (forall x :: x in ed.nodes && x !in old(ed.nodes) ==> fresh(x)) && old(ed.sf.data) <= ed.sf.data
    ensures io.isBinary == (old(io.isBinary) || NUL in file)
    ensures io.newlineAdded == if n == old(ed.addrLast) then Unterminated(file) || file == "" else old(io.newlineAdded)
    ensures size == |file| + if Unterminated(file) && !(NUL in file && n == old(ed.addrLast)) then 1 else 0
  {
    var lp := StartReading(ed, n);
    var oNewlineAdded, oIsBinary, appended := io.newlineAdded, io.isBinary, n == ed.addrLast;
    io.isBinary, io.newlineAdded := false, false;
    size := ReadLines(ed, io, lp, n, file);
    size := io.Combine(size, appended, oNewlineAdded, oIsBinary, file);
  }

  /** How far the reading of the file has come. */
  ghost predicate ReadSoFar(isBinary: bool, newlineAdded: bool, file: string, pos: nat, size: nat, texts: seq<string>) {
    && pos <= |file| && texts + Lines(file[pos..]) == Lines(file)
    && isBinary == (NUL in file[..pos])
    && newlineAdded == (pos == |file| && Unterminated(file))
    && size == pos + if newlineAdded && !isBinary then 1 else 0
  }

  ghost predicate Reading(io: Io, file: string, pos: nat, size: nat, texts: seq<string>)
    reads io
  {
    ReadSoFar(io.isBinary, io.newlineAdded, file, pos, size, texts)
  }

  lemma ReadMore(isBinary: bool, newlineAdded: bool, file: string, pos: nat, size: nat, texts: seq<string>, k: nat, line: string,
                 isBinary': bool, newlineAdded': bool, next: nat, len: nat)
    requires ReadSoFar(isBinary, newlineAdded, file, pos, size, texts) && pos < |file|
    requires k == FirstNewline(file[pos..]) && line == file[pos..][..k]
    requires next == pos + Past(file[pos..], k)
    requires isBinary' == (isBinary || NUL in line) && newlineAdded' == (newlineAdded || k == |file[pos..]|)
    requires len == if isBinary' && newlineAdded' then k else k + 1
    ensures ReadSoFar(isBinary', newlineAdded', file, next, size + len, texts + [line])
  {
    LinesFrom(file, pos, k, next, texts, line, file[pos..], file[next..]);
    SeenMore(file, pos, k, next, line);
  }

  lemma ReadAll(isBinary: bool, newlineAdded: bool, file: string, pos: nat, size: nat, texts: seq<string>)
    requires ReadSoFar(isBinary, newlineAdded, file, pos, size, texts) && file[pos..] == ""
    ensures pos == |file| && texts == Lines(file)
  {
    assert texts + [] == texts;
  }

  method ReadLines(ed: Editor, io: Io, lp0: Line, n: int, file: string) returns (size: nat)
    requires Inserting(ed, ed.lines, n + 1, []) && n >= 0 && lp0 == ed.lines[ed.currentAddr]
    requires !io.isBinary && !io.newlineAdded
    modifies ed`cursor, ed`on, ed`currentAddr, ed`addrLast, ed`lines, ed`nodes, ed`ustack, ed`log, ed.nodes, ed.sf, io
    ensures Inserting(ed, old(ed.lines), n + 1, Lines(file))
    ensures SameBase(old(ed.log), ed.log) && (forall x :: x in ed.nodes && x !in old(ed.nodes) ==> fresh(x)) && old(ed.sf.data) <= ed.sf.data
    ensures Reading(io, file, |file|, size, Lines(file))
  {
    hide Editor.PartsValid, HaveTexts, Inserted, LastAdds;
    var lp, pos, k := lp0, 0, 0;
    size := 0;
    ghost var texts: seq<string> := [];
    assert file[0..] == file;
    while true
      invariant Inserting(ed, old(ed.lines), n + 1, texts) && k == |texts| && lp == ed.lines[ed.currentAddr]
      invariant SameBase(old(ed.log), ed.log) && (forall x :: x in ed.nodes && x !in old(ed.nodes) ==> fresh(x)) && old(ed.sf.data) <= ed.sf.data
      invariant Reading(io, file, pos, size, texts)
      decreases |file| - pos
    {
      var len;
      len, pos, lp, texts := ReadNext(ed, io, file, pos, size, lp, old(ed.lines), n + 1, k, texts);
      if len == 0 {
        break;
      }
      k := k + 1;
      size := size + len;
    }
  }

  /** The next line of the file comes into the buffer, if there is one. */
  method ReadNext(ed: Editor, io: Io, file: string, pos: nat, ghost size: nat, lp: Line, ghost L: seq<Line>, ghost p: int, k: nat,
                  ghost texts: seq<string>)
    returns (len: nat, next: nat, lp': Line, ghost texts': seq<string>)
    requires Inserting(ed, L, p, texts) && k == |texts| && lp == ed.lines[ed.currentAddr]
    requires Reading(io, file, pos, size, texts)
    modifies ed`cursor, ed`on, ed`currentAddr, ed`addrLast, ed`lines, ed`nodes, ed`ustack, ed`log, ed.nodes, ed.sf, io
    ensures Inserting(ed, L, p, texts') && lp' == ed.lines[ed.currentAddr]
    ensures SameBase(old(ed.log), ed.log) && (forall x :: x in ed.nodes && x !in old(ed.nodes) ==> fresh(x)) && old(ed.sf.data) <= ed.sf.data
    ensures Reading(io, file, next, size + len, texts')
    ensures if len == 0 then next == |file| && texts' == Lines(file) else pos < next && |texts'| == k + 1
  {
    hide Editor.PartsValid, HaveTexts, Inserted, LastAdds;
    KeepsBase(ed);
    var sbuf;
    ghost var line;
    sbuf, len, next, line := NextLine(io, file, pos, size, texts);
    if len == 0 {
      next, lp', texts' := pos, lp, texts;
    } else {
      lp' := ReadLine(ed, sbuf, line, lp, L, p, k, texts);
      texts' := texts + [line];
    }
  }

  lemma KeepsBase(ed: Editor)
    requires ed.Valid()
    ensures SameBase(ed.log, ed.log)
  {
  }

  method NextLine(io: Io, file: string, pos: nat, ghost size: nat, ghost texts: seq<string>)
    returns (sbuf: string, len: nat, next: nat, ghost line: string)
    requires Reading(io, file, pos, size, texts)
    modifies io
    ensures if len == 0 then pos == |file| && Reading(io, file, pos, size, texts) && texts == Lines(file)
            else pos < next && sbuf == line + "\n" && '\n' !in line && Reading(io, file, next, size + len, texts + [line])
  {
    ghost var rest := file[pos..];
    ghost var k := FirstNewline(rest);
    line := rest[..k];
    ghost var isBinary, newlineAdded := io.isBinary, io.newlineAdded;
    sbuf, len, next := io.GetStreamLine(file, pos);
    if rest != "" {
      ReadMore(isBinary, newlineAdded, file, pos, size, texts, k, line, io.isBinary, io.newlineAdded, next, len);
    } else {
      ReadAll(isBinary, newlineAdded, file, pos, size, texts);
    }
  }

  /** Writes lines n to m to a file, all with a newline but one that was added to binary text. */
  method WriteStream(ed: Editor, io: Io, n: int, m: int, ghost texts: seq<string>) returns (file: string, size: nat)
    requires ed.Valid() && 0 <= n && m <= ed.addrLast && (n == 0 ==> texts == [])
    requires n > 0 ==> n <= m && HaveTexts(ed.sf.data, ed.lines[n..m + 1], texts)
    modifies ed`cursor, ed`on, ed.sf
    ensures ed.Valid() && ed.sf.data == old(ed.sf.data)
    ensures file == Text(texts, !(m == ed.addrLast && io.isBinary && io.newlineAdded)) && size == |file|
  {
    hide Editor.PartsValid;
    var lp := ed.GetAddressedLineNode(n);
    file, size := "", 0;
    var i := n;
    while i != 0 && i <= m
      invariant ed.Valid() && n <= i && (n > 0 ==> i <= m + 1) && (i <= m ==> lp == ed.lines[i])
      invariant ed.sf.data == old(ed.sf.data)
      invariant n == 0 ==> i == 0 && file == ""
      invariant n > 0 ==> file == Text(texts[..i - n], i <= m || !(m == ed.addrLast && io.isBinary && io.newlineAdded))
      invariant size == |file|
      decreases m - i
    {
      var s := WriteLine(ed, lp, i, n, m, texts);
      if i != ed.addrLast || !io.isBinary || !io.newlineAdded {
        s := s + "\n";
      }
      TextNext(texts[..i - n], texts[i - n], i != ed.addrLast || !io.isBinary || !io.newlineAdded);
      assert texts[..i - n + 1] == texts[..i - n] + [texts[i - n]];
      file := file + s;
      size := size + |s|;
      assert LinkedAt(ed.lines, i);
      lp := lp.forw;
      i := i + 1;
    }
    assert n > 0 ==> texts[..i - n] == texts;
  }

  method WriteLine(ed: Editor, lp: Line, ghost i: int, ghost n: int, ghost m: int, ghost texts: seq<string>) returns (s: string)
    requires ed.Valid() && 0 < n <= i <= m <= ed.addrLast && lp == ed.lines[i]
    requires HaveTexts(ed.sf.data, ed.lines[n..m + 1], texts)
    modifies ed.sf
    ensures ed.Valid() && ed.sf.data == old(ed.sf.data) && s == texts[i - n]
  {
    assert HasTextAt(ed.sf.data, ed.lines[n..m + 1], texts, i - n);
    assert LinkedAt(ed.lines, i) && OwnText(ed.sf.data, lp);
    s := ed.GetSbufLine(lp);
  }

  /** A file read into an empty buffer and written back is the same, but for a newline added to text. */
  method ReadThenWrite(ed: Editor, io: Io, file: string) returns (copy: string)
    requires ed.Valid() && ed.addrLast == 0
    modifies ed`cursor, ed`on, ed`currentAddr, ed`addrLast, ed`lines, ed`nodes, ed`ustack, ed`log, ed.nodes, ed.sf, io
    ensures copy == file + if Unterminated(file) && !(old(io.isBinary) || NUL in file) then "\n" else ""
  {
    ghost var L := ed.lines;
    var size := ReadStream(ed, io, 0, file);
    var m := ed.addrLast;
    assert |ed.lines| == |L| + |Lines(file)|;
    copy, size := WriteStream(ed, io, if m == 0 then 0 else 1, m, Lines(file));
    TextOfLines(file, !(io.isBinary && io.newlineAdded));
  }
}
