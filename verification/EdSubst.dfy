/**
 The substitution loop of the s command, for an arbitrary matcher.

 A matcher gets a text and whether that text is not at the beginning of a line, and
 yields the bounds of the match and of its parenthesised groups.
 */
module EdSubst {
  import opened Basics

  datatype Bounds = Bounds(so: int, eo: int)

  type Matcher = (string, bool) -> Option<seq<Bounds>>

  /** What regexec promises: the match lies inside the text, and so does every group that took part in it. */
  ghost predicate Matches(pat: Matcher) {
    forall txt: string, notbol: bool :: pat(txt, notbol).Some? ==> InText(pat(txt, notbol).value, txt)
  }

  ghost predicate InText(rm: seq<Bounds>, txt: string) {
    && |rm| > 0 && 0 <= rm[0].so <= rm[0].eo
    && forall i :: 0 <= i < |rm| ==> rm[i].so == rm[i].eo == -1 || 0 <= rm[i].so <= rm[i].eo <= |txt|
  }

  function GroupText(txt: string, b: Bounds): string {
    if 0 <= b.so <= b.eo <= |txt| then txt[b.so..b.eo] else ""
  }

  /** The group a digit stands for, if the pattern has it. */
  function GroupIndex(c: char, rm: seq<Bounds>): Option<nat> {
    if '1' <= c <= '9' && (c - '0') as int < |rm| then Some((c - '0') as int) else None
  }

  /** The template with & and \1 to \9 replaced; any other escaped character stands for itself. */
  function Expand(template: string, txt: string, rm: seq<Bounds>): string
    requires |rm| > 0
  {
    if template == "" then ""
    else if template[0] == '&' then GroupText(txt, rm[0]) + Expand(template[1..], txt, rm)
    else if template[0] != '\\' then [template[0]] + Expand(template[1..], txt, rm)
    else if |template| == 1 then ['\0']
    else match GroupIndex(template[1], rm)
      case Some(n) => GroupText(txt, rm[n]) + Expand(template[2..], txt, rm)
      case None => [template[1]] + Expand(template[2..], txt, rm)
  }

  /** What a template is made of: characters, escaped characters, and the texts of groups, group 0 being the match. */
  datatype Token = Plain(c: char) | Escaped(c: char) | Group(n: nat)

  predicate TokenOk(t: Token, groups: nat) {
    match t
    case Plain(c) => c != '&' && c != '\\'
    case Escaped(c) => !('1' <= c <= '9' && c as int - '0' as int < groups)
    case Group(n) => n <= 9 && n < groups
  }

  /** How it is written. */
  function Spelled(t: Token): string {
    match t
    case Plain(c) => [c]
    case Escaped(c) => ['\\', c]
    case Group(n) => if n == 0 then "&" else ['\\', "123456789"[if n <= 9 then n - 1 else 0]]
  }

  function SpelledAll(ts: seq<Token>): string {
    if ts == [] then "" else Spelled(ts[0]) + SpelledAll(ts[1..])
  }

  /** What it stands for; a group that took no part in the match stands for nothing. */
  function Denoted(t: Token, txt: string, rm: seq<Bounds>): string
    requires |rm| > 0 && TokenOk(t, |rm|) && InTextAll(rm, txt)
  {
    match t
    case Plain(c) => [c]
    case Escaped(c) => [c]
    case Group(n) => if rm[n].so == -1 then "" else txt[rm[n].so..rm[n].eo]
  }

  predicate InTextAll(rm: seq<Bounds>, txt: string) {
    forall i :: 0 <= i < |rm| ==> rm[i].so == rm[i].eo == -1 || 0 <= rm[i].so <= rm[i].eo <= |txt|
  }

  predicate TokensOk(ts: seq<Token>, groups: nat) {
    forall i :: 0 <= i < |ts| ==> TokenOk(ts[i], groups)
  }

  function DenotedAll(ts: seq<Token>, txt: string, rm: seq<Bounds>): string
    requires |rm| > 0 && TokensOk(ts, |rm|) && InTextAll(rm, txt)
  {
    if ts == [] then "" else Denoted(ts[0], txt, rm) + DenotedAll(ts[1..], txt, rm)
  }

  /** The expansion of a template is what its tokens stand for; a lone backslash at the end stands for a NUL. */
  lemma {:induction false} ExpandTokens(ts: seq<Token>, lone: bool, txt: string, rm: seq<Bounds>)
    requires |rm| > 0 && TokensOk(ts, |rm|) && InTextAll(rm, txt)
    ensures Expand(SpelledAll(ts) + if lone then "\\" else "", txt, rm)
            == DenotedAll(ts, txt, rm) + if lone then ['\0'] else ""
  {
    if ts != [] {
      var end := if lone then "\\" else "";
      var rest := SpelledAll(ts[1..]) + end;
      assert TokenOk(ts[0], |rm|);
      ExpandTokens(ts[1..], lone, txt, rm);
      ExpandToken(ts[0], rest, txt, rm);
      Assoc(Spelled(ts[0]), SpelledAll(ts[1..]), end);
      Assoc(Denoted(ts[0], txt, rm), DenotedAll(ts[1..], txt, rm), if lone then ['\0'] else "");
    }
  }

  lemma ExpandToken(t: Token, rest: string, txt: string, rm: seq<Bounds>)
    requires |rm| > 0 && TokenOk(t, |rm|) && InTextAll(rm, txt)
    ensures Expand(Spelled(t) + rest, txt, rm) == Denoted(t, txt, rm) + Expand(rest, txt, rm)
  {
    var s := Spelled(t) + rest;
    match t {
      case Plain(c) => assert s[0] == c && s[1..] == rest;
      case Escaped(c) => assert s[0] == '\\' && s[1] == c && s[2..] == rest && GroupIndex(c, rm) == None;
      case Group(n) =>
        if n == 0 {
          assert s[0] == '&' && s[1..] == rest;
        } else {
          Digit(n);
          assert s[0] == '\\' && s[1] == "123456789"[n - 1] && s[2..] == rest;
          assert GroupIndex(s[1], rm) == Some(n);
        }
    }
  }

  lemma Digit(n: nat)
    requires 1 <= n <= 9
    ensures '1' <= "123456789"[n - 1] <= '9' && "123456789"[n - 1] as int - '0' as int == n
  {
  }

  /** Every template is made of tokens, but for a lone backslash at its end. */
  lemma {:induction false} TemplateTokens(template: string, groups: nat) returns (ts: seq<Token>, lone: bool)
    requires groups > 0
    ensures TokensOk(ts, groups) && template == SpelledAll(ts) + if lone then "\\" else ""
    decreases |template|
  {
    if template == "" {
      return [], false;
    }
    if template == "\\" {
      return [], true;
    }
    var t := FirstToken(template, groups);
    var n := |Spelled(t)|;
    ts, lone := TemplateTokens(template[n..], groups);
    Assoc(Spelled(t), SpelledAll(ts), if lone then "\\" else "");
    assert template == template[..n] + template[n..];
    ts := [t] + ts;
    assert ts[1..] == ts[1..];
  }

  lemma FirstToken(template: string, groups: nat) returns (t: Token)
    requires groups > 0 && template != "" && template != "\\"
    ensures TokenOk(t, groups) && 0 < |Spelled(t)| <= |template| && template[..|Spelled(t)|] == Spelled(t)
  {
    var c := template[0];
    if c == '&' {
      t := Group(0);
    } else if c != '\\' {
      t := Plain(c);
    } else {
      var d := template[1];
      if '1' <= d <= '9' && d as int - '0' as int < groups {
        t := Group(d as int - '0' as int);
        Digit(t.n);
      } else {
        t := Escaped(d);
      }
      assert template[..2] == [c, d];
    }
  }

  /** A stretch of the line: text without a match, then a match, and what goes in its place if it is selected. */
  datatype Piece = Piece(gap: string, matched: string, replaced: Option<string>)

  /** The piece a match at hand makes of the text before its end. */
  ghost function PieceAt(template: string, rest: string, rm: seq<Bounds>, selected: bool): Piece
    requires InText(rm, rest)
  {
    Piece(rest[..rm[0].so], rest[rm[0].so..rm[0].eo], if selected then Some(Expand(template, rest, rm)) else None)
  }

  datatype Scan = Scan(pieces: seq<Piece>, rest: string, endless: bool)

  /** The matches the loop takes from rest on, the last of them being the idx-th; rm is the match at hand. */
  ghost function ScanFrom(pat: Matcher, template: string, rest: string, rm: seq<Bounds>, kth: nat, global: bool, idx: nat): Scan
    requires Matches(pat) && InText(rm, rest) && (kth > 0 ==> idx < kth || global)
    decreases |rest|, if kth > idx then kth - idx else 0
  {
    var piece := PieceAt(template, rest, rm, kth == 0 || idx + 1 == kth);
    var rest' := rest[rm[0].eo..];
    var changed := kth == 0 || idx + 1 >= kth;
    if rest' != "" && (!changed || (global && rm[0].eo > 0)) && pat(rest', true).Some? then
      var more := ScanFrom(pat, template, rest', pat(rest', true).value, kth, global, idx + 1);
      more.(pieces := [piece] + more.pieces)
    else
      Scan([piece], rest', rest' != "" && rm[0].eo == 0 && global)
  }

  ghost function ScanLine(pat: Matcher, template: string, txt: string, kth: nat, global: bool): Scan
    requires Matches(pat)
  {
    if pat(txt, false).Some? then ScanFrom(pat, template, txt, pat(txt, false).value, kth, global, 0)
    else Scan([], txt, false)
  }

  /** The text the pieces came from. */
  function Source(pieces: seq<Piece>): string {
    if pieces == [] then "" else pieces[0].gap + pieces[0].matched + Source(pieces[1..])
  }

  function PieceText(p: Piece): string {
    p.gap + if p.replaced.Some? then p.replaced.value else p.matched
  }

  /** The text they make. */
  function Render(pieces: seq<Piece>): string {
    if pieces == [] then "" else PieceText(pieces[0]) + Render(pieces[1..])
  }

  predicate Changed(pieces: seq<Piece>) {
    exists i :: 0 <= i < |pieces| && pieces[i].replaced.Some?
  }

  /** A match that ends where it was looked for. */
  predicate Empty(p: Piece) {
    p.gap == "" && p.matched == ""
  }

  /** What is left of the text before piece i. */
  function From(s: Scan, i: nat): string
    requires i <= |s.pieces|
  {
    Source(s.pieces[i..]) + s.rest
  }

  /** Piece i is the match in what is left of the text, replaced if it is the kth one or all are to be. */
  ghost predicate PieceOk(pat: Matcher, template: string, notbol: bool, kth: nat, idx: nat, s: Scan, i: nat)
    requires i < |s.pieces|
  {
    var t := From(s, i);
    var m := pat(t, notbol || i > 0);
    m.Some? && InText(m.value, t) && s.pieces[i] == PieceAt(template, t, m.value, kth == 0 || idx + i + 1 == kth)
  }

  /** After piece i another match is looked for: the kth is still to come, or all are wanted and this one took up text. */
  predicate Wanted(kth: nat, global: bool, idx: nat, s: Scan, i: nat)
    requires i < |s.pieces|
  {
    From(s, i + 1) != "" && (idx + i + 1 < kth || (global && !Empty(s.pieces[i])))
  }

  ghost predicate PiecesOk(pat: Matcher, template: string, notbol: bool, kth: nat, idx: nat, s: Scan) {
    forall i: nat :: i < |s.pieces| ==> PieceOk(pat, template, notbol, kth, idx, s, i)
  }

  ghost predicate AllWanted(kth: nat, global: bool, idx: nat, s: Scan) {
    forall i: nat :: i < |s.pieces| - 1 ==> Wanted(kth, global, idx, s, i)
  }

  /** No other match is wanted after the last, or there is none; it is an error if that match is the same over and over. */
  ghost predicate Over(pat: Matcher, kth: nat, global: bool, idx: nat, s: Scan) {
    var n := |s.pieces|;
    && (n > 0 && Wanted(kth, global, idx, s, n - 1) ==> pat(s.rest, true).None?)
    && (s.endless <==> global && s.rest != "" && n > 0 && Empty(s.pieces[n - 1]))
  }

  /**
   The matches of a text, without a word on how they are found: the pieces and the rest make up the text, each piece is
   a match, another one is wanted after each but the last, and after that none is wanted or there is none.
   */
  ghost predicate IsScan(pat: Matcher, template: string, txt: string, notbol: bool, kth: nat, global: bool, idx: nat, s: Scan) {
    && txt == From(s, 0)
    && PiecesOk(pat, template, notbol, kth, idx, s) && AllWanted(kth, global, idx, s)
    && (s.pieces == [] ==> pat(txt, notbol).None?) && Over(pat, kth, global, idx, s)
  }

  /** A scan without its first piece. */
  function Tail(s: Scan): Scan
    requires s.pieces != []
  {
    s.(pieces := s.pieces[1..])
  }

  lemma FromTail(s: Scan, i: nat)
    requires i < |s.pieces|
    ensures From(s, i + 1) == From(Tail(s), i)
  {
    assert s.pieces[i + 1..] == s.pieces[1..][i..];
  }

  lemma FromFirst(s: Scan)
    ensures From(s, 0) == Source(s.pieces) + s.rest
    ensures s.pieces != [] ==> From(s, 0) == s.pieces[0].gap + s.pieces[0].matched + From(s, 1)
  {
    assert s.pieces[0..] == s.pieces;
  }

  /** The matches of a text are its first match and the matches of the text behind that, if another one is wanted. */
  lemma TailScan(pat: Matcher, template: string, txt: string, notbol: bool, kth: nat, global: bool, idx: nat, s: Scan)
    requires |s.pieces| > 1
    ensures IsScan(pat, template, txt, notbol, kth, global, idx, s) <==>
      && txt == From(s, 0) && PieceOk(pat, template, notbol, kth, idx, s, 0) && Wanted(kth, global, idx, s, 0)
      && IsScan(pat, template, From(s, 1), true, kth, global, idx + 1, Tail(s))
  {
    hide PieceOk, Wanted, From, PiecesOk, AllWanted, Over;
    FromTail(s, 0);
    TailPieces(pat, template, notbol, kth, idx, s);
    TailWanted(kth, global, idx, s);
    TailOver(pat, kth, global, idx, s);
  }

  lemma TailPieces(pat: Matcher, template: string, notbol: bool, kth: nat, idx: nat, s: Scan)
    requires |s.pieces| > 1
    ensures PiecesOk(pat, template, notbol, kth, idx, s) <==>
      PieceOk(pat, template, notbol, kth, idx, s, 0) && PiecesOk(pat, template, true, kth, idx + 1, Tail(s))
  {
    hide PieceOk;
    var t, next := Tail(s), idx + 1;
    if PiecesOk(pat, template, notbol, kth, idx, s) {
      forall i: nat | i < |t.pieces| ensures PieceOk(pat, template, true, kth, next, t, i) {
        PieceTail(pat, template, notbol, kth, idx, s, i);
      }
    }
    if PieceOk(pat, template, notbol, kth, idx, s, 0) && PiecesOk(pat, template, true, kth, idx + 1, t) {
      forall i: nat | i < |s.pieces| ensures PieceOk(pat, template, notbol, kth, idx, s, i) {
        if i > 0 {
          PieceTail(pat, template, notbol, kth, idx, s, i - 1);
        }
      }
    }
  }

  lemma TailWanted(kth: nat, global: bool, idx: nat, s: Scan)
    requires |s.pieces| > 1
    ensures AllWanted(kth, global, idx, s) <==> Wanted(kth, global, idx, s, 0) && AllWanted(kth, global, idx + 1, Tail(s))
  {
    var t, next := Tail(s), idx + 1;
    if AllWanted(kth, global, idx, s) {
      forall i: nat | i < |t.pieces| - 1 ensures Wanted(kth, global, next, t, i) {
        WantedTail(kth, global, idx, s, i);
      }
    }
    if Wanted(kth, global, idx, s, 0) && AllWanted(kth, global, idx + 1, t) {
      forall i: nat | i < |s.pieces| - 1 ensures Wanted(kth, global, idx, s, i) {
        if i > 0 {
          WantedTail(kth, global, idx, s, i - 1);
        }
      }
    }
  }

  lemma TailOver(pat: Matcher, kth: nat, global: bool, idx: nat, s: Scan)
    requires |s.pieces| > 1
    ensures Over(pat, kth, global, idx, s) <==> Over(pat, kth, global, idx + 1, Tail(s))
  {
    WantedTail(kth, global, idx, s, |s.pieces| - 2);
  }

  lemma PieceTail(pat: Matcher, template: string, notbol: bool, kth: nat, idx: nat, s: Scan, i: nat)
    requires i + 1 < |s.pieces|
    ensures PieceOk(pat, template, notbol, kth, idx, s, i + 1) <==> PieceOk(pat, template, true, kth, idx + 1, Tail(s), i)
  {
    FromTail(s, i);
  }

  lemma WantedTail(kth: nat, global: bool, idx: nat, s: Scan, i: nat)
    requires i + 1 < |s.pieces|
    ensures Wanted(kth, global, idx, s, i + 1) <==> Wanted(kth, global, idx + 1, Tail(s), i)
  {
    FromTail(s, i + 1);
  }

  /** The first match, and what is behind it. */
  lemma FirstPiece(pat: Matcher, template: string, rest: string, rm: seq<Bounds>, notbol: bool, kth: nat, idx: nat, s: Scan)
    requires InText(rm, rest) && pat(rest, notbol) == Some(rm) && s.pieces != [] && rest == From(s, 0)
    ensures PieceOk(pat, template, notbol, kth, idx, s, 0) <==> s.pieces[0] == PieceAt(template, rest, rm, kth == 0 || idx + 1 == kth)
    ensures PieceOk(pat, template, notbol, kth, idx, s, 0) ==> From(s, 1) == rest[rm[0].eo..]
    ensures PieceOk(pat, template, notbol, kth, idx, s, 0) ==> (Empty(s.pieces[0]) <==> rm[0].eo == 0)
    ensures |s.pieces| == 1 ==> From(s, 1) == s.rest
  {
    FromFirst(s);
    var p := PieceAt(template, rest, rm, kth == 0 || idx + 1 == kth);
    assert rest == p.gap + p.matched + rest[rm[0].eo..];
    assert |p.gap + p.matched| == rm[0].eo;
    if s.pieces[0] == p {
      assert From(s, 1) == rest[|p.gap + p.matched|..];
    }
  }

  /** A scan of one match. */
  lemma OneScan(pat: Matcher, template: string, rest: string, rm: seq<Bounds>, notbol: bool, kth: nat, global: bool, idx: nat, s: Scan)
    requires InText(rm, rest) && pat(rest, notbol) == Some(rm) && |s.pieces| == 1 && s.rest == rest[rm[0].eo..]
    requires s.pieces[0] == PieceAt(template, rest, rm, kth == 0 || idx + 1 == kth)
    requires s.endless <==> global && s.rest != "" && rm[0].eo == 0
    requires s.rest != "" && (idx + 1 < kth || (global && rm[0].eo > 0)) ==> pat(s.rest, true).None?
    ensures IsScan(pat, template, rest, notbol, kth, global, idx, s)
  {
    FromFirst(s);
    assert s.pieces[1..] == [];
    var p := s.pieces[0];
    assert rest == p.gap + p.matched + s.rest;
    FirstPiece(pat, template, rest, rm, notbol, kth, idx, s);
  }

  /** What the loop finds are the matches. */
  lemma {:induction false} ScanFromIs(pat: Matcher, template: string, rest: string, rm: seq<Bounds>, notbol: bool, kth: nat, global: bool, idx: nat)
    requires Matches(pat) && InText(rm, rest) && pat(rest, notbol) == Some(rm) && (kth > 0 ==> idx < kth || global)
    ensures IsScan(pat, template, rest, notbol, kth, global, idx, ScanFrom(pat, template, rest, rm, kth, global, idx))
    decreases |rest|, if kth > idx then kth - idx else 0
  {
    hide PieceAt, Source, IsScan;
    var s, rest' := ScanFrom(pat, template, rest, rm, kth, global, idx), rest[rm[0].eo..];
    var changed := kth == 0 || idx + 1 >= kth;
    if rest' != "" && (!changed || (global && rm[0].eo > 0)) && pat(rest', true).Some? {
      ScanFromIs(pat, template, rest', pat(rest', true).value, true, kth, global, idx + 1);
      assert Tail(s) == ScanFrom(pat, template, rest', pat(rest', true).value, kth, global, idx + 1);
      MoreScan(pat, template, rest, rm, notbol, kth, global, idx, s);
    } else {
      OneScan(pat, template, rest, rm, notbol, kth, global, idx, s);
    }
  }

  /** A match, and the scan behind it. */
  lemma MoreScan(pat: Matcher, template: string, rest: string, rm: seq<Bounds>, notbol: bool, kth: nat, global: bool, idx: nat, s: Scan)
    requires InText(rm, rest) && pat(rest, notbol) == Some(rm) && s.pieces != []
    requires s.pieces[0] == PieceAt(template, rest, rm, kth == 0 || idx + 1 == kth)
    requires rest[rm[0].eo..] != "" && (idx + 1 < kth || (global && rm[0].eo > 0)) && pat(rest[rm[0].eo..], true).Some?
    requires IsScan(pat, template, rest[rm[0].eo..], true, kth, global, idx + 1, Tail(s))
    ensures IsScan(pat, template, rest, notbol, kth, global, idx, s)
  {
    FromFirst(s);
    FromTail(s, 0);
    var p := s.pieces[0];
    assert rest == p.gap + p.matched + rest[rm[0].eo..];
    FirstPiece(pat, template, rest, rm, notbol, kth, idx, s);
    TailScan(pat, template, rest, notbol, kth, global, idx, s);
  }

  /** There are no other matches. */
  lemma {:induction false} ScanFromOnly(pat: Matcher, template: string, rest: string, rm: seq<Bounds>, notbol: bool, kth: nat, global: bool, idx: nat, s: Scan)
    requires Matches(pat) && InText(rm, rest) && pat(rest, notbol) == Some(rm) && (kth > 0 ==> idx < kth || global)
    requires IsScan(pat, template, rest, notbol, kth, global, idx, s)
    ensures s == ScanFrom(pat, template, rest, rm, kth, global, idx)
    decreases |rest|, if kth > idx then kth - idx else 0
  {
    hide PieceAt, Source;
    assert PieceOk(pat, template, notbol, kth, idx, s, 0);
    FirstPiece(pat, template, rest, rm, notbol, kth, idx, s);
    var rest' := rest[rm[0].eo..];
    if |s.pieces| > 1 {
      TailScan(pat, template, rest, notbol, kth, global, idx, s);
      assert PieceOk(pat, template, true, kth, idx + 1, Tail(s), 0);
      ScanFromOnly(pat, template, rest', pat(rest', true).value, true, kth, global, idx + 1, Tail(s));
    }
  }

  /** The scan of a line is the one that holds its matches. */
  lemma ScanLineMeaning(pat: Matcher, template: string, txt: string, kth: nat, global: bool, s: Scan)
    requires Matches(pat)
    ensures IsScan(pat, template, txt, false, kth, global, 0, s) <==> s == ScanLine(pat, template, txt, kth, global)
  {
    if pat(txt, false).Some? {
      ScanFromIs(pat, template, txt, pat(txt, false).value, false, kth, global, 0);
      if IsScan(pat, template, txt, false, kth, global, 0, s) {
        ScanFromOnly(pat, template, txt, pat(txt, false).value, false, kth, global, 0, s);
      }
    } else if IsScan(pat, template, txt, false, kth, global, 0, s) {
      FromFirst(s);
      assert s.pieces != [] ==> PieceOk(pat, template, false, kth, 0, s, 0);
    }
  }

  /**
   Which matches are replaced, and how far the scan reaches.  Without a count the first match is replaced, or with g all
   of them; with a count that one match only.  With g no match is left behind, unless the last one was where it was
   looked for and took up nothing, which is the error; without g the scan ends at the match it replaces, or where no
   match is left.
   */
  lemma ScanLineSelects(pat: Matcher, template: string, txt: string, kth: nat, global: bool)
    requires Matches(pat)
    ensures var s := ScanLine(pat, template, txt, kth, global); var n := |s.pieces|;
            && (forall i: nat :: i < n ==> (s.pieces[i].replaced.Some? <==> kth == 0 || i + 1 == kth))
            && (s.endless <==> global && s.rest != "" && n > 0 && Empty(s.pieces[n - 1]))
            && (n == 0 ==> pat(txt, false).None?)
            && (global && !s.endless && n > 0 ==> s.rest == "" || pat(s.rest, true).None?)
            && (!global ==> n <= if kth == 0 then 1 else kth)
            && (!global && 0 < n < kth ==> s.rest == "" || pat(s.rest, true).None?)
  {
    var s := ScanLine(pat, template, txt, kth, global);
    ScanLineMeaning(pat, template, txt, kth, global, s);
    var n := |s.pieces|;
    forall i: nat | i < n ensures s.pieces[i].replaced.Some? <==> kth == 0 || i + 1 == kth {
      assert PieceOk(pat, template, false, kth, 0, s, i);
    }
    if n > 0 {
      assert s.pieces[n..] == [];
      assert From(s, n) == s.rest;
    }
    if n > 1 {
      assert Wanted(kth, global, 0, s, n - 2);
    }
  }

  datatype Outcome = Unchanged | Endless | Replaced(text: string)

  /** What becomes of a line. */
  ghost function Substituted(pat: Matcher, template: string, txt: string, kth: nat, global: bool): Outcome
    requires Matches(pat)
  {
    var s := ScanLine(pat, template, txt, kth, global);
    if s.endless then Endless
    else if Changed(s.pieces) then Replaced(Render(s.pieces) + s.rest + "\n")
    else Unchanged
  }

  /** The matches of the line come to an end. */
  ghost predicate Ends(pat: Matcher, template: string, txt: string, kth: nat, global: bool) {
    exists s :: IsScan(pat, template, txt, false, kth, global, 0, s) && !s.endless
  }

  /** One of its matches is replaced. */
  ghost predicate Changes(pat: Matcher, template: string, txt: string, kth: nat, global: bool) {
    exists s :: IsScan(pat, template, txt, false, kth, global, 0, s) && Changed(s.pieces)
  }

  lemma OutcomeMeaning(pat: Matcher, template: string, txt: string, kth: nat, global: bool)
    requires Matches(pat)
    ensures Substituted(pat, template, txt, kth, global).Endless? <==> !Ends(pat, template, txt, kth, global)
    ensures Substituted(pat, template, txt, kth, global).Replaced? <==>
      Ends(pat, template, txt, kth, global) && Changes(pat, template, txt, kth, global)
  {
    hide IsScan;
    var line := ScanLine(pat, template, txt, kth, global);
    ScanLineMeaning(pat, template, txt, kth, global, line);
    if s :| IsScan(pat, template, txt, false, kth, global, 0, s) && !s.endless {
      ScanLineMeaning(pat, template, txt, kth, global, s);
    }
    if s :| IsScan(pat, template, txt, false, kth, global, 0, s) && Changed(s.pieces) {
      ScanLineMeaning(pat, template, txt, kth, global, s);
    }
  }

  /** A stretch of the line, by its positions, and the text that stands in its place. */
  datatype Cut = Cut(from: nat, to: nat, text: string)

  /** Where cut i is looked for: at the end of the one before. */
  function CutFrom(cuts: seq<Cut>, i: nat): nat
    requires i <= |cuts|
  {
    if i == 0 then 0 else cuts[i - 1].to
  }

  /** Where the text without a match ends that comes before cut i, or after the last one. */
  function GapEnd(txt: string, cuts: seq<Cut>, i: nat): nat
    requires i <= |cuts|
  {
    if i < |cuts| then cuts[i].from else |txt|
  }

  /** By how much the text after the first i cuts has moved. */
  function Shift(cuts: seq<Cut>, i: nat): int
    requires i <= |cuts|
  {
    if i == 0 then 0 else Shift(cuts, i - 1) + |cuts[i - 1].text| - (cuts[i - 1].to - cuts[i - 1].from)
  }

  /** Cut i is the match found there; the expansion stands in its place if it is selected, and else what was there. */
  ghost predicate CutOk(pat: Matcher, template: string, txt: string, kth: nat, cuts: seq<Cut>, i: nat)
    requires i < |cuts|
  {
    var p, c := CutFrom(cuts, i), cuts[i];
    && p <= |txt|
    && var m := pat(txt[p..], i > 0);
       && m.Some? && InText(m.value, txt[p..])
       && c.from == p + m.value[0].so && c.to == p + m.value[0].eo
       && c.text == if kth == 0 || i + 1 == kth then Expand(template, txt[p..], m.value) else txt[c.from..c.to]
  }

  /** At the place of cut i there is its text, and before it the text of the line that has no match. */
  ghost predicate InPlace(txt: string, cuts: seq<Cut>, out: string, i: nat)
    requires i <= |cuts|
  {
    var p, e, d := CutFrom(cuts, i), GapEnd(txt, cuts, i), Shift(cuts, i);
    && p <= e <= |txt| && 0 <= p + d && e + d <= |out| && out[p + d..e + d] == txt[p..e]
    && (i < |cuts| ==> e + d + |cuts[i].text| <= |out| && out[e + d..e + d + |cuts[i].text|] == cuts[i].text)
  }

  /** The line with the texts in the places of the cuts. */
  ghost predicate Spliced(txt: string, cuts: seq<Cut>, out: string) {
    |out| == |txt| + Shift(cuts, |cuts|) && forall i: nat :: i <= |cuts| ==> InPlace(txt, cuts, out, i)
  }

  function CutOf(s: Scan, i: nat): Cut
    requires i < |s.pieces|
  {
    var p, a := s.pieces[i], |Source(s.pieces[..i])|;
    Cut(a + |p.gap|, a + |p.gap| + |p.matched|, if p.replaced.Some? then p.replaced.value else p.matched)
  }

  function CutsOf(s: Scan): (cuts: seq<Cut>)
    ensures |cuts| == |s.pieces|
  {
    seq(|s.pieces|, i requires 0 <= i < |s.pieces| => CutOf(s, i))
  }

  lemma {:induction false} SourceConcat(a: seq<Piece>, b: seq<Piece>)
    ensures Source(a + b) == Source(a) + Source(b)
  {
    if a == [] {
      assert a + b == b;
    } else {
      assert (a + b)[1..] == a[1..] + b;
      SourceConcat(a[1..], b);
    }
  }

  /** The texts around piece i, before and after. */
  lemma AroundPiece(s: Scan, i: nat)
    requires i < |s.pieces|
    ensures var p, ps := s.pieces[i], s.pieces;
      && Source(ps[..i + 1]) == Source(ps[..i]) + (p.gap + p.matched)
      && Render(ps[..i + 1]) == Render(ps[..i]) + PieceText(p)
      && Source(ps) + s.rest == Source(ps[..i]) + From(s, i)
      && Render(ps) == Render(ps[..i + 1]) + Render(ps[i + 1..])
  {
    var ps := s.pieces;
    assert ps[..i + 1] == ps[..i] + [ps[i]] && [ps[i]][1..] == [];
    SourceConcat(ps[..i], [ps[i]]);
    RenderConcat(ps[..i], [ps[i]]);
    assert ps == ps[..i] + ps[i..] && ps == ps[..i + 1] + ps[i + 1..];
    SourceConcat(ps[..i], ps[i..]);
    RenderConcat(ps[..i + 1], ps[i + 1..]);
    Assoc(Source(ps[..i]), Source(ps[i..]), s.rest);
  }

  /** Positions before and after. */
  lemma {:induction false} CutPositions(s: Scan, i: nat)
    requires i <= |s.pieces|
    ensures CutFrom(CutsOf(s), i) == |Source(s.pieces[..i])|
    ensures |Render(s.pieces[..i])| == |Source(s.pieces[..i])| + Shift(CutsOf(s), i)
  {
    if i > 0 {
      CutPositions(s, i - 1);
      AroundPiece(s, i - 1);
    }
  }

  lemma CutIsMatch(pat: Matcher, template: string, txt: string, kth: nat, global: bool, s: Scan, i: nat)
    requires IsScan(pat, template, txt, false, kth, global, 0, s) && i < |s.pieces|
    ensures CutOk(pat, template, txt, kth, CutsOf(s), i)
  {
    hide Source, Render, From, Expand, CutsOf, CutOf, CutFrom, Shift, IsScan;
    assert |CutsOf(s)| == |s.pieces|;
    CutPositions(s, i);
    CutFields(s, i);
    AroundPiece(s, i);
    FromFirst(s);
    ScanPiece(pat, template, txt, kth, global, s, i);
    var a, t := |Source(s.pieces[..i])|, From(s, i);
    LastGap(txt, Source(s.pieces[..i]), t);
    var rm := pat(t, i > 0).value;
    Deeper(txt, a, t, rm[0].so, rm[0].eo);
  }

  lemma ScanPiece(pat: Matcher, template: string, txt: string, kth: nat, global: bool, s: Scan, i: nat)
    requires IsScan(pat, template, txt, false, kth, global, 0, s) && i < |s.pieces|
    ensures PieceOk(pat, template, false, kth, 0, s, i) && txt == From(s, 0)
  {
  }

  lemma Deeper(txt: string, a: nat, t: string, so: int, eo: int)
    requires a <= |txt| && t == txt[a..] && 0 <= so <= eo <= |t|
    ensures t[so..eo] == txt[a + so..a + eo] && |t[..so]| == so && |t[so..eo]| == eo - so
  {
  }

  lemma CutFields(s: Scan, i: nat)
    requires i < |s.pieces|
    ensures var p, a := s.pieces[i], |Source(s.pieces[..i])|;
      CutsOf(s)[i] == Cut(a + |p.gap|, a + |p.gap| + |p.matched|, if p.replaced.Some? then p.replaced.value else p.matched)
  {
  }

  lemma CutInPlace(txt: string, s: Scan, out: string, i: nat)
    requires txt == Source(s.pieces) + s.rest && out == Render(s.pieces) + s.rest && i <= |s.pieces|
    ensures InPlace(txt, CutsOf(s), out, i)
  {
    hide Source, Render, From, CutsOf, CutOf, Shift, CutFrom;
    var ps := s.pieces;
    assert |CutsOf(s)| == |ps|;
    CutPositions(s, i);
    var before, shown := Source(ps[..i]), Render(ps[..i]);
    if i < |ps| {
      var p := ps[i];
      var t := if p.replaced.Some? then p.replaced.value else p.matched;
      CutFields(s, i);
      AroundPiece(s, i);
      FromHere(s, i);
      Regroup(out, shown, PieceText(p), Render(ps[i + 1..]), s.rest);
      Within(txt, before, p.gap, p.matched, From(s, i + 1));
      Within(out, shown, p.gap, t, Render(ps[i + 1..]) + s.rest);
    } else {
      assert ps[..i] == ps;
      LastGap(txt, before, s.rest);
      LastGap(out, shown, s.rest);
    }
  }

  lemma Regroup(out: string, shown: string, text: string, later: string, rest: string)
    requires out == shown + text + later + rest
    ensures out == shown + (text + (later + rest))
  {
  }

  lemma LastGap(all: string, a: string, rest: string)
    requires all == a + rest
    ensures all[|a|..] == rest && all[|a|..|all|] == rest
  {
  }

  lemma FromHere(s: Scan, i: nat)
    requires i < |s.pieces|
    ensures From(s, i) == s.pieces[i].gap + s.pieces[i].matched + From(s, i + 1)
  {
    assert s.pieces[i..][1..] == s.pieces[i + 1..];
  }

  lemma Within(all: string, a: string, b: string, c: string, d: string)
    requires all == a + (b + c + d)
    ensures |a| + |b| + |c| <= |all|
    ensures all[|a|..|a| + |b|] == b && all[|a| + |b|..|a| + |b| + |c|] == c
  {
  }

  /**
   The text a line is replaced by, by positions: each cut is the match that the matcher finds behind the one before; the
   expansion or the match itself stands in its place; and everything else keeps its place and order up to the end.
   */
  lemma ReplacedText(pat: Matcher, template: string, txt: string, kth: nat, global: bool) returns (cuts: seq<Cut>)
    requires Matches(pat) && Substituted(pat, template, txt, kth, global).Replaced?
    ensures |cuts| == |ScanLine(pat, template, txt, kth, global).pieces|
    ensures forall i: nat :: i < |cuts| ==> CutOk(pat, template, txt, kth, cuts, i)
    ensures var out := Substituted(pat, template, txt, kth, global).text;
      out != "" && out[|out| - 1] == '\n' && Spliced(txt, cuts, out[..|out| - 1])
  {
    var s := ScanLine(pat, template, txt, kth, global);
    ScanLineMeaning(pat, template, txt, kth, global, s);
    FromFirst(s);
    cuts := CutsOf(s);
    forall i: nat | i < |cuts| ensures CutOk(pat, template, txt, kth, cuts, i) {
      CutIsMatch(pat, template, txt, kth, global, s, i);
    }
    var shown := Render(s.pieces) + s.rest;
    var out := Substituted(pat, template, txt, kth, global).text;
    assert out == shown + "\n" && out[..|out| - 1] == shown;
    forall i: nat | i <= |cuts| ensures InPlace(txt, cuts, shown, i) {
      CutInPlace(txt, s, shown, i);
    }
    CutPositions(s, |cuts|);
    assert s.pieces[..|cuts|] == s.pieces;
  }

  /** One step through the template. */
  lemma ExpandStep(template: string, i: nat, boln: string, rm: seq<Bounds>)
    requires |rm| > 0 && i < |template|
    ensures template[i] == '&' ==>
      Expand(template[i..], boln, rm) == GroupText(boln, rm[0]) + Expand(template[i + 1..], boln, rm)
    ensures template[i] != '&' && template[i] != '\\' ==>
      Expand(template[i..], boln, rm) == [template[i]] + Expand(template[i + 1..], boln, rm)
    ensures template[i] == '\\' && i + 1 == |template| ==> Expand(template[i..], boln, rm) == ['\0']
    ensures template[i] == '\\' && i + 1 < |template| ==>
      var g := GroupIndex(template[i + 1], rm);
      Expand(template[i..], boln, rm) ==
        (if g.Some? then GroupText(boln, rm[g.value]) else [template[i + 1]]) + Expand(template[i + 2..], boln, rm)
  {
    var rest := template[i..];
    assert rest[1..] == template[i + 1..];
    assert |rest| > 1 ==> rest[2..] == template[i + 2..];
  }

  method ApplySubstTemplate(boln: string, rm: seq<Bounds>, template: string) returns (buf: string)
    requires |rm| > 0
    ensures buf == Expand(template, boln, rm)
  {
    var sub := 0;
    buf := "";
    ghost var rest := template;
    while sub < |template|
      invariant 0 <= sub <= |template| && rest == template[sub..]
      invariant buf + Expand(rest, boln, rm) == Expand(template, boln, rm)
    {
      ExpandStep(template, sub, boln, rm);
      var add, step;
      if template[sub] == '&' {
        add, step := GroupText(boln, rm[0]), 1;
      } else if template[sub] != '\\' {
        add, step := [template[sub]], 1;
      } else if sub + 1 == |template| {
        add, step := ['\0'], 1;
      } else {
        var g := GroupIndex(template[sub + 1], rm);
        add, step := if g.Some? then GroupText(boln, rm[g.value]) else [template[sub + 1]], 2;
      }
      Assoc(buf, add, Expand(template[sub + step..], boln, rm));
      buf, sub := buf + add, sub + step;
      rest := template[sub..];
    }
  }

  lemma {:induction false} RenderConcat(a: seq<Piece>, b: seq<Piece>)
    ensures Render(a + b) == Render(a) + Render(b)
  {
    if a == [] {
      assert a + b == b;
    } else {
      assert (a + b)[1..] == a[1..] + b;
      RenderConcat(a[1..], b);
    }
  }

  lemma RenderOneMore(done: seq<Piece>, piece: Piece)
    ensures Render(done + [piece]) == Render(done) + PieceText(piece)
    ensures Changed(done + [piece]) <==> Changed(done) || piece.replaced.Some?
  {
    RenderConcat(done, [piece]);
    if Changed(done) {
      var i :| 0 <= i < |done| && done[i].replaced.Some?;
      assert (done + [piece])[i].replaced.Some?;
    }
    assert (done + [piece])[|done|] == piece;
  }

  /** How far the loop is: done are the pieces so far, and rm is the match to deal with next. */
  ghost predicate Ahead(all: Scan, pat: Matcher, template: string, done: seq<Piece>, rest: string, rm: seq<Bounds>, kth: nat, global: bool)
  {
    && Matches(pat) && InText(rm, rest) && (kth > 0 ==> |done| < kth || global)
    && var s := ScanFrom(pat, template, rest, rm, kth, global, |done|);
       all == s.(pieces := done + s.pieces)
  }

  lemma AheadStep(all: Scan, pat: Matcher, template: string, done: seq<Piece>, rest: string, rm: seq<Bounds>, kth: nat, global: bool,
                  piece: Piece, rest': string)
    requires Ahead(all, pat, template, done, rest, rm, kth, global)
    requires piece == PieceAt(template, rest, rm, kth == 0 || |done| + 1 == kth)
    requires rest' == rest[rm[0].eo..]
    ensures var changed := kth == 0 || |done| + 1 >= kth;
            if rest' != "" && (!changed || (global && rm[0].eo > 0)) && pat(rest', true).Some? then
              Ahead(all, pat, template, done + [piece], rest', pat(rest', true).value, kth, global)
            else
              all == Scan(done + [piece], rest', rest' != "" && rm[0].eo == 0 && global)
  {
    var s := ScanFrom(pat, template, rest, rm, kth, global, |done|);
    assert done + s.pieces == (done + [piece]) + s.pieces[1..];
  }

  /** What goes to the buffer for a match: the expansion after the gap, or all text up to its end. */
  method CopyPiece(template: string, rest: string, rm: seq<Bounds>, selected: bool) returns (text: string)
    requires InText(rm, rest)
    ensures text == PieceText(PieceAt(template, rest, rm, selected))
  {
    if selected {
      var expansion := ApplySubstTemplate(rest, rm, template);
      text := rest[..rm[0].so] + expansion;
    } else {
      text := rest[..rm[0].eo];
    }
  }

  method SubstituteMatchingText(pat: Matcher, template: string, txt: string, kth: nat, global: bool) returns (res: Outcome)
    requires Matches(pat)
    ensures res == Substituted(pat, template, txt, kth, global)
    ensures res.Replaced? ==> res.text != "" && res.text[|res.text| - 1] == '\n'
  {
    hide PieceText, Expand, Source;
    var found := pat(txt, false);
    if found.None? {
      return Unchanged;
    }
    var rest, rm, rbuf := txt, found.value, "";
    var changed, matchno := 0, 0;
    var more := true;
    ghost var all := ScanLine(pat, template, txt, kth, global);
    ghost var done: seq<Piece> := [];
    while more
      invariant |rm| > 0 && rbuf == Render(done)
      invariant matchno == if kth == 0 then 0 else |done|
      invariant changed > 0 <==> Changed(done)
      invariant changed > 0 <==> done != [] && |done| >= kth
      invariant more ==> Ahead(all, pat, template, done, rest, rm, kth, global)
      invariant !more ==> all == Scan(done, rest, rest != "" && rm[0].eo == 0 && global)
      decreases more, |rest|, if kth > |done| then kth - |done| else 0
    {
      ghost var piece := PieceAt(template, rest, rm, kth == 0 || |done| + 1 == kth);
      AheadStep(all, pat, template, done, rest, rm, kth, global, piece, rest[rm[0].eo..]);
      RenderOneMore(done, piece);
      matchno := if kth == 0 then matchno else matchno + 1;
      var text := CopyPiece(template, rest, rm, kth == 0 || kth == matchno);
      changed := if kth == 0 || kth == matchno then changed + 1 else changed;
      rbuf := rbuf + text;
      rest := rest[rm[0].eo..];
      done := done + [piece];
      more := rest != "" && (changed == 0 || (global && rm[0].eo > 0));
      if more {
        var next := pat(rest, true);
        if next.Some? {
          rm := next.value;
        } else {
          more := false;
        }
      }
    }
    if rest != "" && rm[0].eo == 0 && global {
      return Endless;
    }
    rbuf := rbuf + rest + "\n";
    res := if changed > 0 then Replaced(rbuf) else Unchanged;
  }
}
