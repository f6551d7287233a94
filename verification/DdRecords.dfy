/** What conv=block and conv=unblock do to a whole stream, and to a stream that comes in pieces. */
module DdRecords {
  import opened Basics

  function Spaces(n: nat): (s: string)
    ensures |s| == n && forall j :: 0 <= j < n ==> s[j] == ' '
  {
    seq(n, _ => ' ')
  }

  /** A record cut or padded to cbsz bytes. */
  function Fixed(r: string, cbsz: nat): (f: string)
    ensures |f| == cbsz
  {
    if |r| >= cbsz then r[..cbsz] else r + Spaces(cbsz - |r|)
  }

  /** conv=block on a whole stream: each newline record, and what is left after the last newline, becomes a fixed one. */
  function Blocked(s: string, cbsz: nat): string
    decreases |s|
  {
    if s == "" then ""
    else
      var k := FirstNewline(s);
      Fixed(s[..k], cbsz) + if k < |s| then Blocked(s[k + 1..], cbsz) else ""
  }

  /** Where conv=block is between two bytes. */
  datatype Blocking = Blocking(partial: string, intrunc: bool, out: string)

  function FedByte(b: Blocking, ch: char, cbsz: nat): Blocking {
    if b.intrunc then b.(intrunc := ch != '\n')
    else if ch == '\n' then Blocking("", false, b.out + Fixed(b.partial, cbsz))
    else if |b.partial| + 1 < cbsz then b.(partial := b.partial + [ch])
    else Blocking("", true, b.out + b.partial + [ch])
  }

  function Fed(b: Blocking, s: string, cbsz: nat): Blocking
    decreases |s|
  {
    if s == "" then b else Fed(FedByte(b, s[0], cbsz), s[1..], cbsz)
  }

  /** What is left at the end of the stream becomes a record too. */
  function Closed(b: Blocking, cbsz: nat): string {
    b.out + if b.partial == "" then "" else Fixed(b.partial, cbsz)
  }

  /** How the stream is split into reads makes no difference. */
  lemma {:induction false} FedConcat(b: Blocking, s: string, t: string, cbsz: nat)
    ensures Fed(b, s + t, cbsz) == Fed(Fed(b, s, cbsz), t, cbsz)
    decreases |s|
  {
    if s == "" {
      assert s + t == t;
    } else {
      assert (s + t)[1..] == s[1..] + t;
      FedConcat(FedByte(b, s[0], cbsz), s[1..], t, cbsz);
    }
  }

  ghost predicate NoNewline(s: string) {
    forall j :: 0 <= j < |s| ==> s[j] != '\n'
  }

  lemma {:induction false} FedPartial(b: Blocking, s: string, cbsz: nat)
    requires !b.intrunc && NoNewline(s) && |b.partial| + |s| < cbsz
    ensures Fed(b, s, cbsz) == b.(partial := b.partial + s)
    decreases |s|
  {
    if s == "" {
      assert b.partial + s == b.partial;
    } else {
      var b' := FedByte(b, s[0], cbsz);
      FedPartial(b', s[1..], cbsz);
      assert b'.partial + s[1..] == b.partial + s;
    }
  }

  lemma FedUnfinished(out: string, s: string, cbsz: nat)
    requires NoNewline(s) && |s| < cbsz
    ensures Fed(Blocking("", false, out), s, cbsz) == Blocking(s, false, out)
  {
    FedPartial(Blocking("", false, out), s, cbsz);
    assert "" + s == s;
  }

  lemma {:induction false} FedTossed(b: Blocking, s: string, cbsz: nat)
    requires b.intrunc && NoNewline(s)
    ensures Fed(b, s, cbsz) == b
    decreases |s|
  {
    if s != "" {
      FedTossed(b, s[1..], cbsz);
    }
  }

  /** Up to the newline that ends a truncation. */
  lemma FedToss(out: string, s: string, cbsz: nat, k: nat)
    requires k < |s| && NoNewline(s[..k]) && s[k] == '\n'
    ensures Fed(Blocking("", true, out), s, cbsz) == Fed(Blocking("", false, out), s[k + 1..], cbsz)
  {
    var b := Blocking("", true, out);
    assert s == s[..k] + s[k..];
    FedConcat(b, s[..k], s[k..], cbsz);
    FedTossed(b, s[..k], cbsz);
    assert s[k..][1..] == s[k + 1..];
  }

  /** A record that ends within cbsz bytes. */
  lemma FedShort(out: string, s: string, cbsz: nat, k: nat)
    requires k < |s| && k < cbsz && NoNewline(s[..k]) && s[k] == '\n'
    ensures Fed(Blocking("", false, out), s, cbsz) == Fed(Blocking("", false, out + Fixed(s[..k], cbsz)), s[k + 1..], cbsz)
  {
    var b := Blocking("", false, out);
    assert s == s[..k] + s[k..];
    FedConcat(b, s[..k], s[k..], cbsz);
    FedPartial(b, s[..k], cbsz);
    assert "" + s[..k] == s[..k];
    assert s[k..][1..] == s[k + 1..];
  }

  /** A record that does not: the rest of it is tossed. */
  lemma FedLong(out: string, s: string, cbsz: nat)
    requires 0 < cbsz <= |s| && NoNewline(s[..cbsz])
    ensures Fed(Blocking("", false, out), s, cbsz) == Fed(Blocking("", true, out + s[..cbsz]), s[cbsz..], cbsz)
  {
    var k := cbsz - 1;
    var head, tail := s[..k], s[k..];
    assert s == head + tail;
    assert s[..cbsz] == head + [s[k]] && s[k] == s[..cbsz][k];
    assert forall j :: 0 <= j < k ==> head[j] == s[..cbsz][j];
    FedConcat(Blocking("", false, out), head, tail, cbsz);
    FedPartial(Blocking("", false, out), head, cbsz);
    assert "" + head == head && out + head + [s[k]] == out + s[..cbsz];
    assert tail[1..] == s[cbsz..] && tail[0] == s[k];
  }

  /** The first k bytes are a record of which cnt bytes are kept; intrunc when its newline has not come yet. */
  ghost predicate WholeRecord(s: string, cnt: nat, k: nat, intrunc: bool, cbsz: nat) {
    && cnt <= cbsz && cnt <= k <= |s| && NoNewline(s[..cnt])
    && if cnt < cbsz then k == cnt + 1 && s[cnt] == '\n' && !intrunc
       else if intrunc then k == |s| && NoNewline(s[cnt..])
       else cnt < k && NoNewline(s[cnt..k - 1]) && s[k - 1] == '\n'
  }

  /** A record that is whole: its cnt bytes, and with what follows it k bytes, up to a newline or to the end. */
  lemma FedWhole(out: string, s: string, cnt: nat, k: nat, intrunc: bool, cbsz: nat)
    requires cbsz > 0 && WholeRecord(s, cnt, k, intrunc, cbsz)
    ensures Fed(Blocking("", false, out), s, cbsz) == Fed(Blocking("", intrunc, out + Fixed(s[..cnt], cbsz)), s[k..], cbsz)
  {
    if cnt < cbsz {
      FedShort(out, s, cbsz, cnt);
    } else {
      FedLong(out, s, cbsz);
      assert Fixed(s[..cnt], cbsz) == s[..cnt];
      var t := s[cnt..];
      if intrunc {
        FedTossed(Blocking("", true, out + s[..cnt]), t, cbsz);
      } else {
        assert t[..k - 1 - cnt] == s[cnt..k - 1] && t[k - cnt..] == s[k..];
        FedToss(out + s[..cnt], t, cbsz, k - 1 - cnt);
      }
    }
  }

  /** The record that is under way can as well be read again. */
  lemma FedAgain(b: Blocking, s: string, cbsz: nat)
    requires !b.intrunc && NoNewline(b.partial) && |b.partial| < cbsz
    ensures Fed(b, s, cbsz) == Fed(Blocking("", false, b.out), b.partial + s, cbsz)
  {
    FedUnfinished(b.out, b.partial, cbsz);
    FedConcat(Blocking("", false, b.out), b.partial, s, cbsz);
  }

  /** The streaming form does what the whole-stream form says. */
  lemma {:induction false} FedIsBlocked(out: string, s: string, cbsz: nat)
    requires cbsz > 0
    ensures Closed(Fed(Blocking("", false, out), s, cbsz), cbsz) == out + Blocked(s, cbsz)
    decreases |s|
  {
    var k := FirstNewline(s);
    if s == "" {
    } else if k < |s| {
      var f, y := Fixed(s[..k], cbsz), s[k + 1..];
      FedIsBlocked(out + f, y, cbsz);
      FedFirst(out, s, cbsz, k, f, y);
    } else {
      FedRest(out, s, cbsz);
    }
  }

  lemma FedFirst(out: string, s: string, cbsz: nat, k: nat, f: string, y: string)
    requires cbsz > 0 && k == FirstNewline(s) < |s| && f == Fixed(s[..k], cbsz) && y == s[k + 1..]
    requires Closed(Fed(Blocking("", false, out + f), y, cbsz), cbsz) == out + f + Blocked(y, cbsz)
    ensures Closed(Fed(Blocking("", false, out), s, cbsz), cbsz) == out + Blocked(s, cbsz)
  {
    FedRecord(out, s, cbsz, k);
    Assoc(out, f, Blocked(y, cbsz));
  }

  lemma FedRest(out: string, s: string, cbsz: nat)
    requires cbsz > 0 && s != "" && NoNewline(s)
    ensures Closed(Fed(Blocking("", false, out), s, cbsz), cbsz) == out + Fixed(s, cbsz)
    ensures Blocked(s, cbsz) == Fixed(s, cbsz)
  {
    assert s[..FirstNewline(s)] == s;
    if |s| < cbsz {
      FedUnfinished(out, s, cbsz);
    } else {
      FedLong(out, s, cbsz);
      FedTossed(Blocking("", true, out + s[..cbsz]), s[cbsz..], cbsz);
    }
  }

  lemma FedRecord(out: string, s: string, cbsz: nat, k: nat)
    requires cbsz > 0 && k == FirstNewline(s) < |s|
    ensures Fed(Blocking("", false, out), s, cbsz) == Fed(Blocking("", false, out + Fixed(s[..k], cbsz)), s[k + 1..], cbsz)
  {
    if k < cbsz {
      FedShort(out, s, cbsz, k);
    } else {
      FedLong(out, s, cbsz);
      var t := s[cbsz..];
      FedToss(out + s[..cbsz], t, cbsz, k - cbsz);
      assert s[..k][..cbsz] == s[..cbsz];
      assert t[k - cbsz + 1..] == s[k + 1..];
    }
  }

  /** A record without its trailing spaces. */
  function Trimmed(r: string): (t: string)
    ensures t <= r && (t != "" ==> t[|t| - 1] != ' ')
    ensures forall j :: |t| <= j < |r| ==> r[j] == ' '
  {
    if r == "" || r[|r| - 1] != ' ' then r else Trimmed(r[..|r| - 1])
  }

  /** conv=unblock on a whole stream: each cbsz bytes, and what is left, become a trimmed record and a newline. */
  function Unblocked(s: string, cbsz: nat): string
    requires cbsz > 0
    decreases |s|
  {
    if s == "" then ""
    else if |s| < cbsz then Trimmed(s) + "\n"
    else Trimmed(s[..cbsz]) + "\n" + Unblocked(s[cbsz..], cbsz)
  }

  /** Newline-terminated records of at most cbsz bytes with no trailing spaces. */
  ghost predicate Regular(s: string, cbsz: nat)
    decreases |s|
  {
    s == "" ||
    var k := FirstNewline(s);
    k < |s| && k <= cbsz && (k > 0 ==> s[k - 1] != ' ') && Regular(s[k + 1..], cbsz)
  }

  /** unblock undoes block on such streams, and on no others. */
  lemma {:induction false} UnblockBlock(s: string, cbsz: nat)
    requires cbsz > 0
    ensures Unblocked(Blocked(s, cbsz), cbsz) == s <==> Regular(s, cbsz)
    decreases |s|
  {
    if s != "" {
      var k := FirstNewline(s);
      if k < |s| {
        var y := s[k + 1..];
        UnblockBlock(y, cbsz);
        UnblockStep(s, cbsz, k, y);
      } else {
        UnblockRest(s, cbsz);
      }
    }
  }

  lemma UnblockRecord(s: string, cbsz: nat, k: nat, r: string, y: string)
    requires cbsz > 0 && k == FirstNewline(s) < |s| && r == s[..k] && y == s[k + 1..]
    ensures Unblocked(Blocked(s, cbsz), cbsz) == Trimmed(Fixed(r, cbsz)) + "\n" + Unblocked(Blocked(y, cbsz), cbsz)
  {
    UnblockFirst(Fixed(r, cbsz), Blocked(y, cbsz), cbsz);
  }

  lemma RecordKept(s: string, cbsz: nat, k: nat, r: string, y: string, x: string)
    requires k == FirstNewline(s) < |s| && r == s[..k] && y == s[k + 1..]
    ensures Trimmed(Fixed(r, cbsz)) + "\n" + x == s <==> k <= cbsz && (k > 0 ==> s[k - 1] != ' ') && x == y
  {
    FirstRecord(s, k, r, y);
    TrimmedFixed(r, cbsz);
    SameRecord(Trimmed(Fixed(r, cbsz)), x, r, y);
  }

  lemma FirstRecord(s: string, k: nat, r: string, y: string)
    requires k == FirstNewline(s) < |s| && r == s[..k] && y == s[k + 1..]
    ensures s == r + "\n" + y && NoNewline(r) && |r| == k && (k > 0 ==> r[k - 1] == s[k - 1])
  {
  }

  lemma UnblockStep(s: string, cbsz: nat, k: nat, y: string)
    requires cbsz > 0 && k == FirstNewline(s) < |s| && y == s[k + 1..]
    requires Unblocked(Blocked(y, cbsz), cbsz) == y <==> Regular(y, cbsz)
    ensures Unblocked(Blocked(s, cbsz), cbsz) == s <==> Regular(s, cbsz)
  {
    UnblockRecord(s, cbsz, k, s[..k], y);
    RecordKept(s, cbsz, k, s[..k], y, Unblocked(Blocked(y, cbsz), cbsz));
  }

  lemma UnblockRest(s: string, cbsz: nat)
    requires cbsz > 0 && s != "" && NoNewline(s)
    ensures Unblocked(Blocked(s, cbsz), cbsz) != s
  {
    FedRest("", s, cbsz);
    var f := Fixed(s, cbsz);
    UnblockFirst(f, "", cbsz);
    assert f + "" == f;
    assert Unblocked(f, cbsz)[|Trimmed(f)|] == '\n';
  }

  /** One record is handled by itself. */
  lemma UnblockFirst(f: string, rest: string, cbsz: nat)
    requires 0 < cbsz == |f|
    ensures Unblocked(f + rest, cbsz) == Trimmed(f) + "\n" + Unblocked(rest, cbsz)
  {
    assert (f + rest)[..cbsz] == f && (f + rest)[cbsz..] == rest;
  }

  lemma TrimmedFixed(r: string, cbsz: nat)
    requires NoNewline(r)
    ensures Trimmed(Fixed(r, cbsz)) == r <==> |r| <= cbsz && (r != "" ==> r[|r| - 1] != ' ')
    ensures NoNewline(Trimmed(Fixed(r, cbsz)))
  {
    var f := Fixed(r, cbsz);
    var t := Trimmed(f);
    if |r| <= cbsz && (r != "" ==> r[|r| - 1] != ' ') {
      assert f[..|r|] == r;
      assert r != "" ==> f[|r| - 1] != ' ';
      assert t != "" ==> f[|t| - 1] != ' ';
      assert t == f[..|t|];
    }
  }

  lemma LineOf(a: string, x: string)
    requires NoNewline(a)
    ensures FirstNewline(a + "\n" + x) == |a|
  {
    var s := a + "\n" + x;
    assert s[|a|] == '\n' && forall j :: 0 <= j < |a| ==> s[j] == a[j];
  }

  /** Two texts with the same first line are the same line by line. */
  lemma SameRecord(a: string, x: string, b: string, y: string)
    requires NoNewline(a) && NoNewline(b)
    ensures a + "\n" + x == b + "\n" + y <==> a == b && x == y
  {
    LineOf(a, x);
    LineOf(b, y);
    var s, t := a + "\n" + x, b + "\n" + y;
    assert a == s[..|a|] && b == t[..|b|];
    assert x == s[|a| + 1..] && y == t[|b| + 1..];
  }

  /** Where conv=unblock is between two reads. */
  datatype Unblocking = Unblocking(partial: string, out: string)

  /** All whole records in the input so far are done. */
  function Drained(u: Unblocking, cbsz: nat): (v: Unblocking)
    requires cbsz > 0
    ensures |v.partial| < cbsz
    decreases |u.partial|
  {
    if |u.partial| < cbsz then u
    else Drained(Unblocking(u.partial[cbsz..], u.out + Trimmed(u.partial[..cbsz]) + "\n"), cbsz)
  }

  function Taken(u: Unblocking, s: string, cbsz: nat): Unblocking
    requires cbsz > 0
  {
    Drained(u.(partial := u.partial + s), cbsz)
  }

  /** What is left at the end of the stream is a short record. */
  function Ended(u: Unblocking): string {
    u.out + if u.partial == "" then "" else Trimmed(u.partial) + "\n"
  }

  lemma {:induction false} DrainedLater(u: Unblocking, t: string, cbsz: nat)
    requires cbsz > 0
    ensures Drained(u.(partial := u.partial + t), cbsz) == Taken(Drained(u, cbsz), t, cbsz)
    decreases |u.partial|
  {
    var p := u.partial;
    if |p| >= cbsz {
      assert (p + t)[..cbsz] == p[..cbsz] && (p + t)[cbsz..] == p[cbsz..] + t;
      DrainedLater(Unblocking(p[cbsz..], u.out + Trimmed(p[..cbsz]) + "\n"), t, cbsz);
    }
  }

  /** How the stream is split into reads makes no difference. */
  lemma TakenConcat(u: Unblocking, s: string, t: string, cbsz: nat)
    requires cbsz > 0
    ensures Taken(Taken(u, s, cbsz), t, cbsz) == Taken(u, s + t, cbsz)
  {
    DrainedLater(u.(partial := u.partial + s), t, cbsz);
    assert u.partial + s + t == u.partial + (s + t);
  }

  /** The streaming form does what the whole-stream form says. */
  lemma {:induction false} DrainedIsUnblocked(u: Unblocking, cbsz: nat)
    requires cbsz > 0
    ensures Ended(Drained(u, cbsz)) == u.out + Unblocked(u.partial, cbsz)
    decreases |u.partial|
  {
    var p := u.partial;
    if |p| >= cbsz {
      DrainedIsUnblocked(Unblocking(p[cbsz..], u.out + Trimmed(p[..cbsz]) + "\n"), cbsz);
      Assoc(u.out, Trimmed(p[..cbsz]) + "\n", Unblocked(p[cbsz..], cbsz));
      Assoc(u.out, Trimmed(p[..cbsz]), "\n");
    }
  }
}
