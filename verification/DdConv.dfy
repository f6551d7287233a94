/** The record converters of dd, over their buffers. */
module DdConv {
  import opened Basics
  import opened DdRecords
  import opened DdOutput

  /** conv=block and conv=unblock: the input buffer and what is carried from one read to the next. */
  class Converter {
    const cbsz: nat
    const ibs: nat
    const inb: array<char>
    var dbp: nat
    var dbcnt: nat
    var dbrcnt: nat
    var intrunc: bool
    const out: Output

    ghost predicate Buffers()
      reads this, out
    {
      && cbsz > 0 && ibs > 0 && inb.Length == Max(ibs, cbsz) + cbsz
      && out.Valid() && out.db.Length == out.dbsz + cbsz && out.db != inb
    }

    /** Between reads: less than a record is left, at the beginning of the buffer. */
    ghost predicate Valid()
      reads this, out
    {
      Buffers() && out.dbcnt < out.dbsz && dbp == dbcnt < cbsz
    }

    /** In conv=block, what is left has no newline, and nothing is left while truncating. */
    ghost predicate Blocks()
      reads this, out, inb
    {
      Valid() && (intrunc ==> dbcnt == 0) && NoNewline(inb[..dbcnt])
    }

    /** The n bytes just read lie behind what was left. */
    ghost predicate Filled(left: string, chunk: string)
      reads this, out, inb
    {
      && Buffers() && out.dbcnt < out.dbsz && dbp == dbcnt == |left| + |chunk| <= inb.Length && dbrcnt == |chunk|
      && inb[..|left|] == left && inb[|left|..dbcnt] == chunk
      && |left| < cbsz
    }

    ghost function State(): Blocking
      requires Valid()
      reads this, out, inb, out.db, out.sink
    {
      Blocking(inb[..dbcnt], intrunc, out.Total())
    }

    constructor (cbsz: nat, ibs: nat, obs: nat, sink: Sink)
      requires cbsz > 0 && ibs > 0 && obs > 0
      ensures Valid() && this.cbsz == cbsz && this.ibs == ibs && out.dbsz == obs && out.sink == sink
      ensures State() == Blocking("", false, sink.written) && out.bytes == 0 && Blocks()
      ensures fresh(inb) && fresh(out) && fresh(out.db)
    {
      this.cbsz, this.ibs := cbsz, ibs;
      dbp, dbcnt, dbrcnt, intrunc := 0, 0, 0, false;
      inb := new char[Max(ibs, cbsz) + cbsz];
      out := new Output(obs, cbsz, sink);
    }

    /** read(2) gives some bytes, at most ibs of them. */
    method Fill(chunk: string)
      requires Valid() && 0 < |chunk| <= ibs
      modifies this, inb
      ensures Filled(old(inb[..dbcnt]), chunk) && intrunc == old(intrunc) && dbcnt == old(dbcnt) + |chunk|
    {
      for k := 0 to |chunk|
        invariant inb[..dbcnt] == old(inb[..dbcnt]) && inb[dbcnt..dbcnt + k] == chunk[..k]
        invariant dbcnt == old(dbcnt)
        modifies inb
      {
        inb[dbcnt + k] := chunk[k];
      }
      assert chunk[..|chunk|] == chunk;
      dbcnt := dbcnt + |chunk|;
      dbrcnt := |chunk|;
      dbp := dbp + dbrcnt;
    }

    /** The truncation goes on until there is a newline. */
    method SkipTruncated(ghost chunk: string)
      requires Filled("", chunk) && intrunc
      modifies this
      ensures Buffers() && dbcnt <= dbp <= inb.Length && (intrunc ==> dbcnt == dbp == 0)
      ensures Fed(Blocking("", true, out.Total()), chunk, cbsz) == Fed(Blocking("", intrunc, out.Total()), inb[dbp - dbcnt..dbp], cbsz)
    {
      assert inb[..dbrcnt] == chunk;
      var inp, cnt := Scan(dbrcnt, chunk);
      Skipped(chunk, inp, cnt, out.Total());
      if cnt == 0 {
        dbcnt, dbp := 0, 0;
        return;
      }
      intrunc := false;
      dbcnt := cnt - 1;
      dbp := inp + cnt - 1;
    }

    /** Past the first newline of n bytes, and what was left to look at there; nothing if there is none. */
    method Scan(n: nat, ghost chunk: string) returns (inp: nat, cnt: nat)
      requires n <= inb.Length && inb[..n] == chunk
      ensures if cnt == 0 then inp == n && NoNewline(chunk)
              else 0 < inp && inp + cnt == n + 1 && NoNewline(chunk[..inp - 1]) && chunk[inp - 1] == '\n'
      ensures cnt > 0 ==> inb[inp..inp + cnt - 1] == chunk[inp..]
    {
      inp, cnt := 0, n;
      while cnt > 0
        invariant inp + cnt == n && NoNewline(chunk[..inp])
      {
        assert inb[inp] == chunk[inp];
        inp := inp + 1;
        if inb[inp - 1] == '\n' {
          break;
        }
        cnt := cnt - 1;
      }
    }

    lemma Skipped(chunk: string, inp: nat, cnt: nat, total: string)
      requires if cnt == 0 then inp == |chunk| && NoNewline(chunk)
               else 0 < inp && inp + cnt == |chunk| + 1 && NoNewline(chunk[..inp - 1]) && chunk[inp - 1] == '\n'
      ensures Fed(Blocking("", true, total), chunk, cbsz)
              == if cnt == 0 then Blocking("", true, total) else Fed(Blocking("", false, total), chunk[inp..], cbsz)
    {
      if cnt == 0 {
        FedTossed(Blocking("", true, total), chunk, cbsz);
      } else {
        FedToss(total, chunk, cbsz, inp - 1);
      }
    }

    /** Copies a record behind the output, up to its newline or to maxlen bytes. */
    method CopyRecord(inp: nat, maxlen: nat) returns (cnt: nat, nl: bool)
      requires Buffers() && inp + maxlen <= inb.Length && out.dbp + maxlen <= out.db.Length
      modifies out.db
      ensures cnt <= maxlen && NoNewline(inb[inp..inp + cnt]) && (nl <==> cnt < maxlen)
      ensures nl ==> inb[inp + cnt] == '\n'
      ensures out.db[..out.dbp] == old(out.db[..out.dbp])
      ensures out.db[out.dbp..out.dbp + cnt] == inb[inp..inp + cnt]
    {
      cnt, nl := 0, false;
      while cnt < maxlen
        invariant cnt <= maxlen && NoNewline(inb[inp..inp + cnt])
        invariant out.db[..out.dbp] == old(out.db[..out.dbp])
        invariant out.db[out.dbp..out.dbp + cnt] == inb[inp..inp + cnt]
      {
        if inb[inp + cnt] == '\n' {
          nl := true;
          break;
        }
        out.db[out.dbp + cnt] := inb[inp + cnt];
        cnt := cnt + 1;
      }
    }

    /** Pads the cnt bytes copied to a record, and writes if the output block is full. */
    method Finish(cnt: nat, ghost record: string) returns (ok: bool)
      requires Buffers() && out.dbcnt < out.dbsz && cnt <= cbsz && record == out.db[out.dbp..out.dbp + cnt]
      modifies out, out.db, out.sink
      ensures ok <==> out.sink.Trouble() == old(out.sink.Trouble())
      ensures ok && old(out.Whole()) ==> out.Whole()
      ensures ok ==> Buffers() && out.dbcnt < out.dbsz
      ensures ok ==> out.Total() == old(out.Total()) + Fixed(record, cbsz)
    {
      ghost var total := out.Total();
      Pad(cnt);
      out.dbp := out.dbp + cbsz;
      out.dbcnt := out.dbcnt + cbsz;
      assert out.Total() == total + Fixed(record, cbsz);
      ok := true;
      if out.dbcnt >= out.dbsz {
        ok := out.DdOut(false);
      }
    }

    method Pad(cnt: nat)
      requires Buffers() && cnt <= cbsz && out.dbp + cbsz <= out.db.Length
      modifies out.db
      ensures out.db[..out.dbp] == old(out.db[..out.dbp])
      ensures out.db[out.dbp..out.dbp + cbsz] == Fixed(old(out.db[out.dbp..out.dbp + cnt]), cbsz)
    {
      for k := cnt to cbsz
        invariant out.db[..out.dbp + cnt] == old(out.db[..out.dbp + cnt])
        invariant forall j :: out.dbp + cnt <= j < out.dbp + k ==> out.db[j] == ' '
      {
        out.db[out.dbp + k] := ' ';
      }
    }

    /** Tosses characters up to and including a newline, or all there are. */
    method Toss(inp: nat) returns (next: nat)
      requires inp + dbcnt == dbp <= inb.Length && !intrunc
      modifies `dbcnt, `intrunc
      ensures inp <= next && next + dbcnt == dbp
      ensures if intrunc then next == dbp && NoNewline(inb[inp..dbp])
              else inp < next && inb[next - 1] == '\n' && NoNewline(inb[inp..next - 1])
    {
      next := inp;
      while dbcnt > 0
        invariant inp <= next && next + dbcnt == dbp && !intrunc && NoNewline(inb[inp..next])
        decreases dbcnt
      {
        next := next + 1;
        if inb[next - 1] == '\n' {
          break;
        }
        dbcnt := dbcnt - 1;
      }
      if dbcnt == 0 {
        intrunc := true;
      } else {
        dbcnt := dbcnt - 1;
      }
    }

    /** Before a record: what is still in the input buffer, from inp on, leads to target. */
    ghost predicate Leads(inp: nat, target: Blocking)
      reads this, out, inb, out.db, out.sink
    {
      && Buffers() && out.dbcnt < out.dbsz && inp + dbcnt == dbp <= inb.Length && (intrunc ==> dbcnt == 0)
      && Fed(Blocking("", intrunc, out.Total()), inb[inp..dbp], cbsz) == target
    }

    /** The record at inp goes on beyond the cbsz bytes copied. */
    method TossRest(ghost inp: nat, from: nat) returns (next: nat)
      requires inp + cbsz == from && from + dbcnt == dbp <= inb.Length && !intrunc
      requires NoNewline(inb[inp..dbp][..cbsz])
      modifies `dbcnt, `intrunc
      ensures next + dbcnt == dbp && dbcnt <= old(dbcnt) && inp <= next && (intrunc ==> dbcnt == 0)
      ensures WholeRecord(inb[inp..dbp], cbsz, next - inp, intrunc, cbsz)
    {
      next := Toss(from);
      SliceOf(inb[..], inp, dbp, cbsz, dbp - inp);
      if !intrunc {
        SliceOf(inb[..], inp, dbp, cbsz, next - inp - 1);
      }
    }

    /** Copies a record and takes it out of the input; whole is false, and nothing taken, if only part of it is there. */
    method TakeRecord(inp: nat) returns (next: nat, cnt: nat, whole: bool)
      requires Buffers() && out.dbcnt < out.dbsz && inp + dbcnt == dbp <= inb.Length && dbcnt > 0 && !intrunc
      modifies `dbcnt, `intrunc, out.db
      ensures Buffers() && next + dbcnt == dbp && inp <= next && (intrunc ==> dbcnt == 0)
      ensures out.db[..out.dbp] == old(out.db[..out.dbp])
      ensures cnt <= cbsz && inp + cnt <= dbp && out.db[out.dbp..out.dbp + cnt] == inb[inp..inp + cnt]
      ensures if whole then dbcnt < old(dbcnt) && WholeRecord(inb[inp..dbp], cnt, next - inp, intrunc, cbsz)
              else dbcnt == old(dbcnt) < cbsz && !intrunc && NoNewline(inb[inp..dbp])
    {
      var maxlen := Min(cbsz, dbcnt);
      var nl;
      cnt, nl := CopyRecord(inp, maxlen);
      SliceOf(inb[..], inp, dbp, 0, cnt);
      next := inp;
      if !nl && dbcnt < cbsz {
        return next, cnt, false;
      }
      next := next + cnt;
      dbcnt := dbcnt - cnt;
      if nl {
        next := next + 1;
        dbcnt := dbcnt - 1;
      }
      if cnt == cbsz {
        next := TossRest(inp, next);
      }
      whole := true;
    }

    /** One record; more is false when there is only part of one, which goes to the beginning of the buffer. */
    method BlockRecord(inp: nat, ghost target: Blocking) returns (next: nat, more: bool, ok: bool)
      requires Leads(inp, target) && dbcnt > 0
      modifies `dbcnt, `intrunc, inb, out, out.db, out.sink
      ensures ok <==> out.sink.Trouble() == old(out.sink.Trouble())
      ensures ok && old(out.Whole()) ==> out.Whole()
      ensures ok && more ==> Leads(next, target) && dbcnt < old(dbcnt)
      ensures ok && !more ==> Left(target)
    {
      ghost var rest := inb[inp..dbp];
      var cnt;
      next, cnt, more := TakeRecord(inp);
      ok := true;
      if more {
        ok := Deliver(inp, next, cnt, rest, target);
      } else {
        Keep(rest, target);
      }
    }

    method Deliver(ghost inp: nat, ghost next: nat, cnt: nat, ghost rest: string, ghost target: Blocking) returns (ok: bool)
      requires Buffers() && out.dbcnt < out.dbsz && inp <= next && next + dbcnt == dbp <= inb.Length && (intrunc ==> dbcnt == 0)
      requires rest == inb[inp..dbp] && WholeRecord(rest, cnt, next - inp, intrunc, cbsz)
      requires out.db[out.dbp..out.dbp + cnt] == rest[..cnt]
      requires Fed(Blocking("", false, out.Total()), rest, cbsz) == target
      modifies out, out.db, out.sink
      ensures ok <==> out.sink.Trouble() == old(out.sink.Trouble())
      ensures ok && old(out.Whole()) ==> out.Whole()
      ensures ok ==> Leads(next, target)
    {
      ghost var later := inb[next..dbp];
      FedWhole(out.Total(), rest, cnt, next - inp, intrunc, cbsz);
      SliceOf(inb[..], inp, dbp, next - inp, |rest|);
      ok := Finish(cnt, rest[..cnt]);
      assert inb[next..dbp] == later;
    }

    method Keep(ghost rest: string, ghost target: Blocking)
      requires Buffers() && out.dbcnt < out.dbsz && !intrunc && dbcnt < cbsz && dbcnt <= dbp <= inb.Length
      requires rest == inb[dbp - dbcnt..dbp] && NoNewline(rest)
      requires Fed(Blocking("", false, out.Total()), rest, cbsz) == target
      modifies inb
      ensures Left(target)
    {
      FedUnfinished(out.Total(), rest, cbsz);
      MoveDown(inb, dbp - dbcnt, dbcnt);
    }

    /** The input buffer holds what is left of the input. */
    ghost predicate Left(target: Blocking)
      reads this, out, inb, out.db, out.sink
    {
      && Buffers() && out.dbcnt < out.dbsz && dbcnt < cbsz && (intrunc ==> dbcnt == 0) && NoNewline(inb[..dbcnt])
      && target == Blocking(inb[..dbcnt], intrunc, out.Total())
    }

    /** Tosses what is left of a truncated record, or else looks again at the record that is under way. */
    method Begin(ghost left: string, ghost chunk: string, ghost target: Blocking)
      requires Filled(left, chunk) && (intrunc ==> left == "") && NoNewline(left)
      requires target == Fed(Blocking(left, intrunc, out.Total()), chunk, cbsz)
      modifies this
      ensures dbcnt <= dbp && Leads(dbp - dbcnt, target)
    {
      if intrunc {
        SkipTruncated(chunk);
      } else {
        FedAgain(Blocking(left, false, out.Total()), chunk, cbsz);
        assert inb[0..dbcnt] == left + chunk;
      }
    }

    /** conv=block on what has just been read. */
    method Block(ghost left: string, ghost chunk: string) returns (ok: bool)
      requires Filled(left, chunk) && (intrunc ==> left == "") && NoNewline(left)
      modifies this, inb, out, out.db, out.sink
      ensures ok <==> out.sink.Trouble() == old(out.sink.Trouble())
      ensures ok && old(out.Whole()) ==> out.Whole()
      ensures ok ==> Blocks() && State() == Fed(Blocking(left, old(intrunc), old(out.Total())), chunk, cbsz)
    {
      ghost var target := Fed(Blocking(left, intrunc, out.Total()), chunk, cbsz);
      Begin(left, chunk, target);
      ok := true;
      var inp: nat, more := dbp - dbcnt, true;
      while dbcnt > 0 && more
        invariant if more then Leads(inp, target) else Left(target)
        invariant out.sink.Trouble() == old(out.sink.Trouble()) && (old(out.Whole()) ==> out.Whole())
        decreases more, dbcnt
      {
        inp, more, ok := BlockRecord(inp, target);
        if !ok {
          return;
        }
      }
      dbp := dbcnt;
    }

    /** What is left in the input buffer becomes the last record, padded; it is not written yet. */
    method BlockClose()
      requires Blocks()
      modifies out, out.db
      ensures out.dbcnt <= out.db.Length && 0 < out.dbsz <= out.db.Length
      ensures out.Total() == Closed(old(State()), cbsz)
    {
      if dbcnt > 0 {
        CopyBehind(0, dbcnt);
        Pad(dbcnt);
        assert out.Total() == old(out.Total());
        CountRecord();
      }
    }

    /** A record is behind the output, and now counts. */
    method CountRecord()
      requires Buffers() && out.dbp + cbsz <= out.db.Length
      modifies out`dbcnt
      ensures out.dbcnt <= out.db.Length && out.Total() == old(out.Total()) + old(out.db[out.dbp..out.dbp + cbsz])
    {
      ghost var n := out.dbcnt;
      assert out.db[..n + cbsz] == out.db[..n] + out.db[n..n + cbsz];
      out.dbcnt := out.dbcnt + cbsz;
      Assoc(out.sink.written, out.db[..n], out.db[n..n + cbsz]);
    }

    /** memmove to the end of the output. */
    method CopyBehind(inp: nat, cnt: nat)
      requires Buffers() && inp + cnt <= inb.Length && out.dbp + cnt <= out.db.Length
      modifies out.db
      ensures out.db[..out.dbp] == old(out.db[..out.dbp])
      ensures out.db[out.dbp..out.dbp + cnt] == inb[inp..inp + cnt]
    {
      for k := 0 to cnt
        invariant out.db[..out.dbp] == old(out.db[..out.dbp])
        invariant out.db[out.dbp..out.dbp + k] == inb[inp..inp + k]
      {
        out.db[out.dbp + k] := inb[inp + k];
      }
    }

    /** What remains of n bytes without the spaces at their end. */
    method Trim(inp: nat, n: nat) returns (cnt: nat)
      requires inp + n <= inb.Length
      ensures cnt <= n && inb[inp..inp + cnt] == Trimmed(inb[inp..inp + n])
    {
      cnt := n;
      while cnt > 0 && inb[inp + cnt - 1] == ' '
        invariant cnt <= n && Trimmed(inb[inp..inp + cnt]) == Trimmed(inb[inp..inp + n])
      {
        assert inb[inp..inp + cnt][..cnt - 1] == inb[inp..inp + cnt - 1];
        cnt := cnt - 1;
      }
    }

    /** Puts out a trimmed record and its newline, without writing. */
    method PutLine(inp: nat, cnt: nat)
      requires Buffers() && inp + cnt <= inb.Length && out.dbp + cnt < out.db.Length
      modifies out, out.db
      ensures Buffers() && out.dbcnt == old(out.dbcnt) + cnt + 1
      ensures out.Total() == old(out.Total()) + inb[inp..inp + cnt] + "\n"
    {
      ghost var total := out.Total();
      CopyBehind(inp, cnt);
      out.dbp := out.dbp + cnt;
      out.dbcnt := out.dbcnt + cnt;
      assert out.Total() == total + inb[inp..inp + cnt];
      out.db[out.dbp] := '\n';
      out.dbp := out.dbp + 1;
      out.dbcnt := out.dbcnt + 1;
      assert out.db[..out.dbcnt] == out.db[..out.dbcnt - 1] + "\n";
    }

    /** Before a record: what is still in the input buffer, from inp on, leads to target. */
    ghost predicate Drains(inp: nat, target: Unblocking)
      reads this, out, inb, out.db, out.sink
    {
      && Buffers() && out.dbcnt < out.dbsz && inp + dbcnt == dbp <= inb.Length
      && Drained(Unblocking(inb[inp..dbp], out.Total()), cbsz) == target
    }

    method UnblockRecord(inp: nat, ghost target: Unblocking) returns (ok: bool)
      requires Drains(inp, target) && dbcnt >= cbsz
      modifies `dbcnt, out, out.db, out.sink
      ensures ok <==> out.sink.Trouble() == old(out.sink.Trouble())
      ensures ok && old(out.Whole()) ==> out.Whole()
      ensures ok ==> Drains(inp + cbsz, target) && dbcnt == old(dbcnt) - cbsz
    {
      ghost var record, later := inb[inp..inp + cbsz], inb[inp + cbsz..dbp];
      Cut(inb[..], inp, inp + cbsz, dbp);
      DrainedFirst(inb[inp..dbp], record, later, out.Total());
      ok := PutRecord(inp, record);
      dbcnt := dbcnt - cbsz;
      assert inb[inp + cbsz..dbp] == later;
    }

    /** One record less is in the input, and its line is in the output. */
    lemma DrainedFirst(rest: string, record: string, later: string, total: string)
      requires rest == record + later && |record| == cbsz > 0
      ensures Drained(Unblocking(rest, total), cbsz) == Drained(Unblocking(later, total + (Trimmed(record) + "\n")), cbsz)
    {
      assert rest[..cbsz] == record && rest[cbsz..] == later;
      Assoc(total, Trimmed(record), "\n");
    }

    method PutRecord(inp: nat, ghost record: string) returns (ok: bool)
      requires Buffers() && out.dbcnt < out.dbsz && inp + cbsz <= inb.Length && record == inb[inp..inp + cbsz]
      modifies out, out.db, out.sink
      ensures ok <==> out.sink.Trouble() == old(out.sink.Trouble())
      ensures ok && old(out.Whole()) ==> out.Whole()
      ensures ok ==> Buffers() && out.dbcnt < out.dbsz && out.Total() == old(out.Total()) + (Trimmed(record) + "\n")
    {
      var cnt := Trim(inp, cbsz);
      ghost var total := out.Total();
      PutLine(inp, cnt);
      Assoc(total, Trimmed(record), "\n");
      ok := true;
      if out.dbcnt >= out.dbsz {
        ok := out.DdOut(false);
      }
    }

    /** conv=unblock on what has just been read. */
    method Unblock(ghost left: string, ghost chunk: string) returns (ok: bool)
      requires Filled(left, chunk)
      modifies this, inb, out, out.db, out.sink
      ensures ok <==> out.sink.Trouble() == old(out.sink.Trouble())
      ensures ok && old(out.Whole()) ==> out.Whole()
      ensures ok ==> Valid() && Unblocking(inb[..dbcnt], out.Total()) == Taken(Unblocking(left, old(out.Total())), chunk, cbsz)
    {
      hide Output.Whole, Drained;
      ghost var target := Taken(Unblocking(left, out.Total()), chunk, cbsz);
      assert inb[0..dbcnt] == left + chunk;
      var inp: nat := 0;
      while dbcnt >= cbsz
        invariant Drains(inp, target)
        invariant out.sink.Trouble() == old(out.sink.Trouble()) && (old(out.Whole()) ==> out.Whole())
      {
        ok := UnblockRecord(inp, target);
        if !ok {
          return;
        }
        inp := inp + cbsz;
      }
      KeepShort(inp, target);
      ok := true;
    }

    method KeepShort(ghost inp: nat, ghost target: Unblocking)
      requires Drains(inp, target) && dbcnt < cbsz
      modifies `dbp, inb
      ensures Valid() && Unblocking(inb[..dbcnt], out.Total()) == target
    {
      if dbcnt > 0 {
        MoveDown(inb, dbp - dbcnt, dbcnt);
      }
      dbp := dbcnt;
    }

    /** What is left becomes a short record. */
    method UnblockClose()
      requires Valid()
      modifies out, out.db
      ensures out.dbcnt <= out.db.Length && 0 < out.dbsz <= out.db.Length
      ensures out.Total() == Ended(Unblocking(old(inb[..dbcnt]), old(out.Total())))
    {
      if dbcnt > 0 {
        var cnt := Trim(0, dbcnt);
        PutLine(0, cnt);
      }
    }

    method Close(block: bool) returns (ok: bool)
      requires if block then Blocks() else Valid()
      modifies out, out.db, out.sink
      ensures ok <==> out.sink.Trouble() == old(out.sink.Trouble())
      ensures ok && block ==> out.sink.written == Closed(old(State()), cbsz)
      ensures ok && !block ==> out.sink.written == Ended(Unblocking(old(inb[..dbcnt]), old(out.Total())))
    {
      if block {
        BlockClose();
      } else {
        UnblockClose();
      }
      ok := true;
      if out.dbcnt > 0 {
        ok := out.DdOut(true);
      }
    }

    /** A whole run with conv=block: the reads, one after the other, and the end. */
    method BlockStream(pieces: seq<string>) returns (ok: bool)
      requires Blocks() && dbcnt == 0 && !intrunc && out.dbcnt == 0 && out.sink.written == ""
      requires forall k :: 0 <= k < |pieces| ==> 0 < |pieces[k]| <= ibs
      modifies this, inb, out, out.db, out.sink
      ensures ok <==> out.sink.Trouble() == old(out.sink.Trouble())
      ensures ok ==> out.sink.written == Blocked(Flatten(pieces), cbsz)
    {
      var start := Blocking("", false, "");
      for i := 0 to |pieces|
        invariant Blocks() && State() == Fed(start, Flatten(pieces[..i]), cbsz)
        invariant out.sink.Trouble() == old(out.sink.Trouble()) && out.Whole()
      {
        ghost var left := inb[..dbcnt];
        ghost var was := State();
        Fill(pieces[i]);
        ok := Block(left, pieces[i]);
        if !ok {
          return;
        }
        JoinedNext(pieces, i);
        FedConcat(start, Flatten(pieces[..i]), pieces[i], cbsz);
      }
      assert pieces[..|pieces|] == pieces;
      FedIsBlocked("", Flatten(pieces), cbsz);
      ok := Close(true);
    }

    /** A whole run with conv=unblock. */
    method UnblockStream(pieces: seq<string>) returns (ok: bool)
      requires Valid() && dbcnt == 0 && out.dbcnt == 0 && out.sink.written == ""
      requires forall k :: 0 <= k < |pieces| ==> 0 < |pieces[k]| <= ibs
      modifies this, inb, out, out.db, out.sink
      ensures ok <==> out.sink.Trouble() == old(out.sink.Trouble())
      ensures ok ==> out.sink.written == Unblocked(Flatten(pieces), cbsz)
    {
      var start := Unblocking("", "");
      for i := 0 to |pieces|
        invariant Valid() && Unblocking(inb[..dbcnt], out.Total()) == Taken(start, Flatten(pieces[..i]), cbsz)
        invariant out.sink.Trouble() == old(out.sink.Trouble()) && out.Whole()
      {
        ghost var left := inb[..dbcnt];
        Fill(pieces[i]);
        ok := Unblock(left, pieces[i]);
        if !ok {
          return;
        }
        JoinedNext(pieces, i);
        TakenConcat(start, Flatten(pieces[..i]), pieces[i], cbsz);
      }
      assert pieces[..|pieces|] == pieces;
      assert "" + Flatten(pieces) == Flatten(pieces);
      DrainedIsUnblocked(Unblocking(Flatten(pieces), ""), cbsz);
      ok := Close(false);
    }
  }

  /** No conversion: the input and the output share one buffer of ibs + obs - 1 bytes. */
  class Copier {
    const ibs: nat
    const out: Output
    var dbp: nat
    var dbcnt: nat

    ghost predicate Valid()
      reads this, out
    {
      && ibs > 0 && out.Valid() && out.db.Length == ibs + out.dbsz - 1
      && dbp == dbcnt == out.dbcnt < out.dbsz
    }

    constructor (ibs: nat, obs: nat, sink: Sink)
      requires ibs > 0 && obs > 0
      ensures Valid() && out.Total() == sink.written && out.sink == sink && fresh(out) && fresh(out.db)
    {
      this.ibs, dbp, dbcnt := ibs, 0, 0;
      out := new Output(obs, ibs - 1, sink);
    }

    method Read(chunk: string)
      requires Valid() && 0 < |chunk| <= ibs
      modifies this, out.db
      ensures dbp == dbcnt == old(dbcnt) + |chunk| <= out.db.Length
      ensures out.db[..dbcnt] == old(out.db[..dbcnt]) + chunk
    {
      for k := 0 to |chunk|
        invariant out.db[..dbcnt + k] == old(out.db[..dbcnt]) + chunk[..k]
        invariant dbcnt == old(dbcnt)
        modifies out.db
      {
        out.db[dbcnt + k] := chunk[k];
      }
      dbcnt := dbcnt + |chunk|;
      dbp := dbp + |chunk|;
    }

    method Def() returns (ok: bool)
      requires ibs > 0 && 0 < out.dbsz && dbp == dbcnt <= out.db.Length == ibs + out.dbsz - 1
      modifies this, out, out.db, out.sink
      ensures ok <==> out.sink.Trouble() == old(out.sink.Trouble())
      ensures ok && old(out.Whole()) ==> out.Whole()
      ensures ok ==> Valid() && out.Total() == old(out.sink.written + out.db[..dbcnt])
    {
      out.dbp := dbp;
      out.dbcnt := dbcnt;
      ok := true;
      if dbcnt >= out.dbsz {
        ok := out.DdOut(false);
        dbp := out.dbp;
        dbcnt := out.dbcnt;
      }
    }

    /** A whole run: every byte comes out once, in order, whatever the reads and writes. */
    method CopyStream(pieces: seq<string>) returns (ok: bool)
      requires Valid() && out.Total() == ""
      requires forall k :: 0 <= k < |pieces| ==> 0 < |pieces[k]| <= ibs
      modifies this, out, out.db, out.sink
      ensures ok <==> out.sink.Trouble() == old(out.sink.Trouble())
      ensures ok ==> out.sink.written == Flatten(pieces)
    {
      for i := 0 to |pieces|
        invariant Valid() && out.Total() == Flatten(pieces[..i])
        invariant out.sink.Trouble() == old(out.sink.Trouble()) && out.Whole()
      {
        ghost var written, left := out.sink.written, out.db[..dbcnt];
        Read(pieces[i]);
        ok := Def();
        if !ok {
          return;
        }
        JoinedNext(pieces, i);
        Assoc(written, left, pieces[i]);
      }
      assert pieces[..|pieces|] == pieces;
      if dbcnt > 0 {
        out.dbcnt := dbcnt;
      }
      ok := true;
      if out.dbcnt > 0 {
        ok := out.DdOut(true);
      }
    }
  }

  lemma Cut(s: string, a: nat, b: nat, c: nat)
    requires a <= b <= c <= |s|
    ensures s[a..c] == s[a..b] + s[b..c] && |s[a..b]| == b - a
  {
  }

  lemma SliceOf(s: string, a: nat, b: nat, c: nat, d: nat)
    requires a <= b <= |s| && c <= d <= b - a
    ensures s[a..b][c..d] == s[a + c..a + d]
    ensures c == 0 ==> s[a..b][..d] == s[a..a + d]
    ensures d == b - a ==> s[a..b][c..] == s[a + c..b]
  {
    var t := s[a..b];
    forall i | 0 <= i < d - c ensures t[c..d][i] == s[a + c..a + d][i] {
      assert t[c + i] == s[a + (c + i)];
    }
    assert t[c..d] == s[a + c..a + d];
    assert c == 0 ==> t[..d] == t[c..d];
    assert d == b - a ==> t[c..] == t[c..d];
  }

  lemma JoinedNext(pieces: seq<string>, i: nat)
    requires i < |pieces|
    ensures Flatten(pieces[..i + 1]) == Flatten(pieces[..i]) + pieces[i]
  {
    assert pieces[..i + 1][..i] == pieces[..i];
  }

  /** The two conversions in a row give back a stream exactly if its records fit and end in no space. */
  method ThereAndBack(pieces: seq<string>, again: seq<string>, there: Converter, back: Converter) returns (ok: bool)
    requires there.Blocks() && there.dbcnt == 0 && !there.intrunc && there.out.dbcnt == 0 && there.out.sink.written == ""
    requires back.Valid() && back.dbcnt == 0 && back.out.dbcnt == 0 && back.out.sink.written == ""
    requires {there, there.inb, there.out, there.out.db, there.out.sink} !! {back, back.inb, back.out, back.out.db, back.out.sink}
    requires there.cbsz == back.cbsz
    requires forall k :: 0 <= k < |pieces| ==> 0 < |pieces[k]| <= there.ibs
    requires forall k :: 0 <= k < |again| ==> 0 < |again[k]| <= back.ibs
    modifies there, there.inb, there.out, there.out.db, there.out.sink, back, back.inb, back.out, back.out.db, back.out.sink
    ensures ok <==> there.out.sink.Trouble() == old(there.out.sink.Trouble()) && back.out.sink.Trouble() == old(back.out.sink.Trouble())
    ensures ok && Flatten(again) == there.out.sink.written ==>
      (back.out.sink.written == Flatten(pieces) <==> Regular(Flatten(pieces), there.cbsz))
  {
    ok := there.BlockStream(pieces);
    if ok {
      ok := back.UnblockStream(again);
    }
    UnblockBlock(Flatten(pieces), there.cbsz);
  }
}
