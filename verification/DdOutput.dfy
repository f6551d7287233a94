/** The output side of dd: blocks of obs bytes, in writes that may come back short. */
module DdOutput {
  import opened Basics

  /** What becomes of a write: it takes up to n bytes, is interrupted by a signal, or fails. */
  datatype Attempt = Takes(n: nat) | Interrupted | Fails

  /** A write that dd does not survive. */
  predicate Bad(a: Attempt) {
    a == Takes(0) || a == Fails
  }

  function BadOnes(attempts: seq<Attempt>): nat {
    if attempts == [] then 0 else (if Bad(attempts[0]) then 1 else 0) + BadOnes(attempts[1..])
  }

  lemma {:induction false} NoneBad(attempts: seq<Attempt>)
    ensures BadOnes(attempts) == 0 <==> forall k :: 0 <= k < |attempts| ==> !Bad(attempts[k])
  {
    if attempts != [] {
      NoneBad(attempts[1..]);
      assert attempts == [attempts[0]] + attempts[1..];
    }
  }

  /** The output file, with what becomes of the next writes; those after them take all they are given. */
  class Sink {
    var written: string
    var attempts: seq<Attempt>

    /** How many of the writes to come are bad. */
    ghost function Trouble(): nat
      reads this
    {
      BadOnes(attempts)
    }

    constructor (attempts: seq<Attempt>)
      ensures written == "" && this.attempts == attempts
    {
      written, this.attempts := "", attempts;
    }

    method Write(buf: array<char>, off: nat, cnt: nat) returns (nw: int, eintr: bool)
      requires cnt > 0 && off + cnt <= buf.Length
      modifies this
      ensures nw <= cnt && |attempts| == |old(attempts)| - if old(attempts) == [] then 0 else 1
      ensures old(attempts) == [] ==> nw == cnt
      ensures written == old(written) + if nw > 0 then buf[off..off + nw] else ""
      ensures Trouble() == old(Trouble()) - if nw == 0 || (nw < 0 && !eintr) then 1 else 0
    {
      nw, eintr := cnt, false;
      if attempts != [] {
        match attempts[0] {
          case Takes(n) => nw := Min(n, cnt);
          case Interrupted => nw, eintr := -1, true;
          case Fails => nw := -1;
        }
        attempts := attempts[1..];
      }
      if nw > 0 {
        written := written + buf[off..off + nw];
      }
    }
  }

  class Output {
    const db: array<char>
    const dbsz: nat
    var dbp: nat
    var dbcnt: nat
    const sink: Sink
    var bytes: nat
    var outFull: nat
    var outPart: nat

    ghost predicate Valid()
      reads this
    {
      0 < dbsz <= db.Length && dbp == dbcnt <= db.Length
    }

    /** Only whole blocks have been written. */
    ghost predicate Whole()
      reads this, sink
    {
      dbsz > 0 && |sink.written| % dbsz == 0
    }

    /** All that has been put out, written or not. */
    ghost function Total(): string
      reads this, db, sink
      requires dbcnt <= db.Length
    {
      sink.written + db[..dbcnt]
    }

    constructor (dbsz: nat, extra: nat, sink: Sink)
      requires dbsz > 0
      ensures Valid() && this.dbsz == dbsz && this.sink == sink && db.Length == dbsz + extra && fresh(db) && dbcnt == 0
      ensures bytes == 0
    {
      this.dbsz, this.sink := dbsz, sink;
      dbp, dbcnt, bytes, outFull, outPart := 0, 0, 0, 0, 0;
      db := new char[dbsz + extra];
    }

    /** Writes n bytes, in as many pieces as it takes. */
    method WriteAll(outp: nat, n: nat) returns (ok: bool)
      requires n > 0 && outp + n <= db.Length
      modifies sink, `bytes, `outFull, `outPart
      ensures ok <==> sink.Trouble() == old(sink.Trouble())
      ensures ok ==> sink.written == old(sink.written) + db[outp..outp + n] && bytes == old(bytes) + n
    {
      var cnt := n;
      while true
        invariant 0 < cnt <= n
        invariant sink.written == old(sink.written) + db[outp..outp + n - cnt] && bytes == old(bytes) + n - cnt
        invariant sink.Trouble() == old(sink.Trouble())
        decreases |sink.attempts|, cnt
      {
        var nw, eintr := sink.Write(db, outp + n - cnt, cnt);
        if nw <= 0 {
          if nw == 0 || !eintr {
            return false;
          }
          nw := 0;
        }
        assert db[outp..outp + n - cnt] + db[outp + n - cnt..outp + n - cnt + nw] == db[outp..outp + n - cnt + nw];
        bytes := bytes + nw;
        if nw == n {
          if n != dbsz {
            outPart := outPart + 1;
          } else {
            outFull := outFull + 1;
          }
          break;
        }
        outPart := outPart + 1;
        if nw == cnt {
          break;
        }
        cnt := cnt - nw;
      }
      ok := true;
    }

    /** Writes whole blocks, or all there is; what is left goes to the beginning of the buffer. */
    method DdOut(force: bool) returns (ok: bool)
      requires if force then 0 < dbsz <= db.Length && dbcnt <= db.Length else Valid() && dbcnt >= dbsz
      modifies this, db, sink
      ensures ok <==> sink.Trouble() == old(sink.Trouble())
      ensures ok ==> Valid() && Total() == old(Total()) && dbcnt < dbsz && (force ==> dbcnt == 0)
      ensures ok && !force && old(Whole()) ==> Whole()
      ensures ok ==> bytes - old(bytes) == |sink.written| - |old(sink.written)|
    {
      ghost var all := db[..dbcnt];
      ok := WriteBlocks(force);
      if ok {
        ghost var outp := old(dbcnt) - dbcnt;
        Split(all, outp);
        if dbcnt > 0 {
          MoveDown(db, dbp - dbcnt, dbcnt);
        }
        dbp := dbcnt;
        assert db[..dbcnt] == all[outp..];
      }
    }

    method WriteBlocks(force: bool) returns (ok: bool)
      requires 0 < dbsz <= db.Length && dbcnt <= db.Length && (force || dbcnt >= dbsz)
      modifies sink, `dbcnt, `bytes, `outFull, `outPart
      ensures ok <==> sink.Trouble() == old(sink.Trouble())
      ensures ok ==> dbcnt < dbsz && dbcnt <= old(dbcnt) && (force ==> dbcnt == 0)
      ensures ok ==> sink.written == old(sink.written) + db[..old(dbcnt) - dbcnt] && bytes == old(bytes) + old(dbcnt) - dbcnt
      ensures ok && !force && old(Whole()) ==> Whole()
    {
      var outp := 0;
      var n := if force then dbcnt else dbsz;
      while true
        invariant outp + dbcnt == old(dbcnt) && n <= dbcnt && n == (if force then dbcnt else dbsz)
        invariant sink.written == old(sink.written) + db[..outp] && bytes == old(bytes) + outp
        invariant sink.Trouble() == old(sink.Trouble()) && (!force && old(Whole()) ==> Whole())
        decreases dbcnt
      {
        if n == 0 {
          return true;
        }
        OneBlockMore(|sink.written|, dbsz);
        ok := WriteAll(outp, n);
        if !ok {
          return;
        }
        assert db[..outp] + db[outp..outp + n] == db[..outp + n];
        outp := outp + n;
        dbcnt := dbcnt - n;
        if dbcnt < dbsz {
          break;
        }
        n := dbsz;
      }
    }
  }

  lemma OneBlockMore(n: nat, d: nat)
    requires d > 0
    ensures (n + d) % d == n % d
  {
    var q, r := n / d, n % d;
    assert n + d == (q + 1) * d + r;
    Remainder(n + d, q + 1, r, d);
  }

  lemma Remainder(n: int, q: int, r: int, d: int)
    requires d > 0 && n == q * d + r && 0 <= r < d
    ensures n % d == r
  {
    var k := n / d - q;
    assert k * d + n % d == r;
    assert k >= 1 ==> (k - 1) * d >= 0;
    assert k <= -1 ==> (-k - 1) * d >= 0;
  }

  lemma Split(s: string, k: nat)
    requires k <= |s|
    ensures s == s[..k] + s[k..] && |s[..k]| == k
  {
  }

  /** memmove towards the beginning of a buffer. */
  method MoveDown(a: array<char>, from: nat, n: nat)
    requires from + n <= a.Length
    modifies a
    ensures a[..n] == old(a[from..from + n])
  {
    for k := 0 to n
      invariant a[..k] == old(a[from..from + k])
      invariant forall j :: from + k <= j < a.Length ==> a[j] == old(a[j])
    {
      a[k] := a[from + k];
    }
  }
}
