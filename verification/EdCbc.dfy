/** The encrypted streams of the editor: cipher block chaining with the count of the last block in its last byte. */
module EdCbc {

  type Bytes = seq<bv8>

  type Cipher = Bytes -> Bytes

  const EOF: int := -1

  ghost predicate Blocks(enc: Cipher) {
    forall b: Bytes {:trigger enc(b)} :: |b| == 8 ==> |enc(b)| == 8
  }

  /** dec undoes enc on blocks of 8 bytes. */
  ghost predicate Inverse(enc: Cipher, dec: Cipher) {
    Blocks(enc) && Blocks(dec) && forall b: Bytes {:trigger enc(b)} :: |b| == 8 ==> dec(enc(b)) == b
  }

  function Xor(a: Bytes, b: Bytes): (c: Bytes)
    requires |a| == |b| == 8
    ensures |c| == 8 && forall k :: 0 <= k < 8 ==> c[k] == a[k] ^ b[k]
  {
    seq(8, k requires 0 <= k < 8 => a[k] ^ b[k])
  }

  lemma XorTwice(a: Bytes, b: Bytes)
    requires |a| == |b| == 8
    ensures Xor(Xor(a, b), b) == a
  {
  }

  /** The ciphertext of whole blocks, one after the other, each mixed with the one before. */
  ghost function Chained(enc: Cipher, s: Bytes, iv: Bytes): Bytes
    requires |s| % 8 == 0 && |iv| == 8 && Blocks(enc)
    decreases |s|
  {
    if s == [] then []
    else
      var c := enc(Xor(s[..8], iv));
      c + Chained(enc, s[8..], c)
  }

  ghost function LastIv(enc: Cipher, s: Bytes, iv: Bytes): (v: Bytes)
    requires |s| % 8 == 0 && |iv| == 8 && Blocks(enc)
    ensures |v| == 8
    decreases |s|
  {
    if s == [] then iv else LastIv(enc, s[8..], enc(Xor(s[..8], iv)))
  }

  /** The last block: fewer than 8 bytes, padding, and their number. */
  function Padded(s: Bytes, pad: Bytes): (b: Bytes)
    requires |s| < 8 == |pad|
    ensures |b| == 8 && b[..|s|] == s && b[|s|..7] == pad[..7 - |s|] && b[7] as int == |s|
  {
    s + pad[..7 - |s|] + [|s| as bv8]
  }

  lemma PaddedParts(s: Bytes, pad: Bytes, full: Bytes)
    requires |s| < 8 == |pad| == |full| && full[..|s|] == s && full[|s|..8] == pad[..8 - |s|]
    ensures full[7 := |s| as bv8] == Padded(s, pad)
  {
    var b := full[7 := |s| as bv8];
    assert full == full[..|s|] + full[|s|..8];
    forall k | 0 <= k < 8 ensures b[k] == Padded(s, pad)[k] {
    }
  }

  /** A whole stream. */
  ghost function Encoded(enc: Cipher, s: Bytes, iv: Bytes, pad: Bytes): Bytes
    requires |iv| == 8 == |pad| && Blocks(enc)
    decreases |s|
  {
    if |s| < 8 then enc(Xor(Padded(s, pad), iv))
    else
      var c := enc(Xor(s[..8], iv));
      c + Encoded(enc, s[8..], c, pad)
  }

  lemma Mod8(n: nat)
    ensures (n + 8) % 8 == n % 8
  {
  }

  /** Whole blocks are followed by one more, always. */
  lemma {:induction false} EncodedLength(enc: Cipher, s: Bytes, iv: Bytes, pad: Bytes)
    requires |iv| == 8 == |pad| && Blocks(enc)
    ensures |Encoded(enc, s, iv, pad)| == |s| + 8 - |s| % 8
    decreases |s|
  {
    if |s| >= 8 {
      var c, t := enc(Xor(s[..8], iv)), s[8..];
      EncodedLength(enc, t, c, pad);
      Mod8(|t|);
    }
  }

  /** The k-th block of a stream; the last one is padded, and may be all padding. */
  ghost function PlainBlock(s: Bytes, pad: Bytes, k: nat): (b: Bytes)
    requires |pad| == 8 && 8 * k <= |s|
    ensures |b| == 8
  {
    if 8 * k + 8 <= |s| then s[8 * k..8 * k + 8] else Padded(s[8 * k..], pad)
  }

  /** Each block is mixed with the ciphertext of the one before, the first one with the initial vector. */
  lemma {:induction false} EncodedAt(enc: Cipher, s: Bytes, iv: Bytes, pad: Bytes, k: nat)
    requires |iv| == 8 == |pad| && Blocks(enc) && 8 * k <= |s|
    ensures var e := Encoded(enc, s, iv, pad);
      8 * k + 8 <= |e|
      && e[8 * k..8 * k + 8] == enc(Xor(PlainBlock(s, pad, k), if k == 0 then iv else e[8 * k - 8..8 * k]))
    decreases |s|
  {
    hide Xor, Padded, PlainBlock;
    EncodedLength(enc, s, iv, pad);
    FirstBlock(s, pad);
    if |s| >= 8 {
      var c, t := enc(Xor(s[..8], iv)), s[8..];
      var e, f := Encoded(enc, s, iv, pad), Encoded(enc, t, c, pad);
      assert e == c + f && |c| == 8;
      if k == 0 {
        assert e[..8] == c;
      } else {
        EncodedAt(enc, t, c, pad, k - 1);
        PlainShift(s, pad, k);
        BlockShift(e, c, f, k);
      }
    }
  }

  lemma FirstBlock(s: Bytes, pad: Bytes)
    requires |pad| == 8
    ensures PlainBlock(s, pad, 0) == if |s| >= 8 then s[..8] else Padded(s, pad)
  {
    assert s[0..] == s;
  }

  lemma PlainShift(s: Bytes, pad: Bytes, k: nat)
    requires |pad| == 8 && k > 0 && 8 * k <= |s|
    ensures PlainBlock(s, pad, k) == PlainBlock(s[8..], pad, k - 1)
  {
    assert 8 * k + 8 <= |s| ==> s[8 * k..8 * k + 8] == s[8..][8 * (k - 1)..8 * (k - 1) + 8];
    assert s[8 * k..] == s[8..][8 * (k - 1)..];
  }

  lemma BlockShift(e: Bytes, c: Bytes, f: Bytes, k: nat)
    requires e == c + f && |c| == 8 && k > 0 && 8 * k + 8 <= |e|
    ensures e[8 * k..8 * k + 8] == f[8 * (k - 1)..8 * (k - 1) + 8]
    ensures e[8 * k - 8..8 * k] == if k == 1 then c else f[8 * (k - 1) - 8..8 * (k - 1)]
  {
  }

  /** Block by block, then the last one: what put_des_char and flush_des_file amount to. */
  lemma {:induction false} ChainedLast(enc: Cipher, s: Bytes, t: Bytes, iv: Bytes, pad: Bytes)
    requires |s| % 8 == 0 && |iv| == 8 == |pad| && Blocks(enc)
    ensures Encoded(enc, s + t, iv, pad) == Chained(enc, s, iv) + Encoded(enc, t, LastIv(enc, s, iv), pad)
    decreases |s|
  {
    if s == [] {
      assert s + t == t;
    } else {
      var c := enc(Xor(s[..8], iv));
      assert (s + t)[..8] == s[..8] && (s + t)[8..] == s[8..] + t;
      ChainedLast(enc, s[8..], t, c, pad);
      assert c + (Chained(enc, s[8..], c) + Encoded(enc, t, LastIv(enc, s, iv), pad))
          == c + Chained(enc, s[8..], c) + Encoded(enc, t, LastIv(enc, s, iv), pad);
    }
  }

  lemma {:induction false} ChainedNext(enc: Cipher, s: Bytes, b: Bytes, iv: Bytes)
    requires |s| % 8 == 0 && |b| == 8 == |iv| && Blocks(enc)
    ensures var c := enc(Xor(b, LastIv(enc, s, iv)));
      Chained(enc, s + b, iv) == Chained(enc, s, iv) + c && LastIv(enc, s + b, iv) == c
    decreases |s|
  {
    if s == [] {
      assert s + b == b && b[..8] == b && b[8..] == [];
      assert Chained(enc, b[8..], enc(Xor(b, iv))) == [];
    } else {
      var c := enc(Xor(s[..8], iv));
      assert (s + b)[..8] == s[..8] && (s + b)[8..] == s[8..] + b;
      ChainedNext(enc, s[8..], b, c);
    }
  }

  lemma OneFurther(s: Bytes, n: nat)
    requires n < |s|
    ensures s[n..][1..] == s[n + 1..] && s[..n + 1] == s[..n] + [s[n]] && s[n..][0] == s[n]
  {
  }

  class File {
    var data: Bytes
    var pos: nat

    constructor (data: Bytes)
      ensures this.data == data && pos == 0
    {
      this.data, pos := data, 0;
    }
  }

  class Stream {
    const enc: Cipher
    const dec: Cipher
    var desBuf: array<bv8>
    var desN: int
    var desCt: int
    var ivec: Bytes
    var pvec: Bytes
    ghost var done: Bytes     // the plaintext of the blocks written so far
    ghost var pad: Bytes      // the padding in the file that is read

    ghost predicate Valid()
      reads this
    {
      Inverse(enc, dec) && desBuf.Length == 8 && |ivec| == 8 == |pvec| && |pad| == 8
    }

    constructor (enc: Cipher, dec: Cipher, pvec: Bytes)
      requires Inverse(enc, dec) && |pvec| == 8
      ensures Valid() && desN == 0 && desCt == 0 && ivec == Zeros() && done == [] && this.enc == enc && this.dec == dec && this.pvec == pvec
      ensures fresh(desBuf)
    {
      this.enc, this.dec, this.pvec := enc, dec, pvec;
      desN, desCt, ivec, done, pad := 0, 0, Zeros(), [], pvec;
      desBuf := new bv8[8](_ => 0);
    }

    /** All that has been put. */
    ghost function Put(): Bytes
      requires desBuf.Length == 8 && 0 <= desN <= 8
      reads this, desBuf
    {
      done + desBuf[..desN]
    }

    /** Whole blocks are in the file, and what is in the buffer is not yet. */
    ghost predicate Writing(fp: File)
      reads this, fp
    {
      && Valid() && 0 <= desN <= 8 && desCt >= 0 && |done| % 8 == 0
      && fp.data == Chained(enc, done, Zeros()) && ivec == LastIv(enc, done, Zeros())
    }

    /** What is in the buffer and not got yet. */
    ghost function Now(): Bytes
      requires desBuf.Length == 8
      reads this, desBuf
    {
      if 0 <= desN < desCt <= 8 then desBuf[desN..desCt] else []
    }

    /** todo is what is still to be got from the file. */
    ghost predicate Reading(fp: File, todo: Bytes)
      reads this, desBuf, fp
    {
      && Valid() && 0 <= desN && desCt <= 8 && fp.pos <= |fp.data| && Now() <= todo
      && Rest(todo[|Now()|..], fp.data[fp.pos..])
    }

    /** The rest of the file decrypts to later, unless it is at its end. */
    ghost predicate Rest(later: Bytes, rest: Bytes)
      requires Valid()
      reads this
    {
      if rest == [] then later == [] else rest == Encoded(enc, later, ivec, pad)
    }

    /** Encrypts the n bytes in the buffer; fewer than 8 are the last. */
    method CbcEncode(n: int, fp: File) returns (written: int)
      requires Valid() && 0 <= n <= 8
      modifies this, desBuf, fp
      ensures Valid() && written == 8 && desN == old(desN) && desCt == old(desCt) && desBuf == old(desBuf) && pvec == old(pvec) && pad == old(pad) && done == old(done)
      ensures n == 8 ==> fp.data == old(fp.data) + enc(Xor(old(desBuf[..]), old(ivec))) && ivec == enc(Xor(old(desBuf[..]), old(ivec)))
      ensures n < 8 ==> fp.data == old(fp.data) + enc(Xor(Padded(old(desBuf[..n]), pvec), old(ivec)))
    {
      if n == 8 {
        Mix();
        var c := enc(desBuf[..]);
        ivec := c;
        fp.data := fp.data + c;
        return 8;
      }
      Pad(n);
      Mix();
      fp.data := fp.data + enc(desBuf[..]);
      written := 8;
    }

    /** Mixes the chaining vector into the buffer. */
    method Mix()
      requires Valid()
      modifies desBuf
      ensures desBuf[..] == Xor(old(desBuf[..]), ivec)
    {
      for k := 0 to 8
        invariant forall j :: 0 <= j < 8 ==> desBuf[j] == if j < k then old(desBuf[j]) ^ ivec[j] else old(desBuf[j])
      {
        desBuf[k] := desBuf[k] ^ ivec[k];
      }
    }

    method Pad(n: int)
      requires Valid() && 0 <= n < 8
      modifies desBuf
      ensures desBuf[..] == Padded(old(desBuf[..n]), pvec)
    {
      for k := n to 8
        invariant desBuf[..n] == old(desBuf[..n]) && desBuf[n..k] == pvec[..k - n]
      {
        desBuf[k] := pvec[k - n];
      }
      ghost var full := desBuf[..];
      assert full[n..8] == desBuf[n..8] == pvec[..8 - n];
      desBuf[7] := n as bv8;
      PaddedParts(old(desBuf[..n]), pvec, full);
      assert desBuf[..] == full[7 := n as bv8];
    }

    method PutDesChar(c: bv8, fp: File) returns (r: int)
      requires Writing(fp)
      modifies this, desBuf, fp
      ensures Writing(fp) && Put() == old(Put()) + [c] && r == c as int && desBuf == old(desBuf) && pvec == old(pvec)
    {
      if desN == 8 {
        Empty8(fp);
      }
      desBuf[desN] := c;
      desN := desN + 1;
      r := c as int;
    }

    /** A full buffer goes out. */
    method Empty8(fp: File)
      requires Writing(fp) && desN == 8
      modifies this, desBuf, fp
      ensures Writing(fp) && desN == 0 && Put() == old(Put()) && desBuf == old(desBuf) && pvec == old(pvec)
    {
      ghost var b := desBuf[..];
      ChainedNext(enc, done, b, Zeros());
      Mod8(|done|);
      desCt := CbcEncode(desN, fp);
      desN := 0;
      done := done + b;
    }

    /** Ends the file: it is the encoding of all that has been put. */
    method FlushDesFile(fp: File) returns (r: int)
      requires Writing(fp)
      modifies this, desBuf, fp
      ensures r == 0 && fp.data == Encoded(enc, old(Put()), Zeros(), old(pvec))
      ensures |fp.data| == |old(Put())| + 8 - |old(Put())| % 8
    {
      EncodedLength(enc, Put(), Zeros(), pvec);
      if desN == 8 {
        Empty8(fp);
      }
      ChainedLast(enc, done, desBuf[..desN], Zeros(), pvec);
      var written := CbcEncode(desN, fp);
      r := 0;
    }

    /** Decrypts the next block; the last one says how many bytes it has. */
    method CbcDecode(fp: File, ghost later: Bytes) returns (n: int)
      requires Valid() && fp.pos <= |fp.data|
      modifies this, desBuf, fp
      ensures Valid() && desN == old(desN) && desCt == old(desCt) && desBuf == old(desBuf) && pad == old(pad) && fp.data == old(fp.data)
      ensures fp.pos <= |fp.data|
      ensures if |fp.data| - old(fp.pos) < 8 then n == EOF && fp.pos == |fp.data|
              else
                var c := fp.data[old(fp.pos)..old(fp.pos) + 8];
                && fp.pos == old(fp.pos) + 8 && ivec == c && desBuf[..] == Xor(dec(c), old(ivec))
                && n == if fp.pos < |fp.data| then 8 else if desBuf[7] > 7 then EOF else desBuf[7] as int
      ensures old(Rest(later, fp.data[fp.pos..])) ==>
              if old(fp.pos) == |fp.data| then n == EOF && fp.pos == old(fp.pos)
              else 0 <= n <= 8 && n <= |later| && desBuf[..n] == later[..n] && Rest(later[n..], fp.data[fp.pos..])
                   && (n == 0 ==> later == [])
    {
      if fp.pos + 8 <= |fp.data| {
        var c := fp.data[fp.pos..fp.pos + 8];
        fp.pos := fp.pos + 8;
        if Rest(later, old(fp.data[fp.pos..])) {
          Undone(later, old(fp.data[fp.pos..]), c);
        }
        Load(dec(c));
        Mix();
        ivec := c;
        n := 8;
        if fp.pos == |fp.data| {
          n := desBuf[7] as int;
          if n > 7 {
            return EOF;
          }
        }
      } else {
        fp.pos := |fp.data|;
        n := EOF;
      }
    }

    method Load(b: Bytes)
      requires desBuf.Length == 8 == |b|
      modifies desBuf
      ensures desBuf[..] == b
    {
      for k := 0 to 8
        invariant desBuf[..k] == b[..k]
      {
        desBuf[k] := b[k];
      }
    }

    /** What the first block c of the rest of the file decrypts to. */
    lemma Undone(later: Bytes, rest: Bytes, c: Bytes)
      requires Valid() && rest != [] && Rest(later, rest)
      requires |rest| >= 8 && c == rest[..8]
      ensures |dec(c)| == 8
      ensures if |later| < 8 then Xor(dec(c), ivec) == Padded(later, pad) && |rest| == 8
              else Xor(dec(c), ivec) == later[..8] && rest[8..] == Encoded(enc, later[8..], c, pad) && |rest| > 8
    {
      EncodedLength(enc, later, ivec, pad);
      var b := if |later| < 8 then Padded(later, pad) else later[..8];
      XorTwice(b, ivec);
      assert c == enc(Xor(b, ivec));
    }

    /** The buffer has the next byte, unless there is none. */
    method Refill(fp: File, ghost todo: Bytes)
      requires Reading(fp, todo)
      modifies this, desBuf, fp
      ensures Reading(fp, todo) && (if todo == [] then desCt <= 0 else desN < desCt) && desBuf == old(desBuf)
    {
      if desN >= desCt {
        desN := 0;
        desCt := CbcDecode(fp, todo);
      }
    }

    /** The next byte, or EOF when everything has been got. */
    method GetDesChar(fp: File, ghost todo: Bytes) returns (c: int)
      requires Reading(fp, todo)
      modifies this, desBuf, fp
      ensures desBuf == old(desBuf)
      ensures if todo == [] then c == EOF && Reading(fp, []) else c == todo[0] as int && Reading(fp, todo[1..])
    {
      Refill(fp, todo);
      if desCt > 0 {
        ghost var now := Now();
        c := desBuf[desN] as int;
        desN := desN + 1;
        assert Now() == now[1..] && todo[1..][|Now()|..] == todo[|now|..];
      } else {
        c := EOF;
      }
    }

    /** Writes the bytes to an empty file. */
    method WriteAll(plain: Bytes, fp: File)
      requires Valid() && desN == 0 && desCt == 0 && ivec == Zeros() && done == [] && fp.data == []
      modifies this, desBuf, fp
      ensures fp.data == Encoded(enc, plain, Zeros(), old(pvec)) && |fp.data| == |plain| + 8 - |plain| % 8
    {
      for k := 0 to |plain|
        invariant Writing(fp) && Put() == plain[..k] && desBuf == old(desBuf) && pvec == old(pvec)
      {
        var r := PutDesChar(plain[k], fp);
        assert plain[..k + 1] == plain[..k] + [plain[k]];
      }
      assert plain[..|plain|] == plain;
      var r := FlushDesFile(fp);
    }

    /** Reads up to EOF. */
    method ReadAll(fp: File, ghost plain: Bytes, ghost pad: Bytes) returns (s: Bytes)
      requires Valid() && desN == 0 && desCt == 0 && ivec == Zeros() && fp.pos == 0 && |pad| == 8
      requires fp.data == Encoded(enc, plain, Zeros(), pad)
      modifies this, desBuf, fp
      ensures s == plain
    {
      this.pad := pad;
      s := [];
      EncodedLength(enc, plain, Zeros(), pad);
      while true
        invariant |s| <= |plain| && s == plain[..|s|] && Reading(fp, plain[|s|..]) && desBuf == old(desBuf)
        decreases |plain| - |s|
      {
        var c := GetDesChar(fp, plain[|s|..]);
        if c == EOF {
          break;
        }
        OneFurther(plain, |s|);
        s := s + [c as bv8];
      }
    }
  }

  /** Whatever is written comes back, whatever the padding in either session. */
  method RoundTrip(plain: Bytes, enc: Cipher, dec: Cipher, pvec: Bytes, pvec': Bytes) returns (s: Bytes, length: nat)
    requires Inverse(enc, dec) && |pvec| == 8 == |pvec'|
    ensures s == plain && length == |plain| + 8 - |plain| % 8
  {
    var fp := new File([]);
    var out := new Stream(enc, dec, pvec);
    out.WriteAll(plain, fp);
    length := |fp.data|;
    var again := new File(fp.data);
    var inp := new Stream(enc, dec, pvec');
    s := inp.ReadAll(again, plain, pvec);
  }

  /** The initial vector. */
  function Zeros(): (z: Bytes)
    ensures |z| == 8 && forall k :: 0 <= k < 8 ==> z[k] == 0
  {
    seq(8, _ => 0 as bv8)
  }
}