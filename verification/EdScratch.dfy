/** The scratch file that holds the text of the lines, and the editor's idea of its position. */
module EdScratch {

  class ScratchFile {
    var data: string     // what the file holds
    var pos: nat         // the stream's position
    var sfseek: int      // what the editor takes the position to be
    var seekWrite: bool  // seek to the end before writing

    ghost predicate Valid()
      reads this
    {
      && pos <= |data|
      && sfseek == pos
      && (!seekWrite ==> pos == |data|)
    }

    constructor ()
      ensures Valid() && data == ""
    {
      data, pos, sfseek, seekWrite := "", 0, 0, false;
    }

    /** The text kept at an address. */
    ghost function TextAt(seek: nat, len: nat): string
      requires seek + len <= |data|
      reads this
    {
      data[seek..seek + len]
    }

    /** fwrite at the stream's position: overwrites what is there, and extends the file. */
    method Write(s: string)
      requires pos <= |data|
      modifies `data, `pos
      ensures pos == old(pos) + |s| <= |data|
      ensures data == old(data)[..old(pos)] + s + (if pos <= |old(data)| then old(data)[pos..] else "")
    {
      var end := pos + |s|;
      data := data[..pos] + s + (if end <= |data| then data[end..] else "");
      pos := end;
    }

    /** fread of exactly len bytes. */
    method Read(len: nat) returns (s: string)
      requires pos + len <= |data|
      modifies `pos
      ensures pos == old(pos) + len && s == data[old(pos)..pos]
    {
      s := data[pos..pos + len];
      pos := pos + len;
    }

    /** The text of a line is put at the end, whatever was read in between. */
    method Put(text: string) returns (seek: nat)
      requires Valid()
      modifies this
      ensures Valid()
      ensures data == old(data) + text && seek == |old(data)| && !seekWrite
    {
      if seekWrite {
        pos := |data|;
        sfseek := pos;
        seekWrite := false;
      }
      Write(text);
      seek := sfseek;
      sfseek := sfseek + |text|;
    }

    method Get(seek: nat, len: nat) returns (text: string)
      requires Valid() && seek + len <= |data|
      modifies `pos, `sfseek, `seekWrite
      ensures Valid()
      ensures text == TextAt(seek, len) && seekWrite
    {
      seekWrite := true;
      if sfseek != seek {
        sfseek := seek;
        pos := seek;
      }
      text := Read(len);
      sfseek := sfseek + len;
    }
  }
}
