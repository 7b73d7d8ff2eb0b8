/** The in-memory file both string parsers read from (Core/Tools/Autorun/WSYS_RAMFile.cpp). */
module RamFile {
  type Byte = x: int | 0 <= x < 256

  /** The prefix of data that a read of n bytes at pos delivers. */
  function Chunk(data: seq<Byte>, pos: nat, n: int): (r: seq<Byte>)
    requires pos <= |data|
    ensures |r| == if n <= 0 then 0 else if n <= |data| - pos then n else |data| - pos
  {
    if n <= 0 then [] else if n <= |data| - pos then data[pos..pos + n] else data[pos..]
  }

  /** Reading in two chunks is reading in one. */
  lemma ChunksJoin(data: seq<Byte>, pos: nat, m: nat, n: nat)
    requires pos <= |data|
    ensures var a := Chunk(data, pos, m);
            a + Chunk(data, pos + |a|, n) == Chunk(data, pos, m + n)
  {
    var a := Chunk(data, pos, m);
    var b := Chunk(data, pos + |a|, n);
    assert a == data[pos..pos + |a|] && b == data[pos + |a|..pos + |a| + |b|];
    assert data[pos..pos + |a| + |b|] == a + b;
  }

  class File {
    /** m_data; null when the file is closed. It is filled once by open and never written. */
    var data: array?<Byte>
    /** m_size: how much of m_data the open read. */
    var size: nat
    var pos: nat

    ghost predicate Valid()
      reads this, data
    {
      pos <= size && (data != null ==> size <= data.Length)
    }

    ghost function Content(): seq<Byte>
      requires Valid() && data != null
      reads this, data
    {
      data[..size]
    }

    /** RAMFile::open on a file with the given content. */
    constructor (content: seq<Byte>)
      ensures Valid() && data != null && fresh(data) && Content() == content && pos == 0
    {
      data := new Byte[|content|](i requires 0 <= i < |content| => content[i]);
      size := |content|;
      pos := 0;
    }

    method Close()
      requires Valid()
      modifies this
      ensures data == null && Valid()
    {
      data := null;
    }

    /** RAMFile::read into the first bytes of a buffer. */
    method Read(buffer: array<Byte>, bytes: int) returns (n: int)
      requires Valid() && (data != null ==> buffer != data && |Chunk(Content(), pos, bytes)| <= buffer.Length)
      modifies this`pos, buffer
      ensures Valid()
      ensures data == null ==> n == -1 && pos == old(pos) && buffer[..] == old(buffer[..])
      ensures data != null ==>
                var chunk := Chunk(Content(), old(pos), bytes);
                && n == |chunk| && pos == old(pos) + n && buffer[..n] == chunk
                && forall i | n <= i < buffer.Length :: buffer[i] == old(buffer[i])
    {
      if data == null { return -1; }
      var bytesLeft := size - pos;
      n := if bytes > bytesLeft then bytesLeft else bytes;
      if n > 0 {
        forall i | 0 <= i < n {
          buffer[i] := data[pos + i];
        }
      } else {
        n := 0;
      }
      pos := pos + n;
    }
  }
}
