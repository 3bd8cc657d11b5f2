// Open regular files: bytes and an offset.  Reads return what is there, writes always succeed.
module Posix {
  import opened Bytes

  function Min(a: nat, b: nat): nat {
    if a <= b then a else b
  }

  /** Up to n bytes of data from offset pos. */
  function Chunk(data: seq<byte>, pos: nat, n: nat): (s: seq<byte>)
    ensures |s| <= n
  {
    if pos >= |data| then [] else data[pos..Min(pos + n, |data|)]
  }

  /** data with buf stored at offset pos; a gap before pos reads as zeros. */
  function Splice(data: seq<byte>, pos: nat, buf: seq<byte>): seq<byte> {
    if buf == [] then data
    else
      var padded := if pos <= |data| then data else data + seq(pos - |data|, _ => 0);
      padded[..pos] + buf + (if pos + |buf| <= |padded| then padded[pos + |buf|..] else [])
  }

  lemma SpliceAtEnd(data: seq<byte>, buf: seq<byte>)
    ensures Splice(data, |data|, buf) == data + buf
  {
  }

  class File {
    var data: seq<byte>
    var pos: nat

    constructor (contents: seq<byte>)
      ensures data == contents && pos == 0
    {
      data, pos := contents, 0;
    }

    method Read(n: nat) returns (buf: seq<byte>)
      modifies this
      ensures data == old(data)
      ensures buf == Chunk(data, old(pos), n) && pos == old(pos) + |buf|
    {
      buf := Chunk(data, pos, n);
      pos := pos + |buf|;
    }

    /** Read inside the file: the next block, empty only at the end. */
    method ReadBlock(n: nat) returns (buf: seq<byte>)
      requires pos <= |data| && n > 0
      modifies this
      ensures data == old(data) && old(pos) <= pos == Min(old(pos) + n, |data|)
      ensures buf == data[old(pos)..pos] && (buf == [] ==> pos == |data|)
    {
      buf := Read(n);
    }

    method Write(buf: seq<byte>)
      modifies this
      ensures data == Splice(old(data), old(pos), buf) && pos == old(pos) + |buf|
    {
      data := Splice(data, pos, buf);
      pos := pos + |buf|;
    }

    /** Store buf at a given offset and leave the file offset alone. */
    method PWrite(buf: seq<byte>, at: nat)
      modifies this
      ensures data == Splice(old(data), at, buf) && pos == old(pos)
    {
      data := Splice(data, at, buf);
    }

    method Seek(at: nat)
      modifies this
      ensures data == old(data) && pos == at
    {
      pos := at;
    }
  }
}
