/** The dictionary file: its bytes, and the position of the open descriptor. */
module Disk {
  import opened Bytes

  function Zeros(n: nat): (z: seq<u8>)
    ensures |z| == n
  {
    seq(n, _ => 0)
  }

  /** The bytes after a write of b at position p. */
  function Overwrite(f: seq<u8>, p: nat, b: seq<u8>): (g: seq<u8>)
    ensures |g| >= p + |b|
  {
    if p > |f| then f + Zeros(p - |f|) + b
    else f[..p] + b + (if p + |b| <= |f| then f[p + |b|..] else [])
  }

  class DiskFile {
    var data: seq<u8>
    var pos: nat

    constructor (bytes: seq<u8>)
      ensures data == bytes && pos == 0
    {
      data, pos := bytes, 0;
    }

    /** lseek with SEEK_SET. */
    method Seek(p: nat)
      modifies this
      ensures pos == p && data == old(data)
    {
      pos := p;
    }

    method Write(b: seq<u8>)
      modifies this
      ensures data == Overwrite(old(data), old(pos), b) && pos == old(pos) + |b|
      ensures old(pos) <= |old(data)| ==> pos <= |data| && data[..pos] == old(data)[..old(pos)] + b
    {
      data := Overwrite(data, pos, b);
      pos := pos + |b|;
    }

    /** ftruncate at the current position. */
    method Truncate()
      modifies this
      ensures pos == old(pos)
      ensures old(pos) <= |old(data)| ==> data == old(data)[..pos]
      ensures old(pos) > |old(data)| ==> data == old(data) + Zeros(pos - |old(data)|)
    {
      data := if pos <= |data| then data[..pos] else data + Zeros(pos - |data|);
    }

    /** fread of n bytes: fewer come back when the file ends first. */
    method Read(n: nat) returns (b: seq<u8>)
      requires pos <= |data|
      modifies this
      ensures data == old(data) && pos == old(pos) + |b| <= |data| && b == data[old(pos)..pos]
      ensures |b| == if old(pos) + n <= |data| then n else |data| - old(pos)
    {
      var stop := if pos + n <= |data| then pos + n else |data|;
      b := data[pos..stop];
      pos := stop;
    }
  }
}
