/** Cutting a range of bytes at page boundaries. */
module Chunks {
  import opened Physical

  /** The part of a range that lies in the page of its first byte. */
  function Part(address: nat, size: nat): (n: nat)
    requires size > 0
    ensures 0 < n <= size && address % PAGE_SIZE + n <= PAGE_SIZE
  {
    var room := PAGE_SIZE - address % PAGE_SIZE;
    if room > size then size else room
  }

  /** The bytes of one page that belong to the range. */
  function Chunk(bytes: seq<Byte>, address: nat, size: nat): (c: seq<Byte>)
    requires size > 0 && |bytes| == PAGE_SIZE
    ensures |c| == Part(address, size)
  {
    bytes[address % PAGE_SIZE..address % PAGE_SIZE + Part(address, size)]
  }

  function Overwrite(bytes: seq<Byte>, offset: nat, chunk: seq<Byte>): (r: seq<Byte>)
    requires offset + |chunk| <= |bytes|
    ensures |r| == |bytes|
    ensures forall i ::
              0 <= i < |bytes| ==> r[i] == if offset <= i < offset + |chunk| then chunk[i - offset] else bytes[i]
  {
    bytes[..offset] + chunk + bytes[offset + |chunk|..]
  }
}
