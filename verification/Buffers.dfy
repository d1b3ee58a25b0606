/** Copying into byte buffers. */
module Buffers {
  import opened Wrappers

  method Memcpy(dst: array<Byte>, at: nat, src: Bytes)
    requires at + |src| <= dst.Length
    modifies dst
    ensures dst[..] == old(dst[..at]) + src + old(dst[at + |src|..])
  {
    for i := 0 to |src|
      invariant dst[..] == old(dst[..at]) + src[..i] + old(dst[at + i..])
    {
      dst[at + i] := src[i];
    }
  }

  /** Memcpy at a moving offset: what is before it grows, what is behind it stays. */
  method Append(dst: array<Byte>, at: nat, src: Bytes, ghost front: Bytes, ghost back: Bytes) returns (offset: nat)
    requires at <= dst.Length && dst[..at] == front && dst[at..] == back && |src| <= |back|
    modifies dst
    ensures offset == at + |src| <= dst.Length
    ensures dst[..offset] == front + src && dst[offset..] == back[|src|..]
  {
    Memcpy(dst, at, src);
    offset := at + |src|;
  }
}
