/**
 * Heap buffers as both programs use them: allocation (kmalloc / malloc),
 * growth that keeps the old bytes (krealloc / realloc), and copying bytes
 * into a buffer at an offset (copy_from_user, copy_to_user, memcpy).
 * Whether an allocation succeeds is decided by the environment and is
 * passed in.
 */
module Memory {
  import opened Bytes

  /** kmalloc(size): a fresh buffer of `size` bytes, or NULL when allocation fails. */
  method Allocate(size: nat, succeeds: bool) returns (p: array?<byte>)
    ensures succeeds <==> p != null
    ensures p != null ==> fresh(p) && p.Length == size
  {
    if succeeds {
      p := new byte[size];
    } else {
      p := null;
    }
  }

  /**
   * krealloc(p, size) / realloc(p, size) for a size no smaller than the old
   * one: a fresh buffer of `size` bytes starting with the old contents, or
   * NULL when allocation fails (the old buffer is then left as it was).
   * A NULL `p` behaves like a plain allocation.
   */
  method Reallocate(p: array?<byte>, size: nat, succeeds: bool) returns (q: array?<byte>)
    requires p != null ==> p.Length <= size
    ensures succeeds <==> q != null
    ensures q != null ==> fresh(q) && q.Length == size
    ensures q != null && p != null ==> q[..p.Length] == p[..]
  {
    if !succeeds {
      return null;
    }
    q := new byte[size];
    if p != null {
      var i := 0;
      while i < p.Length
        invariant 0 <= i <= p.Length
        invariant q[..i] == p[..i]
      {
        q[i] := p[i];
        i := i + 1;
      }
      assert q[..p.Length] == p[..];
    }
  }

  /** Copies `src` into `dst` starting at index `at`; every other byte of `dst` is kept. */
  method CopyInto(dst: array<byte>, at: nat, src: seq<byte>)
    requires at + |src| <= dst.Length
    modifies dst
    ensures dst[..] == old(dst[..at]) + src + old(dst[at + |src|..])
  {
    var i := 0;
    while i < |src|
      invariant 0 <= i <= |src|
      invariant dst[..at] == old(dst[..at])
      invariant dst[at..at + i] == src[..i]
      invariant dst[at + i..] == old(dst[at + i..])
    {
      dst[at + i] := src[i];
      i := i + 1;
      assert dst[at..at + i] == dst[at..at + i - 1] + [src[i - 1]];
      assert src[..i] == src[..i - 1] + [src[i - 1]];
    }
    assert dst[..] == dst[..at] + dst[at..at + |src|] + dst[at + |src|..];
  }
}
