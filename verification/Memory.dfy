/** Copying into byte buffers: memcpy, memset, and the copying part of sprintf. */
module Memory {
  import opened Bytes

  /** Copies `src` into `dst` at `pos`, and returns where it ends. */
  method Copy(dst: array<byte>, pos: nat, src: seq<byte>) returns (end: nat)
    requires pos + |src| <= dst.Length
    modifies dst
    ensures end == pos + |src| && dst[..end] == old(dst[..pos]) + src
    ensures forall k | end <= k < dst.Length :: dst[k] == old(dst[k])
  {
    for i := 0 to |src|
      invariant forall k | 0 <= k < pos :: dst[k] == old(dst[k])
      invariant forall k | 0 <= k < i :: dst[pos + k] == src[k]
      invariant forall k | pos + i <= k < dst.Length :: dst[k] == old(dst[k])
    {
      dst[pos + i] := src[i];
    }
    end := pos + |src|;
    assert dst[..pos] == old(dst[..pos]);
    assert dst[pos..end] == src;
    assert dst[..end] == dst[..pos] + dst[pos..end];
  }

  function Zeros(n: nat): (s: seq<byte>)
    ensures |s| == n && forall i | 0 <= i < n :: s[i] == 0
  {
    seq(n, _ => 0)
  }

  /** Writes `n` zero bytes at `pos`. */
  method Clear(dst: array<byte>, pos: nat, n: nat)
    requires pos + n <= dst.Length
    modifies dst
    ensures dst[..pos + n] == old(dst[..pos]) + Zeros(n)
    ensures forall k | pos + n <= k < dst.Length :: dst[k] == old(dst[k])
  {
    for i := 0 to n
      invariant forall k | 0 <= k < pos :: dst[k] == old(dst[k])
      invariant forall k | pos <= k < pos + i :: dst[k] == 0
      invariant forall k | pos + i <= k < dst.Length :: dst[k] == old(dst[k])
    {
      dst[pos + i] := 0;
    }
    assert dst[..pos] == old(dst[..pos]);
    assert dst[pos..pos + n] == Zeros(n);
    assert dst[..pos + n] == dst[..pos] + dst[pos..pos + n];
  }
}
