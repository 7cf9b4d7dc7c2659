/**
 * ZeroMemory and CopyMemory over a buffer, one element at a time. Field
 * stores through a structure laid over the storage are CopyMemory at the
 * field's offset.
 */
module Memory {
  import opened Wire

  /** Sets every element of `dst` to `v`. */
  method FillMemory<T>(dst: array<T>, v: T)
    modifies dst
    ensures dst[..] == seq(dst.Length, _ => v)
  {
    var k := 0;
    while k < dst.Length
      invariant 0 <= k <= dst.Length
      invariant forall j :: 0 <= j < k ==> dst[j] == v
    {
      dst[k] := v;
      k := k + 1;
    }
  }

  /** `ZeroMemory(dst, dst.Length)`. */
  method ZeroMemory(dst: array<byte>)
    modifies dst
    ensures dst[..] == Zeros(dst.Length)
  {
    FillMemory(dst, 0);
  }

  /** `CopyMemory(dst + at, src, |src|)`: the rest of `dst` is left as it was. */
  method CopyMemory<T>(dst: array<T>, at: nat, src: seq<T>)
    requires at + |src| <= dst.Length
    modifies dst
    ensures dst[..] == Put(old(dst[..]), at, src)
  {
    var k := 0;
    while k < |src|
      invariant 0 <= k <= |src|
      invariant forall j :: 0 <= j < dst.Length ==>
        dst[j] == if at <= j < at + k then src[j - at] else old(dst[j])
    {
      dst[at + k] := src[k];
      k := k + 1;
    }
  }
}
