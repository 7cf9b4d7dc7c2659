/**
 * Machine words of the Winsock structures and their in-memory images on a
 * little-endian host: bytes, USHORT, ULONG and the signed short that
 * `family()` returns, with the codecs `htons`/`ntohs` and the native
 * (little-endian) loads and stores used by the field accesses of a
 * SOCKADDR_STORAGE.
 */
module Wire {

  newtype byte = x: int | 0 <= x < 0x100
  newtype u16 = x: int | 0 <= x < 0x1_0000
  newtype u32 = x: int | 0 <= x < 0x1_0000_0000
  newtype i16 = x: int | -0x8000 <= x < 0x8000
  newtype i32 = x: int | -0x8000_0000 <= x < 0x8000_0000
  newtype u64 = x: int | 0 <= x < 0x1_0000_0000_0000_0000

  /** `n` zero bytes: what ZeroMemory leaves behind. */
  function Zeros(n: nat): (r: seq<byte>)
    ensures |r| == n
  {
    seq(n, _ => 0)
  }

  /** Every byte of `s` in `[lo, hi)` is zero. */
  predicate ZeroOn(s: seq<byte>, lo: nat, hi: nat)
    requires lo <= hi <= |s|
  {
    forall k :: lo <= k < hi ==> s[k] == 0
  }

  /**
   * `s` with `b` written over it starting at offset `at`: a store through a
   * field of a structure laid over the buffer, or a CopyMemory into it.
   */
  function Put<T>(s: seq<T>, at: nat, b: seq<T>): (r: seq<T>)
    requires at + |b| <= |s|
    ensures |r| == |s|
    ensures forall k :: 0 <= k < |s| ==> r[k] == if at <= k < at + |b| then b[k - at] else s[k]
  {
    s[..at] + b + s[at + |b|..]
  }

  /** Decodes a little-endian USHORT image. */
  function DecodeLE16(b: seq<byte>): u16
    requires |b| == 2
  {
    (b[0] as int + 0x100 * b[1] as int) as u16
  }

  /** The in-memory image of a USHORT on a little-endian host. */
  function LE16(v: u16): (b: seq<byte>)
    ensures |b| == 2 && DecodeLE16(b) == v
    ensures b[0] as int == v as int % 0x100 && b[1] as int == v as int / 0x100
  {
    [(v % 0x100) as byte, (v / 0x100) as byte]
  }

  /** Decodes a little-endian ULONG image. */
  function DecodeLE32(b: seq<byte>): u32
    requires |b| == 4
  {
    (b[0] as int + 0x100 * b[1] as int + 0x1_0000 * b[2] as int + 0x100_0000 * b[3] as int) as u32
  }

  /** The in-memory image of a ULONG on a little-endian host. */
  function LE32(v: u32): (b: seq<byte>)
    ensures |b| == 4 && DecodeLE32(b) == v
  {
    var n := v as int;
    var b0, q0 := n % 0x100, n / 0x100;
    var b1, q1 := q0 % 0x100, q0 / 0x100;
    var b2, b3 := q1 % 0x100, q1 / 0x100;
    assert n == b0 + 0x100 * (b1 + 0x100 * (b2 + 0x100 * b3));
    [b0 as byte, b1 as byte, b2 as byte, b3 as byte]
  }

  /**
   * `htons` and `ntohs` on a little-endian host: both exchange the two bytes
   * of a USHORT.
   */
  function ByteSwap16(v: u16): (r: u16)
    ensures r as int % 0x100 == v as int / 0x100 && r as int / 0x100 == v as int % 0x100
  {
    ((v % 0x100) * 0x100 + v / 0x100) as u16
  }

  /** The conversion of a C `short` to an `unsigned short` (modulo 2^16). */
  function ShortToUShort(f: i16): (r: u16)
    ensures 0 <= f ==> r as int == f as int
    ensures f < 0 ==> r as int == f as int + 0x1_0000
  {
    (f as int % 0x1_0000) as u16
  }

  /** The conversion of an `unsigned short` back to a C `short` (two's complement). */
  function UShortToShort(v: u16): (r: i16)
    ensures ShortToUShort(r) == v
  {
    if v < 0x8000 then v as int as i16 else (v as int - 0x1_0000) as i16
  }

  /** `static_cast<int>` of a 64-bit `size_t`: keep the low 32 bits, read them as two's complement. */
  function SizeToInt(n: u64): (r: i32)
    ensures (r as int - n as int) % 0x1_0000_0000 == 0
    ensures n as int < 0x8000_0000 ==> r as int == n as int
  {
    var low := n as int % 0x1_0000_0000;
    if low < 0x8000_0000 then low as i32 else (low - 0x1_0000_0000) as i32
  }

  /** The two halves of a USHORT image determine it, and every USHORT has one. */
  lemma LE16Bijective(b: seq<byte>)
    requires |b| == 2
    ensures LE16(DecodeLE16(b)) == b
  {
  }

  /** A ULONG image decodes to zero only when all four bytes are zero. */
  lemma DecodeLE32Zero(b: seq<byte>)
    requires |b| == 4
    ensures DecodeLE32(b) == 0 <==> b == [0, 0, 0, 0]
  {
  }

  /** The four bytes of a ULONG image determine it, and every ULONG has one. */
  lemma LE32Bijective(b: seq<byte>)
    requires |b| == 4
    ensures LE32(DecodeLE32(b)) == b
  {
    var n := DecodeLE32(b) as int;
    var q1 := b[2] as int + 0x100 * b[3] as int;
    var q0 := b[1] as int + 0x100 * q1;
    assert n == b[0] as int + 0x100 * q0;
    DivModByte(q0, b[0] as int);
    DivModByte(q1, b[1] as int);
    DivModByte(b[3] as int, b[2] as int);
  }

  /** Division by 0x100 splits `q * 0x100 + r` back into `q` and `r`. */
  lemma DivModByte(q: int, r: int)
    requires 0 <= q && 0 <= r < 0x100
    ensures (q * 0x100 + r) / 0x100 == q && (q * 0x100 + r) % 0x100 == r
  {
  }

  /** `htons` undoes itself, so `ntohs(htons(p)) == p`. */
  lemma ByteSwap16Involution(v: u16)
    ensures ByteSwap16(ByteSwap16(v)) == v
  {
  }

  /** Storing a `short` into `ss_family` and reading it back with `family()` is the identity. */
  lemma ShortRoundTrip(f: i16)
    ensures UShortToShort(ShortToUShort(f)) == f
  {
  }
}
