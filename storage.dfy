/**
 * The SOCKADDR_STORAGE buffer held by `ntl::Sockaddr`, as a value: 128 bytes
 * laid out as SOCKADDR_IN or SOCKADDR_IN6 on a little-endian host.
 *
 *   bytes 0..1    family (USHORT, native order)
 *   bytes 2..3    port (network order)
 *   bytes 4..7    IPv4 address, or IPv6 flow info (native order)
 *   bytes 8..23   IPv6 address
 *   bytes 24..27  IPv6 scope id (native order)
 *
 * Each function below is the effect of one operation of the class on that
 * value; the class in module Ntl performs the same effect in place.
 */
module Storage {
  import opened Wire

  const SADDR_SIZE: nat := 128        // sizeof(SOCKADDR_STORAGE)
  const SOCKADDR_IN_SIZE: nat := 16   // sizeof(SOCKADDR_IN)
  const SOCKADDR_IN6_SIZE: nat := 28  // sizeof(SOCKADDR_IN6)

  const AF_UNSPEC: u16 := 0
  const AF_INET: u16 := 2
  const AF_INET6: u16 := 23

  // Field offsets inside the storage.
  const FAMILY_AT: nat := 0
  const PORT_AT: nat := 2
  const IN_ADDR_AT: nat := 4
  const FLOWINFO_AT: nat := 4
  const IN6_ADDR_AT: nat := 8
  const SCOPE_ID_AT: nat := 24

  /** `s_addr = 0x0100007f`: 127.0.0.1 as a native ULONG. */
  const INADDR_LOOPBACK_IMAGE: u32 := 0x0100007f

  /** IN6ADDR_V4MAPPEDPREFIX_INIT, `::ffff:0.0.0.0` (RFC 4291 section 2.5.5.2). */
  const V4_MAPPED_PREFIX: seq<byte> := [0, 0, 0, 0, 0, 0, 0, 0, 0, 0, 0xff, 0xff, 0, 0, 0, 0]

  type Storage = s: seq<byte> | |s| == SADDR_SIZE witness Zeros(SADDR_SIZE)

  /** Byte order of a port handed to `setPort`. */
  datatype ByteOrder = HostOrder | NetworkOrder

  // ----- readers -----

  /** `ss_family` as the USHORT the family tests compare against. */
  function RawFamily(s: Storage): u16 {
    DecodeLE16(s[FAMILY_AT..FAMILY_AT + 2])
  }

  predicate IsV4OrV6(s: Storage) {
    RawFamily(s) == AF_INET || RawFamily(s) == AF_INET6
  }

  /** `family()`: `ss_family` returned as a C `short`. */
  function FamilyOf(s: Storage): (f: i16)
    ensures ShortToUShort(f) == RawFamily(s)
  {
    UShortToShort(RawFamily(s))
  }

  /** `port()`: `ntohs(sin_port)`; the port is read in network (big-endian) order. */
  function PortOf(s: Storage): (p: u16)
    ensures p as int == s[PORT_AT] as int * 0x100 + s[PORT_AT + 1] as int
  {
    ByteSwap16(DecodeLE16(s[PORT_AT..PORT_AT + 2]))
  }

  /** `flowinfo()`: `sin6_flowinfo` when the family is AF_INET6, else 0. */
  function FlowInfoOf(s: Storage): (r: u32)
    ensures RawFamily(s) != AF_INET6 ==> r == 0
    ensures RawFamily(s) == AF_INET6 ==> LE32(r) == s[FLOWINFO_AT..FLOWINFO_AT + 4]
  {
    if RawFamily(s) == AF_INET6 then LE32Bijective(s[FLOWINFO_AT..FLOWINFO_AT + 4]); DecodeLE32(s[FLOWINFO_AT..FLOWINFO_AT + 4]) else 0
  }

  /** `scopeId()`: `sin6_scope_id` when the family is AF_INET6, else 0. */
  function ScopeIdOf(s: Storage): (r: u32)
    ensures RawFamily(s) != AF_INET6 ==> r == 0
    ensures RawFamily(s) == AF_INET6 ==> LE32(r) == s[SCOPE_ID_AT..SCOPE_ID_AT + 4]
  {
    if RawFamily(s) == AF_INET6 then LE32Bijective(s[SCOPE_ID_AT..SCOPE_ID_AT + 4]); DecodeLE32(s[SCOPE_ID_AT..SCOPE_ID_AT + 4]) else 0
  }

  // ----- construction -----

  /**
   * The number of bytes the raw-bytes constructor and `setSockaddr` copy for
   * a caller's `int` length: the length is converted to a 64-bit `size_t`
   * (so a negative length wraps to a huge one) and clamped to the storage size.
   */
  function CopyLength(len: i32): (k: nat)
    ensures k <= SADDR_SIZE
    ensures 0 <= len as int <= SADDR_SIZE ==> k == len as int
    ensures (len < 0 || SADDR_SIZE < len as int) ==> k == SADDR_SIZE
  {
    var asSize: nat := if len < 0 then len as int + 0x1_0000_0000_0000_0000 else len as int;
    if asSize <= SADDR_SIZE then asSize else SADDR_SIZE
  }

  /** The same count for the `size_t` constructor: the length clamped to the storage size. */
  function SizeCopyLength(len: u64): (k: nat)
    ensures k <= SADDR_SIZE
    ensures len as int <= SADDR_SIZE ==> k == len as int
    ensures SADDR_SIZE < len as int ==> k == SADDR_SIZE
  {
    if len as int <= SADDR_SIZE then len as int else SADDR_SIZE
  }

  /** `Sockaddr(family)` and `reset(family)`: zero the storage, then set `ss_family`. */
  function WithFamily(f: u16): (r: Storage)
    ensures RawFamily(r) == f
    ensures ZeroOn(r, FAMILY_AT + 2, SADDR_SIZE)
  {
    Put(Zeros(SADDR_SIZE), FAMILY_AT, LE16(f))
  }

  /**
   * `Sockaddr(const SOCKADDR*, len)` and `setSockaddr(const SOCKADDR*, len)`:
   * zero the storage, then copy `CopyLength(len)` bytes of `src` to its start.
   */
  function FromRaw(src: seq<byte>, len: i32): (r: Storage)
    requires CopyLength(len) <= |src|
    ensures r[..CopyLength(len)] == src[..CopyLength(len)]
    ensures ZeroOn(r, CopyLength(len), SADDR_SIZE)
  {
    Put(Zeros(SADDR_SIZE), 0, src[..CopyLength(len)])
  }

  /** `Sockaddr(const SOCKADDR*, size_t len)`: as FromRaw, with the `size_t` count. */
  function FromRawSize(src: seq<byte>, len: u64): (r: Storage)
    requires SizeCopyLength(len) <= |src|
    ensures r[..SizeCopyLength(len)] == src[..SizeCopyLength(len)]
    ensures ZeroOn(r, SizeCopyLength(len), SADDR_SIZE)
  {
    Put(Zeros(SADDR_SIZE), 0, src[..SizeCopyLength(len)])
  }

  /**
   * The SOCKADDR_INET overloads: copy a SOCKADDR_IN's worth of bytes when
   * `si_family` is AF_INET and a SOCKADDR_IN6's worth otherwise.
   */
  function FromInet(src: seq<byte>): (r: Storage)
    requires |src| == SOCKADDR_IN6_SIZE
    ensures RawFamily(r) == DecodeLE16(src[0..2])
    ensures r[..SOCKADDR_IN_SIZE] == src[..SOCKADDR_IN_SIZE]
    ensures RawFamily(r) != AF_INET ==> r[..SOCKADDR_IN6_SIZE] == src
    ensures ZeroOn(r, if RawFamily(r) == AF_INET then SOCKADDR_IN_SIZE else SOCKADDR_IN6_SIZE, SADDR_SIZE)
  {
    var len: i32 := if DecodeLE16(src[0..2]) == AF_INET then SOCKADDR_IN_SIZE as i32 else SOCKADDR_IN6_SIZE as i32;
    var r := FromRaw(src, len);
    assert r[0..2] == src[0..2] by {
      assert r[..SOCKADDR_IN_SIZE] == src[..SOCKADDR_IN_SIZE];
    }
    r
  }

  // ----- field writers -----

  /**
   * `setPort(p, order)`: `sin_port = htons(p)` for a host-order `p`, or
   * `sin_port = p` for a network-order one.
   */
  function SetPortBytes(s: Storage, p: u16, order: ByteOrder): (r: Storage)
    ensures PortOf(r) == if order == HostOrder then p else ByteSwap16(p)
    ensures forall k :: 0 <= k < SADDR_SIZE && k != PORT_AT && k != PORT_AT + 1 ==> r[k] == s[k]
  {
    Put(s, PORT_AT, LE16(if order == HostOrder then ByteSwap16(p) else p))
  }

  /** `setAddress(const IN_ADDR*)`: `ss_family = AF_INET`, `sin_addr = *a`. */
  function SetInAddrBytes(s: Storage, a: seq<byte>): (r: Storage)
    requires |a| == 4
    ensures RawFamily(r) == AF_INET
    ensures r[IN_ADDR_AT..IN_ADDR_AT + 4] == a
    ensures forall k :: (2 <= k < IN_ADDR_AT || IN_ADDR_AT + 4 <= k < SADDR_SIZE) ==> r[k] == s[k]
  {
    var f := Put(s, FAMILY_AT, LE16(AF_INET));
    Put(f, IN_ADDR_AT, a)
  }

  /** `setAddress(const IN6_ADDR*)`: `ss_family = AF_INET6`, `sin6_addr = *a`. */
  function SetIn6AddrBytes(s: Storage, a: seq<byte>): (r: Storage)
    requires |a| == 16
    ensures RawFamily(r) == AF_INET6
    ensures r[IN6_ADDR_AT..IN6_ADDR_AT + 16] == a
    ensures forall k :: (2 <= k < IN6_ADDR_AT || IN6_ADDR_AT + 16 <= k < SADDR_SIZE) ==> r[k] == s[k]
  {
    var f := Put(s, FAMILY_AT, LE16(AF_INET6));
    Put(f, IN6_ADDR_AT, a)
  }

  /** `setFlowInfo(v)`: writes `sin6_flowinfo` only when the family is AF_INET6. */
  function SetFlowInfoBytes(s: Storage, v: u32): (r: Storage)
    ensures RawFamily(s) == AF_INET6 ==> FlowInfoOf(r) == v
    ensures RawFamily(s) != AF_INET6 ==> r == s
    ensures forall k :: 0 <= k < SADDR_SIZE && !(FLOWINFO_AT <= k < FLOWINFO_AT + 4) ==> r[k] == s[k]
  {
    if RawFamily(s) == AF_INET6 then
      var r := Put(s, FLOWINFO_AT, LE32(v));
      assert r[FLOWINFO_AT..FLOWINFO_AT + 4] == LE32(v);
      assert r[FAMILY_AT..FAMILY_AT + 2] == s[FAMILY_AT..FAMILY_AT + 2];
      r
    else
      s
  }

  /** `setScopeId(v)`: writes `sin6_scope_id` only when the family is AF_INET6. */
  function SetScopeIdBytes(s: Storage, v: u32): (r: Storage)
    ensures RawFamily(s) == AF_INET6 ==> ScopeIdOf(r) == v
    ensures RawFamily(s) != AF_INET6 ==> r == s
    ensures forall k :: 0 <= k < SADDR_SIZE && !(SCOPE_ID_AT <= k < SCOPE_ID_AT + 4) ==> r[k] == s[k]
  {
    if RawFamily(s) == AF_INET6 then
      var r := Put(s, SCOPE_ID_AT, LE32(v));
      assert r[SCOPE_ID_AT..SCOPE_ID_AT + 4] == LE32(v);
      assert r[FAMILY_AT..FAMILY_AT + 2] == s[FAMILY_AT..FAMILY_AT + 2];
      r
    else
      s
  }

  // ----- canonical addresses -----

  /**
   * `setAddressLoopback()`: keeps the family and the port, zeroes everything
   * else and writes 127.0.0.1 (AF_INET) or `::1` (AF_INET6, RFC 4291 section
   * 2.5.3). Any other family is a fatal condition, hence the precondition.
   */
  function LoopbackBytes(s: Storage): (r: Storage)
    requires IsV4OrV6(s)
    ensures RawFamily(r) == RawFamily(s) && PortOf(r) == PortOf(s)
    ensures RawFamily(s) == AF_INET ==>
      r[IN_ADDR_AT..IN_ADDR_AT + 4] == [0x7f, 0, 0, 1] && ZeroOn(r, IN_ADDR_AT + 4, SADDR_SIZE)
    ensures RawFamily(s) == AF_INET6 ==>
      ZeroOn(r, FLOWINFO_AT, IN6_ADDR_AT + 15) && r[IN6_ADDR_AT + 15] == 1 && ZeroOn(r, IN6_ADDR_AT + 16, SADDR_SIZE)
  {
    var port := s[PORT_AT..PORT_AT + 2];
    if RawFamily(s) == AF_INET then
      var f := Put(Zeros(SADDR_SIZE), FAMILY_AT, LE16(AF_INET));
      var p := Put(f, PORT_AT, port);
      var r := Put(p, IN_ADDR_AT, LE32(INADDR_LOOPBACK_IMAGE));
      assert r[FAMILY_AT..FAMILY_AT + 2] == LE16(AF_INET);
      r
    else
      var f := Put(Zeros(SADDR_SIZE), FAMILY_AT, LE16(AF_INET6));
      var p := Put(f, PORT_AT, port);
      var r := Put(p, IN6_ADDR_AT + 15, [1]);
      assert r[FAMILY_AT..FAMILY_AT + 2] == LE16(AF_INET6);
      r
  }

  /**
   * `setAddressAny()`: for AF_INET and AF_INET6 keeps the family and the port
   * and zeroes everything else (0.0.0.0, or `::` of RFC 4291 section 2.5.2);
   * any other family is left untouched.
   */
  function AnyBytes(s: Storage): (r: Storage)
    ensures IsV4OrV6(s) ==> RawFamily(r) == RawFamily(s) && PortOf(r) == PortOf(s)
    ensures IsV4OrV6(s) ==> ZeroOn(r, PORT_AT + 2, SADDR_SIZE)
    ensures !IsV4OrV6(s) ==> r == s
  {
    var port := s[PORT_AT..PORT_AT + 2];
    if IsV4OrV6(s) then
      var f := Put(Zeros(SADDR_SIZE), FAMILY_AT, LE16(RawFamily(s)));
      var r := Put(f, PORT_AT, port);
      assert r[FAMILY_AT..FAMILY_AT + 2] == LE16(RawFamily(s));
      r
    else
      s
  }

  /** `isAddressLoopback()`: setting the loopback address would change nothing. */
  predicate IsLoopbackBytes(s: Storage)
    requires IsV4OrV6(s)
  {
    LoopbackBytes(s) == s
  }

  /** `isAddressAny()`: setting the wildcard address would change nothing. */
  predicate IsAnyBytes(s: Storage) {
    AnyBytes(s) == s
  }

  /**
   * `mapDualMode4To6()`: a fresh AF_INET6 storage holding `::ffff:a.b.c.d`
   * (RFC 4291 section 2.5.5.2) built from bytes 4..7 of `s`, with the port
   * of `s`. The family of `s` is not checked.
   */
  function MapDualModeBytes(s: Storage): (r: Storage)
    ensures RawFamily(r) == AF_INET6 && PortOf(r) == PortOf(s)
    ensures ZeroOn(r, FLOWINFO_AT, FLOWINFO_AT + 4)
    ensures r[IN6_ADDR_AT..IN6_ADDR_AT + 12] == V4_MAPPED_PREFIX[..12]
    ensures r[IN6_ADDR_AT + 12..IN6_ADDR_AT + 16] == s[IN_ADDR_AT..IN_ADDR_AT + 4]
    ensures ZeroOn(r, SCOPE_ID_AT, SADDR_SIZE)
  {
    var temp := WithFamily(AF_INET6);
    var prefixed := Put(temp, IN6_ADDR_AT, V4_MAPPED_PREFIX);
    var mapped := Put(prefixed, IN6_ADDR_AT + 12, s[IN_ADDR_AT..IN_ADDR_AT + 4]);
    var r := SetPortBytes(mapped, PortOf(s), HostOrder);
    assert r[FAMILY_AT..FAMILY_AT + 2] == temp[FAMILY_AT..FAMILY_AT + 2];
    assert mapped[IN6_ADDR_AT + 12..IN6_ADDR_AT + 16] == s[IN_ADDR_AT..IN_ADDR_AT + 4];
    assert r[IN6_ADDR_AT + 12..IN6_ADDR_AT + 16] == mapped[IN6_ADDR_AT + 12..IN6_ADDR_AT + 16];
    r
  }
}
