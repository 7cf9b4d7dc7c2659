/**
 * What the operations of module Storage promise when taken together:
 * the loopback and wildcard tests against an independent description of the
 * canonical addresses, idempotence, read-back of constructed values, and the
 * independence of the port, flow-info and scope-id fields.
 */
module StorageFacts {
  import opened Wire
  import opened Storage

  /** The bytes a loopback endpoint of the family of `s` consists of, beyond family and port. */
  predicate LoopbackShaped(s: Storage) {
    || (RawFamily(s) == AF_INET && s[IN_ADDR_AT..IN_ADDR_AT + 4] == [0x7f, 0, 0, 1]
        && ZeroOn(s, IN_ADDR_AT + 4, SADDR_SIZE))
    || (RawFamily(s) == AF_INET6 && ZeroOn(s, FLOWINFO_AT, IN6_ADDR_AT + 15)
        && s[IN6_ADDR_AT + 15] == 1 && ZeroOn(s, IN6_ADDR_AT + 16, SADDR_SIZE))
  }

  /** Family, port and the bytes after the port determine the whole storage. */
  lemma SameFieldsSameBytes(a: Storage, b: Storage)
    requires RawFamily(a) == RawFamily(b) && PortOf(a) == PortOf(b)
    requires forall k :: PORT_AT + 2 <= k < SADDR_SIZE ==> a[k] == b[k]
    ensures a == b
  {
    LE16Bijective(a[0..2]);
    LE16Bijective(b[0..2]);
    assert a[0] == b[0] && a[1] == b[1];
    assert a[2] == b[2] && a[3] == b[3];
    assert forall k :: 0 <= k < SADDR_SIZE ==> a[k] == b[k];
  }

  /**
   * `isAddressLoopback()` holds exactly for 127.0.0.1 (AF_INET) and `::1`
   * (AF_INET6) with nothing else set: any port, but no flow info, no scope
   * id and no stale byte anywhere after the address.
   */
  lemma IsLoopbackIff(s: Storage)
    requires IsV4OrV6(s)
    ensures IsLoopbackBytes(s) <==> LoopbackShaped(s)
  {
    var r := LoopbackBytes(s);
    if LoopbackShaped(s) {
      if RawFamily(s) == AF_INET {
        assert forall k :: IN_ADDR_AT <= k < IN_ADDR_AT + 4 ==>
          r[k] == r[IN_ADDR_AT..IN_ADDR_AT + 4][k - IN_ADDR_AT] && s[k] == s[IN_ADDR_AT..IN_ADDR_AT + 4][k - IN_ADDR_AT];
      }
      SameFieldsSameBytes(r, s);
    }
  }

  /**
   * `isAddressAny()` holds exactly when the family is not AF_INET/AF_INET6,
   * or every byte after the port is zero.
   */
  lemma IsAnyIff(s: Storage)
    ensures IsAnyBytes(s) <==> (IsV4OrV6(s) ==> ZeroOn(s, PORT_AT + 2, SADDR_SIZE))
  {
    if IsV4OrV6(s) && ZeroOn(s, PORT_AT + 2, SADDR_SIZE) {
      SameFieldsSameBytes(AnyBytes(s), s);
    }
  }

  /** Setting the loopback address twice is setting it once. */
  lemma LoopbackIdempotent(s: Storage)
    requires IsV4OrV6(s)
    ensures IsV4OrV6(LoopbackBytes(s)) && LoopbackBytes(LoopbackBytes(s)) == LoopbackBytes(s)
  {
    IsLoopbackIff(LoopbackBytes(s));
  }

  /** Setting the wildcard address twice is setting it once. */
  lemma AnyIdempotent(s: Storage)
    ensures AnyBytes(AnyBytes(s)) == AnyBytes(s)
  {
    IsAnyIff(AnyBytes(s));
  }

  /** Right after `setAddressLoopback()`, the value is loopback and is not the wildcard. */
  lemma LoopbackIsNotAny(s: Storage)
    requires IsV4OrV6(s)
    ensures IsV4OrV6(LoopbackBytes(s))
    ensures IsLoopbackBytes(LoopbackBytes(s)) && !IsAnyBytes(LoopbackBytes(s))
  {
    LoopbackIdempotent(s);
    var r := LoopbackBytes(s);
    IsAnyIff(r);
    if RawFamily(s) == AF_INET {
      assert r[IN_ADDR_AT] == r[IN_ADDR_AT..IN_ADDR_AT + 4][0] == 0x7f;
    } else {
      assert r[IN6_ADDR_AT + 15] == 1;
    }
  }

  /** Right after `setAddressAny()`, the value is the wildcard and is not loopback. */
  lemma AnyIsNotLoopback(s: Storage)
    requires IsV4OrV6(s)
    ensures IsV4OrV6(AnyBytes(s))
    ensures IsAnyBytes(AnyBytes(s)) && !IsLoopbackBytes(AnyBytes(s))
  {
    AnyIdempotent(s);
    var r := AnyBytes(s);
    var l := LoopbackBytes(r);
    if RawFamily(s) == AF_INET {
      assert l[IN_ADDR_AT..IN_ADDR_AT + 4][0] == l[IN_ADDR_AT] == 0x7f;
      assert r[IN_ADDR_AT] == 0;
    } else {
      assert l[IN6_ADDR_AT + 15] == 1;
      assert r[IN6_ADDR_AT + 15] == 0;
    }
  }

  /** A stale nonzero byte past the end of a SOCKADDR_IN6 makes both tests fail. */
  lemma StaleTailDefeatsBoth(s: Storage, k: nat)
    requires IsV4OrV6(s) && SOCKADDR_IN6_SIZE <= k < SADDR_SIZE && s[k] != 0
    ensures !IsLoopbackBytes(s) && !IsAnyBytes(s)
  {
    IsLoopbackIff(s);
    IsAnyIff(s);
  }

  /** A nonzero scope id on an AF_INET6 value makes both tests fail. */
  lemma ScopeIdDefeatsBoth(s: Storage)
    requires RawFamily(s) == AF_INET6 && ScopeIdOf(s) != 0
    ensures !IsLoopbackBytes(s) && !IsAnyBytes(s)
  {
    var scope := s[SCOPE_ID_AT..SCOPE_ID_AT + 4];
    DecodeLE32Zero(scope);
    var j :| 0 <= j < 4 && scope[j] != 0;
    assert s[SCOPE_ID_AT + j] != 0;
    IsLoopbackIff(s);
    IsAnyIff(s);
  }

  /** A nonzero flow info on an AF_INET6 value makes both tests fail. */
  lemma FlowInfoDefeatsBoth(s: Storage)
    requires RawFamily(s) == AF_INET6 && FlowInfoOf(s) != 0
    ensures !IsLoopbackBytes(s) && !IsAnyBytes(s)
  {
    var flow := s[FLOWINFO_AT..FLOWINFO_AT + 4];
    DecodeLE32Zero(flow);
    var j :| 0 <= j < 4 && flow[j] != 0;
    assert s[FLOWINFO_AT + j] != 0;
    IsLoopbackIff(s);
    IsAnyIff(s);
  }

  /** `Sockaddr(f).family() == f` for every `short` f. */
  lemma FamilyRoundTrip(f: i16)
    ensures FamilyOf(WithFamily(ShortToUShort(f))) == f
  {
    ShortRoundTrip(f);
  }

  /** A default-constructed (AF_UNSPEC) value is 128 zero bytes: what a move leaves behind. */
  lemma UnspecifiedIsAllZero()
    ensures WithFamily(AF_UNSPEC) == Zeros(SADDR_SIZE)
  {
    var w := WithFamily(AF_UNSPEC);
    assert w[0..2] == LE16(AF_UNSPEC) == [0, 0];
    assert forall k :: 0 <= k < SADDR_SIZE ==> w[k] == Zeros(SADDR_SIZE)[k];
  }

  /**
   * Constructing from at least a SOCKADDR_IN's worth of raw bytes reads back
   * the family, port and IPv4 address of the input; from a full SOCKADDR_IN6
   * of family AF_INET6, also its address, flow info and scope id.
   */
  lemma FromRawReadBack(src: seq<byte>, len: i32)
    requires CopyLength(len) <= |src| && SOCKADDR_IN_SIZE <= CopyLength(len)
    ensures RawFamily(FromRaw(src, len)) == DecodeLE16(src[0..2])
    ensures PortOf(FromRaw(src, len)) as int == src[PORT_AT] as int * 0x100 + src[PORT_AT + 1] as int
    ensures FromRaw(src, len)[IN_ADDR_AT..IN_ADDR_AT + 4] == src[IN_ADDR_AT..IN_ADDR_AT + 4]
    ensures SOCKADDR_IN6_SIZE <= CopyLength(len) && DecodeLE16(src[0..2]) == AF_INET6 ==>
      && FromRaw(src, len)[IN6_ADDR_AT..IN6_ADDR_AT + 16] == src[IN6_ADDR_AT..IN6_ADDR_AT + 16]
      && FlowInfoOf(FromRaw(src, len)) == DecodeLE32(src[FLOWINFO_AT..FLOWINFO_AT + 4])
      && ScopeIdOf(FromRaw(src, len)) == DecodeLE32(src[SCOPE_ID_AT..SCOPE_ID_AT + 4])
  {
    var r := FromRaw(src, len);
    var k := CopyLength(len);
    CommonPrefixSlice(r, src, k, 0, 2);
    CommonPrefixSlice(r, src, k, PORT_AT, PORT_AT + 2);
    CommonPrefixSlice(r, src, k, IN_ADDR_AT, IN_ADDR_AT + 4);
    if SOCKADDR_IN6_SIZE <= k && DecodeLE16(src[0..2]) == AF_INET6 {
      CommonPrefixSlice(r, src, k, IN6_ADDR_AT, IN6_ADDR_AT + 16);
      CommonPrefixSlice(r, src, k, SCOPE_ID_AT, SCOPE_ID_AT + 4);
    }
  }

  /** Two sequences with the same first `k` elements agree on every slice inside them. */
  lemma CommonPrefixSlice(a: seq<byte>, b: seq<byte>, k: nat, lo: nat, hi: nat)
    requires k <= |a| && k <= |b| && a[..k] == b[..k] && lo <= hi <= k
    ensures a[lo..hi] == b[lo..hi]
  {
    assert a[lo..hi] == a[..k][lo..hi];
    assert b[lo..hi] == b[..k][lo..hi];
  }

  /** For a length both overloads can represent, the `int` and `size_t` constructors agree. */
  lemma LengthOverloadsAgree(src: seq<byte>, len: i32)
    requires 0 <= len && CopyLength(len) <= |src|
    ensures FromRaw(src, len) == FromRawSize(src, len as int as u64)
  {
  }

  /**
   * A negative `int` length becomes a huge `size_t`, so the raw-bytes
   * constructor copies the whole storage from the source.
   */
  lemma NegativeLengthCopiesAll(src: seq<byte>, len: i32)
    requires len < 0 && SADDR_SIZE <= |src|
    ensures FromRaw(src, len) == src[..SADDR_SIZE]
  {
  }

  /**
   * `ResolveName` narrows `ai_addrlen` to `int` before constructing; for any
   * length below 2^31 that gives the same value as the `size_t` constructor.
   */
  lemma NarrowedLengthAgrees(src: seq<byte>, len: u64)
    requires len as int < 0x8000_0000 && SizeCopyLength(len) <= |src|
    ensures FromRaw(src, SizeToInt(len)) == FromRawSize(src, len)
  {
    assert SizeToInt(len) as int == len as int;
    assert CopyLength(SizeToInt(len)) == SizeCopyLength(len);
  }

  /**
   * After `mapDualMode4To6()` the value is an AF_INET6 one with no flow info
   * and no scope id, whatever the former contents of these bytes.
   */
  lemma MapDualModeClearsFlowAndScope(s: Storage)
    ensures FlowInfoOf(MapDualModeBytes(s)) == 0 && ScopeIdOf(MapDualModeBytes(s)) == 0
  {
    var r := MapDualModeBytes(s);
    assert r[FLOWINFO_AT..FLOWINFO_AT + 4] == [0, 0, 0, 0];
    assert r[SCOPE_ID_AT..SCOPE_ID_AT + 4] == [0, 0, 0, 0];
  }

  /** `192.0.2.1:80` maps to `[::ffff:192.0.2.1]:80`. */
  lemma MapDualModeExample(v4: Storage)
    requires RawFamily(v4) == AF_INET && PortOf(v4) == 80 && v4[IN_ADDR_AT..IN_ADDR_AT + 4] == [192, 0, 2, 1]
    ensures
      var v6 := MapDualModeBytes(v4);
      && RawFamily(v6) == AF_INET6 && PortOf(v6) == 80
      && v6[IN6_ADDR_AT..IN6_ADDR_AT + 16] == [0, 0, 0, 0, 0, 0, 0, 0, 0, 0, 0xff, 0xff, 192, 0, 2, 1]
  {
    var v6 := MapDualModeBytes(v4);
    assert v6[IN6_ADDR_AT..IN6_ADDR_AT + 16]
        == v6[IN6_ADDR_AT..IN6_ADDR_AT + 12] + v6[IN6_ADDR_AT + 12..IN6_ADDR_AT + 16];
  }

  /** A second `setPort` overwrites the first; nothing of the first survives. */
  lemma SetPortLastWins(s: Storage, p: u16, q: u16, o1: ByteOrder, o2: ByteOrder)
    ensures SetPortBytes(SetPortBytes(s, p, o1), q, o2) == SetPortBytes(s, q, o2)
  {
    var a := SetPortBytes(SetPortBytes(s, p, o1), q, o2);
    var b := SetPortBytes(s, q, o2);
    LE16Bijective(a[0..2]);
    LE16Bijective(b[0..2]);
    SameFieldsSameBytes(a, b);
  }

  /**
   * The port, flow-info and scope-id writers touch disjoint fields: each
   * keeps the family and the other two fields.
   */
  lemma FieldWritersIndependent(s: Storage, p: u16, o: ByteOrder, v: u32)
    ensures RawFamily(SetPortBytes(s, p, o)) == RawFamily(s)
    ensures FlowInfoOf(SetPortBytes(s, p, o)) == FlowInfoOf(s)
    ensures ScopeIdOf(SetPortBytes(s, p, o)) == ScopeIdOf(s)
    ensures RawFamily(SetFlowInfoBytes(s, v)) == RawFamily(s)
    ensures PortOf(SetFlowInfoBytes(s, v)) == PortOf(s)
    ensures ScopeIdOf(SetFlowInfoBytes(s, v)) == ScopeIdOf(s)
    ensures RawFamily(SetScopeIdBytes(s, v)) == RawFamily(s)
    ensures PortOf(SetScopeIdBytes(s, v)) == PortOf(s)
    ensures FlowInfoOf(SetScopeIdBytes(s, v)) == FlowInfoOf(s)
  {
    var a := SetPortBytes(s, p, o);
    assert a[0..2] == s[0..2] && a[4..8] == s[4..8] && a[24..28] == s[24..28];
    var b := SetFlowInfoBytes(s, v);
    assert b[0..2] == s[0..2] && b[2..4] == s[2..4] && b[24..28] == s[24..28];
    var c := SetScopeIdBytes(s, v);
    assert c[0..2] == s[0..2] && c[2..4] == s[2..4] && c[4..8] == s[4..8];
  }
}
