/**
 * `ntl::Sockaddr`: a value type owning one SOCKADDR_STORAGE. Every operation
 * is byte surgery on that buffer, performed in place on `saddr`; each method
 * states the new contents as the matching function of module Storage applied
 * to the old contents.
 */
module Ntl {
  import opened Wire
  import opened Storage
  import opened StorageFacts
  import opened Memory
  import ScopeTrim

  datatype Option<T> = None | Some(value: T)
  datatype Result<T, E> = Success(value: T) | Failure(error: E)

  /** Raw images of the structures the typed overloads accept. */
  type SockaddrInImage = s: seq<byte> | |s| == SOCKADDR_IN_SIZE witness Zeros(SOCKADDR_IN_SIZE)
  type SockaddrIn6Image = s: seq<byte> | |s| == SOCKADDR_IN6_SIZE witness Zeros(SOCKADDR_IN6_SIZE)
  /** SOCKADDR_INET is a union of SOCKADDR_IN and SOCKADDR_IN6; its size is the larger one. */
  type SockaddrInetImage = s: seq<byte> | |s| == SOCKADDR_IN6_SIZE witness Zeros(SOCKADDR_IN6_SIZE)
  type InAddr = s: seq<byte> | |s| == 4 witness Zeros(4)
  type In6Addr = s: seq<byte> | |s| == 16 witness Zeros(16)

  /** SOCKET_ADDRESS: a pointer to a raw address and its `int` length. */
  datatype SocketAddress = SocketAddress(lpSockaddr: seq<byte>, iSockaddrLength: i32)

  /** The part of an ADDRINFOW record that is read: `ai_addr` and `ai_addrlen`. */
  datatype AddrInfo = AddrInfo(aiAddr: seq<byte>, aiAddrLen: u64)

  /** The outcome of `GetAddrInfoW`: the records in resolver order, or the error code. */
  datatype Lookup = Resolved(records: seq<AddrInfo>) | LookupFailed(lastError: int)

  /** `ntl::Exception`: the error code, the failing API and where it was called. */
  datatype Exception = Exception(errorCode: int, failedApi: string, location: string)

  /** The record's `ai_addr` holds at least the bytes `setSockaddr` will copy from it. */
  predicate Copyable(info: AddrInfo) {
    CopyLength(SizeToInt(info.aiAddrLen)) <= |info.aiAddr|
  }

  /** `v` holds what `Sockaddr(ai_addr, static_cast<int>(ai_addrlen))` builds from the record. */
  ghost predicate BuiltFrom(v: Sockaddr, info: AddrInfo)
    reads v.saddr
  {
    Copyable(info) && v.Valid() && v.Bytes() == FromRaw(info.aiAddr, SizeToInt(info.aiAddrLen))
  }

  class Sockaddr {
    /** The SOCKADDR_STORAGE; embedded in the object, so never shared or replaced. */
    const saddr: array<byte>

    ghost predicate Valid() {
      saddr.Length == SADDR_SIZE
    }

    /** The 128 bytes currently held. */
    ghost function Bytes(): Storage
      reads saddr
      requires Valid()
    {
      saddr[..]
    }

    // ----- constructors -----

    /** `Sockaddr(short family = AF_UNSPEC)`. */
    constructor (family: i16 := 0)
      ensures Valid() && fresh(saddr)
      ensures Bytes() == WithFamily(ShortToUShort(family))
    {
      var a := new byte[SADDR_SIZE];
      ZeroMemory(a);
      CopyMemory(a, FAMILY_AT, LE16(ShortToUShort(family)));
      saddr := a;
    }

    /** `Sockaddr(const SOCKADDR*, int length)`. */
    constructor FromSockaddr(inAddr: seq<byte>, inLength: i32)
      requires CopyLength(inLength) <= |inAddr|
      ensures Valid() && fresh(saddr)
      ensures Bytes() == FromRaw(inAddr, inLength)
    {
      var length := CopyLength(inLength);
      var a := new byte[SADDR_SIZE];
      ZeroMemory(a);
      CopyMemory(a, 0, inAddr[..length]);
      saddr := a;
    }

    /** `Sockaddr(const SOCKADDR*, size_t length)`. */
    constructor FromSockaddrSize(inAddr: seq<byte>, inLength: u64)
      requires SizeCopyLength(inLength) <= |inAddr|
      ensures Valid() && fresh(saddr)
      ensures Bytes() == FromRawSize(inAddr, inLength)
    {
      var length := SizeCopyLength(inLength);
      var a := new byte[SADDR_SIZE];
      ZeroMemory(a);
      CopyMemory(a, 0, inAddr[..length]);
      saddr := a;
    }

    /** `Sockaddr(const SOCKADDR_IN*)`. */
    constructor FromSockaddrIn(inAddr: SockaddrInImage)
      ensures Valid() && fresh(saddr)
      ensures Bytes() == FromRaw(inAddr, SOCKADDR_IN_SIZE as i32)
    {
      var a := new byte[SADDR_SIZE];
      ZeroMemory(a);
      CopyMemory(a, 0, inAddr);
      saddr := a;
    }

    /** `Sockaddr(const SOCKADDR_IN6*)`. */
    constructor FromSockaddrIn6(inAddr: SockaddrIn6Image)
      ensures Valid() && fresh(saddr)
      ensures Bytes() == FromRaw(inAddr, SOCKADDR_IN6_SIZE as i32)
    {
      var a := new byte[SADDR_SIZE];
      ZeroMemory(a);
      CopyMemory(a, 0, inAddr);
      saddr := a;
    }

    /** `Sockaddr(const SOCKADDR_INET*)`. */
    constructor FromSockaddrInet(inAddr: SockaddrInetImage)
      ensures Valid() && fresh(saddr)
      ensures Bytes() == FromInet(inAddr)
    {
      var a := new byte[SADDR_SIZE];
      ZeroMemory(a);
      if AF_INET == DecodeLE16(inAddr[0..2]) {
        CopyMemory(a, 0, inAddr[..SOCKADDR_IN_SIZE]);
      } else {
        CopyMemory(a, 0, inAddr[..SOCKADDR_IN6_SIZE]);
      }
      saddr := a;
    }

    /** `Sockaddr(const SOCKADDR_STORAGE*)`: a plain 128-byte copy, no zeroing. */
    constructor FromSockaddrStorage(inAddr: Storage)
      ensures Valid() && fresh(saddr)
      ensures Bytes() == inAddr
    {
      var a := new byte[SADDR_SIZE];
      CopyMemory(a, 0, inAddr);
      saddr := a;
    }

    /** `Sockaddr(const SOCKET_ADDRESS*)`. */
    constructor FromSocketAddress(inAddr: SocketAddress)
      requires CopyLength(inAddr.iSockaddrLength) <= |inAddr.lpSockaddr|
      ensures Valid() && fresh(saddr)
      ensures Bytes() == FromRaw(inAddr.lpSockaddr, inAddr.iSockaddrLength)
    {
      var length := CopyLength(inAddr.iSockaddrLength);
      var a := new byte[SADDR_SIZE];
      ZeroMemory(a);
      CopyMemory(a, 0, inAddr.lpSockaddr[..length]);
      saddr := a;
    }

    /** The copy constructor. */
    constructor Copy(inAddr: Sockaddr)
      requires inAddr.Valid()
      ensures Valid() && fresh(saddr)
      ensures Bytes() == inAddr.Bytes()
    {
      var a := new byte[SADDR_SIZE];
      CopyMemory(a, 0, inAddr.saddr[..]);
      saddr := a;
    }

    /** The move constructor: copies the buffer and, unlike move assignment, leaves the source as it was. */
    constructor Move(inAddr: Sockaddr)
      requires inAddr.Valid()
      ensures Valid() && fresh(saddr)
      ensures Bytes() == inAddr.Bytes()
    {
      var a := new byte[SADDR_SIZE];
      CopyMemory(a, 0, inAddr.saddr[..]);
      saddr := a;
    }

    // ----- value semantics -----

    /** Copy assignment, by copy and swap; assigning a value to itself keeps it. */
    method CopyAssign(inAddr: Sockaddr)
      requires Valid() && inAddr.Valid()
      modifies saddr
      ensures Bytes() == old(inAddr.Bytes())
      ensures inAddr.Bytes() == old(inAddr.Bytes())
    {
      var temp := new Sockaddr.Copy(inAddr);
      Swap(temp);
    }

    /**
     * Move assignment: copy the buffer, then zero the source, which then
     * equals a default-constructed `Sockaddr()`. Moving a value onto itself
     * therefore zeroes it.
     */
    method MoveAssign(inAddr: Sockaddr)
      requires Valid() && inAddr.Valid()
      modifies saddr, inAddr.saddr
      ensures inAddr.Bytes() == WithFamily(AF_UNSPEC)
      ensures Bytes() == if inAddr.saddr == saddr then WithFamily(AF_UNSPEC) else old(inAddr.Bytes())
    {
      CopyMemory(saddr, 0, inAddr.saddr[..]);
      ZeroMemory(inAddr.saddr);
      UnspecifiedIsAllZero();
    }

    /** `operator==`: memcmp over all 128 bytes, the unused tail included. */
    predicate Equals(other: Sockaddr)
      reads saddr, other.saddr
      requires Valid() && other.Valid()
      ensures Equals(other) <==> Bytes() == other.Bytes()
    {
      forall k :: 0 <= k < SADDR_SIZE ==> saddr[k] == other.saddr[k]
    }

    /** `operator!=`. */
    predicate NotEquals(other: Sockaddr)
      reads saddr, other.saddr
      requires Valid() && other.Valid()
      ensures NotEquals(other) <==> Bytes() != other.Bytes()
    {
      !Equals(other)
    }

    /** `reset(short family = AF_UNSPEC)`: the same contents as `Sockaddr(family)`. */
    method Reset(family: i16 := 0)
      requires Valid()
      modifies saddr
      ensures Bytes() == WithFamily(ShortToUShort(family))
    {
      ZeroMemory(saddr);
      CopyMemory(saddr, FAMILY_AT, LE16(ShortToUShort(family)));
    }

    /** `swap`: exchanges the two buffers byte by byte. */
    method Swap(inAddr: Sockaddr)
      requires Valid() && inAddr.Valid()
      modifies saddr, inAddr.saddr
      ensures Bytes() == old(inAddr.Bytes()) && inAddr.Bytes() == old(Bytes())
    {
      var k := 0;
      while k < SADDR_SIZE
        invariant 0 <= k <= SADDR_SIZE
        invariant forall j :: 0 <= j < k ==> saddr[j] == old(inAddr.saddr[j]) && inAddr.saddr[j] == old(saddr[j])
        invariant forall j :: k <= j < SADDR_SIZE ==> saddr[j] == old(saddr[j]) && inAddr.saddr[j] == old(inAddr.saddr[j])
      {
        var t := saddr[k];
        saddr[k] := inAddr.saddr[k];
        inAddr.saddr[k] := t;
        k := k + 1;
      }
    }

    // ----- setSockaddr -----

    /** `setSockaddr(const SOCKADDR*, int length)`. */
    method SetSockaddr(inAddr: seq<byte>, inLength: i32)
      requires Valid() && CopyLength(inLength) <= |inAddr|
      modifies saddr
      ensures Bytes() == FromRaw(inAddr, inLength)
    {
      var length := CopyLength(inLength);
      ZeroMemory(saddr);
      CopyMemory(saddr, 0, inAddr[..length]);
    }

    /** `setSockaddr(const SOCKADDR_IN*)`. */
    method SetSockaddrIn(inAddr: SockaddrInImage)
      requires Valid()
      modifies saddr
      ensures Bytes() == FromRaw(inAddr, SOCKADDR_IN_SIZE as i32)
    {
      ZeroMemory(saddr);
      CopyMemory(saddr, 0, inAddr);
    }

    /** `setSockaddr(const SOCKADDR_IN6*)`. */
    method SetSockaddrIn6(inAddr: SockaddrIn6Image)
      requires Valid()
      modifies saddr
      ensures Bytes() == FromRaw(inAddr, SOCKADDR_IN6_SIZE as i32)
    {
      ZeroMemory(saddr);
      CopyMemory(saddr, 0, inAddr);
    }

    /** `setSockaddr(const SOCKADDR_INET*)`. */
    method SetSockaddrInet(inAddr: SockaddrInetImage)
      requires Valid()
      modifies saddr
      ensures Bytes() == FromInet(inAddr)
    {
      ZeroMemory(saddr);
      if AF_INET == DecodeLE16(inAddr[0..2]) {
        CopyMemory(saddr, 0, inAddr[..SOCKADDR_IN_SIZE]);
      } else {
        CopyMemory(saddr, 0, inAddr[..SOCKADDR_IN6_SIZE]);
      }
    }

    /** `setSockaddr(const SOCKADDR_STORAGE*)`: a plain 128-byte copy. */
    method SetSockaddrStorage(inAddr: Storage)
      requires Valid()
      modifies saddr
      ensures Bytes() == inAddr
    {
      CopyMemory(saddr, 0, inAddr);
    }

    /** `setSockaddr(const SOCKET_ADDRESS*)`. */
    method SetSockaddrSocketAddress(inAddr: SocketAddress)
      requires Valid() && CopyLength(inAddr.iSockaddrLength) <= |inAddr.lpSockaddr|
      modifies saddr
      ensures Bytes() == FromRaw(inAddr.lpSockaddr, inAddr.iSockaddrLength)
    {
      var length := CopyLength(inAddr.iSockaddrLength);
      ZeroMemory(saddr);
      CopyMemory(saddr, 0, inAddr.lpSockaddr[..length]);
    }

    // ----- field setters -----

    /** `setPort(port, order = HostOrder)`: writes `sin_port`, whatever the family. */
    method SetPort(port: u16, order: ByteOrder := HostOrder)
      requires Valid()
      modifies saddr
      ensures Bytes() == SetPortBytes(old(Bytes()), port, order)
    {
      CopyMemory(saddr, PORT_AT, LE16(if order == HostOrder then ByteSwap16(port) else port));
    }

    /**
     * `mapDualMode4To6()`: builds `::ffff:a.b.c.d` with the current port in a
     * temporary AF_INET6 value, then swaps it in.
     */
    method MapDualMode4To6()
      requires Valid()
      modifies saddr
      ensures Bytes() == MapDualModeBytes(old(Bytes()))
    {
      ghost var s := saddr[..];
      var tempV6 := new Sockaddr(AF_INET6 as i16);
      assert ShortToUShort(AF_INET6 as i16) == AF_INET6;
      var a4 := saddr[IN_ADDR_AT..IN_ADDR_AT + 4];
      CopyMemory(tempV6.saddr, IN6_ADDR_AT, V4_MAPPED_PREFIX);
      assert tempV6.Bytes() == Put(WithFamily(AF_INET6), IN6_ADDR_AT, V4_MAPPED_PREFIX);
      CopyMemory(tempV6.saddr, IN6_ADDR_AT + 12, a4);
      ghost var mapped := tempV6.Bytes();
      tempV6.SetPort(Port());
      assert tempV6.Bytes() == SetPortBytes(mapped, PortOf(s), HostOrder);
      Swap(tempV6);
    }

    /**
     * `setAddress(text)`: the numeric-host lookup is `parse`. On success the
     * record is stored with `setSockaddr`; on failure nothing changes.
     */
    method SetAddressText(text: string, parse: string -> Option<AddrInfo>) returns (ok: bool)
      requires Valid() && (parse(text).Some? ==> Copyable(parse(text).value))
      modifies saddr
      ensures ok == parse(text).Some?
      ensures ok ==> Bytes() == FromRaw(parse(text).value.aiAddr, SizeToInt(parse(text).value.aiAddrLen))
      ensures !ok ==> Bytes() == old(Bytes())
    {
      var result := parse(text);
      if result.Some? {
        SetSockaddr(result.value.aiAddr, SizeToInt(result.value.aiAddrLen));
        ok := true;
      } else {
        ok := false;
      }
    }

    /** `setAddress(const IN_ADDR*)`. */
    method SetAddressIn(inAddr: InAddr)
      requires Valid()
      modifies saddr
      ensures Bytes() == SetInAddrBytes(old(Bytes()), inAddr)
    {
      CopyMemory(saddr, FAMILY_AT, LE16(AF_INET));
      CopyMemory(saddr, IN_ADDR_AT, inAddr);
    }

    /** `setAddress(const IN6_ADDR*)`. */
    method SetAddressIn6(inAddr: In6Addr)
      requires Valid()
      modifies saddr
      ensures Bytes() == SetIn6AddrBytes(old(Bytes()), inAddr)
    {
      CopyMemory(saddr, FAMILY_AT, LE16(AF_INET6));
      CopyMemory(saddr, IN6_ADDR_AT, inAddr);
    }

    /** `setFlowInfo(v)`. */
    method SetFlowInfo(flowinfo: u32)
      requires Valid()
      modifies saddr
      ensures Bytes() == SetFlowInfoBytes(old(Bytes()), flowinfo)
    {
      if AF_INET6 == RawFamily(saddr[..]) {
        CopyMemory(saddr, FLOWINFO_AT, LE32(flowinfo));
      }
    }

    /** `setScopeId(v)`. */
    method SetScopeId(scopeid: u32)
      requires Valid()
      modifies saddr
      ensures Bytes() == SetScopeIdBytes(old(Bytes()), scopeid)
    {
      if AF_INET6 == RawFamily(saddr[..]) {
        CopyMemory(saddr, SCOPE_ID_AT, LE32(scopeid));
      }
    }

    /**
     * `setAddressLoopback()`. Any family but AF_INET and AF_INET6 is a fatal
     * condition, which the precondition rules out.
     */
    method SetAddressLoopback()
      requires Valid() && IsV4OrV6(Bytes())
      modifies saddr
      ensures Bytes() == LoopbackBytes(old(Bytes()))
    {
      if AF_INET == RawFamily(saddr[..]) {
        var port := saddr[PORT_AT..PORT_AT + 2];
        ZeroMemory(saddr);
        CopyMemory(saddr, FAMILY_AT, LE16(AF_INET));
        CopyMemory(saddr, PORT_AT, port);
        CopyMemory(saddr, IN_ADDR_AT, LE32(INADDR_LOOPBACK_IMAGE));
      } else {
        var port := saddr[PORT_AT..PORT_AT + 2];
        ZeroMemory(saddr);
        CopyMemory(saddr, FAMILY_AT, LE16(AF_INET6));
        CopyMemory(saddr, PORT_AT, port);
        CopyMemory(saddr, IN6_ADDR_AT + 15, [1]);
      }
    }

    /** `setAddressAny()`: any family but AF_INET and AF_INET6 is silently left alone. */
    method SetAddressAny()
      requires Valid()
      modifies saddr
      ensures Bytes() == AnyBytes(old(Bytes()))
    {
      if AF_INET == RawFamily(saddr[..]) {
        var port := saddr[PORT_AT..PORT_AT + 2];
        ZeroMemory(saddr);
        CopyMemory(saddr, FAMILY_AT, LE16(AF_INET));
        CopyMemory(saddr, PORT_AT, port);
      } else if AF_INET6 == RawFamily(saddr[..]) {
        var port := saddr[PORT_AT..PORT_AT + 2];
        ZeroMemory(saddr);
        CopyMemory(saddr, FAMILY_AT, LE16(AF_INET6));
        CopyMemory(saddr, PORT_AT, port);
      }
    }

    // ----- queries -----

    /**
     * `isAddressLoopback()`: a copy with the loopback address set compares
     * equal; that is, the value is 127.0.0.1 or `::1` with nothing else set.
     * The copy's `setAddressLoopback` is fatal for other families.
     */
    predicate IsAddressLoopback()
      reads saddr
      requires Valid() && IsV4OrV6(Bytes())
      ensures IsAddressLoopback() <==> LoopbackShaped(Bytes())
    {
      IsLoopbackIff(saddr[..]);
      IsLoopbackBytes(saddr[..])
    }

    /**
     * `isAddressAny()`: a copy with the wildcard address set compares equal;
     * that is, every byte after the port is zero, or the family is neither
     * AF_INET nor AF_INET6.
     */
    predicate IsAddressAny()
      reads saddr
      requires Valid()
      ensures IsAddressAny() <==> (IsV4OrV6(Bytes()) ==> ZeroOn(Bytes(), PORT_AT + 2, SADDR_SIZE))
    {
      IsAnyIff(saddr[..]);
      IsAnyBytes(saddr[..])
    }

    /** `length()`: the storage size whatever the family, so enough for either structure. */
    function Length(): (n: int)
      ensures n == SADDR_SIZE && SOCKADDR_IN_SIZE <= n && SOCKADDR_IN6_SIZE <= n
    {
      SADDR_SIZE
    }

    /** `family()`. */
    function Family(): (r: i16)
      reads saddr
      requires Valid()
      ensures ShortToUShort(r) == RawFamily(Bytes())
    {
      FamilyOf(saddr[..])
    }

    /** `port()`, in host order. */
    function Port(): (r: u16)
      reads saddr
      requires Valid()
      ensures r as int == Bytes()[PORT_AT] as int * 0x100 + Bytes()[PORT_AT + 1] as int
    {
      PortOf(saddr[..])
    }

    /** `flowinfo()`. */
    function FlowInfo(): (r: u32)
      reads saddr
      requires Valid()
      ensures RawFamily(Bytes()) != AF_INET6 ==> r == 0
      ensures RawFamily(Bytes()) == AF_INET6 ==> LE32(r) == Bytes()[FLOWINFO_AT..FLOWINFO_AT + 4]
    {
      FlowInfoOf(saddr[..])
    }

    /** `scopeId()`. */
    function ScopeId(): (r: u32)
      reads saddr
      requires Valid()
      ensures RawFamily(Bytes()) != AF_INET6 ==> r == 0
      ensures RawFamily(Bytes()) == AF_INET6 ==> LE32(r) == Bytes()[SCOPE_ID_AT..SCOPE_ID_AT + 4]
    {
      ScopeIdOf(saddr[..])
    }

    // ----- text -----

    /**
     * `writeCompleteAddress(address, trim_scope)`. The buffer is zeroed and
     * handed to the system formatter, here `formatted`: None when it fails,
     * else the characters it writes, terminator included, whose count it
     * reports back. For AF_INET6 with `trimScope` the scope is then trimmed.
     */
    method WriteCompleteAddress(address: array<char>, trimScope: bool, formatted: Option<seq<char>>)
      returns (ok: bool)
      requires Valid() && address.Length == ScopeTrim.IP_STRING_MAX_LENGTH
      requires formatted.Some? ==> |formatted.value| <= ScopeTrim.IP_STRING_MAX_LENGTH
      requires formatted.Some? && Family() as int == AF_INET6 as int && trimScope ==>
        ScopeTrim.BracketAfterScope(ScopeTrim.Padded(formatted.value, ScopeTrim.IP_STRING_MAX_LENGTH), |formatted.value|)
      modifies address
      ensures ok == formatted.Some?
      ensures !ok ==> address[..] == ScopeTrim.Padded([], ScopeTrim.IP_STRING_MAX_LENGTH)
      ensures ok ==>
        var written := ScopeTrim.Padded(formatted.value, ScopeTrim.IP_STRING_MAX_LENGTH);
        address[..] == if Family() as int == AF_INET6 as int && trimScope
                       then ScopeTrim.Trimmed(written, |formatted.value|) else written
    {
      FillMemory(address, ScopeTrim.NUL);
      if formatted.None? {
        assert address[..] == ScopeTrim.Padded([], ScopeTrim.IP_STRING_MAX_LENGTH);
        return false;
      }
      CopyMemory(address, 0, formatted.value);
      assert address[..] == ScopeTrim.Padded(formatted.value, ScopeTrim.IP_STRING_MAX_LENGTH);
      var addressLength := |formatted.value|;
      if Family() as int == AF_INET6 as int && trimScope {
        ScopeTrim.TrimScope(address, addressLength);
      }
      ok := true;
    }

    // ----- name resolution -----

    /**
     * `ResolveName(name)`: `getAddrInfo` is the system resolver. Each record
     * becomes one value through the raw-bytes constructor, in resolver order;
     * a failed lookup raises an `ntl::Exception` carrying the error code.
     */
    static method ResolveName(name: string, getAddrInfo: string -> Lookup)
      returns (r: Result<seq<Sockaddr>, Exception>)
      requires getAddrInfo(name).Resolved? ==>
        forall k :: 0 <= k < |getAddrInfo(name).records| ==> Copyable(getAddrInfo(name).records[k])
      ensures getAddrInfo(name).LookupFailed? ==>
        r == Failure(Exception(getAddrInfo(name).lastError, "GetAddrInfoW", "ntl::Sockaddr::ResolveName"))
      ensures getAddrInfo(name).Resolved? ==>
        && r.Success? && |r.value| == |getAddrInfo(name).records|
        && forall k :: 0 <= k < |r.value| ==>
          fresh(r.value[k].saddr) && BuiltFrom(r.value[k], getAddrInfo(name).records[k])
      ensures r.Success? ==> forall i, j :: 0 <= i < j < |r.value| ==> r.value[i].saddr != r.value[j].saddr
    {
      var lookup := getAddrInfo(name);
      if lookup.LookupFailed? {
        return Failure(Exception(lookup.lastError, "GetAddrInfoW", "ntl::Sockaddr::ResolveName"));
      }
      var records := lookup.records;
      var returnAddrs: seq<Sockaddr> := [];
      var k := 0;
      while k < |records|
        invariant 0 <= k <= |records| && |returnAddrs| == k
        invariant forall j :: 0 <= j < k ==> fresh(returnAddrs[j].saddr) && BuiltFrom(returnAddrs[j], records[j])
        invariant forall i, j :: 0 <= i < j < k ==> returnAddrs[i].saddr != returnAddrs[j].saddr
      {
        var addr := new Sockaddr.FromSockaddr(records[k].aiAddr, SizeToInt(records[k].aiAddrLen));
        assert forall j :: 0 <= j < k ==> returnAddrs[j].saddr != addr.saddr;
        assert BuiltFrom(addr, records[k]);
        assert forall j :: 0 <= j < k ==> BuiltFrom(returnAddrs[j], records[j]);
        returnAddrs := returnAddrs + [addr];
        k := k + 1;
      }
      return Success(returnAddrs);
    }
  }

  /** The non-member `swap(left, right)`. */
  method SwapValues(left: Sockaddr, right: Sockaddr)
    requires left.Valid() && right.Valid()
    modifies left.saddr, right.saddr
    ensures left.Bytes() == old(right.Bytes()) && right.Bytes() == old(left.Bytes())
  {
    left.Swap(right);
  }

  /** Swapping twice gives both values back. */
  method SwapTwiceRestores(a: Sockaddr, b: Sockaddr)
    requires a.Valid() && b.Valid()
    modifies a.saddr, b.saddr
    ensures a.Bytes() == old(a.Bytes()) && b.Bytes() == old(b.Bytes())
  {
    a.Swap(b);
    a.Swap(b);
  }
}
