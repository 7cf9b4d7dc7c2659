# ntl::Sockaddr in Dafny

This project models `ntl::Sockaddr` from the FirewallEventMonitor `ntl` library.
`ntl::Sockaddr` is a value type that owns one 128-byte `SOCKADDR_STORAGE`. Each of its
operations is byte surgery on that buffer:

- zero the buffer and copy a clamped number of bytes in;
- rewrite the address bytes while keeping the port;
- store the port in network byte order;
- compare all 128 bytes.

The host is fixed as little-endian, so the buffer is laid out like this:

| bytes | field |
|---|---|
| 0..1 | `ss_family`, native USHORT (`AF_UNSPEC` 0, `AF_INET` 2, `AF_INET6` 23) |
| 2..3 | `sin_port` / `sin6_port`, network order |
| 4..7 | `sin_addr`, or `sin6_flowinfo` (native order) |
| 8..23 | `sin6_addr` |
| 24..27 | `sin6_scope_id` (native order) |

The canonical addresses are the ones in RFC 4291:

- loopback `::1` (section 2.5.3);
- unspecified `::` (section 2.5.2);
- IPv4-mapped `::ffff:a.b.c.d` (section 2.5.5.2).

The IPv4 loopback is 127.0.0.1, stored as the native ULONG `0x0100007f`.

Modules:

- `Wire`: the machine words, the byte codecs, `htons`/`ntohs` as a 16-bit byte swap, and
  the C conversions between `short` and `unsigned short` and from `size_t` to `int`.
- `Storage`: the buffer as a value (`Storage`, a 128-byte sequence). There is one
  function per operation, giving the buffer the operation leaves behind.
- `StorageFacts`: lemmas that relate these functions. They cover the loopback and
  wildcard tests against an independent description, idempotence, read-back and
  independence of the fields.
- `ScopeTrim`: the trim of `%scope` done by `writeCompleteAddress`. It is an index
  model of `std::find` (`Find`), a specification (`Trimmed`), and the in-place two-loop
  method (`TrimScope`) proved against it.
- `Memory`: `ZeroMemory`, `FillMemory` and `CopyMemory` as loops over an array.
- `Ntl`: the class `Sockaddr`. Its buffer is `saddr: array<byte>`. Every mutator
  changes it in place and states the new contents as the matching `Storage` function
  of the old contents. The queries are functions of the buffer.

Calls into the operating system become parameters:

- `GetAddrInfoW` in `ResolveName` is `getAddrInfo: string -> Lookup`;
- the numeric-host lookup of `setAddress(text)` is `parse: string -> Option<AddrInfo>`;
- the output of `WSAAddressToString` is `formatted: Option<seq<char>>`.

## Model

| member | source | states |
|---|---|---|
| Wire.LE16 | FirewallEventMonitor/ntl/ntlSockaddr.hpp:154-158 | the two-byte native image of a USHORT decodes back to the same value, low byte first |
| Wire.LE32 | FirewallEventMonitor/ntl/ntlSockaddr.hpp:422-435 | the four-byte native image of a ULONG decodes back to the same value |
| Wire.ByteSwap16 | FirewallEventMonitor/ntl/ntlSockaddr.hpp:352-356 | `htons`/`ntohs` exchange the high and low bytes of a USHORT |
| Wire.ShortToUShort | FirewallEventMonitor/ntl/ntlSockaddr.hpp:154-158 | storing a C `short` into `ss_family` keeps a non-negative value and adds 2^16 to a negative one |
| Wire.UShortToShort | FirewallEventMonitor/ntl/ntlSockaddr.hpp:541-544 | reading `ss_family` back as a `short` is the inverse of that store |
| Wire.SizeToInt | FirewallEventMonitor/ntl/ntlSockaddr.hpp:38-54 | `static_cast<int>` of `ai_addrlen` is congruent to it modulo 2^32, and equal to it below 2^31 |
| Wire.Put | FirewallEventMonitor/ntl/ntlSockaddr.hpp:160-166 | a store at an offset changes exactly the bytes it covers, to the stored ones |
| Storage.PortOf | FirewallEventMonitor/ntl/ntlSockaddr.hpp:545-549 | `port()` reads bytes 2..3 as a big-endian number, whatever the family |
| Storage.FamilyOf | FirewallEventMonitor/ntl/ntlSockaddr.hpp:541-544 | `family()` is the `short` whose `unsigned short` image is the stored `ss_family` |
| Storage.FlowInfoOf | FirewallEventMonitor/ntl/ntlSockaddr.hpp:550-558 | 0 unless the family is AF_INET6; then the ULONG whose native image is bytes 4..7 |
| Storage.ScopeIdOf | FirewallEventMonitor/ntl/ntlSockaddr.hpp:559-567 | 0 unless the family is AF_INET6; then the ULONG whose native image is bytes 24..27 |
| Storage.CopyLength | FirewallEventMonitor/ntl/ntlSockaddr.hpp:160-166 | an `int` length in [0,128] is copied as is; a negative one (wrapped as `size_t`) or one over 128 gives 128 |
| Storage.SizeCopyLength | FirewallEventMonitor/ntl/ntlSockaddr.hpp:167-173 | a `size_t` length is clamped to 128 |
| Storage.WithFamily | FirewallEventMonitor/ntl/ntlSockaddr.hpp:154-158 | `Sockaddr(f)` and `reset(f)` hold family `f` and zeroes everywhere else |
| Storage.FromRaw | FirewallEventMonitor/ntl/ntlSockaddr.hpp:258-264 | the first `k = CopyLength(len)` bytes are the source's, and `[k,128)` is zero |
| Storage.FromRawSize | FirewallEventMonitor/ntl/ntlSockaddr.hpp:167-173 | the first `min(len,128)` bytes are the source's, and the rest is zero |
| Storage.FromInet | FirewallEventMonitor/ntl/ntlSockaddr.hpp:185-193 | copies 16 bytes if the union's family is AF_INET and all 28 otherwise; keeps its family; the rest is zero |
| Storage.SetPortBytes | FirewallEventMonitor/ntl/ntlSockaddr.hpp:352-356 | after `setPort(p, HostOrder)`, `port()` is `p`; after `NetworkOrder` it is the byte-swapped `p`; only bytes 2..3 change |
| Storage.SetInAddrBytes | FirewallEventMonitor/ntl/ntlSockaddr.hpp:409-414 | family becomes AF_INET and bytes 4..7 the address; the port and every other byte are unchanged |
| Storage.SetIn6AddrBytes | FirewallEventMonitor/ntl/ntlSockaddr.hpp:415-420 | family becomes AF_INET6 and bytes 8..23 the address; the port and every other byte are unchanged |
| Storage.SetFlowInfoBytes | FirewallEventMonitor/ntl/ntlSockaddr.hpp:422-428 | for AF_INET6, `flowinfo()` reads back the value and only bytes 4..7 change; any other family is left unchanged |
| Storage.SetScopeIdBytes | FirewallEventMonitor/ntl/ntlSockaddr.hpp:429-435 | for AF_INET6, `scopeId()` reads back the value and only bytes 24..27 change; any other family is left unchanged |
| Storage.LoopbackBytes | FirewallEventMonitor/ntl/ntlSockaddr.hpp:298-320 | family and port are kept; v4 gets bytes 4..7 = 127.0.0.1, v6 gets byte 23 = 1, and every other byte is zero |
| Storage.AnyBytes | FirewallEventMonitor/ntl/ntlSockaddr.hpp:321-338 | for v4/v6, family and port are kept and bytes 4..127 are zero; any other family is unchanged |
| Storage.MapDualModeBytes | FirewallEventMonitor/ntl/ntlSockaddr.hpp:358-374 | family AF_INET6, the same `port()`, address `00×10 ff ff` then the former bytes 4..7, and zero flow info and bytes 24..127 |
| StorageFacts.SameFieldsSameBytes | FirewallEventMonitor/ntl/ntlSockaddr.hpp:231-234 | two buffers with the same family, port and bytes 4..127 are byte-equal |
| StorageFacts.IsLoopbackIff | FirewallEventMonitor/ntl/ntlSockaddr.hpp:339-344 | `x == setAddressLoopback(x)` holds exactly for 127.0.0.1 or `::1` with every other byte after the port zero |
| StorageFacts.IsAnyIff | FirewallEventMonitor/ntl/ntlSockaddr.hpp:345-350 | `x == setAddressAny(x)` holds exactly when the family is neither v4 nor v6, or bytes 4..127 are zero |
| StorageFacts.LoopbackIdempotent | FirewallEventMonitor/ntl/ntlSockaddr.hpp:298-320 | setting the loopback address twice equals setting it once |
| StorageFacts.AnyIdempotent | FirewallEventMonitor/ntl/ntlSockaddr.hpp:321-338 | setting the wildcard address twice equals setting it once |
| StorageFacts.LoopbackIsNotAny | FirewallEventMonitor/ntl/ntlSockaddr.hpp:339-350 | right after `setAddressLoopback`, `isAddressLoopback` holds and `isAddressAny` does not |
| StorageFacts.AnyIsNotLoopback | FirewallEventMonitor/ntl/ntlSockaddr.hpp:339-350 | right after `setAddressAny` on v4/v6, `isAddressAny` holds and `isAddressLoopback` does not |
| StorageFacts.StaleTailDefeatsBoth | FirewallEventMonitor/ntl/ntlSockaddr.hpp:339-350 | a nonzero byte in 28..127 makes both tests false |
| StorageFacts.ScopeIdDefeatsBoth | FirewallEventMonitor/ntl/ntlSockaddr.hpp:339-350 | a nonzero scope id on AF_INET6 makes both tests false |
| StorageFacts.FlowInfoDefeatsBoth | FirewallEventMonitor/ntl/ntlSockaddr.hpp:339-350 | a nonzero flow info on AF_INET6 makes both tests false |
| StorageFacts.FamilyRoundTrip | FirewallEventMonitor/ntl/ntlSockaddr.hpp:541-544 | `Sockaddr(f).family() == f` for every `short f` |
| StorageFacts.UnspecifiedIsAllZero | FirewallEventMonitor/ntl/ntlSockaddr.hpp:224-229 | a default-constructed value is 128 zero bytes, as move assignment leaves its source |
| StorageFacts.FromRawReadBack | FirewallEventMonitor/ntl/ntlSockaddr.hpp:160-166 | from at least 16 raw bytes the family, port and v4 address read back; from 28 bytes of a v6 one, also its address, flow info and scope id |
| StorageFacts.LengthOverloadsAgree | FirewallEventMonitor/ntl/ntlSockaddr.hpp:160-173 | the `int` and `size_t` raw-bytes constructors agree on every non-negative length |
| StorageFacts.NegativeLengthCopiesAll | FirewallEventMonitor/ntl/ntlSockaddr.hpp:160-166 | a negative `int` length copies all 128 source bytes |
| StorageFacts.NarrowedLengthAgrees | FirewallEventMonitor/ntl/ntlSockaddr.hpp:46-48 | narrowing `ai_addrlen` to `int` gives the `size_t` constructor's value for every length below 2^31 |
| StorageFacts.MapDualModeClearsFlowAndScope | FirewallEventMonitor/ntl/ntlSockaddr.hpp:358-374 | after the mapping, `flowinfo()` and `scopeId()` are 0 |
| StorageFacts.MapDualModeExample | FirewallEventMonitor/ntl/ntlSockaddr.hpp:358-374 | any AF_INET value for 192.0.2.1 port 80 maps to `::ffff:192.0.2.1` port 80 |
| StorageFacts.SetPortLastWins | FirewallEventMonitor/ntl/ntlSockaddr.hpp:352-356 | a second `setPort` overwrites the first completely |
| StorageFacts.FieldWritersIndependent | FirewallEventMonitor/ntl/ntlSockaddr.hpp:352-356 | `setPort`, `setFlowInfo` and `setScopeId` each keep the family and the other two fields |
| ScopeTrim.Find | FirewallEventMonitor/ntl/ntlSockaddr.hpp:481 | `std::find` returns the first position holding the character within the range, or the end |
| ScopeTrim.TrimPreserves | FirewallEventMonitor/ntl/ntlSockaddr.hpp:479-498 | the text before the first `%` and everything from `n` on are preserved; without a `%` nothing changes |
| ScopeTrim.TrimmedAt | FirewallEventMonitor/ntl/ntlSockaddr.hpp:482-497 | position by position, for a `%` at `i`: `[0,i)` is kept; with a `]` at `j`, position `i+d` holds the old `j+d` for `d < n-j`, and every later position keeps its stale old character, since the move never clears it; without a `]`, `[i,n)` is NUL |
| ScopeTrim.Padded | FirewallEventMonitor/ntl/ntlSockaddr.hpp:475-478 | the zeroed buffer with the formatter's text at its start and NUL after it |
| ScopeTrim.TrimDeletesScope | FirewallEventMonitor/ntl/ntlSockaddr.hpp:479-498 | read as a C string, the trimmed buffer is the text with the `%scope` segment removed, up to the `]` when there is one |
| ScopeTrim.TrimExampleWithPort | FirewallEventMonitor/ntl/ntlSockaddr.hpp:484-489 | `[fe80::1%3]:8080` becomes `[fe80::1]:8080` |
| ScopeTrim.TrimExampleWithoutPort | FirewallEventMonitor/ntl/ntlSockaddr.hpp:490-496 | `fe80::1%3` becomes `fe80::1` |
| ScopeTrim.TrimScope | FirewallEventMonitor/ntl/ntlSockaddr.hpp:479-498 | the in-place loops leave exactly `Trimmed` of the old buffer |
| ScopeTrim.ShiftOnto | FirewallEventMonitor/ntl/ntlSockaddr.hpp:485-489 | the first loop leaves `[move_ptr,n)` copied onto `scope_ptr` and every other character as it was |
| ScopeTrim.Blank | FirewallEventMonitor/ntl/ntlSockaddr.hpp:492-495 | the second loop leaves `[scope_ptr,n)` NUL and every other character as it was |
| Memory.ZeroMemory | FirewallEventMonitor/ntl/ntlSockaddr.hpp:156 | the array becomes all zero |
| Memory.FillMemory | FirewallEventMonitor/ntl/ntlSockaddr.hpp:475 | every element of the array becomes the given value |
| Memory.CopyMemory | FirewallEventMonitor/ntl/ntlSockaddr.hpp:164 | the array becomes its old contents with the source written at the offset |
| Ntl.Sockaddr.constructor | FirewallEventMonitor/ntl/ntlSockaddr.hpp:154-158 | the new buffer is `WithFamily(f)` |
| Ntl.Sockaddr.FromSockaddr | FirewallEventMonitor/ntl/ntlSockaddr.hpp:160-166 | the new buffer is `FromRaw(src, len)` |
| Ntl.Sockaddr.FromSockaddrSize | FirewallEventMonitor/ntl/ntlSockaddr.hpp:167-173 | the new buffer is `FromRawSize(src, len)` |
| Ntl.Sockaddr.FromSockaddrIn | FirewallEventMonitor/ntl/ntlSockaddr.hpp:175-179 | the new buffer is the 16 bytes followed by zeroes |
| Ntl.Sockaddr.FromSockaddrIn6 | FirewallEventMonitor/ntl/ntlSockaddr.hpp:180-184 | the new buffer is the 28 bytes followed by zeroes |
| Ntl.Sockaddr.FromSockaddrInet | FirewallEventMonitor/ntl/ntlSockaddr.hpp:185-193 | the new buffer is `FromInet(src)` |
| Ntl.Sockaddr.FromSockaddrStorage | FirewallEventMonitor/ntl/ntlSockaddr.hpp:194-197 | the new buffer is the 128 bytes given |
| Ntl.Sockaddr.FromSocketAddress | FirewallEventMonitor/ntl/ntlSockaddr.hpp:198-206 | the new buffer is `FromRaw(lpSockaddr, iSockaddrLength)` |
| Ntl.Sockaddr.Copy | FirewallEventMonitor/ntl/ntlSockaddr.hpp:208-211 | the new buffer equals the source's |
| Ntl.Sockaddr.Move | FirewallEventMonitor/ntl/ntlSockaddr.hpp:220-223 | the new buffer equals the source's, and the source is not changed |
| Ntl.Sockaddr.CopyAssign | FirewallEventMonitor/ntl/ntlSockaddr.hpp:212-219 | the target equals the old source and the source is unchanged, also when both are the same object |
| Ntl.Sockaddr.MoveAssign | FirewallEventMonitor/ntl/ntlSockaddr.hpp:224-229 | the target equals the old source and the source is all zero; a self-move leaves all zero |
| Ntl.Sockaddr.Equals | FirewallEventMonitor/ntl/ntlSockaddr.hpp:231-234 | `==` holds exactly when all 128 bytes agree |
| Ntl.Sockaddr.NotEquals | FirewallEventMonitor/ntl/ntlSockaddr.hpp:235-238 | `!=` holds exactly when some byte differs |
| Ntl.Sockaddr.Reset | FirewallEventMonitor/ntl/ntlSockaddr.hpp:240-244 | the buffer becomes `WithFamily(f)`, the same as `Sockaddr(f)` |
| Ntl.Sockaddr.Swap | FirewallEventMonitor/ntl/ntlSockaddr.hpp:246-250 | the two buffers are exchanged |
| Ntl.SwapValues | FirewallEventMonitor/ntl/ntlSockaddr.hpp:148-151 | the non-member `swap` exchanges the two buffers |
| Ntl.SwapTwiceRestores | FirewallEventMonitor/ntl/ntlSockaddr.hpp:246-250 | swapping twice restores both values |
| Ntl.Sockaddr.SetSockaddr | FirewallEventMonitor/ntl/ntlSockaddr.hpp:258-264 | the buffer becomes `FromRaw(src, len)` |
| Ntl.Sockaddr.SetSockaddrIn | FirewallEventMonitor/ntl/ntlSockaddr.hpp:265-269 | the buffer becomes the 16 bytes then zeroes |
| Ntl.Sockaddr.SetSockaddrIn6 | FirewallEventMonitor/ntl/ntlSockaddr.hpp:270-274 | the buffer becomes the 28 bytes then zeroes |
| Ntl.Sockaddr.SetSockaddrInet | FirewallEventMonitor/ntl/ntlSockaddr.hpp:275-283 | the buffer becomes `FromInet(src)` |
| Ntl.Sockaddr.SetSockaddrStorage | FirewallEventMonitor/ntl/ntlSockaddr.hpp:284-287 | the buffer becomes the 128 bytes given |
| Ntl.Sockaddr.SetSockaddrSocketAddress | FirewallEventMonitor/ntl/ntlSockaddr.hpp:288-296 | the buffer becomes `FromRaw(lpSockaddr, iSockaddrLength)` |
| Ntl.Sockaddr.SetPort | FirewallEventMonitor/ntl/ntlSockaddr.hpp:352-356 | the buffer becomes `SetPortBytes` of the old one |
| Ntl.Sockaddr.MapDualMode4To6 | FirewallEventMonitor/ntl/ntlSockaddr.hpp:358-374 | building the temporary and swapping it in leaves `MapDualModeBytes` of the old buffer |
| Ntl.Sockaddr.SetAddressText | FirewallEventMonitor/ntl/ntlSockaddr.hpp:376-391 | success when the lookup succeeds, and then the buffer is `setSockaddr` of the record; on failure nothing changes |
| Ntl.Sockaddr.SetAddressIn | FirewallEventMonitor/ntl/ntlSockaddr.hpp:409-414 | the buffer becomes `SetInAddrBytes` of the old one |
| Ntl.Sockaddr.SetAddressIn6 | FirewallEventMonitor/ntl/ntlSockaddr.hpp:415-420 | the buffer becomes `SetIn6AddrBytes` of the old one |
| Ntl.Sockaddr.SetFlowInfo | FirewallEventMonitor/ntl/ntlSockaddr.hpp:422-428 | the buffer becomes `SetFlowInfoBytes` of the old one |
| Ntl.Sockaddr.SetScopeId | FirewallEventMonitor/ntl/ntlSockaddr.hpp:429-435 | the buffer becomes `SetScopeIdBytes` of the old one |
| Ntl.Sockaddr.SetAddressLoopback | FirewallEventMonitor/ntl/ntlSockaddr.hpp:298-320 | for v4/v6 the buffer becomes `LoopbackBytes` of the old one |
| Ntl.Sockaddr.SetAddressAny | FirewallEventMonitor/ntl/ntlSockaddr.hpp:321-338 | the buffer becomes `AnyBytes` of the old one |
| Ntl.Sockaddr.IsAddressLoopback | FirewallEventMonitor/ntl/ntlSockaddr.hpp:339-344 | holds exactly for 127.0.0.1 or `::1` with nothing else set after the port |
| Ntl.Sockaddr.IsAddressAny | FirewallEventMonitor/ntl/ntlSockaddr.hpp:345-350 | holds exactly when bytes 4..127 are zero, or the family is neither v4 nor v6 |
| Ntl.Sockaddr.Length | FirewallEventMonitor/ntl/ntlSockaddr.hpp:536-539 | always 128, whatever the family, which holds either structure |
| Ntl.Sockaddr.Family | FirewallEventMonitor/ntl/ntlSockaddr.hpp:541-544 | the `short` whose `unsigned short` image is the buffer's `ss_family` |
| Ntl.Sockaddr.Port | FirewallEventMonitor/ntl/ntlSockaddr.hpp:545-549 | bytes 2..3 of the buffer read as a big-endian number |
| Ntl.Sockaddr.FlowInfo | FirewallEventMonitor/ntl/ntlSockaddr.hpp:550-558 | 0 unless the buffer's family is AF_INET6; then the ULONG whose native image is bytes 4..7 |
| Ntl.Sockaddr.ScopeId | FirewallEventMonitor/ntl/ntlSockaddr.hpp:559-567 | 0 unless the buffer's family is AF_INET6; then the ULONG whose native image is bytes 24..27 |
| Ntl.Sockaddr.WriteCompleteAddress | FirewallEventMonitor/ntl/ntlSockaddr.hpp:504-534 | fails exactly when the formatter fails; on success the buffer holds the text, trimmed only for AF_INET6 with `trim_scope` |
| Ntl.Sockaddr.ResolveName | FirewallEventMonitor/ntl/ntlSockaddr.hpp:38-54 | a failed lookup gives the exception with its error code; otherwise one fresh value per record, in order, each built by the raw-bytes constructor, and no two sharing a buffer |

## Left out

- `setSocketAddress`: not modelled. It is `getsockname` on a live socket, which is I/O.
- `writeAddress`: not modelled. It hands the whole job to `InetNtop`, a foreign formatter.
- The `std::wstring` overloads of `writeAddress` and `writeCompleteAddress`: not modelled, for the same reason.
- The `WSAAddressToString` call in `writeCompleteAddress` is modelled only by its result. On success the result is the written characters, terminator included; on failure the buffer is taken to stay zeroed.
- The CHAR and WCHAR variants of `writeCompleteAddress` and `setAddress(text)` are modelled once, over `char`.
- The `GetAddrInfoW`/`GetAddrInfoA` lookups are parameters. `FreeAddrInfoW`/`FreeAddrInfoA` and `ScopeGuard` only release memory and are not modelled.
- The resolver's `ai_next` list is modelled as a sequence of records.
- The `ntl::Exception` that `ResolveName` throws is a `Failure` result. The error comes from `WSAGetLastError` and is taken from the failed lookup.
- The pointer views (`sockaddr()`, `sockaddr_in()`, `in_addr()` and the rest) are not modelled as members. Their reads and writes appear as accesses at the fixed offsets listed above.
- The structure arguments are modelled by their byte images, and pointers as sequences. Aliasing between an argument and the object's own buffer is not modelled, except in the copy, move and swap operations.
- The `AlwaysFatalCondition` abort in `setAddressLoopback`, which `isAddressLoopback` reaches, is a precondition (family AF_INET or AF_INET6), not a modelled abort.
- The host is fixed as little-endian.
- The virtual destructor and the analysis pragmas: not modelled.
- ScopeTrim.TrimScope, and Ntl.Sockaddr.WriteCompleteAddress when it trims (family AF_INET6 and `trimScope`): require that a `]` in the formatted text follow the `%`. This holds for the `[addr%scope]:port` and `addr%scope` forms. The source does not check it, and the model does not cover the overrunning copy that other text would cause.
- Ntl.Sockaddr.FromSockaddr, Ntl.Sockaddr.FromSockaddrSize, Ntl.Sockaddr.SetSockaddr: require that the source hold at least the bytes that are copied. The source assumes this of its callers, through the `_In_reads_bytes_(inLength)` annotation on the `SOCKADDR*` argument.
- Ntl.Sockaddr.FromSocketAddress, Ntl.Sockaddr.SetSockaddrSocketAddress: require that `lpSockaddr` hold at least the bytes that are copied. The argument is `_In_ const SOCKET_ADDRESS*` with no size annotation; the assumption is the record's own pairing of `lpSockaddr` with its length `iSockaddrLength`.
- Ntl.Sockaddr.SetAddressText, Ntl.Sockaddr.ResolveName: require the same of each record the lookup returns (`Copyable`). The assumption is the resolver's pairing of `ai_addr` with its length `ai_addrlen`.
- The last argument (`false`) of the `ntl::Exception` that `ResolveName` throws is not kept in the `Exception` value. The exception class is not part of this model, so what that flag does is not stated here.
