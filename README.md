# Environment probes of the entropy collector

This project is a Dafny model of the probe helpers in `src/randomenv.cpp`. That file gathers
entropy for the node's random number generator by feeding raw operating-system data into a
SHA-512 hasher (`CSHA512`). The model covers:

- `AddFile`, `AddPath`, `AddSockaddr`, `AddSysctl`;
- `AddCPUID` and `AddAllCPUID`;
- `RandAddSeedPerfmon`;
- the hostname, network-interface and `environ` steps of `RandAddStaticEnv`.

The digest is never read in this file, so the hasher is a class (`Sha512Log.Hasher`) whose only
state is the byte log it has been fed; `Write` appends to it. Each probe is a method whose
postcondition says exactly which bytes it appends, for given answers of the operating system.
Those bytes are defined by a specification function, such as `FileProbe.FileRecord`,
`Cpuid.AllQueries` or `Perfmon.PerfmonBytes`. Lemmas then prove what the source promises about
those functions.

The operating system becomes inputs of the model:
- the value `open` returns;
- the record `stat`/`fstat` fills in;
- the outcome of each `read` call;
- the full answer of `sysctl`;
- the CPU identification instruction, as a function from (leaf, sub-leaf) to the four registers;
- the registry, as an object holding a function from buffer size to outcome and a record of the sizes it was queried with;
- the clock reading;
- the hostname buffer, the interface list and the environment block.

Raw memory is modelled for one platform: little-endian LP64 x86-64 Linux. There `int` and
`uint32_t` are 4 bytes, `size_t` and pointers are 8 bytes, `sa_family` is the 2-byte field at
offset 0, `AF_INET` is 2, `AF_INET6` is 10, `sizeof(sockaddr_in)` is 16, `sizeof(sockaddr_in6)`
is 28, `sizeof(struct stat)` is 144 and `ENOMEM` is 12. The structures the OS fills in are
opaque byte blocks of their size. `RandAddSeedPerfmon` exists on Windows only. It hashes
only raw buffer bytes, so no layout question arises there.

Modules: `Native` (newtypes, byte encodings, C strings), `Sha512Log` (the hasher),
`Sockaddr`, `FileProbe`, `Sysctl`, `Cpuid`, `Perfmon`, `StaticEnv`.

The model follows the code for the performance-data timestamp. It is stored before the
registry query, whatever the query's outcome (src/randomenv.cpp:82-100), and not only after a
successful query.

## Model

| member | source | states |
|---|---|---|
| `Native.FromLeLeBytes` | src/randomenv.cpp:119-137 | a value that fits in n bytes is read back unchanged from its n little-endian raw bytes |
| `Native.LeBytesFromLe` | src/randomenv.cpp:119-137 | reading raw bytes as an integer and writing it back gives the same bytes, so the encoding is a bijection |
| `Native.SizeTBytes` | src/randomenv.cpp:119-137 | `hasher << x` for a `size_t` writes 8 bytes that read back as x modulo 2^64 (as x itself when x fits) |
| `Native.Int32Bytes` | src/randomenv.cpp:119-137 | `hasher << x` for an `int` writes 4 bytes that read back as x's two's-complement pattern |
| `Native.UInt32BytesReadBack` | src/randomenv.cpp:119-137 | the 4 raw bytes of a `uint32_t` read back as the value |
| `Native.SplitCString` | src/randomenv.cpp:184 | a NUL-terminated string is found at the front of bytes exactly when they hold a NUL, and string + NUL + rest gives back the bytes |
| `Native.SplitWithNul` | src/randomenv.cpp:184 | a string written with its terminator (`strlen + 1` bytes) is recovered, with what follows it, by splitting at the first NUL |
| `Sockaddr.SockaddrLength` | src/randomenv.cpp:144-154 | the hashed length is 16 exactly for AF_INET, 28 exactly for AF_INET6, and 2 (the family field alone) exactly for every other family |
| `Sockaddr.SockaddrBytes` | src/randomenv.cpp:140-155 | a null address hashes nothing; a non-null one hashes a prefix of its memory of 2 to 28 bytes |
| `Sockaddr.SockaddrBytesFamily` | src/randomenv.cpp:144-154 | the hashed bytes start with the family field, and the family read from them fixes their length |
| `Sockaddr.AddSockaddr` | src/randomenv.cpp:140-155 | appends exactly `SockaddrBytes` of the address, by the same three-way case split on the family |
| `FileProbe.ReadCount` | src/randomenv.cpp:169 | the `int` a read returns lies in [-1, 4096] and is positive exactly when bytes came back |
| `FileProbe.Payload` | src/randomenv.cpp:170-172 | a read contributes exactly n bytes when n > 0 and nothing otherwise |
| `FileProbe.ReadCallsStop` | src/randomenv.cpp:168-176 | the loop makes 1 to 256 reads; every read but the last returned a full 4096-byte chunk; it stops at the first short read or when the total reaches 1 MiB |
| `FileProbe.ReadLoopIsPayloads` | src/randomenv.cpp:168-176 | the content hashed is exactly the positive read results of the calls made, in call order |
| `FileProbe.ReadLoopBound` | src/randomenv.cpp:168-176 | the loop hashes at most 1 MiB of content |
| `FileProbe.ReadLoopLargeFile` | src/randomenv.cpp:168-176 | when every read returns a full chunk, exactly 1 MiB is hashed |
| `FileProbe.FileRecordShape` | src/randomenv.cpp:157-177 | nothing is hashed when `open` fails; otherwise the descriptor, then the stat record exactly when `fstat` succeeded, then the read payloads in order, at most 1 MiB of them in at most 256 reads |
| `FileProbe.TotalTracksCalls` | src/randomenv.cpp:173-176 | while the loop goes on, the `size_t` total is 4096 times the reads made, so it never wraps and the loop test is "full chunk and under 1 MiB" |
| `FileProbe.AddContent` | src/randomenv.cpp:168-176 | the do-while read loop appends exactly `ReadLoop` from the first read |
| `FileProbe.AddFile` | src/randomenv.cpp:157-179 | the do-while loop, with `total` as a wrapping `size_t`, appends exactly `FileRecord` |
| `FileProbe.PathRecord` | src/randomenv.cpp:181-187 | nothing is hashed exactly when `stat` fails |
| `FileProbe.PathRecordReadBack` | src/randomenv.cpp:181-187 | when `stat` succeeds the record is path, NUL, then the 144-byte stat record, and the path and stat record can be split back out of it |
| `FileProbe.AddPath` | src/randomenv.cpp:181-187 | appends exactly `PathRecord` |
| `Sysctl.ClampedSize` | src/randomenv.cpp:199-201 | the size kept is `min(siz, 65536)`: at most both, and equal to one of them |
| `Sysctl.SysctlRecordLayout` | src/randomenv.cpp:191-205 | nothing is hashed unless `ret == 0` or `ret == -1` with `errno == ENOMEM`; then the record reads back as `sizeof(CTL)`, the key, the clamped size and exactly that many buffer bytes, never more than the 64 KiB buffer |
| `Sysctl.AddSysctl` | src/randomenv.cpp:191-205 | appends exactly `SysctlRecord` for the given `sysctl` answer |
| `Cpuid.QueryRecord` | src/randomenv.cpp:212 | each query hashes 24 bytes |
| `Cpuid.QueryRecordFields` | src/randomenv.cpp:212 | a query record reads back, 4 bytes at a time, as leaf, subleaf, ax, bx, cx, dx |
| `Cpuid.Records` | src/randomenv.cpp:215-243 | a list of queries hashes 24 bytes per query |
| `Cpuid.RecordsBlock` | src/randomenv.cpp:215-243 | the i-th 24-byte block of the hashed records is the record of the i-th query |
| `Cpuid.LeafQueriesShape` | src/randomenv.cpp:222-233 | a leaf's sub-leaf loop queries consecutive sub-leaves from 0 and stops at the first answer meeting the leaf's stop condition (`ax == 0` for leaves 4 and 13, `(cx & 0xFF00) == 0` for leaf 11) |
| `Cpuid.PlainLeafQueries` | src/randomenv.cpp:225-227 | a leaf other than 4, 11 and 13 is queried at sub-leaf 0 only |
| `Cpuid.StandardQueriesRange` | src/randomenv.cpp:221-234 | every standard query is of a leaf in [1, max], and only leaves 4, 11 and 13 get a non-zero sub-leaf |
| `Cpuid.StandardQueriesSorted` | src/randomenv.cpp:221 | standard leaves are visited in increasing order |
| `Cpuid.StandardQueriesCover` | src/randomenv.cpp:221 | every standard leaf from 1 to max is queried at sub-leaf 0 |
| `Cpuid.ExtendedQueriesShape` | src/randomenv.cpp:240-242 | the extended loop queries leaves 0x80000001 to ext_max in order, each at sub-leaf 0 only |
| `Cpuid.AllQueriesRecords` | src/randomenv.cpp:215-243 | the hashed records split into: the (0,0) record, the standard loop, the (0x80000000,0) record, the extended loop |
| `Cpuid.AddCPUID` | src/randomenv.cpp:209-213 | returns the registers for (leaf, subleaf) and appends their 24-byte record |
| `Cpuid.AddSubleaves` | src/randomenv.cpp:222-233 | the sub-leaf loop with its three breaks appends the records of exactly `LeafQueries` |
| `Cpuid.AddStandardLeaves` | src/randomenv.cpp:221-234 | the standard-leaf loop appends the records of exactly `StandardQueries` from leaf 1 |
| `Cpuid.AddExtendedLeaves` | src/randomenv.cpp:240-242 | the extended-leaf loop appends the records of leaves 0x80000001 to ext_max |
| `Cpuid.AddAllCPUID` | src/randomenv.cpp:215-243 | appends the records of exactly `AllQueries`, in that order |
| `Perfmon.GrownSize` | src/randomenv.cpp:97 | the grown size is `std::max(size * 3 / 2, 10000000)`: at least both, and equal to one of them |
| `Perfmon.FinalSizeIsLast` | src/randomenv.cpp:89-98 | the outcome that decides what is hashed is that of the last query the loop makes |
| `Perfmon.QuerySizesFromInitial` | src/randomenv.cpp:84-98 | the registry is queried once with 250000 bytes, and a second time, with exactly 10000000 bytes, only after `ERROR_MORE_DATA`: the first growth jumps to the cap |
| `Perfmon.PerfmonBytesBound` | src/randomenv.cpp:84-101 | the buffer is 250000 or 10000000 bytes, never over 10 MB, and the hashed bytes fit in it |
| `Perfmon.Registry.RegQueryValue` | src/randomenv.cpp:90-92 | the registry stand-in records the buffer size it was queried with, reports its outcome for that size and, on success, its `nSize` bytes are at the buffer's front; nothing is promised about the rest of the buffer |
| `Perfmon.MemoryCleanse` | src/randomenv.cpp:102 | the first `nSize` bytes are zeroed and the rest of the buffer is untouched |
| `Perfmon.PerfmonState.constructor` | src/randomenv.cpp:75-76 | the timestamp starts at 0 seconds |
| `Perfmon.PerfmonState.RandAddSeedPerfmon` | src/randomenv.cpp:70-112 | within 10 minutes of the stored time, nothing changes and the registry is not queried; otherwise the time is stored before the query, whatever its outcome, the registry's record of queries grows by exactly the buffer sizes `QuerySizes` lists (250000, then 10000000 only after `ERROR_MORE_DATA`, by `QuerySizesFromInitial`), `PerfmonBytes` is appended, and the hashed bytes of the buffer are zeroed |
| `StaticEnv.StrnLen` | src/randomenv.cpp:408 | `strnlen` counts the bytes before the first NUL, or all of them when there is none |
| `StaticEnv.HostnameBytesShape` | src/randomenv.cpp:405-409 | the hashed hostname is at most 256 bytes with no NUL: the C string in the buffer, or the whole buffer when it holds no terminator |
| `StaticEnv.AddHostname` | src/randomenv.cpp:405-409 | appends nothing when `gethostname` fails, otherwise exactly `HostnameBytes` |
| `StaticEnv.FlattenAppend` | src/randomenv.cpp:537-541 | hashing two runs of strings one after the other hashes their two byte runs joined |
| `StaticEnv.FlattenStrings` | src/randomenv.cpp:537-541 | the hashed environment contains no NUL, and its length is the sum of the strings' lengths (no terminators or separators) |
| `StaticEnv.EnvironJoinNeighbours` | src/randomenv.cpp:537-541 | merging two neighbouring variables into one string leaves the hashed bytes unchanged, so the hash does not see where variables end |
| `StaticEnv.AddEnviron` | src/randomenv.cpp:536-541 | appends nothing for a null `environ`, otherwise every string in order without its terminator |
| `StaticEnv.EntryHead` | src/randomenv.cpp:417-421 | an entry's fixed part is 8 pointer bytes, the name with its NUL, and 4 flag bytes |
| `StaticEnv.EntryAddresses` | src/randomenv.cpp:422-424 | the three `AddSockaddr` calls add at most 3 * 28 bytes |
| `StaticEnv.EntryBytesLayout` | src/randomenv.cpp:416-425 | an interface record reads back as node address, name (split at its NUL), flags, then the three addresses |
| `StaticEnv.InterfacesBytesLength` | src/randomenv.cpp:416-426 | each interface adds between 13 and 97 bytes besides its name |
| `StaticEnv.AddInterfaces` | src/randomenv.cpp:411-428 | appends every entry's record in list order (nothing for an empty list) |

## Left out

- SHA-512 itself (`crypto/sha512.h` is not part of this model): the hasher is only its input log, since the digest is never read here.
- `close`, `RegCloseKey` and `freeifaddrs`: they do not touch the hasher.
- Clock readings, `getrusage`, the addresses of the hasher, functions, `malloc` and `errno`, `getauxval`, `uname`, the process/thread/user/group ids and the compiler/version constants: each is one fixed-size append of values the model has no logic for.
- The full fixed order of `RandAddDynamicEnv` and `RandAddStaticEnv`, and the platform `#ifdef` choice of probed paths, files and sysctl keys: these are configuration, not logic.
- The layouts of `struct stat`, `sockaddr_in`, `sockaddr_in6` and the other OS structures: they are opaque byte blocks of a fixed size.
- The `static_assert`s in `operator<<`: they have no behaviour at run time.
- The atomic nature of `last_perfmon`: it is a plain field; concurrent callers are not modelled.
- Cpuid.AddAllCPUID: it requires `Terminates`, i.e. that neither highest leaf is 0xFFFFFFFF and that every sub-leaf loop of leaves 4, 11 and 13 reaches its stop condition before the 32-bit sub-leaf counter wraps. The source loops forever otherwise.
- Cpuid.AddSubleaves: it requires the same stop condition for its leaf.
- Cpuid.MaskFF00IsZero: `(cx & 0xFF00) == 0` is stated arithmetically as "bits 8 to 15 are clear", `(cx / 256) % 256 == 0`, not as a bit-vector operation.
- Perfmon.PerfmonState.RandAddSeedPerfmon: growing the buffer allocates a fresh zeroed one instead of `resize`, which keeps the old bytes. Those bytes are never hashed, since only the bytes of a successful query are. The contract says nothing about buffer bytes past `nSize`.
- Perfmon.PerfmonState.RandAddSeedPerfmon: the source returns nothing; the model returns the buffer (null when the call is rate-limited) so that its contract can state that the hashed bytes were zeroed.
- Perfmon.PerfmonState.RandAddSeedPerfmon: `GetTime` is an integer parameter. Overflow of `last_time + 10 minutes` is not modelled.
- Perfmon.Registry.RegQueryValue: the registry is asked for a buffer of the given size. `nSize` is an `unsigned long` (32 bits on Windows), but both sizes used (250000 and 10000000) fit in it. What a failed query leaves in the buffer is not modelled, because it is never hashed.
- StaticEnv.AddInterfaces: the linked list is a sequence of its nodes, each carrying its own address as a non-null 64-bit value. A failed `getifaddrs` leaves the list empty.
