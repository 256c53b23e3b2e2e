/** The hostname, network-interface and environment parts of
    `RandAddStaticEnv`.

    The OS answers are inputs: the 256-byte buffer `gethostname` filled in
    (None when it failed), the list `getifaddrs` built (empty when it failed,
    since `ifad` then stays null), and the `environ` array (None for a null
    `environ`), each string given without its terminator.
 */
module StaticEnv {
  import opened Native
  import opened Sha512Log
  import opened Sockaddr

  /** The size of the local buffer `hname`. */
  const HOSTNAME_BUFFER_SIZE := 256
  /** sizeof(struct ifaddrs *): a pointer on the modelled 64-bit platform. */
  const SIZEOF_POINTER := 8
  /** sizeof(ifa_flags), an `unsigned int`. */
  const SIZEOF_FLAGS := 4

  type HostnameBuffer = b: seq<uint8> | |b| == HOSTNAME_BUFFER_SIZE
    witness seq(HOSTNAME_BUFFER_SIZE, _ => 0)

  /** The address of a list node: never null, since the loop stops at null. */
  type Pointer = p: uint64 | p != 0 witness 1

  /** One `struct ifaddrs` node: its own address, the fields the loop reads
      and the three (possibly null) socket addresses. */
  datatype IfAddr = IfAddr(
    node: Pointer, name: CString, flags: uint32,
    addr: Option<SockaddrMem>, netmask: Option<SockaddrMem>, dstaddr: Option<SockaddrMem>)

  /** `strnlen(s, |s|)`: the number of bytes before the first NUL, or all of them. */
  function StrnLen(s: seq<uint8>): (n: nat)
    ensures n <= |s| && 0 !in s[..n]
    ensures n < |s| ==> s[n] == 0
  {
    if s == [] || s[0] == 0 then 0
    else
      var m := StrnLen(s[1..]);
      assert s[..1 + m] == [s[0]] + s[1..][..m];
      1 + m
  }

  /** What the hostname step hashes: the name up to its NUL but at most 256
      bytes, without the terminator; nothing when `gethostname` failed. */
  function HostnameBytes(answer: Option<HostnameBuffer>): seq<uint8>
  {
    match answer
    case None => []
    case Some(buf) => buf[..StrnLen(buf)]
  }

  /** The hashed hostname is at most 256 bytes and holds no NUL. When the
      buffer holds a NUL, it is exactly the C string before the first one;
      otherwise (a truncated name) it is the whole buffer. */
  lemma HostnameBytesShape(buf: HostnameBuffer)
    ensures var h := HostnameBytes(Some(buf));
      |h| <= HOSTNAME_BUFFER_SIZE && 0 !in h
      && (0 in buf ==> SplitCString(buf).Some? && SplitCString(buf).value.0 == h)
      && (0 !in buf ==> h == buf)
  {
    var h := HostnameBytes(Some(buf));
    if 0 in buf {
      var n := StrnLen(buf);
      assert n < |buf|;
      assert buf == WithNul(h) + buf[n + 1..];
      SplitWithNul(h, buf[n + 1..]);
    } else {
      assert h == buf;
    }
  }

  /** The hostname step, for the given `gethostname` answer. */
  method AddHostname(hasher: Hasher, answer: Option<HostnameBuffer>)
    modifies hasher
    ensures hasher.log == old(hasher.log) + HostnameBytes(answer)
  {
    if answer.Some? {
      var hname := answer.value;
      hasher.Write(hname[..StrnLen(hname)]);
    }
  }

  /** The parts laid end to end, in order. */
  function Flatten(parts: seq<seq<uint8>>): (r: seq<uint8>)
  {
    if parts == [] then []
    else Flatten(parts[..|parts| - 1]) + parts[|parts| - 1]
  }

  /** The total length of the parts. */
  function TotalLength(parts: seq<seq<uint8>>): nat
  {
    if parts == [] then 0
    else TotalLength(parts[..|parts| - 1]) + |parts[|parts| - 1]|
  }

  /** Flattening two lists of parts is flattening each and joining the results. */
  lemma {:induction false} FlattenAppend(a: seq<seq<uint8>>, b: seq<seq<uint8>>)
    ensures Flatten(a + b) == Flatten(a) + Flatten(b)
    decreases |b|
  {
    if b != [] {
      var last := b[|b| - 1];
      assert (a + b)[..|a + b| - 1] == a + b[..|b| - 1];
      FlattenAppend(a, b[..|b| - 1]);
      ConcatAssoc(Flatten(a), Flatten(b[..|b| - 1]), last);
    } else {
      assert a + b == a;
    }
  }

  /** What the `environ` step hashes: every string, in order, without its
      terminator or any separator; nothing for a null `environ`. */
  function EnvironBytes(environ: Option<seq<CString>>): seq<uint8>
  {
    match environ
    case None => []
    case Some(strings) => Flatten(strings)
  }

  /** The hashed environment holds no NUL and is exactly as long as its strings together. */
  lemma {:induction false} FlattenStrings(strings: seq<CString>)
    ensures 0 !in Flatten(strings)
    ensures |Flatten(strings)| == TotalLength(strings)
    decreases |strings|
  {
    if strings != [] {
      FlattenStrings(strings[..|strings| - 1]);
    }
  }

  /** Since no separator is written, joining two neighbouring variables into
      one string leaves the hashed bytes unchanged: the hash sees the
      concatenated environment only, not where one variable ends. */
  lemma EnvironJoinNeighbours(front: seq<CString>, x: CString, y: CString, back: seq<CString>)
    ensures EnvironBytes(Some(front + [x, y] + back)) == EnvironBytes(Some(front + [x + y] + back))
  {
    FlattenAppend(front + [x, y], back);
    FlattenAppend(front + [x + y], back);
    FlattenAppend(front, [x, y]);
    FlattenAppend(front, [x + y]);
    assert Flatten([x, y]) == x + y by {
      assert [x, y][..1] == [x];
      assert Flatten([x]) == x by {
        assert [x][..0] == [];
      }
    }
    assert Flatten([x + y]) == x + y by {
      assert [x + y][..0] == [];
    }
  }

  /** The `environ` step, for the given environment. */
  method AddEnviron(hasher: Hasher, environ: Option<seq<CString>>)
    modifies hasher
    ensures hasher.log == old(hasher.log) + EnvironBytes(environ)
  {
    if environ.Some? {
      var strings := environ.value;
      for i := 0 to |strings|
        invariant hasher.log == old(hasher.log) + Flatten(strings[..i])
      {
        assert strings[..i + 1][..i] == strings[..i];
        hasher.Write(strings[i]);
      }
      assert strings[..|strings|] == strings;
    }
  }

  /** The first part of an entry's record: the node's address, the name with
      its terminator and the flags. */
  function EntryHead(e: IfAddr): (r: seq<uint8>)
    ensures |r| == SIZEOF_POINTER + |e.name| + 1 + SIZEOF_FLAGS
  {
    LeBytes(e.node as nat, SIZEOF_POINTER) + WithNul(e.name) + UInt32Bytes(e.flags)
  }

  /** The rest of an entry's record: the address, netmask and destination as
      `AddSockaddr` writes them. */
  function EntryAddresses(e: IfAddr): (r: seq<uint8>)
    ensures |r| <= 3 * SIZEOF_SOCKADDR_IN6
  {
    SockaddrBytes(e.addr) + SockaddrBytes(e.netmask) + SockaddrBytes(e.dstaddr)
  }

  /** What one interface entry hashes. */
  function EntryBytes(e: IfAddr): seq<uint8>
  {
    EntryHead(e) + EntryAddresses(e)
  }

  /** Each entry's record reads back: the node address from its first eight
      bytes, then the name up to the first NUL, then the flags, then the
      three addresses, which add at most 3 * 28 bytes. */
  lemma EntryBytesLayout(e: IfAddr)
    ensures var r := EntryBytes(e);
      var k := SIZEOF_POINTER + |e.name| + 1;
      && FromLe(r[..SIZEOF_POINTER]) == e.node as nat
      && SplitCString(r[SIZEOF_POINTER..]).Some?
      && SplitCString(r[SIZEOF_POINTER..]).value.0 == e.name
      && FromLe(r[k..k + SIZEOF_FLAGS]) == e.flags as nat
      && r[k + SIZEOF_FLAGS..] == EntryAddresses(e)
      && |r| <= k + SIZEOF_FLAGS + 3 * SIZEOF_SOCKADDR_IN6
  {
    var p := LeBytes(e.node as nat, SIZEOF_POINTER);
    var f := UInt32Bytes(e.flags);
    var rest := f + EntryAddresses(e);
    var r := EntryBytes(e);
    var k := SIZEOF_POINTER + |e.name| + 1;
    ConcatAssoc(p, WithNul(e.name), f);
    ConcatAssoc(p + WithNul(e.name), f, EntryAddresses(e));
    ConcatAssoc(p, WithNul(e.name), rest);
    assert r == p + (WithNul(e.name) + rest);
    FromLeLeBytes(e.node as nat, SIZEOF_POINTER);
    UInt32BytesReadBack(e.flags);
    assert r[..SIZEOF_POINTER] == p;
    assert r[SIZEOF_POINTER..] == WithNul(e.name) + rest;
    SplitWithNul(e.name, rest);
    assert r[k..] == rest;
    assert rest[..SIZEOF_FLAGS] == f;
  }

  /** What the interface loop hashes: every entry's record, in list order. */
  function InterfacesBytes(ifs: seq<IfAddr>): seq<uint8>
  {
    if ifs == [] then []
    else InterfacesBytes(ifs[..|ifs| - 1]) + EntryBytes(ifs[|ifs| - 1])
  }

  /** Each interface adds at least 13 bytes besides its name, and at most 97. */
  lemma {:induction false} InterfacesBytesLength(ifs: seq<IfAddr>)
    ensures 13 * |ifs| + NameLengths(ifs) <= |InterfacesBytes(ifs)| <= 97 * |ifs| + NameLengths(ifs)
    decreases |ifs|
  {
    if ifs != [] {
      InterfacesBytesLength(ifs[..|ifs| - 1]);
    }
  }

  /** The lengths of all interface names together. */
  function NameLengths(ifs: seq<IfAddr>): nat
  {
    if ifs == [] then 0 else NameLengths(ifs[..|ifs| - 1]) + |ifs[|ifs| - 1].name|
  }

  /** The interface loop over the list `getifaddrs` returned. */
  method AddInterfaces(hasher: Hasher, ifs: seq<IfAddr>)
    modifies hasher
    ensures hasher.log == old(hasher.log) + InterfacesBytes(ifs)
  {
    var i := 0;
    while i < |ifs|
      invariant 0 <= i <= |ifs|
      invariant hasher.log == old(hasher.log) + InterfacesBytes(ifs[..i])
    {
      var ifit := ifs[i];
      ghost var before := hasher.log;
      hasher.Write(LeBytes(ifit.node as nat, SIZEOF_POINTER));
      hasher.Write(WithNul(ifit.name));
      hasher.Write(UInt32Bytes(ifit.flags));
      AddSockaddr(hasher, ifit.addr);
      AddSockaddr(hasher, ifit.netmask);
      AddSockaddr(hasher, ifit.dstaddr);
      EntryAppended(before, ifit);
      assert hasher.log == before + EntryBytes(ifit);
      assert ifs[..i + 1][..i] == ifs[..i];
      assert InterfacesBytes(ifs[..i + 1]) == InterfacesBytes(ifs[..i]) + EntryBytes(ifit);
      ConcatAssoc(old(hasher.log), InterfacesBytes(ifs[..i]), EntryBytes(ifit));
      i := i + 1;
    }
    assert ifs[..|ifs|] == ifs;
  }

  /** Writing an entry's six fields one after another appends its record. */
  lemma EntryAppended(before: seq<uint8>, e: IfAddr)
    ensures before + LeBytes(e.node as nat, SIZEOF_POINTER) + WithNul(e.name) + UInt32Bytes(e.flags)
      + SockaddrBytes(e.addr) + SockaddrBytes(e.netmask) + SockaddrBytes(e.dstaddr)
      == before + EntryBytes(e)
  {
    var p, n, f := LeBytes(e.node as nat, SIZEOF_POINTER), WithNul(e.name), UInt32Bytes(e.flags);
    var x, y, z := SockaddrBytes(e.addr), SockaddrBytes(e.netmask), SockaddrBytes(e.dstaddr);
    ConcatAssoc(before, p, n);
    ConcatAssoc(before, p + n, f);
    assert before + p + n + f == before + EntryHead(e);
    ConcatAssoc(before + EntryHead(e), x, y);
    ConcatAssoc(before + EntryHead(e), x + y, z);
    assert before + p + n + f + x + y + z == before + EntryHead(e) + EntryAddresses(e);
    ConcatAssoc(before, EntryHead(e), EntryAddresses(e));
  }
}
