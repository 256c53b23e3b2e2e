/** `AddSockaddr`: hashes a socket address, truncated to the size of the
    structure its address family says it is.

    A `struct sockaddr` is modelled as the bytes of memory the OS handed
    out behind the pointer. On Linux `sa_family` is the 2-byte field at
    offset 0, and the OS always provides at least as many bytes as the
    family's own structure needs.
 */
module Sockaddr {
  import opened Native
  import opened Sha512Log

  const AF_INET := 2
  const AF_INET6 := 10

  const SIZEOF_SA_FAMILY := 2
  const SIZEOF_SOCKADDR_IN := 16
  const SIZEOF_SOCKADDR_IN6 := 28

  /** The address family stored in the first two bytes. */
  function Family(mem: seq<uint8>): nat
    requires |mem| >= SIZEOF_SA_FAMILY
  {
    FromLe(mem[..SIZEOF_SA_FAMILY])
  }

  /** How many bytes of an address of this family are hashed. */
  function SockaddrLength(family: nat): (n: nat)
    ensures n == SIZEOF_SOCKADDR_IN <==> family == AF_INET
    ensures n == SIZEOF_SOCKADDR_IN6 <==> family == AF_INET6
    ensures n == SIZEOF_SA_FAMILY <==> family != AF_INET && family != AF_INET6
  {
    match family
    case 2 => SIZEOF_SOCKADDR_IN
    case 10 => SIZEOF_SOCKADDR_IN6
    case _ => SIZEOF_SA_FAMILY
  }

  /** The memory behind a non-null `const struct sockaddr *`. */
  type SockaddrMem = mem: seq<uint8>
    | |mem| >= SIZEOF_SA_FAMILY && SockaddrLength(Family(mem)) <= |mem|
    witness [0, 0]

  /** The bytes `AddSockaddr` writes for a null (None) or non-null address. */
  function SockaddrBytes(addr: Option<SockaddrMem>): (r: seq<uint8>)
    ensures addr.None? ==> r == []
    ensures addr.Some? ==> SIZEOF_SA_FAMILY <= |r| <= SIZEOF_SOCKADDR_IN6
    ensures addr.Some? ==> |r| <= |addr.value| && r == addr.value[..|r|]
  {
    match addr
    case None => []
    case Some(mem) => mem[..SockaddrLength(Family(mem))]
  }

  /** Whatever the family, the hashed bytes begin with the family field, so
      the family can be read back from them and it fixes their length. */
  lemma SockaddrBytesFamily(mem: SockaddrMem)
    ensures var r := SockaddrBytes(Some(mem));
      |r| >= SIZEOF_SA_FAMILY && Family(r) == Family(mem) && |r| == SockaddrLength(Family(r))
  {
    var r := SockaddrBytes(Some(mem));
    assert r[..SIZEOF_SA_FAMILY] == mem[..SIZEOF_SA_FAMILY];
  }

  /** Appends the address's bytes (nothing for a null address). */
  method AddSockaddr(hasher: Hasher, addr: Option<SockaddrMem>)
    modifies hasher
    ensures hasher.log == old(hasher.log) + SockaddrBytes(addr)
  {
    if addr.None? {
      return;
    }
    var mem := addr.value;
    var family := Family(mem);
    if family == AF_INET {
      hasher.Write(mem[..SIZEOF_SOCKADDR_IN]);
    } else if family == AF_INET6 {
      hasher.Write(mem[..SIZEOF_SOCKADDR_IN6]);
    } else {
      hasher.Write(mem[..SIZEOF_SA_FAMILY]);
    }
  }
}
