/** Native representation of values on the modelled platform.

    randomenv.cpp feeds scalars and structures to the hasher as their raw
    in-memory bytes. The model fixes one platform: a little-endian LP64
    target (x86-64 Linux), where `int` is 4 bytes, `size_t` is 8 bytes and
    integers are stored least significant byte first. Structures the OS
    fills in are opaque byte blocks of a fixed size.
 */
module Native {

  newtype uint8 = x: int | 0 <= x < 0x100
  newtype uint32 = x: int | 0 <= x < 0x1_0000_0000
  newtype uint64 = x: int | 0 <= x < 0x1_0000_0000_0000_0000
  newtype int32 = x: int | -0x8000_0000 <= x < 0x8000_0000

  const SIZEOF_INT := 4
  const SIZEOF_UINT32 := 4
  const SIZEOF_SIZE_T := 8
  /** 2^64: size_t arithmetic wraps modulo this value. */
  const SIZE_T_MODULUS := 0x1_0000_0000_0000_0000

  datatype Option<+T> = None | Some(value: T)

  /** Concatenation is associative (stated once so that large proofs need not rediscover it). */
  lemma ConcatAssoc<T>(a: seq<T>, b: seq<T>, c: seq<T>)
    ensures a + b + c == a + (b + c)
  {
  }

  /** Four-part concatenation, regrouped after its first part. */
  lemma Assoc4<T>(a: seq<T>, b: seq<T>, c: seq<T>, d: seq<T>)
    ensures a + b + c + d == a + (b + c + d)
  {
    ConcatAssoc(a + b, c, d);
    ConcatAssoc(a, b, c + d);
    ConcatAssoc(b, c, d);
  }

  /** The bytes of a C string before its NUL terminator. */
  type CString = s: seq<uint8> | 0 !in s

  function Pow256(n: nat): (p: nat)
    ensures p > 0
  {
    if n == 0 then 1 else 256 * Pow256(n - 1)
  }

  /** The n least significant bytes of x, least significant first. */
  function LeBytes(x: nat, n: nat): (r: seq<uint8>)
    ensures |r| == n
  {
    if n == 0 then [] else [(x % 256) as uint8] + LeBytes(x / 256, n - 1)
  }

  /** Reads a little-endian unsigned integer back from its bytes. */
  function FromLe(s: seq<uint8>): (x: nat)
    ensures x < Pow256(|s|)
  {
    if s == [] then 0 else s[0] as nat + 256 * FromLe(s[1..])
  }

  /** Encoding a value that fits in n bytes and reading it back gives the value. */
  lemma {:induction false} FromLeLeBytes(x: nat, n: nat)
    requires x < Pow256(n)
    ensures FromLe(LeBytes(x, n)) == x
  {
    if n > 0 {
      var r := LeBytes(x, n);
      assert r[1..] == LeBytes(x / 256, n - 1);
      assert x / 256 < Pow256(n - 1);
      FromLeLeBytes(x / 256, n - 1);
    }
  }

  /** Reading bytes as an integer and writing it back gives the same bytes. */
  lemma {:induction false} LeBytesFromLe(s: seq<uint8>)
    ensures LeBytes(FromLe(s), |s|) == s
  {
    if s != [] {
      var x := FromLe(s);
      assert x % 256 == s[0] as nat && x / 256 == FromLe(s[1..]);
      LeBytesFromLe(s[1..]);
    }
  }

  /** The raw bytes of a `uint32_t`. */
  function UInt32Bytes(x: uint32): (r: seq<uint8>)
    ensures |r| == SIZEOF_UINT32
  {
    LeBytes(x as nat, 4)
  }

  /** The raw bytes of a `uint32_t` read back as its value. */
  lemma UInt32BytesReadBack(x: uint32)
    ensures FromLe(UInt32Bytes(x)) == x as nat
  {
    FromLeLeBytes(x as nat, 4);
  }

  /** The raw bytes of a `size_t` holding x, which wraps modulo 2^64. */
  function SizeTBytes(x: nat): (r: seq<uint8>)
    ensures |r| == SIZEOF_SIZE_T && FromLe(r) == x % SIZE_T_MODULUS
    ensures x < SIZE_T_MODULUS ==> FromLe(r) == x
  {
    FromLeLeBytes(x % SIZE_T_MODULUS, 8);
    LeBytes(x % SIZE_T_MODULUS, 8)
  }

  /** The two's-complement pattern of an `int`, as an unsigned number. */
  function TwosComplement(x: int32): (u: nat)
    ensures u < 0x1_0000_0000
    ensures x >= 0 ==> u == x as nat
    ensures x < 0 ==> u >= 0x8000_0000
  {
    if x < 0 then x as int + 0x1_0000_0000 else x as nat
  }

  /** The raw bytes of an `int`. */
  function Int32Bytes(x: int32): (r: seq<uint8>)
    ensures |r| == SIZEOF_INT && FromLe(r) == TwosComplement(x)
  {
    FromLeLeBytes(TwosComplement(x), 4);
    LeBytes(TwosComplement(x), 4)
  }

  /** The raw bytes of an `int` array, element after element. */
  function Int32ArrayBytes(xs: seq<int32>): (r: seq<uint8>)
    ensures |r| == SIZEOF_INT * |xs|
    ensures xs != [] ==> r[..SIZEOF_INT] == Int32Bytes(xs[0])
  {
    if xs == [] then [] else Int32Bytes(xs[0]) + Int32ArrayBytes(xs[1..])
  }

  /** What `Write(s, strlen(s) + 1)` hashes: the string and its terminator. */
  function WithNul(s: CString): (r: seq<uint8>)
    ensures |r| == |s| + 1 && r[|s|] == 0
  {
    s + [0]
  }

  /** Splits bytes at their first NUL: the C string before it and the bytes after it. */
  function SplitCString(b: seq<uint8>): (r: Option<(CString, seq<uint8>)>)
    ensures r.None? <==> 0 !in b
    ensures r.Some? ==> WithNul(r.value.0) + r.value.1 == b
  {
    if b == [] then None
    else if b[0] == 0 then Some(([], b[1..]))
    else match SplitCString(b[1..])
      case None => None
      case Some((s, rest)) => Some(([b[0]] + s, rest))
  }

  /** A terminated C string can be read back from the front of the bytes it is followed by. */
  lemma {:induction false} SplitWithNul(s: CString, rest: seq<uint8>)
    ensures SplitCString(WithNul(s) + rest) == Some((s, rest))
  {
    if s != [] {
      var b := WithNul(s) + rest;
      assert b[0] == s[0] != 0;
      assert b[1..] == WithNul(s[1..]) + rest;
      SplitWithNul(s[1..], rest);
      assert [s[0]] + s[1..] == s;
    } else {
      assert (WithNul(s) + rest)[1..] == rest;
    }
  }
}
