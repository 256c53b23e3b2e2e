/** `AddSysctl<S...>`: hashes one kernel parameter read with `sysctl`.

    The key is the template's integer list `CTL`. The OS answer is a
    parameter: the return value, `errno`, the size the kernel stored in
    `siz`, and the 64 KiB local buffer as it is after the call.
 */
module Sysctl {
  import opened Native
  import opened Sha512Log

  /** sizeof(buffer): the local result buffer of 64 KiB. */
  const SYSCTL_BUFFER_SIZE := 65536
  /** ENOMEM on Linux and the BSDs: the result did not fit the buffer. */
  const ENOMEM := 12

  type SysctlBuffer = b: seq<uint8> | |b| == SYSCTL_BUFFER_SIZE
    witness seq(SYSCTL_BUFFER_SIZE, _ => 0)

  /** What `sysctl(CTL, n, buffer, &siz, nullptr, 0)` leaves behind. */
  datatype SysctlAnswer = SysctlAnswer(ret: int, errno: int, siz: uint64, buffer: SysctlBuffer)

  /** The call counts when it succeeded or only reported that the buffer was too small. */
  predicate Accepted(ret: int, errno: int) {
    ret == 0 || (ret == -1 && errno == ENOMEM)
  }

  /** The size kept after clamping `siz` to the buffer: the smaller of the two. */
  function ClampedSize(siz: uint64): (n: nat)
    ensures n <= SYSCTL_BUFFER_SIZE && n <= siz as nat
    ensures n == siz as nat || n == SYSCTL_BUFFER_SIZE
  {
    if siz as nat > SYSCTL_BUFFER_SIZE then SYSCTL_BUFFER_SIZE else siz as nat
  }

  /** What `AddSysctl` hashes: for an accepted answer, sizeof(CTL) as a size_t,
      the key, the clamped size as a size_t and that many buffer bytes. */
  function SysctlRecord(key: seq<int32>, answer: SysctlAnswer): seq<uint8>
  {
    if Accepted(answer.ret, answer.errno) then
      var n := ClampedSize(answer.siz);
      SizeTBytes(SIZEOF_INT * |key|) + Int32ArrayBytes(key) + SizeTBytes(n) + answer.buffer[..n]
    else []
  }

  /** A rejected answer hashes nothing. An accepted one hashes a record whose
      fields read back as the key length, the key, the clamped size and the
      first clamped-size bytes of the buffer, and never more than 64 KiB of it. */
  lemma SysctlRecordLayout(key: seq<int32>, answer: SysctlAnswer)
    requires SIZEOF_INT * |key| < SIZE_T_MODULUS
    ensures !Accepted(answer.ret, answer.errno) ==> SysctlRecord(key, answer) == []
    ensures Accepted(answer.ret, answer.errno) ==>
      var r := SysctlRecord(key, answer);
      var k := SIZEOF_SIZE_T + SIZEOF_INT * |key|;
      var n := ClampedSize(answer.siz);
      |r| == k + SIZEOF_SIZE_T + n
      && n <= SYSCTL_BUFFER_SIZE
      && FromLe(r[..SIZEOF_SIZE_T]) == SIZEOF_INT * |key|
      && r[SIZEOF_SIZE_T..k] == Int32ArrayBytes(key)
      && FromLe(r[k..k + SIZEOF_SIZE_T]) == n
      && r[k + SIZEOF_SIZE_T..] == answer.buffer[..n]
  {
    if Accepted(answer.ret, answer.errno) {
      var n := ClampedSize(answer.siz);
      Fields(SizeTBytes(SIZEOF_INT * |key|), Int32ArrayBytes(key), SizeTBytes(n), answer.buffer[..n]);
    }
  }

  /** Each part of a four-part concatenation is found at its offset. */
  lemma Fields(a: seq<uint8>, b: seq<uint8>, c: seq<uint8>, d: seq<uint8>)
    ensures var r := a + b + c + d;
      && r[..|a|] == a
      && r[|a|..|a| + |b|] == b
      && r[|a| + |b|..|a| + |b| + |c|] == c
      && r[|a| + |b| + |c|..] == d
  {
  }

  /** `AddSysctl<S...>(hasher)` with CTL = key, for the given answer. */
  method AddSysctl(hasher: Hasher, key: seq<int32>, answer: SysctlAnswer)
    modifies hasher
    ensures hasher.log == old(hasher.log) + SysctlRecord(key, answer)
  {
    var siz := answer.siz;
    if answer.ret == 0 || (answer.ret == -1 && answer.errno == ENOMEM) {
      hasher.Write(SizeTBytes(SIZEOF_INT * |key|));
      hasher.Write(Int32ArrayBytes(key));
      if siz as nat > SYSCTL_BUFFER_SIZE {
        siz := SYSCTL_BUFFER_SIZE as uint64;
      }
      hasher.Write(SizeTBytes(siz as nat));
      hasher.Write(answer.buffer[..siz]);
      ghost var header := SizeTBytes(SIZEOF_INT * |key|) + Int32ArrayBytes(key);
      ConcatAssoc(old(hasher.log), SizeTBytes(SIZEOF_INT * |key|), Int32ArrayBytes(key));
      ConcatAssoc(old(hasher.log), header, SizeTBytes(siz as nat));
      ConcatAssoc(old(hasher.log), header + SizeTBytes(siz as nat), answer.buffer[..siz]);
    }
  }
}
