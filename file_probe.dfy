/** `AddFile` and `AddPath`: hash a file's descriptor, status and first
    mebibyte of content, or a path and its status.

    The OS calls become parameters: the value `open` returned, the record
    `fstat`/`stat` filled in (None when the call failed), and `read`, which
    gives the outcome of the k-th `read` call on the descriptor (k from 0).
 */
module FileProbe {
  import opened Native
  import opened Sha512Log

  /** sizeof(struct stat) on x86-64 Linux; its contents are opaque. */
  const SIZEOF_STAT := 144
  /** The size of the local buffer `fbuf`. */
  const CHUNK_SIZE := 4096
  /** Only the first 1 MiB of a file is read. */
  const FILE_CAP := 1048576
  /** FILE_CAP / CHUNK_SIZE: the most `read` calls one file can get. */
  const MAX_READS := 256

  type StatRecord = s: seq<uint8> | |s| == SIZEOF_STAT witness seq(SIZEOF_STAT, _ => 0)

  /** The bytes one `read` call may place in `fbuf`. */
  type Chunk = s: seq<uint8> | |s| <= CHUNK_SIZE

  /** The outcome of one `read(f, fbuf, 4096)`: -1, or the bytes read (none at end of file). */
  datatype ReadResult = ReadFailed | ReadOk(data: Chunk)

  /** The `int n` that `read` returns. */
  function ReadCount(r: ReadResult): (n: int)
    ensures -1 <= n <= CHUNK_SIZE
    ensures n > 0 <==> r.ReadOk? && r.data != []
  {
    match r
    case ReadFailed => -1
    case ReadOk(data) => |data|
  }

  /** The bytes `hasher.Write(fbuf, n)` adds for one read: only a positive count writes. */
  function Payload(r: ReadResult): (p: seq<uint8>)
    ensures |p| == if ReadCount(r) > 0 then ReadCount(r) else 0
    ensures r.ReadOk? ==> p == r.data
  {
    if ReadCount(r) > 0 then r.data else []
  }

  /** Whether the do-while loop goes on after call k: a full chunk came back and the
      running total, which is then CHUNK_SIZE * (k + 1), is still below the cap. */
  predicate Continues(r: ReadResult, k: nat) {
    ReadCount(r) == CHUNK_SIZE && CHUNK_SIZE * (k + 1) < FILE_CAP
  }

  /** The content bytes hashed by the read loop from call k on. */
  function ReadLoop(read: nat -> ReadResult, k: nat): seq<uint8>
    requires CHUNK_SIZE * k < FILE_CAP
    decreases FILE_CAP - CHUNK_SIZE * k
  {
    Payload(read(k)) + if Continues(read(k), k) then ReadLoop(read, k + 1) else []
  }

  /** How many `read` calls the loop makes from call k on. */
  function ReadCalls(read: nat -> ReadResult, k: nat): nat
    requires CHUNK_SIZE * k < FILE_CAP
    decreases FILE_CAP - CHUNK_SIZE * k
  {
    1 + if Continues(read(k), k) then ReadCalls(read, k + 1) else 0
  }

  /** The payloads of calls k .. m-1, in call order. */
  function Payloads(read: nat -> ReadResult, k: nat, m: nat): seq<uint8>
    requires k <= m
    decreases m - k
  {
    if k == m then [] else Payload(read(k)) + Payloads(read, k + 1, m)
  }

  /** The whole record `AddFile` hashes: nothing when `open` failed; otherwise the
      descriptor, the stat record when `fstat` succeeded, and the content. */
  function FileRecord(open: int32, fstat: Option<StatRecord>, read: nat -> ReadResult): seq<uint8>
  {
    if open == -1 then []
    else Int32Bytes(open) + StatBytes(fstat) + ReadLoop(read, 0)
  }

  /** `hasher << sb` when `fstat` succeeded, nothing otherwise. */
  function StatBytes(fstat: Option<StatRecord>): seq<uint8>
  {
    if fstat.Some? then fstat.value else []
  }

  /** The loop stops at the first call that is not a full chunk, or after the
      call that brings the total to 1 MiB; every earlier call was a full chunk. */
  lemma {:induction false} ReadCallsStop(read: nat -> ReadResult, k: nat)
    requires CHUNK_SIZE * k < FILE_CAP
    ensures var n := ReadCalls(read, k);
      1 <= n && k + n <= MAX_READS
      && (forall j :: k <= j < k + n - 1 ==> ReadCount(read(j)) == CHUNK_SIZE)
      && (ReadCount(read(k + n - 1)) != CHUNK_SIZE || k + n == MAX_READS)
    decreases FILE_CAP - CHUNK_SIZE * k
  {
    if Continues(read(k), k) {
      ReadCallsStop(read, k + 1);
    }
  }

  /** The content hashed is exactly the positive read results, in call order. */
  lemma {:induction false} ReadLoopIsPayloads(read: nat -> ReadResult, k: nat)
    requires CHUNK_SIZE * k < FILE_CAP
    ensures ReadLoop(read, k) == Payloads(read, k, k + ReadCalls(read, k))
    decreases FILE_CAP - CHUNK_SIZE * k
  {
    if Continues(read(k), k) {
      ReadLoopIsPayloads(read, k + 1);
    }
  }

  /** From call k on the loop hashes at most the rest of the 1 MiB budget. */
  lemma {:induction false} ReadLoopBound(read: nat -> ReadResult, k: nat)
    requires CHUNK_SIZE * k < FILE_CAP
    ensures |ReadLoop(read, k)| <= FILE_CAP - CHUNK_SIZE * k
    decreases FILE_CAP - CHUNK_SIZE * k
  {
    if Continues(read(k), k) {
      ReadLoopBound(read, k + 1);
    }
  }

  /** A file whose reads all return full chunks (a file of 1 MiB or more) has
      exactly its first 1 MiB hashed. */
  lemma {:induction false} ReadLoopLargeFile(read: nat -> ReadResult, k: nat)
    requires CHUNK_SIZE * k < FILE_CAP
    requires forall j :: ReadCount(read(j)) == CHUNK_SIZE
    ensures |ReadLoop(read, k)| == FILE_CAP - CHUNK_SIZE * k
    decreases FILE_CAP - CHUNK_SIZE * k
  {
    assert ReadCount(read(k)) == CHUNK_SIZE;
    if Continues(read(k), k) {
      ReadLoopLargeFile(read, k + 1);
    }
  }

  /** What `AddFile` hashes: nothing if `open` failed; otherwise the 4-byte
      descriptor, then the stat record exactly when `fstat` succeeded, then at
      most 1 MiB of content in at most 256 reads. */
  lemma FileRecordShape(open: int32, fstat: Option<StatRecord>, read: nat -> ReadResult)
    ensures open == -1 ==> FileRecord(open, fstat, read) == []
    ensures open != -1 ==>
      var r := FileRecord(open, fstat, read);
      var head := SIZEOF_INT + (if fstat.Some? then SIZEOF_STAT else 0);
      head <= |r| <= head + FILE_CAP
      && r[..SIZEOF_INT] == Int32Bytes(open)
      && (fstat.Some? ==> r[SIZEOF_INT..head] == fstat.value)
      && r[head..] == Payloads(read, 0, ReadCalls(read, 0))
      && ReadCalls(read, 0) <= MAX_READS
  {
    ReadLoopBound(read, 0);
    ReadLoopIsPayloads(read, 0);
    ReadCallsStop(read, 0);
    if open != -1 {
      var a, b, c := Int32Bytes(open), StatBytes(fstat), ReadLoop(read, 0);
      var r := FileRecord(open, fstat, read);
      assert r == a + b + c;
      assert r[..SIZEOF_INT] == a;
      assert r[SIZEOF_INT..|a + b|] == b;
      assert r[|a + b|..] == c;
    }
  }

  /** One turn of the read loop: call k's payload comes first, then the rest
      of the loop when it goes on. */
  lemma ReadLoopStep(before: seq<uint8>, read: nat -> ReadResult, k: nat)
    requires CHUNK_SIZE * k < FILE_CAP
    ensures Continues(read(k), k) ==>
      before + Payload(read(k)) + ReadLoop(read, k + 1) == before + ReadLoop(read, k)
    ensures !Continues(read(k), k) ==> before + Payload(read(k)) == before + ReadLoop(read, k)
  {
    if Continues(read(k), k) {
      ConcatAssoc(before, Payload(read(k)), ReadLoop(read, k + 1));
    } else {
      assert ReadLoop(read, k) == Payload(read(k)) + [];
      assert Payload(read(k)) + [] == Payload(read(k));
    }
  }

  /** While the loop goes on the size_t total does not wrap: it is 4096 times the
      number of calls, and the loop condition is that of `Continues`. */
  lemma TotalTracksCalls(total: nat, n: int, k: nat)
    requires total == CHUNK_SIZE * k < FILE_CAP && -1 <= n <= CHUNK_SIZE
    ensures var t := (total + n) % SIZE_T_MODULUS;
      (n == CHUNK_SIZE && t < FILE_CAP) == (n == CHUNK_SIZE && CHUNK_SIZE * (k + 1) < FILE_CAP)
      && (n == CHUNK_SIZE ==> t == CHUNK_SIZE * (k + 1))
  {
  }

  /** The do-while loop of `AddFile`: reads 4096-byte chunks until a read is
      not a full chunk or the total reaches 1 MiB, hashing each positive result. */
  method AddContent(hasher: Hasher, read: nat -> ReadResult)
    modifies hasher
    ensures hasher.log == old(hasher.log) + ReadLoop(read, 0)
  {
    ghost var target := hasher.log + ReadLoop(read, 0);
    var total: nat := 0;
    var calls: nat := 0;
    var more := true;
    while more
      invariant more ==> CHUNK_SIZE * calls < FILE_CAP && total == CHUNK_SIZE * calls
      invariant more ==> hasher.log + ReadLoop(read, calls) == target
      invariant !more ==> hasher.log == target
      decreases FILE_CAP - CHUNK_SIZE * calls
    {
      ghost var before := hasher.log;
      ReadLoopStep(before, read, calls);
      var r := read(calls);
      var n := ReadCount(r);
      if n > 0 {
        hasher.Write(r.data[..n]);
      } else {
        assert hasher.log == before + Payload(r);
      }
      TotalTracksCalls(total, n, calls);
      // total is a size_t: a -1 from a failed read wraps it, but then the loop ends.
      total := (total + n) % SIZE_T_MODULUS;
      more := n == CHUNK_SIZE && total < FILE_CAP;
      assert more == Continues(r, calls);
      calls := calls + 1;
    }
  }

  /** `AddFile(hasher, path)` for the given OS answers about `path`. */
  method AddFile(hasher: Hasher, open: int32, fstat: Option<StatRecord>, read: nat -> ReadResult)
    modifies hasher
    ensures hasher.log == old(hasher.log) + FileRecord(open, fstat, read)
  {
    var f := open;
    if f != -1 {
      ghost var start := hasher.log;
      hasher.Write(Int32Bytes(f));
      if fstat.Some? {
        hasher.Write(fstat.value);
      }
      HeaderWritten(start, f, fstat, hasher.log);
      AddContent(hasher, read);
      FileRecordAppended(start, f, fstat, read);
    }
  }

  /** The log after the descriptor and, when `fstat` succeeded, the stat record. */
  lemma HeaderWritten(start: seq<uint8>, f: int32, fstat: Option<StatRecord>, log: seq<uint8>)
    requires fstat.Some? ==> log == start + Int32Bytes(f) + fstat.value
    requires fstat.None? ==> log == start + Int32Bytes(f)
    ensures log == start + Int32Bytes(f) + StatBytes(fstat)
  {
    if fstat.None? {
      assert start + Int32Bytes(f) + [] == start + Int32Bytes(f);
    }
  }

  /** Header then content is the whole file record. */
  lemma FileRecordAppended(start: seq<uint8>, f: int32, fstat: Option<StatRecord>, read: nat -> ReadResult)
    requires f != -1
    ensures start + Int32Bytes(f) + StatBytes(fstat) + ReadLoop(read, 0) == start + FileRecord(f, fstat, read)
  {
    var content := ReadLoop(read, 0);
    assert FileRecord(f, fstat, read) == Int32Bytes(f) + StatBytes(fstat) + content;
    Assoc4(start, Int32Bytes(f), StatBytes(fstat), content);
  }

  /** What `AddPath` hashes: the path with its terminator and the stat record
      when `stat` succeeded, nothing otherwise. */
  function PathRecord(path: CString, stat: Option<StatRecord>): (r: seq<uint8>)
    ensures stat.None? <==> r == []
  {
    if stat.Some? then WithNul(path) + stat.value else []
  }

  /** The path can be read back from the record, and what follows it is the stat record. */
  lemma PathRecordReadBack(path: CString, stat: StatRecord)
    ensures SplitCString(PathRecord(path, Some(stat))) == Some((path, stat))
    ensures |PathRecord(path, Some(stat))| == |path| + 1 + SIZEOF_STAT
  {
    SplitWithNul(path, stat);
  }

  /** `AddPath(hasher, path)` for the given answer of `stat(path)`. */
  method AddPath(hasher: Hasher, path: CString, stat: Option<StatRecord>)
    modifies hasher
    ensures hasher.log == old(hasher.log) + PathRecord(path, stat)
  {
    if stat.Some? {
      hasher.Write(WithNul(path));
      hasher.Write(stat.value);
    }
  }
}
