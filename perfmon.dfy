/** `RandAddSeedPerfmon`: on Windows, hashes the system's performance data,
    at most once every ten minutes.

    The clock reading, the registry and the atomic timestamp become model
    inputs: `now` is `GetTime<std::chrono::seconds>()`, a `Registry` object
    gives the outcome of `RegQueryValueExA(HKEY_PERFORMANCE_DATA, "Global",
    ...)` for a buffer of each size and records the queries made, and the
    function-local static `last_perfmon` is the field of a `PerfmonState`
    object.
 */
module Perfmon {
  import opened Native
  import opened Sha512Log

  /** The initial size of `vData`. */
  const INITIAL_SIZE := 250000
  /** `nMaxSize`: the buffer is not grown past 10 MB. */
  const MAX_SIZE := 10000000
  /** Ten minutes in seconds: the least time between two queries. */
  const PERFMON_INTERVAL := 600

  /** What a registry query reports: `ERROR_SUCCESS` with the bytes it placed
      at the front of the buffer (`nSize` of them), `ERROR_MORE_DATA`, or any
      other error code. */
  datatype RegResult = RegSuccess(data: seq<uint8>) | RegMoreData | RegFailed

  /** The registry never reports more bytes than the buffer it was given holds. */
  ghost predicate FitsBuffer(query: nat -> RegResult) {
    forall n: nat :: query(n).RegSuccess? ==> |query(n).data| <= n
  }

  /** `std::max((size * 3) / 2, nMaxSize)`: the size the buffer is grown to. */
  function GrownSize(size: nat): (n: nat)
    ensures n >= MAX_SIZE && n >= size * 3 / 2
    ensures n == MAX_SIZE || n == size * 3 / 2
  {
    if size * 3 / 2 < MAX_SIZE then MAX_SIZE else size * 3 / 2
  }

  /** Whether the query loop stops after a query with this outcome on a buffer of this size. */
  predicate LoopStops(r: RegResult, size: nat) {
    !r.RegMoreData? || size >= MAX_SIZE
  }

  /** The measure that bounds the query loop: the room left below the cap. */
  function Room(size: nat): nat {
    if size < MAX_SIZE then MAX_SIZE - size else 0
  }

  /** The buffer sizes the query loop passes to the registry, from a buffer of `size` on. */
  function QuerySizes(query: nat -> RegResult, size: nat): seq<nat>
    decreases Room(size)
  {
    if LoopStops(query(size), size) then [size]
    else [size] + QuerySizes(query, GrownSize(size))
  }

  /** The buffer size of the last query, whose outcome decides what is hashed. */
  function FinalSize(query: nat -> RegResult, size: nat): nat
    decreases Room(size)
  {
    if LoopStops(query(size), size) then size
    else FinalSize(query, GrownSize(size))
  }

  /** The bytes one permitted run of the probe hashes: those of a successful
      last query, nothing after any failure. */
  function PerfmonBytes(query: nat -> RegResult): seq<uint8>
  {
    var r := query(FinalSize(query, INITIAL_SIZE));
    if r.RegSuccess? then r.data else []
  }

  /** The last size queried is the last element of the query sizes. */
  lemma {:induction false} FinalSizeIsLast(query: nat -> RegResult, size: nat)
    ensures var sizes := QuerySizes(query, size);
      sizes != [] && sizes[|sizes| - 1] == FinalSize(query, size)
    decreases Room(size)
  {
    if !LoopStops(query(size), size) {
      FinalSizeIsLast(query, GrownSize(size));
    }
  }

  /** Because `std::max` picks the cap whenever 1.5 times the size is below it,
      the first growth of the 250000-byte buffer jumps straight to 10 MB, and
      the registry is queried once or twice: first with 250000 bytes, then
      (only after `ERROR_MORE_DATA`) with exactly 10000000 bytes. */
  lemma QuerySizesFromInitial(query: nat -> RegResult)
    ensures var sizes := QuerySizes(query, INITIAL_SIZE);
      1 <= |sizes| <= 2
      && sizes[0] == INITIAL_SIZE
      && (|sizes| == 2 <==> query(INITIAL_SIZE).RegMoreData?)
      && (|sizes| == 2 ==> sizes[1] == MAX_SIZE)
  {
    assert GrownSize(INITIAL_SIZE) == MAX_SIZE;
    assert LoopStops(query(MAX_SIZE), MAX_SIZE);
  }

  /** The buffer never exceeds 10 MB, and what is hashed fits in the buffer. */
  lemma PerfmonBytesBound(query: nat -> RegResult)
    requires FitsBuffer(query)
    ensures var n := FinalSize(query, INITIAL_SIZE);
      (n == INITIAL_SIZE || n == MAX_SIZE)
      && |PerfmonBytes(query)| <= n <= MAX_SIZE
  {
    QuerySizesFromInitial(query);
    FinalSizeIsLast(query, INITIAL_SIZE);
  }

  /** The registry, standing in for the OS: `query` gives its outcome for a
      buffer of each size, and `queried` records the buffer size of every
      query made so far, in order. */
  class Registry {
    const query: nat -> RegResult
    ghost var queried: seq<nat>

    constructor (query: nat -> RegResult)
      ensures this.query == query && queried == []
    {
      this.query := query;
      queried := [];
    }

    /** `RegQueryValueExA(HKEY_PERFORMANCE_DATA, "Global", ...)` on `buffer`:
        it reports its outcome for the buffer's size and, on success, places
        its bytes at the buffer's front; the query is recorded. */
    method RegQueryValue(buffer: array<uint8>) returns (r: RegResult, nSize: nat)
      requires FitsBuffer(query)
      modifies this, buffer
      ensures queried == old(queried) + [buffer.Length]
      ensures r == query(buffer.Length)
      ensures r.RegSuccess? ==> nSize == |r.data| <= buffer.Length && buffer[..nSize] == r.data
    {
      queried := queried + [buffer.Length];
      r := query(buffer.Length);
      nSize := buffer.Length;
      if r.RegSuccess? {
        nSize := |r.data|;
        forall i | 0 <= i < nSize {
          buffer[i] := r.data[i];
        }
      }
    }
  }

  /** `memory_cleanse(buffer, n)`: zeroes the first n bytes. */
  method MemoryCleanse(buffer: array<uint8>, n: nat)
    requires n <= buffer.Length
    modifies buffer
    ensures forall i :: 0 <= i < n ==> buffer[i] == 0
    ensures buffer[n..] == old(buffer[n..])
  {
    var i := 0;
    while i < n
      invariant 0 <= i <= n
      invariant forall j :: 0 <= j < i ==> buffer[j] == 0
      invariant buffer[n..] == old(buffer[n..])
    {
      buffer[i] := 0;
      i := i + 1;
    }
  }

  /** The state `RandAddSeedPerfmon` keeps between calls. */
  class PerfmonState {
    /** `last_perfmon`: when the registry was last queried, in seconds. */
    var lastPerfmon: int

    constructor ()
      ensures lastPerfmon == 0
    {
      lastPerfmon := 0;
    }

    /** Whether a call at time `now` is let through by the ten-minute limit. */
    predicate Permits(now: int)
      reads this
    {
      now >= lastPerfmon + PERFMON_INTERVAL
    }

    /** `RandAddSeedPerfmon(hasher)` at time `now`. Within ten minutes of the
        last query it changes nothing, makes no registry query and returns
        null. Otherwise it records `now` before querying, whatever the
        outcome, queries the registry with exactly the buffer sizes
        `QuerySizes` lists from 250000 bytes, hashes the bytes of a
        successful last query and returns the buffer with those bytes zeroed. */
    method RandAddSeedPerfmon(hasher: Hasher, now: int, reg: Registry)
      returns (vData: array?<uint8>)
      requires FitsBuffer(reg.query)
      modifies this, hasher, reg
      ensures !old(Permits(now)) ==>
        && vData == null && reg.queried == old(reg.queried)
        && lastPerfmon == old(lastPerfmon) && hasher.log == old(hasher.log)
      ensures old(Permits(now)) ==>
        && reg.queried == old(reg.queried) + QuerySizes(reg.query, INITIAL_SIZE)
        && lastPerfmon == now
        && vData != null && fresh(vData)
        && vData.Length == FinalSize(reg.query, INITIAL_SIZE)
        && hasher.log == old(hasher.log) + PerfmonBytes(reg.query)
        && (forall i :: 0 <= i < |PerfmonBytes(reg.query)| ==> vData[i] == 0)
    {
      if now < lastPerfmon + PERFMON_INTERVAL {
        return null;
      }
      lastPerfmon := now;

      vData := new uint8[INITIAL_SIZE](_ => 0);
      var r: RegResult;
      var nSize: nat;
      while true
        invariant fresh(vData) && (vData.Length == INITIAL_SIZE || vData.Length == MAX_SIZE)
        invariant FinalSize(reg.query, vData.Length) == FinalSize(reg.query, INITIAL_SIZE)
        invariant reg.queried + QuerySizes(reg.query, vData.Length)
          == old(reg.queried) + QuerySizes(reg.query, INITIAL_SIZE)
        invariant hasher.log == old(hasher.log) && lastPerfmon == now
        decreases Room(vData.Length)
      {
        ghost var before := reg.queried;
        r, nSize := reg.RegQueryValue(vData);
        if !r.RegMoreData? || vData.Length >= MAX_SIZE {
          break;
        }
        ConcatAssoc(before, [vData.Length], QuerySizes(reg.query, GrownSize(vData.Length)));
        // Grow the buffer; what the failed query left in it is never hashed.
        vData := new uint8[GrownSize(vData.Length)](_ => 0);
      }
      if r.RegSuccess? {
        hasher.Write(vData[..nSize]);
        MemoryCleanse(vData, nSize);
      }
    }
  }
}
