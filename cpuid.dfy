/** `AddCPUID` and `AddAllCPUID`: hash the answers of the CPU identification
    instruction for every standard leaf (with the sub-leaves of leaves 4, 11
    and 13) and every extended leaf.

    The instruction becomes a parameter: `cpuid(leaf, subleaf)` gives the
    four output registers `GetCPUID` would store in ax, bx, cx and dx.
 */
module Cpuid {
  import opened Native
  import opened Sha512Log

  datatype Registers = Registers(ax: uint32, bx: uint32, cx: uint32, dx: uint32)

  /** One `GetCPUID(leaf, subleaf, ...)` request. */
  datatype Query = Query(leaf: uint32, subleaf: uint32)

  /** The first extended leaf; querying it returns the highest extended leaf in ax. */
  const EXTENDED_BASE: uint32 := 0x8000_0000
  const UINT32_MAX := 0xFFFF_FFFF
  /** Six 4-byte values per query: leaf, subleaf, ax, bx, cx, dx. */
  const QUERY_RECORD_SIZE := 24

  /** What `hasher << leaf << subleaf << ax << bx << cx << dx` writes. */
  function QueryRecord(q: Query, regs: Registers): (r: seq<uint8>)
    ensures |r| == QUERY_RECORD_SIZE
  {
    UInt32Bytes(q.leaf) + UInt32Bytes(q.subleaf) + UInt32Bytes(regs.ax)
    + UInt32Bytes(regs.bx) + UInt32Bytes(regs.cx) + UInt32Bytes(regs.dx)
  }

  /** A query record reads back, four bytes at a time, as leaf, subleaf, ax, bx, cx, dx. */
  lemma QueryRecordFields(q: Query, regs: Registers)
    ensures var r := QueryRecord(q, regs);
      && FromLe(r[0..4]) == q.leaf as nat && FromLe(r[4..8]) == q.subleaf as nat
      && FromLe(r[8..12]) == regs.ax as nat && FromLe(r[12..16]) == regs.bx as nat
      && FromLe(r[16..20]) == regs.cx as nat && FromLe(r[20..24]) == regs.dx as nat
  {
    var r := QueryRecord(q, regs);
    UInt32BytesReadBack(q.leaf);
    UInt32BytesReadBack(q.subleaf);
    UInt32BytesReadBack(regs.ax);
    UInt32BytesReadBack(regs.bx);
    UInt32BytesReadBack(regs.cx);
    UInt32BytesReadBack(regs.dx);
    assert r[0..4] == UInt32Bytes(q.leaf) && r[4..8] == UInt32Bytes(q.subleaf);
    assert r[8..12] == UInt32Bytes(regs.ax) && r[12..16] == UInt32Bytes(regs.bx);
    assert r[16..20] == UInt32Bytes(regs.cx) && r[20..24] == UInt32Bytes(regs.dx);
  }

  /** The records of a sequence of queries, in query order. */
  function Records(cpuid: (uint32, uint32) -> Registers, qs: seq<Query>): (r: seq<uint8>)
    ensures |r| == QUERY_RECORD_SIZE * |qs|
  {
    if qs == [] then []
    else QueryRecord(qs[0], cpuid(qs[0].leaf, qs[0].subleaf)) + Records(cpuid, qs[1..])
  }

  lemma {:induction false} RecordsAppend(cpuid: (uint32, uint32) -> Registers, a: seq<Query>, b: seq<Query>)
    ensures Records(cpuid, a + b) == Records(cpuid, a) + Records(cpuid, b)
  {
    if a != [] {
      assert (a + b)[1..] == a[1..] + b;
      RecordsAppend(cpuid, a[1..], b);
    } else {
      assert a + b == b;
    }
  }

  /** The i-th 24-byte block of the records is the record of the i-th query. */
  lemma {:induction false} RecordsBlock(cpuid: (uint32, uint32) -> Registers, qs: seq<Query>, i: nat)
    requires i < |qs|
    ensures Records(cpuid, qs)[QUERY_RECORD_SIZE * i..QUERY_RECORD_SIZE * (i + 1)]
            == QueryRecord(qs[i], cpuid(qs[i].leaf, qs[i].subleaf))
  {
    var head := QueryRecord(qs[0], cpuid(qs[0].leaf, qs[0].subleaf));
    var tail := Records(cpuid, qs[1..]);
    var lo, hi := QUERY_RECORD_SIZE * i, QUERY_RECORD_SIZE * (i + 1);
    if i > 0 {
      RecordsBlock(cpuid, qs[1..], i - 1);
      assert lo - |head| == QUERY_RECORD_SIZE * (i - 1) && hi - |head| == QUERY_RECORD_SIZE * i;
      assert (head + tail)[lo..hi] == tail[lo - |head|..hi - |head|];
    } else {
      assert (head + tail)[lo..hi] == head;
    }
  }

  /** The leaves whose sub-leaves are enumerated. */
  predicate HasSubleaves(leaf: uint32) {
    leaf == 4 || leaf == 11 || leaf == 13
  }

  /** `(x & 0xFF00) == 0`: bits 8 to 15 of x are all clear. */
  predicate MaskFF00IsZero(x: uint32) {
    (x as int / 0x100) % 0x100 == 0
  }

  /** Whether the sub-leaf loop breaks after the query of `leaf` answered `regs`. */
  predicate StopsAfter(leaf: uint32, regs: Registers) {
    || !HasSubleaves(leaf)
    || ((leaf == 4 || leaf == 13) && regs.ax == 0)
    || (leaf == 11 && MaskFF00IsZero(regs.cx))
  }

  /** The sub-leaf loop of `leaf`, started at `s`, reaches a stopping sub-leaf
      before the 32-bit counter wraps: the condition for it to terminate. */
  ghost predicate SubleafLoopEnds(cpuid: (uint32, uint32) -> Registers, leaf: uint32, s: uint32) {
    exists t: uint32 :: s <= t && StopsAfter(leaf, cpuid(leaf, t))
  }

  /** The queries the sub-leaf loop of `leaf` makes, from sub-leaf s on. */
  function LeafQueries(cpuid: (uint32, uint32) -> Registers, leaf: uint32, s: uint32): seq<Query>
    requires SubleafLoopEnds(cpuid, leaf, s)
    decreases UINT32_MAX - s as int
  {
    [Query(leaf, s)] + if StopsAfter(leaf, cpuid(leaf, s)) then [] else LeafQueries(cpuid, leaf, s + 1)
  }

  /** The standard leaves up to max that enumerate sub-leaves all reach a stop. */
  ghost predicate SubleafLoopsEnd(cpuid: (uint32, uint32) -> Registers, max: uint32) {
    && (4 <= max ==> SubleafLoopEnds(cpuid, 4, 0))
    && (11 <= max ==> SubleafLoopEnds(cpuid, 11, 0))
    && (13 <= max ==> SubleafLoopEnds(cpuid, 13, 0))
  }

  lemma SubleafLoopEndsAt(cpuid: (uint32, uint32) -> Registers, leaf: uint32, max: uint32)
    requires leaf <= max && SubleafLoopsEnd(cpuid, max)
    ensures SubleafLoopEnds(cpuid, leaf, 0)
  {
    if !HasSubleaves(leaf) {
      assert StopsAfter(leaf, cpuid(leaf, 0));
    }
  }

  /** The queries of the standard-leaf loop from `leaf` up to `max`. */
  function StandardQueries(cpuid: (uint32, uint32) -> Registers, leaf: nat, max: uint32): seq<Query>
    requires max as int < UINT32_MAX && SubleafLoopsEnd(cpuid, max)
    decreases max as int + 1 - leaf
  {
    if leaf > max as int then []
    else
      SubleafLoopEndsAt(cpuid, leaf as uint32, max);
      LeafQueries(cpuid, leaf as uint32, 0) + StandardQueries(cpuid, leaf + 1, max)
  }

  /** The queries of the extended-leaf loop from `leaf` up to `extMax`. */
  function ExtendedQueries(leaf: nat, extMax: uint32): seq<Query>
    decreases extMax as int + 1 - leaf
  {
    if leaf > extMax as int then []
    else [Query(leaf as uint32, 0)] + ExtendedQueries(leaf + 1, extMax)
  }

  /** `AddAllCPUID` terminates: neither highest leaf is 0xFFFFFFFF (where the
      32-bit leaf counter would wrap) and every sub-leaf loop reaches a stop. */
  ghost predicate Terminates(cpuid: (uint32, uint32) -> Registers) {
    && (cpuid(0, 0).ax as int) < UINT32_MAX
    && (cpuid(EXTENDED_BASE, 0).ax as int) < UINT32_MAX
    && SubleafLoopsEnd(cpuid, cpuid(0, 0).ax)
  }

  /** Every query `AddAllCPUID` makes, in order. */
  function AllQueries(cpuid: (uint32, uint32) -> Registers): seq<Query>
    requires Terminates(cpuid)
  {
    [Query(0, 0)] + StandardQueries(cpuid, 1, cpuid(0, 0).ax)
    + [Query(EXTENDED_BASE, 0)] + ExtendedQueries(EXTENDED_BASE as nat + 1, cpuid(EXTENDED_BASE, 0).ax)
  }

  /** A sub-leaf loop queries consecutive sub-leaves s, s+1, ... of its leaf and
      ends at the first one whose answer meets the leaf's stop condition. */
  lemma {:induction false} LeafQueriesShape(cpuid: (uint32, uint32) -> Registers, leaf: uint32, s: uint32)
    requires SubleafLoopEnds(cpuid, leaf, s)
    ensures var qs := LeafQueries(cpuid, leaf, s);
      && 1 <= |qs| && s as int + |qs| <= UINT32_MAX + 1
      && (forall i :: 0 <= i < |qs| ==> qs[i] == Query(leaf, (s as int + i) as uint32))
      && (forall i :: 0 <= i < |qs| - 1 ==> !StopsAfter(leaf, cpuid(leaf, qs[i].subleaf)))
      && StopsAfter(leaf, cpuid(leaf, qs[|qs| - 1].subleaf))
    decreases UINT32_MAX - s as int
  {
    if !StopsAfter(leaf, cpuid(leaf, s)) {
      LeafQueriesShape(cpuid, leaf, s + 1);
      var rest := LeafQueries(cpuid, leaf, s + 1);
      var qs := LeafQueries(cpuid, leaf, s);
      assert qs == [Query(leaf, s)] + rest;
      forall i | 1 <= i < |qs|
        ensures qs[i] == Query(leaf, (s as int + i) as uint32)
      {
        assert qs[i] == rest[i - 1];
      }
    }
  }

  /** A leaf other than 4, 11 and 13 is queried at sub-leaf 0 only. */
  lemma PlainLeafQueries(cpuid: (uint32, uint32) -> Registers, leaf: uint32)
    requires !HasSubleaves(leaf)
    ensures SubleafLoopEnds(cpuid, leaf, 0)
    ensures LeafQueries(cpuid, leaf, 0) == [Query(leaf, 0)]
  {
    assert StopsAfter(leaf, cpuid(leaf, 0));
  }

  /** Every query of the standard-leaf loop from `leaf` is of a leaf in
      [leaf, max], and only leaves 4, 11 and 13 get a non-zero sub-leaf. */
  lemma {:induction false} StandardQueriesRange(cpuid: (uint32, uint32) -> Registers, leaf: nat, max: uint32)
    requires max as int < UINT32_MAX && SubleafLoopsEnd(cpuid, max)
    ensures forall q :: q in StandardQueries(cpuid, leaf, max) ==>
      && leaf <= q.leaf as int <= max as int
      && (!HasSubleaves(q.leaf) ==> q.subleaf == 0)
    decreases max as int + 1 - leaf
  {
    if leaf <= max as int {
      SubleafLoopEndsAt(cpuid, leaf as uint32, max);
      LeafQueriesShape(cpuid, leaf as uint32, 0);
      StandardQueriesRange(cpuid, leaf + 1, max);
      var head := LeafQueries(cpuid, leaf as uint32, 0);
      var rest := StandardQueries(cpuid, leaf + 1, max);
      var qs := StandardQueries(cpuid, leaf, max);
      assert qs == head + rest;
      forall q | q in qs
        ensures leaf <= q.leaf as int <= max as int
        ensures !HasSubleaves(q.leaf) ==> q.subleaf == 0
      {
        if q in head {
          var i :| 0 <= i < |head| && head[i] == q;
          if !HasSubleaves(leaf as uint32) {
            PlainLeafQueries(cpuid, leaf as uint32);
          }
        } else {
          assert q in rest;
        }
      }
    }
  }

  /** Queries whose leaves never decrease. */
  ghost predicate LeavesAscending(qs: seq<Query>) {
    forall i, j :: 0 <= i < j < |qs| ==> qs[i].leaf <= qs[j].leaf
  }

  /** The standard-leaf loop visits leaves in increasing order. */
  lemma {:induction false} StandardQueriesSorted(cpuid: (uint32, uint32) -> Registers, leaf: nat, max: uint32)
    requires max as int < UINT32_MAX && SubleafLoopsEnd(cpuid, max)
    ensures LeavesAscending(StandardQueries(cpuid, leaf, max))
    decreases max as int + 1 - leaf
  {
    if leaf <= max as int {
      SubleafLoopEndsAt(cpuid, leaf as uint32, max);
      LeafQueriesShape(cpuid, leaf as uint32, 0);
      StandardQueriesSorted(cpuid, leaf + 1, max);
      StandardQueriesRange(cpuid, leaf + 1, max);
      var head := LeafQueries(cpuid, leaf as uint32, 0);
      var rest := StandardQueries(cpuid, leaf + 1, max);
      var qs := StandardQueries(cpuid, leaf, max);
      assert qs == head + rest;
      forall i, j | 0 <= i < j < |qs|
        ensures qs[i].leaf <= qs[j].leaf
      {
        if j < |head| {
          assert qs[i] == head[i] && qs[j] == head[j];
          assert head[i].leaf == leaf as uint32 == head[j].leaf;
        } else if i < |head| {
          assert qs[i] == head[i] && qs[j] == rest[j - |head|];
          assert head[i].leaf == leaf as uint32;
          assert rest[j - |head|] in rest;
        } else {
          assert qs[i] == rest[i - |head|] && qs[j] == rest[j - |head|];
        }
      }
    }
  }

  /** The standard-leaf loop queries every leaf in [leaf, max] at sub-leaf 0. */
  lemma {:induction false} StandardQueriesCover(cpuid: (uint32, uint32) -> Registers, leaf: nat, max: uint32)
    requires max as int < UINT32_MAX && SubleafLoopsEnd(cpuid, max)
    ensures forall l: uint32 :: leaf <= l as int <= max as int ==> Query(l, 0) in StandardQueries(cpuid, leaf, max)
    decreases max as int + 1 - leaf
  {
    if leaf <= max as int {
      SubleafLoopEndsAt(cpuid, leaf as uint32, max);
      StandardQueriesCover(cpuid, leaf + 1, max);
      var head := LeafQueries(cpuid, leaf as uint32, 0);
      var rest := StandardQueries(cpuid, leaf + 1, max);
      var qs := StandardQueries(cpuid, leaf, max);
      assert qs == head + rest;
      forall l: uint32 | leaf <= l as int <= max as int
        ensures Query(l, 0) in qs
      {
        if l as int == leaf {
          assert qs[0] == head[0] == Query(l, 0);
        } else {
          assert Query(l, 0) in rest;
        }
      }
    }
  }

  /** The extended-leaf loop queries leaf, leaf+1, ..., extMax, each at sub-leaf 0. */
  lemma {:induction false} ExtendedQueriesShape(leaf: nat, extMax: uint32)
    ensures var qs := ExtendedQueries(leaf, extMax);
      && |qs| == (if leaf > extMax as int then 0 else extMax as int + 1 - leaf)
      && (forall i :: 0 <= i < |qs| ==> qs[i] == Query((leaf + i) as uint32, 0))
    decreases extMax as int + 1 - leaf
  {
    if leaf <= extMax as int {
      ExtendedQueriesShape(leaf + 1, extMax);
      var qs := ExtendedQueries(leaf, extMax);
      forall i | 1 <= i < |qs|
        ensures qs[i] == Query((leaf + i) as uint32, 0)
      {
        assert qs[i] == ExtendedQueries(leaf + 1, extMax)[i - 1];
      }
    }
  }

  /** `AddCPUID`: one query, hashed as leaf, subleaf, ax, bx, cx, dx. */
  method AddCPUID(hasher: Hasher, cpuid: (uint32, uint32) -> Registers, leaf: uint32, subleaf: uint32)
    returns (regs: Registers)
    modifies hasher
    ensures regs == cpuid(leaf, subleaf)
    ensures hasher.log == old(hasher.log) + QueryRecord(Query(leaf, subleaf), regs)
  {
    regs := cpuid(leaf, subleaf);
    hasher.Write(UInt32Bytes(leaf));
    hasher.Write(UInt32Bytes(subleaf));
    hasher.Write(UInt32Bytes(regs.ax));
    hasher.Write(UInt32Bytes(regs.bx));
    hasher.Write(UInt32Bytes(regs.cx));
    hasher.Write(UInt32Bytes(regs.dx));
  }

  /** One turn of the sub-leaf loop: the record of (leaf, s) comes first, and
      the loop goes on at s + 1 exactly when (leaf, s) does not stop it. */
  lemma LeafQueriesStep(cpuid: (uint32, uint32) -> Registers, leaf: uint32, s: uint32, t: uint32)
    requires s <= t && StopsAfter(leaf, cpuid(leaf, t)) && SubleafLoopEnds(cpuid, leaf, s)
    ensures StopsAfter(leaf, cpuid(leaf, s)) ==>
      Records(cpuid, LeafQueries(cpuid, leaf, s)) == QueryRecord(Query(leaf, s), cpuid(leaf, s))
    ensures !StopsAfter(leaf, cpuid(leaf, s)) ==>
      && s < t && SubleafLoopEnds(cpuid, leaf, s + 1)
      && Records(cpuid, LeafQueries(cpuid, leaf, s))
         == QueryRecord(Query(leaf, s), cpuid(leaf, s)) + Records(cpuid, LeafQueries(cpuid, leaf, s + 1))
  {
    if StopsAfter(leaf, cpuid(leaf, s)) {
      RecordsAppend(cpuid, [Query(leaf, s)], []);
      assert QueryRecord(Query(leaf, s), cpuid(leaf, s)) + [] == QueryRecord(Query(leaf, s), cpuid(leaf, s));
    } else {
      RecordsAppend(cpuid, [Query(leaf, s)], LeafQueries(cpuid, leaf, s + 1));
    }
  }

  /** One turn of the standard-leaf loop: the records of `leaf`'s sub-leaf loop come first. */
  lemma StandardQueriesStep(cpuid: (uint32, uint32) -> Registers, leaf: uint32, max: uint32)
    requires 1 <= leaf <= max && max as int < UINT32_MAX && SubleafLoopsEnd(cpuid, max)
    ensures SubleafLoopEnds(cpuid, leaf, 0)
    ensures Records(cpuid, StandardQueries(cpuid, leaf as nat, max))
         == Records(cpuid, LeafQueries(cpuid, leaf, 0)) + Records(cpuid, StandardQueries(cpuid, leaf as nat + 1, max))
  {
    SubleafLoopEndsAt(cpuid, leaf, max);
    RecordsAppend(cpuid, LeafQueries(cpuid, leaf, 0), StandardQueries(cpuid, leaf as nat + 1, max));
  }

  /** One turn of the extended-leaf loop. */
  lemma ExtendedQueriesStep(cpuid: (uint32, uint32) -> Registers, leaf: uint32, extMax: uint32)
    requires leaf <= extMax
    ensures Records(cpuid, ExtendedQueries(leaf as nat, extMax))
         == QueryRecord(Query(leaf, 0), cpuid(leaf, 0)) + Records(cpuid, ExtendedQueries(leaf as nat + 1, extMax))
  {
    RecordsAppend(cpuid, [Query(leaf, 0)], ExtendedQueries(leaf as nat + 1, extMax));
  }

  /** The last turn of a sub-leaf loop appends the rest of its records. */
  lemma SubleafLoopLast(before: seq<uint8>, cpuid: (uint32, uint32) -> Registers, leaf: uint32, s: uint32)
    requires StopsAfter(leaf, cpuid(leaf, s))
    ensures SubleafLoopEnds(cpuid, leaf, s)
    ensures before + QueryRecord(Query(leaf, s), cpuid(leaf, s)) == before + Records(cpuid, LeafQueries(cpuid, leaf, s))
  {
    LeafQueriesStep(cpuid, leaf, s, s);
  }

  /** A turn of a sub-leaf loop that does not stop leaves the records from s + 1 to append. */
  lemma SubleafLoopNext(before: seq<uint8>, cpuid: (uint32, uint32) -> Registers, leaf: uint32, s: uint32, t: uint32)
    requires s <= t && StopsAfter(leaf, cpuid(leaf, t)) && !StopsAfter(leaf, cpuid(leaf, s))
    ensures s < t && SubleafLoopEnds(cpuid, leaf, s + 1)
    ensures before + QueryRecord(Query(leaf, s), cpuid(leaf, s)) + Records(cpuid, LeafQueries(cpuid, leaf, s + 1))
         == before + Records(cpuid, LeafQueries(cpuid, leaf, s))
  {
    LeafQueriesStep(cpuid, leaf, s, t);
    ConcatAssoc(before, QueryRecord(Query(leaf, s), cpuid(leaf, s)), Records(cpuid, LeafQueries(cpuid, leaf, s + 1)));
  }

  /** The sub-leaf loop of one standard leaf. */
  method AddSubleaves(hasher: Hasher, cpuid: (uint32, uint32) -> Registers, leaf: uint32)
    requires SubleafLoopEnds(cpuid, leaf, 0)
    modifies hasher
    ensures hasher.log == old(hasher.log) + Records(cpuid, LeafQueries(cpuid, leaf, 0))
  {
    ghost var done := hasher.log + Records(cpuid, LeafQueries(cpuid, leaf, 0));
    ghost var t: uint32 :| StopsAfter(leaf, cpuid(leaf, t));
    var subleaf: uint32 := 0;
    while true
      invariant subleaf <= t && SubleafLoopEnds(cpuid, leaf, subleaf)
      invariant hasher.log + Records(cpuid, LeafQueries(cpuid, leaf, subleaf)) == done
      decreases t - subleaf
    {
      ghost var before := hasher.log;
      var regs := AddCPUID(hasher, cpuid, leaf, subleaf);
      // Iterate over sub-leaves for leaves 4, 11 and 13 only.
      if leaf != 4 && leaf != 11 && leaf != 13 {
        SubleafLoopLast(before, cpuid, leaf, subleaf);
        break;
      }
      if (leaf == 4 || leaf == 13) && regs.ax == 0 {
        SubleafLoopLast(before, cpuid, leaf, subleaf);
        break;
      }
      if leaf == 11 && MaskFF00IsZero(regs.cx) {
        SubleafLoopLast(before, cpuid, leaf, subleaf);
        break;
      }
      SubleafLoopNext(before, cpuid, leaf, subleaf, t);
      subleaf := subleaf + 1;
    }
  }

  /** The standard-leaf loop: leaves 1 to max, each with its sub-leaf loop. */
  method AddStandardLeaves(hasher: Hasher, cpuid: (uint32, uint32) -> Registers, max: uint32)
    requires max as int < UINT32_MAX && SubleafLoopsEnd(cpuid, max)
    modifies hasher
    ensures hasher.log == old(hasher.log) + Records(cpuid, StandardQueries(cpuid, 1, max))
  {
    ghost var done := hasher.log + Records(cpuid, StandardQueries(cpuid, 1, max));
    var leaf: uint32 := 1;
    while leaf <= max
      invariant 1 <= leaf as int <= max as int + 1
      invariant hasher.log + Records(cpuid, StandardQueries(cpuid, leaf as nat, max)) == done
      decreases max as int - leaf as int
    {
      StandardQueriesStep(cpuid, leaf, max);
      ghost var before := hasher.log;
      AddSubleaves(hasher, cpuid, leaf);
      ConcatAssoc(before, Records(cpuid, LeafQueries(cpuid, leaf, 0)),
                  Records(cpuid, StandardQueries(cpuid, leaf as nat + 1, max)));
      leaf := leaf + 1;
    }
  }

  /** The extended-leaf loop: leaves 0x80000001 to extMax, sub-leaf 0 each. */
  method AddExtendedLeaves(hasher: Hasher, cpuid: (uint32, uint32) -> Registers, extMax: uint32)
    requires extMax as int < UINT32_MAX
    modifies hasher
    ensures hasher.log == old(hasher.log) + Records(cpuid, ExtendedQueries(EXTENDED_BASE as nat + 1, extMax))
  {
    ghost var done := hasher.log + Records(cpuid, ExtendedQueries(EXTENDED_BASE as nat + 1, extMax));
    var leaf: uint32 := EXTENDED_BASE + 1;
    while leaf <= extMax
      invariant EXTENDED_BASE as int + 1 <= leaf as int
      invariant hasher.log + Records(cpuid, ExtendedQueries(leaf as nat, extMax)) == done
      decreases extMax as int - leaf as int
    {
      ExtendedQueriesStep(cpuid, leaf, extMax);
      ghost var before := hasher.log;
      var regs := AddCPUID(hasher, cpuid, leaf, 0);
      ConcatAssoc(before, QueryRecord(Query(leaf, 0), regs), Records(cpuid, ExtendedQueries(leaf as nat + 1, extMax)));
      leaf := leaf + 1;
    }
  }

  /** `AddAllCPUID`: hashes the records of exactly the queries `AllQueries` lists. */
  method AddAllCPUID(hasher: Hasher, cpuid: (uint32, uint32) -> Registers)
    requires Terminates(cpuid)
    modifies hasher
    ensures hasher.log == old(hasher.log) + Records(cpuid, AllQueries(cpuid))
  {
    // Iterate over all standard leaves; leaf 0 returns the highest one in ax.
    ghost var start := hasher.log;
    var regs := AddCPUID(hasher, cpuid, 0, 0);
    var max := regs.ax;
    RecordsSingle(cpuid, Query(0, 0));
    ghost var a := Records(cpuid, [Query(0, 0)]);
    ghost var b := Records(cpuid, StandardQueries(cpuid, 1, max));
    AddStandardLeaves(hasher, cpuid, max);
    assert hasher.log == start + a + b;
    // Iterate over all extended leaves; leaf 0x80000000 returns the highest one in ax.
    regs := AddCPUID(hasher, cpuid, EXTENDED_BASE, 0);
    var extMax := regs.ax;
    RecordsSingle(cpuid, Query(EXTENDED_BASE, 0));
    ghost var c := Records(cpuid, [Query(EXTENDED_BASE, 0)]);
    ghost var d := Records(cpuid, ExtendedQueries(EXTENDED_BASE as nat + 1, extMax));
    AddExtendedLeaves(hasher, cpuid, extMax);
    assert hasher.log == start + a + b + c + d;
    AllQueriesRecords(cpuid);
    ConcatAssoc(start + a + b, c, d);
    ConcatAssoc(start + a, b, c + d);
    ConcatAssoc(start, a, b + (c + d));
    ConcatAssoc(a + b, c, d);
    ConcatAssoc(a, b, c + d);
  }

  lemma RecordsSingle(cpuid: (uint32, uint32) -> Registers, q: Query)
    ensures Records(cpuid, [q]) == QueryRecord(q, cpuid(q.leaf, q.subleaf))
  {
  }

  /** The records of all queries split at the two header queries. */
  lemma AllQueriesRecords(cpuid: (uint32, uint32) -> Registers)
    requires Terminates(cpuid)
    ensures Records(cpuid, AllQueries(cpuid))
         == Records(cpuid, [Query(0, 0)])
          + Records(cpuid, StandardQueries(cpuid, 1, cpuid(0, 0).ax))
          + Records(cpuid, [Query(EXTENDED_BASE, 0)])
          + Records(cpuid, ExtendedQueries(EXTENDED_BASE as nat + 1, cpuid(EXTENDED_BASE, 0).ax))
  {
    var a := [Query(0, 0)];
    var b := StandardQueries(cpuid, 1, cpuid(0, 0).ax);
    var c := [Query(EXTENDED_BASE, 0)];
    var d := ExtendedQueries(EXTENDED_BASE as nat + 1, cpuid(EXTENDED_BASE, 0).ax);
    RecordsAppend(cpuid, a + b + c, d);
    RecordsAppend(cpuid, a + b, c);
    RecordsAppend(cpuid, a, b);
  }
}
