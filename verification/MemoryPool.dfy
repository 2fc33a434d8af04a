/** The memory pool as a ledger (src/mem/mempool.cpp:173-336): what its counters mean after any run. */
module MemoryPool {
  import opened Values
  import opened Sums
  import opened Arithmetic

  datatype Persistent = Persistent(ptr: int, bytes: nat, pinned: bool)

  /** Bytes of all tracked allocations. */
  ghost function Bytes(m: map<int, nat>): nat {
    if m.Keys == {} then 0 else
      var p := Pick(m.Keys);
      m[p] + Bytes(m - {p})
  }

  lemma {:induction false} BytesRemoved(m: map<int, nat>, p: int)
    requires p in m
    ensures Bytes(m) == Bytes(m - {p}) + m[p] && |m - {p}| == |m| - 1
    decreases |m|
  {
    Fewer(m, p);
    var q := Pick(m.Keys);
    if q != p {
      Fewer(m, q);
      BytesRemoved(m - {q}, p);
      BytesRemoved(m - {p}, q);
      assert m - {q} - {p} == m - {p} - {q};
    }
  }

  lemma Fewer(m: map<int, nat>, p: int)
    requires p in m
    ensures |m - {p}| == |m| - 1
  {
  }

  lemma BytesAdded(m: map<int, nat>, p: int, n: nat)
    requires p !in m
    ensures Bytes(m[p := n]) == Bytes(m) + n && |m[p := n]| == |m| + 1
  {
    BytesRemoved(m[p := n], p);
    assert m[p := n] - {p} == m;
  }

  /** Bytes of the persistent entries of one kind. */
  function PersistentBytes(entries: seq<Persistent>, pinned: bool): nat {
    if entries == [] then 0
    else (if entries[0].pinned == pinned then entries[0].bytes else 0) + PersistentBytes(entries[1..], pinned)
  }

  lemma {:induction false} PersistentJoin(a: seq<Persistent>, b: seq<Persistent>, pinned: bool)
    ensures PersistentBytes(a + b, pinned) == PersistentBytes(a, pinned) + PersistentBytes(b, pinned)
  {
    if a == [] {
      assert a + b == b;
    } else {
      PersistentJoin(a[1..], b, pinned);
      assert (a + b)[1..] == a[1..] + b;
    }
  }

  lemma PersistentErased(entries: seq<Persistent>, k: nat, pinned: bool)
    requires k < |entries|
    ensures PersistentBytes(entries, pinned) ==
      PersistentBytes(entries[..k] + entries[k + 1..], pinned) + if entries[k].pinned == pinned then entries[k].bytes
          else 0
  {
    var tail := [entries[k]] + entries[k + 1..];
    assert entries == entries[..k] + tail && tail[1..] == entries[k + 1..];
    PersistentJoin(entries[..k], tail, pinned);
    PersistentJoin(entries[..k], entries[k + 1..], pinned);
  }

  /** `c` is the size_t counter for the exact amount `n`: equal modulo the word size (2^64). */
  ghost predicate Counts(c: nat, n: int, word: nat) {
    word > 0 && c == n % word
  }

  /** size_t addition. */
  method Advance(c: nat, ghost n: int, word: nat, size: nat) returns (r: nat)
    requires Counts(c, n, word)
    ensures Counts(r, n + size, word)
  {
    CountsShift(c, n, word, size);
    r := (c + size) % word;
  }

  /** size_t subtraction. */
  method Retreat(c: nat, ghost n: int, word: nat, size: nat) returns (r: nat)
    requires Counts(c, n, word)
    ensures Counts(r, n - size, word)
  {
    CountsShift(c, n, word, -(size as int));
    r := (c - size) % word;
  }

  lemma CountsShift(c: nat, n: int, word: nat, delta: int)
    requires Counts(c, n, word)
    ensures (n + delta) % word == (c + delta) % word
  {
    var q, s, t := n / word, (c + delta) / word, (c + delta) % word;
    assert n == word * q + c && c + delta == word * s + t;
    assert n + delta == word * (q + s) + t;
    QuotientIs(n + delta, word, q + s, t);
  }

  /** Live bytes less those that dropped out of the counter at the last reset. */
  ghost function Counted(stream: map<int, nat>, graph: map<int, nat>, forgotten: nat): int {
    Bytes(stream) + Bytes(graph) - forgotten
  }

  ghost function Entries(stream: map<int, nat>, graph: map<int, nat>): nat {
    |stream| + |graph|
  }

  /** What the maps and counters of the stream and graph allocations say about each other. */
  ghost predicate Ledger(stream: map<int, nat>, graph: map<int, nat>, made: int, freed: int) {
    && (forall p :: p in stream ==> p != 0 && p !in graph) && (forall p :: p in graph ==> p != 0)
    && made == freed + Entries(stream, graph)
  }

  /** A new allocation in either map. */
  lemma LedgerAllocated(stream: map<int, nat>, graph: map<int, nat>, made: nat, freed: nat, forgotten: nat,
                        toGraph: bool, p: int, size: nat)
    requires Ledger(stream, graph, made, freed) && p !in stream && p !in graph && p != 0
    ensures var s, g := if toGraph then stream else stream[p := size], if toGraph then graph[p := size] else graph;
      Ledger(s, g, made + 1, freed) && Counted(s, g, forgotten) == Counted(stream, graph, forgotten) + size
  {
    BytesAdded(if toGraph then graph else stream, p, size);
  }

  lemma LedgerFreedStream(stream: map<int, nat>, graph: map<int, nat>, made: nat, freed: nat, forgotten: nat, p: int)
    requires Ledger(stream, graph, made, freed) && p in stream
    ensures Ledger(stream - {p}, graph, made, freed + 1) && graph - {p} == graph
    ensures Counted(stream - {p}, graph, forgotten) == Counted(stream, graph, forgotten) - stream[p]
  {
    BytesRemoved(stream, p);
    NoEntry(graph, p);
  }

  lemma LedgerFreedGraph(stream: map<int, nat>, graph: map<int, nat>, made: nat, freed: nat, forgotten: nat, p: int)
    requires Ledger(stream, graph, made, freed) && p in graph
    ensures Ledger(stream, graph - {p}, made, freed + 1) && stream - {p} == stream
    ensures Counted(stream, graph - {p}, forgotten) == Counted(stream, graph, forgotten) - graph[p]
  {
    BytesRemoved(graph, p);
    NoEntry(stream, p);
  }

  lemma LedgerCleared(stream: map<int, nat>, graph: map<int, nat>, made: nat, freed: nat, word: nat)
    requires Ledger(stream, graph, made, freed) && word > 0
    ensures Ledger(map[], graph, made, freed + |stream|) && Counts(0, Counted(map[], graph, Bytes(graph)), word)
  {
    var n := Counted(map[], graph, Bytes(graph));
    assert n == 0 by {
      assert Bytes(map[]) == 0;
    }
    QuotientIs(n, word, 0, 0);
  }

  lemma NoEntry(m: map<int, nat>, p: int)
    requires p !in m
    ensures m - {p} == m
  {
  }

  /** find_if over the persistent entries; |entries| when none matches. */
  method FindPersistent(entries: seq<Persistent>, ptr: int, pinned: bool) returns (k: nat)
    ensures k <= |entries|
    ensures k < |entries| ==> entries[k].ptr == ptr && entries[k].pinned == pinned
    ensures forall i :: 0 <= i < k ==> !(entries[i].ptr == ptr && entries[i].pinned == pinned)
  {
    k := 0;
    while k < |entries| && !(entries[k].ptr == ptr && entries[k].pinned == pinned)
      invariant k <= |entries|
      invariant forall i :: 0 <= i < k ==> !(entries[i].ptr == ptr && entries[i].pinned == pinned)
    {
      k := k + 1;
    }
  }

  class Pool {
    var allocations: map<int, nat>
    var graphAllocations: map<int, nat>
    var persistent: seq<Persistent>
    var totalAllocations: nat
    var totalFrees: nat
    var currentBytes: nat
    var deviceBytes: nat
    var pinnedBytes: nat
    var poolSize: nat
    var overflowWarned: bool
    /** How many values size_t has. */
    const word: nat
    /** Graph bytes alive when reset() last zeroed the byte counter. */
    ghost var forgotten: nat

    function Live(): set<int>
      reads this
    {
      allocations.Keys + graphAllocations.Keys
    }

    /** Bytes of everything handed out and not yet freed. */
    ghost function LiveBytes(): nat
      reads this
    {
      Bytes(allocations) + Bytes(graphAllocations)
    }

    /** The ledger invariant. */
    ghost predicate Valid()
      reads this
    {
      && Ledger(allocations, graphAllocations, totalAllocations, totalFrees)
      && Counts(currentBytes, Counted(allocations, graphAllocations, forgotten), word)
      && deviceBytes == PersistentBytes(persistent, false)
      && pinnedBytes == PersistentBytes(persistent, true)
    }

    constructor (size: nat, wordSize: nat)
      requires wordSize > 0
      ensures Valid() && word == wordSize && allocations == map[] && graphAllocations == map[] && persistent == []
      ensures forgotten == 0
    {
      allocations, graphAllocations, persistent := map[], map[], [];
      totalAllocations, totalFrees, currentBytes, deviceBytes, pinnedBytes := 0, 0, 0, 0, 0;
      poolSize, overflowWarned, forgotten := size, false, 0;
      word := wordSize;
      assert Bytes(map[]) == 0;
    }

    /** `granted` is the driver's answer: 0 on failure, otherwise a pointer not handed out already. */
    method Allocate(size: nat, graph: bool, granted: int) returns (ptr: int)
      requires Valid() && granted !in Live()
      modifies this
      ensures Valid() && forgotten == old(forgotten) && persistent == old(persistent)
      ensures ptr == if size == 0 then 0 else granted
      ensures allocations == if ptr != 0 && !graph then old(allocations)[ptr := size] else old(allocations)
      ensures graphAllocations == if ptr != 0 && graph then old(graphAllocations)[ptr := size]
          else old(graphAllocations)
      ensures totalFrees == old(totalFrees)
    {
      if size == 0 || granted == 0 {
        return 0;
      }
      var next := Advance(currentBytes, Counted(allocations, graphAllocations, forgotten), word, size);
      LedgerAllocated(allocations, graphAllocations, totalAllocations, totalFrees, forgotten, graph, granted, size);
      ptr := granted;
      if graph {
        graphAllocations := graphAllocations[ptr := size];
      } else {
        allocations := allocations[ptr := size];
      }
      totalAllocations := totalAllocations + 1;
      currentBytes := next;
      if !overflowWarned && currentBytes > poolSize {
        overflowWarned := true;
      }
    }

    /** Unknown pointers and nullptr change nothing. */
    method Free(ptr: int)
      requires Valid()
      modifies this`allocations, this`graphAllocations, this`totalFrees, this`currentBytes
      ensures Valid()
      ensures allocations == old(allocations) - {ptr} && graphAllocations == old(graphAllocations) - {ptr}
      ensures totalFrees == old(totalFrees) + if ptr in old(Live()) then 1 else 0
    {
      if ptr in allocations {
        FreeStreamEntry(ptr);
      } else if ptr in graphAllocations {
        FreeGraphEntry(ptr);
      } else {
        NoEntry(allocations, ptr);
        NoEntry(graphAllocations, ptr);
      }
    }

    method FreeStreamEntry(ptr: int)
      requires Valid() && ptr in allocations
      modifies this`allocations, this`totalFrees, this`currentBytes
      ensures Valid() && totalFrees == old(totalFrees) + 1
      ensures allocations == old(allocations) - {ptr} && graphAllocations == graphAllocations - {ptr}
    {
      LedgerFreedStream(allocations, graphAllocations, totalAllocations, totalFrees, forgotten, ptr);
      var size := allocations[ptr];
      var next := Retreat(currentBytes, Counted(allocations, graphAllocations, forgotten), word, size);
      currentBytes, allocations, totalFrees := next, allocations - {ptr}, totalFrees + 1;
    }

    method FreeGraphEntry(ptr: int)
      requires Valid() && ptr in graphAllocations
      modifies this`graphAllocations, this`totalFrees, this`currentBytes
      ensures Valid() && totalFrees == old(totalFrees) + 1
      ensures graphAllocations == old(graphAllocations) - {ptr} && allocations == allocations - {ptr}
    {
      LedgerFreedGraph(allocations, graphAllocations, totalAllocations, totalFrees, forgotten, ptr);
      var size := graphAllocations[ptr];
      var next := Retreat(currentBytes, Counted(allocations, graphAllocations, forgotten), word, size);
      currentBytes, graphAllocations, totalFrees := next, graphAllocations - {ptr}, totalFrees + 1;
    }

    /** allocatePersistentDevice() and allocatePersistentPinned(), which differ in the counter they raise. */
    method AllocatePersistent(bytes: nat, pinned: bool, granted: int) returns (ptr: int)
      requires Valid()
      modifies this`persistent, this`deviceBytes, this`pinnedBytes
      ensures Valid() && ptr == if bytes == 0 then 0 else granted
      ensures persistent == old(persistent) + if ptr != 0 then [Persistent(ptr, bytes, pinned)] else []
    {
      if bytes == 0 || granted == 0 {
        return 0;
      }
      ptr := granted;
      var entry := Persistent(ptr, bytes, pinned);
      PersistentJoin(persistent, [entry], false);
      PersistentJoin(persistent, [entry], true);
      persistent := persistent + [entry];
      if pinned {
        pinnedBytes := pinnedBytes + bytes;
      } else {
        deviceBytes := deviceBytes + bytes;
      }
    }

    /** freePersistentDevice() and freePersistentPinned(): the first entry of that kind goes. */
    method FreePersistent(ptr: int, pinned: bool)
      requires Valid()
      modifies this`persistent, this`deviceBytes, this`pinnedBytes
      ensures Valid()
      ensures if ptr != 0 && exists e :: e in old(persistent) && e.ptr == ptr && e.pinned == pinned
        then FirstErased(old(persistent), persistent, ptr, pinned) else persistent == old(persistent)
    {
      if ptr == 0 {
        return;
      }
      var k := FindPersistent(persistent, ptr, pinned);
      if k == |persistent| {
        return;
      }
      PersistentErased(persistent, k, false);
      PersistentErased(persistent, k, true);
      assert persistent[k] in persistent;
      if pinned {
        pinnedBytes := pinnedBytes - persistent[k].bytes;
      } else {
        deviceBytes := deviceBytes - persistent[k].bytes;
      }
      ghost var before := persistent;
      persistent := persistent[..k] + persistent[k + 1..];
      assert ErasedAt(before, persistent, k, ptr, pinned);
    }

    /**
     * reset(): frees exactly the non-graph allocations and zeroes the byte counter, so graph bytes
     * still alive drop out of it.
     */
    method Reset()
      requires Valid()
      modifies this
      ensures Valid() && allocations == map[] && graphAllocations == old(graphAllocations)
      ensures persistent == old(persistent)
      ensures totalAllocations == old(totalAllocations) && totalFrees == old(totalFrees) + |old(allocations)|
      ensures currentBytes == 0 && forgotten == Bytes(graphAllocations)
    {
      var frees := FreeAll(allocations, currentBytes, word);
      LedgerCleared(allocations, graphAllocations, totalAllocations, totalFrees, word);
      totalFrees := totalFrees + frees;
      allocations := map[];
      currentBytes := 0;
      overflowWarned := false;
      forgotten := Bytes(graphAllocations);
    }
  }

  /** The loop of reset(); the running byte counter it also lowers is overwritten with 0 right after. */
  method FreeAll(entries: map<int, nat>, current: int, word: nat) returns (frees: nat)
    requires word > 0
    ensures frees == |entries|
  {
    var todo, left := entries.Keys, current;
    frees := 0;
    assert |todo| == |entries|;
    while todo != {}
      invariant todo <= entries.Keys && frees + |todo| == |entries|
      decreases |todo|
    {
      var p := AnyOf(todo);
      left := (left - entries[p]) % word;
      frees := frees + 1;
      todo := todo - {p};
    }
  }

  ghost predicate FirstErased(before: seq<Persistent>, after: seq<Persistent>, ptr: int, pinned: bool) {
    exists k :: ErasedAt(before, after, k, ptr, pinned)
  }

  ghost predicate ErasedAt(before: seq<Persistent>, after: seq<Persistent>, k: int, ptr: int, pinned: bool) {
    && 0 <= k < |before| && before[k].ptr == ptr && before[k].pinned == pinned
    && after == before[..k] + before[k + 1..]
    && forall i :: 0 <= i < k ==> !(before[i].ptr == ptr && before[i].pinned == pinned)
  }

  /**
   * The byte counter equals the live bytes exactly when no graph allocation was alive at the last
   * reset; once fewer bytes live than were alive then, it wraps past the live total.
   */
  lemma CounterIsLiveBytesIff(pool: Pool)
    requires pool.Valid() && pool.LiveBytes() < pool.word && pool.forgotten < pool.word
    ensures pool.currentBytes == pool.LiveBytes() <==> pool.forgotten == 0
    ensures pool.currentBytes > pool.LiveBytes() <==> pool.forgotten > pool.LiveBytes()
  {
    ShiftedCounter(pool.currentBytes, pool.LiveBytes(), pool.forgotten, pool.word);
  }

  lemma ShiftedCounter(c: nat, live: nat, forgotten: nat, word: nat)
    requires live < word && forgotten < word && Counts(c, live - forgotten, word)
    ensures c == live <==> forgotten == 0
    ensures c > live <==> forgotten > live
  {
  }

  lemma ForgottenBytesShow(current: nat, word: nat)
    requires word > 64 && Counts(current, Counted(map[], map[], Bytes(map[1 := 64])), word)
    ensures current == word - 64
  {
    BytesAdded(map[], 1, 64);
    assert Bytes(map[]) == 0;
    QuotientIs(-64, word, -1, word - 64);
  }

  /** One graph allocation of 64 bytes alive at a reset and freed after it: the counter reads 64 below 2^64. */
  method GraphFreeAfterResetWraps(pool: Pool) returns (counter: nat)
    requires pool.Valid() && pool.word > 64 && pool.allocations == map[] && pool.graphAllocations == map[]
    modifies pool
    ensures pool.Valid() && pool.allocations == map[] && pool.graphAllocations == map[]
    ensures counter == pool.currentBytes == pool.word - 64
  {
    var p := pool.Allocate(64, true, 1);
    pool.Reset();
    assert pool.graphAllocations == map[1 := 64];
    pool.Free(p);
    assert pool.graphAllocations == map[] && pool.allocations == map[];
    counter := pool.currentBytes;
    ForgottenBytesShow(counter, pool.word);
  }
}
