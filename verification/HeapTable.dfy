/** The block table of the kernel heap and what it stands for: a table of
    one byte per 4096-byte block represents a map from the first block of
    each live allocation to its length in blocks. */
module HeapTable {
  import opened Status

  type Entry = bv8
  type Table = seq<Entry>
  type Live = map<nat, nat>

  const FREE: Entry := 0x00
  const TAKEN: Entry := 0x01
  const IS_FIRST: Entry := 0x40
  const HAS_NEXT: Entry := 0x80

  predicate IsFree(e: Entry) {
    e & 0x0f == FREE
  }

  /** The byte of block `k` of an allocation of `n` blocks. */
  function ChainByte(k: nat, n: nat): Entry
  {
    TAKEN | (if k == 0 then IS_FIRST else 0) | (if k + 1 < n then HAS_NEXT else 0)
  }

  /** The bytes of a chain are 0x41 alone, and 0xc1, 0x81 and so on, 0x01 in a
      longer one; a block is free if the low half of its byte is zero. */
  lemma EntryFormat(k: nat, n: nat, e: Entry)
    requires k < n
    ensures ChainByte(k, n) == if n == 1 then 0x41 else if k == 0 then 0xc1 else if k + 1 < n then 0x81 else 0x01
    ensures IsFree(e) <==> (e as int) % 16 == 0
    ensures FREE == 0x00
  {
    LowHalf(e);
  }

  lemma LowHalf(e: Entry)
    ensures (e & 0x0f == 0) <==> (e as int) % 16 == 0
  {
    assert (e & 0x0f == 0) <==> e % 16 == 0;
  }

  lemma ChainByteBits(k: nat, n: nat)
    ensures !IsFree(ChainByte(k, n))
    ensures ChainByte(k, n) & IS_FIRST != 0 <==> k == 0
    ensures ChainByte(k, n) & HAS_NEXT != 0 <==> k + 1 < n
  {
  }

  ghost predicate InChain(live: Live, s: nat, i: nat) {
    s in live && s <= i < s + live[s]
  }

  ghost predicate Covered(live: Live, i: nat) {
    exists s: nat :: InChain(live, s, i)
  }

  /** The allocations are non-empty, inside the table and pairwise disjoint. */
  ghost predicate Tiled(live: Live, total: nat) {
    && (forall s | s in live :: 1 <= live[s] && s + live[s] <= total)
    && (forall s, u {:trigger Apart(live, s, u)} | s in live && u in live && s < u :: Apart(live, s, u))
  }

  ghost predicate Apart(live: Live, s: nat, u: nat)
    requires s in live
  {
    s + live[s] <= u
  }

  /** No block belongs to two allocations. */
  lemma ChainsDisjoint(live: Live, total: nat, s: nat, u: nat, k: nat)
    requires Tiled(live, total) && InChain(live, s, k) && InChain(live, u, k)
    ensures s == u
  {
    assert s < u ==> Apart(live, s, u);
    assert u < s ==> Apart(live, u, s);
  }

  /** The representation invariant: each live allocation is written as one
      chain, every other byte is free. */
  ghost predicate Represents(t: Table, live: Live) {
    && Tiled(live, |t|)
    && (forall s: nat, i: nat | InChain(live, s, i) :: t[i] == ChainByte(i - s, live[s]))
    && (forall i: nat | i < |t| && !Covered(live, i) :: t[i] == FREE)
  }

  /** The table determines the allocations. */
  lemma TableDeterminesLive(t: Table, a: Live, b: Live)
    requires Represents(t, a) && Represents(t, b)
    ensures a == b
  {
    forall s | s in a
      ensures s in b && b[s] == a[s]
    {
      SameChain(t, a, b, s);
    }
    forall s | s in b
      ensures s in a
    {
      SameChain(t, b, a, s);
    }
  }

  lemma SameChain(t: Table, a: Live, b: Live, s: nat)
    requires Represents(t, a) && Represents(t, b) && s in a
    ensures s in b && b[s] == a[s]
  {
    assert InChain(a, s, s);
    ChainByteBits(0, a[s]);
    assert Covered(b, s);
    var u: nat :| InChain(b, u, s);
    ChainByteBits(s - u, b[u]);
    var last := if a[s] <= b[s] then s + a[s] - 1 else s + b[s] - 1;
    assert InChain(a, s, last) && InChain(b, s, last);
    ChainByteBits(last - s, a[s]);
    ChainByteBits(last - s, b[s]);
  }

  /** The allocations determine the table. */
  lemma LiveDeterminesTable(t: Table, u: Table, live: Live)
    requires Represents(t, live) && Represents(u, live) && |t| == |u|
    ensures t == u
  {
    forall i: nat | i < |t|
      ensures t[i] == u[i]
    {
      if Covered(live, i) {
        var s: nat :| InChain(live, s, i);
      }
    }
  }

  // ----- Searching

  predicate FreeRun(t: Table, s: nat, n: nat) {
    s + n <= |t| && forall i | s <= i < s + n :: IsFree(t[i])
  }

  ghost predicate HasRun(t: Table, n: nat) {
    exists s: nat :: FreeRun(t, s, n)
  }

  /** The least index from `s` on at which a free run of `n` blocks starts. */
  ghost function LeastRun(t: Table, n: nat, s: nat): (r: nat)
    requires exists u: nat :: s <= u && FreeRun(t, u, n)
    ensures s <= r && FreeRun(t, r, n)
    ensures forall u: nat | s <= u < r :: !FreeRun(t, u, n)
    decreases |t| - s
  {
    if FreeRun(t, s, n) then s else LeastRun(t, n, s + 1)
  }

  /** Where the free blocks at the end of the table begin. */
  function TrailingStart(t: Table): (r: nat)
    ensures r <= |t| && (forall i | r <= i < |t| :: IsFree(t[i]))
    ensures r > 0 ==> !IsFree(t[r - 1])
  {
    if |t| > 0 && IsFree(t[|t| - 1]) then TrailingStart(t[..|t| - 1]) else |t|
  }

  /** What the search of `heap_get_start_block` answers: a first fit if there
      is one, otherwise the start of the trailing free run however short,
      otherwise an error. */
  ghost function StartBlock(t: Table, n: nat): int {
    if n >= 1 && HasRun(t, n) then LeastRun(t, n, 0)
    else if TrailingStart(t) < |t| then TrailingStart(t)
    else -ENOMEM
  }

  /** What a first-fit search should answer. */
  ghost predicate IsFirstFit(t: Table, n: nat, r: int) {
    if HasRun(t, n) then r >= 0 && FreeRun(t, r, n) && forall u: nat | u < r :: !FreeRun(t, u, n)
    else r == -3
  }

  predicate EndsFree(t: Table) {
    |t| > 0 && IsFree(t[|t| - 1])
  }

  /** The search is a first fit exactly when a fitting run exists or the last
      block of the table is taken. */
  lemma FirstFitIff(t: Table, n: nat)
    requires n >= 1
    ensures IsFirstFit(t, n, StartBlock(t, n)) <==> HasRun(t, n) || !EndsFree(t)
  {
    if HasRun(t, n) {
      var u: nat :| FreeRun(t, u, n);
      assert 0 <= u && FreeRun(t, u, n);
    }
  }

  /** The smallest failing table: one free block answers a request for two. */
  lemma ShortTrailingRun()
    ensures StartBlock([FREE], 2) == 0 && !HasRun([FREE], 2)
    ensures !IsFirstFit([FREE], 2, StartBlock([FREE], 2))
  {
    assert IsFree(FREE);
    FirstFitIff([FREE], 2);
    assert TrailingStart([FREE][..0]) == 0;
  }

  /** For single blocks the search is always right. */
  lemma SingleBlockAlwaysFits(t: Table)
    ensures HasRun(t, 1) || !EndsFree(t)
  {
    if EndsFree(t) {
      assert FreeRun(t, |t| - 1, 1);
    }
  }

  // ----- Marking

  /** The table after `heap_mark_blocks_taken`. */
  function MarkTaken(t: Table, s: nat, n: nat): (r: Table)
    requires s + n <= |t|
    ensures |r| == |t|
  {
    t[..s] + seq(n, k requires k >= 0 => ChainByte(k, n)) + t[s + n..]
  }

  /** The table after `heap_mark_blocks_free`: frees from block `i` for as
      long as the block just freed had a successor. */
  function MarkFree(t: Table, i: nat): (r: Table)
    ensures |r| == |t|
    decreases |t| - i
  {
    if i >= |t| then t
    else if t[i] & HAS_NEXT != 0 then MarkFree(t[i := FREE], i + 1)
    else t[i := FREE]
  }

  /** Taking a free run adds one allocation to the represented map. */
  lemma TakeRepresents(t: Table, live: Live, s: nat, n: nat)
    requires Represents(t, live) && n >= 1 && FreeRun(t, s, n)
    ensures s !in live && Represents(MarkTaken(t, s, n), live[s := n])
    ensures forall u | u in live :: u + live[u] <= s || s + n <= u
  {
    forall u: nat, i: nat | InChain(live, u, i)
      ensures !(s <= i < s + n)
    {
      ChainByteBits(i - u, live[u]);
    }
    forall u | u in live
      ensures u + live[u] <= s || s + n <= u
    {
      assert InChain(live, u, u) && !InChain(live, u, s);
    }
    var live', t' := live[s := n], MarkTaken(t, s, n);
    forall u, v | u in live' && v in live' && u < v
      ensures Apart(live', u, v)
    {
      assert u in live && v in live ==> Apart(live, u, v);
    }
    forall u: nat, i: nat | InChain(live', u, i)
      ensures t'[i] == ChainByte(i - u, live'[u])
    {
      if u != s {
        assert InChain(live, u, i);
      }
    }
    forall i: nat | i < |t'| && !Covered(live', i)
      ensures t'[i] == FREE
    {
      assert !InChain(live', s, i);
      if Covered(live, i) {
        var u: nat :| InChain(live, u, i);
        assert InChain(live', u, i);
      }
    }
  }

  /** Freeing the first block of a live allocation frees exactly its chain. */
  lemma {:induction false} MarkFreeChain(t: Table, s: nat, k: nat, n: nat)
    requires k < n && s + n <= |t|
    requires forall j: nat | k <= j < n :: t[s + j] == ChainByte(j, n)
    ensures forall i: nat | i < |t| :: MarkFree(t, s + k)[i] == if s + k <= i < s + n then FREE else t[i]
    decreases n - k
  {
    ChainByteBits(k, n);
    assert t[s + k] == ChainByte(k, n);
    var u := t[s + k := FREE];
    if k + 1 < n {
      forall j: nat | k + 1 <= j < n
        ensures u[s + j] == ChainByte(j, n)
      {
      }
      MarkFreeChain(u, s, k + 1, n);
      forall i: nat | i < |t|
        ensures MarkFree(t, s + k)[i] == if s + k <= i < s + n then FREE else t[i]
      {
        assert MarkFree(u, s + (k + 1))[i] == if s + k + 1 <= i < s + n then FREE else u[i];
      }
    } else {
      assert MarkFree(t, s + k) == u;
    }
  }

  /** Freeing a live allocation clears its own bytes and no others. */
  lemma FreeBytes(t: Table, live: Live, s: nat)
    requires Represents(t, live) && s in live
    ensures forall i: nat | i < |t| :: MarkFree(t, s)[i] == if InChain(live, s, i) then FREE else t[i]
  {
    var n := live[s];
    forall j: nat | j < n
      ensures t[s + j] == ChainByte(j, n)
    {
      assert InChain(live, s, s + j);
    }
    MarkFreeChain(t, s, 0, n);
  }

  /** Freeing a live allocation removes it from the represented map. */
  lemma FreeRepresents(t: Table, live: Live, s: nat)
    requires Represents(t, live) && s in live
    ensures Represents(MarkFree(t, s), live - {s})
  {
    FreeBytes(t, live, s);
    var live', t' := live - {s}, MarkFree(t, s);
    forall u, v | u in live' && v in live' && u < v
      ensures Apart(live', u, v)
    {
      assert Apart(live, u, v);
    }
    forall u: nat, i: nat | InChain(live', u, i)
      ensures t'[i] == ChainByte(i - u, live'[u])
    {
      if InChain(live, s, i) {
        ChainsDisjoint(live, |t|, s, u, i);
      }
    }
    forall i: nat | i < |t'| && !Covered(live', i)
      ensures t'[i] == FREE
    {
      if !InChain(live, s, i) && Covered(live, i) {
        var u: nat :| InChain(live, u, i);
        assert InChain(live', u, i);
      }
    }
  }

  /** Allocating and freeing again restores the table byte for byte. */
  lemma TakeThenFree(t: Table, live: Live, s: nat, n: nat)
    requires Represents(t, live) && n >= 1 && FreeRun(t, s, n)
    ensures MarkFree(MarkTaken(t, s, n), s) == t
  {
    TakeRepresents(t, live, s, n);
    FreeRepresents(MarkTaken(t, s, n), live[s := n], s);
    assert live[s := n] - {s} == live;
    LiveDeterminesTable(t, MarkFree(MarkTaken(t, s, n), s), live);
  }

  // ----- Requests that no run answers

  /** The table after marking `n` blocks from `s` on when they may reach past
      its end; what lies behind the table is not part of it. */
  function MarkWithin(t: Table, s: nat, n: nat): (r: Table)
    ensures |r| == |t|
  {
    seq(|t|, i requires 0 <= i < |t| => if s <= i < s + n then ChainByte(i - s, n) else t[i])
  }

  lemma MarkWithinFits(t: Table, s: nat, n: nat)
    requires s + n <= |t|
    ensures MarkWithin(t, s, n) == MarkTaken(t, s, n)
  {
  }

  /** A chain cut off by the end of the table belongs to no allocation: its
      last byte announces a successor that is not there. */
  lemma CutChainRepresentsNothing(t: Table, s: nat, n: nat, live: Live)
    requires s < |t| < s + n
    ensures !Represents(MarkWithin(t, s, n), live)
  {
    var t', last := MarkWithin(t, s, n), |t| - 1;
    ChainByteBits(last - s, n);
    if Represents(t', live) {
      assert t'[last] == ChainByte(last - s, n);
      assert Covered(live, last);
      var u: nat :| InChain(live, u, last);
      ChainByteBits(last - u, live[u]);
      assert false;
    }
  }

  /** The code's answer to a request keeps the table meaningful exactly when a
      fitting run exists or the last block is taken. */
  lemma MarkingRepresentsIff(t: Table, live: Live, n: nat)
    requires Represents(t, live) && n >= 1 && StartBlock(t, n) >= 0
    ensures (exists live' :: Represents(MarkWithin(t, StartBlock(t, n), n), live')) <==> HasRun(t, n) || !EndsFree(t)
  {
    FirstFitIff(t, n);
    var s := StartBlock(t, n);
    if HasRun(t, n) {
      MarkWithinFits(t, s, n);
      TakeRepresents(t, live, s, n);
    } else {
      TooShort(t, n);
      forall live': Live
        ensures !Represents(MarkWithin(t, s, n), live')
      {
        CutChainRepresentsNothing(t, s, n, live');
      }
    }
  }

  lemma TooShort(t: Table, n: nat)
    requires n >= 1 && StartBlock(t, n) >= 0 && !HasRun(t, n)
    ensures StartBlock(t, n) == TrailingStart(t) < |t| < TrailingStart(t) + n
  {
    if TrailingStart(t) + n <= |t| {
      assert FreeRun(t, TrailingStart(t), n);
    }
  }

  // ----- Conservation of blocks

  function FreeCount(t: Table): (c: nat)
    ensures c <= |t|
  {
    if |t| == 0 then 0 else FreeCount(t[..|t| - 1]) + if IsFree(t[|t| - 1]) then 1 else 0
  }

  /** The number of blocks held by allocations starting below `k`. */
  function LiveBlocks(live: Live, k: nat): nat {
    if k == 0 then 0 else LiveBlocks(live, k - 1) + if k - 1 in live then live[k - 1] else 0
  }

  lemma {:induction false} LiveBlocksGap(live: Live, a: nat, b: nat)
    requires a <= b && forall i | a <= i < b :: i !in live
    ensures LiveBlocks(live, b) == LiveBlocks(live, a)
  {
    if a < b {
      LiveBlocksGap(live, a, b - 1);
    }
  }

  lemma {:induction false} FreeCountGap(t: Table, a: nat, b: nat)
    requires a <= b <= |t| && forall i | a <= i < b :: !IsFree(t[i])
    ensures FreeCount(t[..b]) == FreeCount(t[..a])
  {
    if a < b {
      FreeCountGap(t, a, b - 1);
      assert t[..b][..b - 1] == t[..b - 1];
    }
  }

  /** Free blocks and live blocks add up to the whole table. */
  lemma Conservation(t: Table, live: Live)
    requires Represents(t, live)
    ensures FreeCount(t) + LiveBlocks(live, |t|) == |t|
  {
    assert t[..|t|] == t;
    ConservationUpTo(t, live, |t|);
  }

  /** No allocation reaches across block `k`. */
  ghost predicate Boundary(live: Live, k: nat) {
    forall s | s in live :: k <= s || s + live[s] <= k
  }

  lemma {:induction false} ConservationUpTo(t: Table, live: Live, k: nat)
    requires Represents(t, live) && k <= |t| && Boundary(live, k)
    ensures FreeCount(t[..k]) + LiveBlocks(live, k) == k
  {
    hide Represents;
    if k > 0 {
      if Covered(live, k - 1) {
        var s: nat :| InChain(live, s, k - 1);
        StartIsBoundary(t, live, s);
        ConservationUpTo(t, live, s);
        CountChain(t, live, s);
      } else {
        CountFree(t, live, k - 1);
        ConservationUpTo(t, live, k - 1);
      }
    }
  }

  lemma StartIsBoundary(t: Table, live: Live, s: nat)
    requires Represents(t, live) && s in live
    ensures Boundary(live, s) && s + live[s] <= |t|
  {
    forall u | u in live
      ensures s <= u || u + live[u] <= s
    {
      assert u < s ==> Apart(live, u, s);
    }
  }

  lemma CountFree(t: Table, live: Live, k: nat)
    requires Represents(t, live) && k < |t| && Boundary(live, k + 1) && !Covered(live, k)
    ensures Boundary(live, k)
    ensures FreeCount(t[..k + 1]) == FreeCount(t[..k]) + 1
    ensures LiveBlocks(live, k + 1) == LiveBlocks(live, k)
  {
    assert !InChain(live, k, k);
    forall s | s in live
      ensures k <= s || s + live[s] <= k
    {
      assert !InChain(live, s, k);
    }
    assert t[..k + 1][..k] == t[..k];
    assert IsFree(FREE);
  }

  lemma CountChain(t: Table, live: Live, s: nat)
    requires Represents(t, live) && s in live
    ensures FreeCount(t[..s + live[s]]) == FreeCount(t[..s])
    ensures LiveBlocks(live, s + live[s]) == LiveBlocks(live, s) + live[s]
  {
    forall i | s <= i < s + live[s]
      ensures !IsFree(t[i])
    {
      assert InChain(live, s, i);
      ChainByteBits(i - s, live[s]);
    }
    forall i | s + 1 <= i < s + live[s]
      ensures i !in live
    {
      assert i in live ==> Apart(live, s, i);
    }
    FreeCountGap(t, s, s + live[s]);
    LiveBlocksGap(live, s + 1, s + live[s]);
  }

  lemma {:induction false} LiveBlocksAdd(live: Live, s: nat, n: nat, k: nat)
    requires s !in live
    ensures LiveBlocks(live[s := n], k) == LiveBlocks(live, k) + if s < k then n else 0
  {
    if k > 0 {
      LiveBlocksAdd(live, s, n, k - 1);
    }
  }

  /** Taking `n` blocks leaves `n` fewer free. */
  lemma TakeCount(t: Table, live: Live, s: nat, n: nat)
    requires Represents(t, live) && n >= 1 && FreeRun(t, s, n)
    ensures FreeCount(MarkTaken(t, s, n)) == FreeCount(t) - n
  {
    TakeRepresents(t, live, s, n);
    Conservation(t, live);
    Conservation(MarkTaken(t, s, n), live[s := n]);
    LiveBlocksAdd(live, s, n, |t|);
  }

  lemma {:induction false} FreeCountRun(t: Table)
    requires FreeCount(t) >= 1
    ensures HasRun(t, 1)
  {
    var last := |t| - 1;
    if IsFree(t[last]) {
      assert FreeRun(t, last, 1);
    } else {
      FreeCountRun(t[..last]);
      var s: nat :| FreeRun(t[..last], s, 1);
      assert FreeRun(t, s, 1);
    }
  }

  /** A first fit of `n` blocks cuts at most `n` blocks off the front of any
      free run. */
  lemma RunSurvives(t: Table, n: nat, m: nat)
    requires n >= 1 && HasRun(t, n + m)
    ensures HasRun(t, n) && StartBlock(t, n) >= 0
    ensures var s := StartBlock(t, n); FreeRun(t, s, n) && HasRun(MarkTaken(t, s, n), m)
  {
    var a: nat :| FreeRun(t, a, n + m);
    assert FreeRun(t, a, n);
    var s := LeastRun(t, n, 0);
    assert s == StartBlock(t, n) && s <= a;
    var t' := MarkTaken(t, s, n);
    forall i | a + n <= i < a + n + m
      ensures IsFree(t'[i])
    {
      assert t'[i] == t[i];
    }
    assert FreeRun(t', a + n, m);
  }

  // ----- Several requests in a row

  /** Every one of the requests is answered by a fitting run, one after the
      other, each by a first fit. */
  ghost predicate Serves(t: Table, requests: seq<nat>)
    decreases |requests|
  {
    |requests| > 0 ==>
      && requests[0] >= 1 && HasRun(t, requests[0])
      && Serves(Served(t, requests[0]), requests[1..])
  }

  /** The table after a first fit of `n` blocks. */
  ghost function Served(t: Table, n: nat): (r: Table)
    requires n >= 1 && HasRun(t, n)
    ensures |r| == |t|
  {
    var s: nat := StartBlock(t, n);
    FirstFitIff(t, n);
    MarkTaken(t, s, n)
  }

  function Sum(requests: seq<nat>): nat {
    if |requests| == 0 then 0 else requests[0] + Sum(requests[1..])
  }

  /** One run as long as all the requests together answers them. */
  lemma {:induction false} OneRunServes(t: Table, requests: seq<nat>)
    requires HasRun(t, Sum(requests)) && forall n | n in requests :: n >= 1
    ensures Serves(t, requests)
    decreases |requests|
  {
    if |requests| > 0 {
      assert requests[0] in requests && forall n | n in requests[1..] :: n in requests;
      RunSurvives(t, requests[0], Sum(requests[1..]));
      OneRunServes(Served(t, requests[0]), requests[1..]);
    }
  }

  // ----- Whole runs of the allocator

  datatype State = State(t: Table, live: Live)

  ghost predicate MallocStep(a: State, b: State) {
    exists n: nat :: n >= 1 && MallocOf(a, b, n)
  }

  /** A request for `n` blocks, answered by the search. */
  ghost predicate MallocOf(a: State, b: State, n: nat)
    requires n >= 1
  {
    var s := StartBlock(a.t, n);
    if s < 0 then b == a
    else HasRun(a.t, n) && b.t == MarkTaken(a.t, s, n) && b.live == a.live[s as nat := n]
  }

  ghost predicate FreeStep(a: State, b: State) {
    exists s: nat :: s in a.live && b.t == MarkFree(a.t, s) && b.live == a.live - {s}
  }

  ghost predicate AllocatorRun(states: seq<State>) {
    && |states| > 0
    && states[0].live == map[] && (forall i | 0 <= i < |states[0].t| :: states[0].t[i] == FREE)
    && forall i | 0 < i < |states| :: AllocatorStepAt(states, i)
  }

  ghost predicate AllocatorStepAt(states: seq<State>, i: nat)
    requires 0 < i < |states|
  {
    MallocStep(states[i - 1], states[i]) || FreeStep(states[i - 1], states[i])
  }

  /** Every table reachable by mallocs and frees represents its allocations,
      and no block is ever lost. */
  lemma {:induction false} RunRepresents(states: seq<State>, i: nat)
    requires AllocatorRun(states) && i < |states|
    ensures Represents(states[i].t, states[i].live) && |states[i].t| == |states[0].t|
    ensures FreeCount(states[i].t) + LiveBlocks(states[i].live, |states[0].t|) == |states[0].t|
  {
    if i > 0 {
      RunRepresents(states, i - 1);
      assert AllocatorStepAt(states, i);
      StepKeeps(states[i - 1], states[i]);
    }
    Conservation(states[i].t, states[i].live);
  }

  lemma MallocOfIsFit(a: State, b: State, n: nat) returns (s: nat)
    requires n >= 1 && MallocOf(a, b, n) && b != a
    ensures FreeRun(a.t, s, n) && b.t == MarkTaken(a.t, s, n) && b.live == a.live[s := n]
  {
    var v: nat :| FreeRun(a.t, v, n);
    s := LeastRun(a.t, n, 0);
  }

  lemma StepKeeps(a: State, b: State)
    requires Represents(a.t, a.live) && (MallocStep(a, b) || FreeStep(a, b))
    ensures Represents(b.t, b.live) && |b.t| == |a.t|
  {
    if FreeStep(a, b) {
      var s: nat :| s in a.live && b.t == MarkFree(a.t, s) && b.live == a.live - {s};
      FreeRepresents(a.t, a.live, s);
    } else if b != a {
      var n: nat :| n >= 1 && MallocOf(a, b, n);
      var s := MallocOfIsFit(a, b, n);
      TakeRepresents(a.t, a.live, s, n);
    }
  }

  /** A step keeps every byte of an allocation that is live before and after. */
  lemma StepKeepsByte(a: State, b: State, u: nat, k: nat)
    requires Represents(a.t, a.live) && (MallocStep(a, b) || FreeStep(a, b))
    requires u in b.live && InChain(a.live, u, k)
    ensures InChain(b.live, u, k) && |b.t| == |a.t| && k < |a.t| && b.t[k] == a.t[k]
  {
    if FreeStep(a, b) {
      var s: nat :| s in a.live && b.t == MarkFree(a.t, s) && b.live == a.live - {s};
      FreeBytes(a.t, a.live, s);
      if InChain(a.live, s, k) {
        ChainsDisjoint(a.live, |a.t|, s, u, k);
      }
    } else if b != a {
      var n: nat :| n >= 1 && MallocOf(a, b, n);
      var s := MallocOfIsFit(a, b, n);
      TakeKeepsByte(a.t, a.live, s, n, u, k);
    }
  }

  lemma TakeKeepsByte(t: Table, live: Live, s: nat, n: nat, u: nat, k: nat)
    requires Represents(t, live) && n >= 1 && FreeRun(t, s, n) && InChain(live, u, k)
    ensures InChain(live[s := n], u, k) && k < |t| && MarkTaken(t, s, n)[k] == t[k]
  {
    TakeRepresents(t, live, s, n);
  }

  /** An allocation that stays live keeps its bytes through any interleaving
      of other mallocs and frees. */
  lemma {:induction false} LiveBytesStable(states: seq<State>, i: nat, j: nat, u: nat, k: nat)
    requires AllocatorRun(states) && i <= j < |states|
    requires forall m | i <= m <= j :: u in states[m].live
    requires InChain(states[i].live, u, k)
    ensures InChain(states[j].live, u, k)
    ensures k < |states[i].t| == |states[j].t| && states[j].t[k] == states[i].t[k]
  {
    RunRepresents(states, i);
    if i < j {
      LiveBytesStable(states, i, j - 1, u, k);
      RunRepresents(states, j - 1);
      assert AllocatorStepAt(states, j);
      StepKeepsByte(states[j - 1], states[j], u, k);
    }
  }
}
