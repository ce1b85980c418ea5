/**
 The byte queues that a TCP socket builds on the pool: `packets_in` and `packets_out` are small
 arrays of handles, filled from the front, whose blocks' bytes are read in order.
*/
module SocketBuffers {
  import opened Basics
  import opened MemoryPool

  /** UIP_SOCKET_NUMPACKETS */
  const NUM_PACKETS: nat := 5

  // ---------------------------------------------------------------------------------------------
  // A queue, as a value
  // ---------------------------------------------------------------------------------------------

  /** Filled from the front without a hole, every filled slot a live handle of its own. */
  ghost predicate IsQueue(bs: seq<MemBlock>, q: seq<nat>) {
    q != [] ==>
      if q[0] == NOBLOCK then AllEmpty(q)
      else IsLive(bs, q[0]) && q[0] !in q[1..] && IsQueue(bs, q[1..])
  }

  ghost predicate AllEmpty(q: seq<nat>) {
    forall i :: 0 <= i < |q| ==> q[i] == NOBLOCK
  }

  lemma {:induction false} QueueFrame(bs: seq<MemBlock>, bs': seq<MemBlock>, q: seq<nat>)
    requires IsQueue(bs, q) && forall h: nat :: h in q && IsLive(bs, h) ==> IsLive(bs', h)
    ensures IsQueue(bs', q)
  {
    if q != [] && q[0] != NOBLOCK {
      QueueFrame(bs, bs', q[1..]);
    }
  }

  lemma {:induction false} QueuePadding(bs: seq<MemBlock>, q: seq<nat>)
    requires IsQueue(bs, q)
    ensures IsQueue(bs, q + [NOBLOCK])
  {
    if q != [] && q[0] != NOBLOCK {
      QueuePadding(bs, q[1..]);
      assert (q + [NOBLOCK])[1..] == q[1..] + [NOBLOCK];
    }
  }

  lemma {:induction false} QueueMembers(bs: seq<MemBlock>, q: seq<nat>, h: nat)
    requires IsQueue(bs, q) && h in q && h != NOBLOCK
    ensures IsLive(bs, h)
  {
    if q[0] != h && q[0] != NOBLOCK {
      QueueMembers(bs, q[1..], h);
    }
  }

  /** Putting a handle of its own into the first empty slot keeps the queue. */
  lemma {:induction false} QueueStore(bs: seq<MemBlock>, q: seq<nat>, i: nat, h: nat)
    requires IsQueue(bs, q) && i < |q| && q[i] == NOBLOCK && forall j :: 0 <= j < i ==> q[j] != NOBLOCK
    requires IsLive(bs, h) && h !in q
    ensures IsQueue(bs, q[i := h]) && forall j :: i <= j < |q| ==> q[j] == NOBLOCK
    ensures forall j :: 0 <= j < i ==> 0 < q[j] < |bs|
  {
    if i == 0 {
      assert q[i := h][1..] == q[1..];
    } else {
      QueueStore(bs, q[1..], i - 1, h);
      assert q[i := h][1..] == q[1..][i - 1 := h];
      forall j | i <= j < |q|
        ensures q[j] == NOBLOCK
      {
        assert q[j] == q[1..][j - 1];
      }
      forall j | 0 < j < i
        ensures 0 < q[j] < |bs|
      {
        assert q[j] == q[1..][j - 1];
      }
    }
  }

  /** The bytes waiting in a queue, oldest first. */
  ghost function Stream(bs: seq<MemBlock>, mem: seq<Byte>, q: seq<nat>): seq<Byte> {
    if q == [] || q[0] == NOBLOCK || q[0] >= |bs| then []
    else BytesOf(bs, mem, q[0]) + Stream(bs, mem, q[1..])
  }

  lemma {:induction false} StreamFrame(bs: seq<MemBlock>, mem: seq<Byte>, bs': seq<MemBlock>, mem': seq<Byte>,
                                       q: seq<nat>)
    requires |bs| == |bs'| && IsQueue(bs, q)
    requires forall h: nat :: h in q && IsLive(bs, h) ==> BytesOf(bs, mem, h) == BytesOf(bs', mem', h)
    ensures Stream(bs, mem, q) == Stream(bs', mem', q)
  {
    if q != [] && 0 < q[0] < |bs| {
      StreamFrame(bs, mem, bs', mem', q[1..]);
    }
  }

  /** Appending a slot to a full prefix appends its bytes; the empty slots behind add nothing. */
  lemma {:induction false} StreamStore(bs: seq<MemBlock>, mem: seq<Byte>, q: seq<nat>, i: nat, h: nat)
    requires i < |q| && 0 < h < |bs| && forall j :: 0 <= j < i ==> 0 < q[j] < |bs|
    requires forall j :: i <= j < |q| ==> q[j] == NOBLOCK
    ensures Stream(bs, mem, q[i := h]) == Stream(bs, mem, q) + BytesOf(bs, mem, h)
  {
    var q' := q[i := h];
    if i == 0 {
      assert q'[1..] == q[1..];
      assert Stream(bs, mem, q[1..]) == [];
    } else {
      StreamStore(bs, mem, q[1..], i - 1, h);
      assert q'[1..] == q[1..][i - 1 := h];
      AppendTwice(BytesOf(bs, mem, q[0]), Stream(bs, mem, q[1..]), BytesOf(bs, mem, h));
    }
  }

  lemma {:induction false} StreamPadding(bs: seq<MemBlock>, mem: seq<Byte>, q: seq<nat>)
    ensures Stream(bs, mem, q + [NOBLOCK]) == Stream(bs, mem, q)
  {
    if q != [] && 0 < q[0] < |bs| {
      StreamPadding(bs, mem, q[1..]);
      assert (q + [NOBLOCK])[1..] == q[1..] + [NOBLOCK];
    }
  }

  // ---------------------------------------------------------------------------------------------
  // The room a queue has
  // ---------------------------------------------------------------------------------------------

  /** The sizes of the blocks that wait, and what is free in the pool. */
  datatype Room = Room(waiting: seq<nat>, bytes: int, handles: int) {
    /** A piece of n bytes can be stored. */
    predicate Fits(n: nat) { |waiting| < NUM_PACKETS && n <= bytes && 0 < handles }

    function Filled(n: nat): Room { Room(waiting + [n], bytes - n, handles - 1) }

    /** n bytes are read: whole blocks go, and the one behind them is cut. */
    function Drained(n: nat): Room
      decreases |waiting|
    {
      if n == 0 || waiting == [] then this
      else if waiting[0] <= n then Room(waiting[1..], bytes + waiting[0], handles + 1).Drained(n - waiting[0])
      else Room([waiting[0] - n] + waiting[1..], bytes + n, handles)
    }
  }

  ghost function Sizes(bs: seq<MemBlock>, q: seq<nat>): seq<nat> {
    if q == [] || q[0] == NOBLOCK || q[0] >= |bs| then [] else [bs[q[0]].size] + Sizes(bs, q[1..])
  }

  ghost function Spare(pool: MemPool): int
    reads pool.blocks
  {
    pool.blocks.Length - 1 - |pool.Live()|
  }

  ghost function RoomOf(pool: MemPool, q: seq<nat>): Room
    reads pool, pool.blocks
  {
    Room(Sizes(pool.blocks[..], q), pool.FreeBytes(), Spare(pool))
  }

  lemma {:induction false} SizesFrame(bs: seq<MemBlock>, bs': seq<MemBlock>, q: seq<nat>)
    requires |bs| == |bs'| && IsQueue(bs, q) && forall h: nat :: h in q && IsLive(bs, h) ==> bs[h].size == bs'[h].size
    ensures Sizes(bs, q) == Sizes(bs', q)
  {
    if q != [] && 0 < q[0] < |bs| {
      SizesFrame(bs, bs', q[1..]);
    }
  }

  lemma {:induction false} SizesStore(bs: seq<MemBlock>, q: seq<nat>, i: nat, h: nat)
    requires i < |q| && 0 < h < |bs| && forall j :: 0 <= j < i ==> 0 < q[j] < |bs|
    requires forall j :: i <= j < |q| ==> q[j] == NOBLOCK
    ensures Sizes(bs, q[i := h]) == Sizes(bs, q) + [bs[h].size]
  {
    var q' := q[i := h];
    if i == 0 {
      assert q'[1..] == q[1..];
      assert Sizes(bs, q[1..]) == [];
    } else {
      SizesStore(bs, q[1..], i - 1, h);
      assert q'[1..] == q[1..][i - 1 := h];
    }
  }

  lemma {:induction false} SizesPadding(bs: seq<MemBlock>, q: seq<nat>)
    ensures Sizes(bs, q + [NOBLOCK]) == Sizes(bs, q)
  {
    if q != [] && 0 < q[0] < |bs| {
      SizesPadding(bs, q[1..]);
      assert (q + [NOBLOCK])[1..] == q[1..] + [NOBLOCK];
    }
  }

  /** A slot is empty exactly when fewer blocks wait than there are slots. */
  lemma {:induction false} LastSlot(bs: seq<MemBlock>, q: seq<nat>)
    requires IsQueue(bs, q) && q != []
    ensures |Sizes(bs, q)| <= |q| && (|Sizes(bs, q)| < |q| <==> q[|q| - 1] == NOBLOCK)
  {
    if q[0] != NOBLOCK && 1 < |q| {
      LastSlot(bs, q[1..]);
    }
  }

  /** The handles there are, with POOLSTART's left out. */
  ghost function Handles(n: nat): (s: set<nat>)
    ensures forall h :: h in s <==> 0 < h < n
    ensures 0 < n ==> |s| == n - 1
  {
    if n <= 1 then {} else Handles(n - 1) + {n - 1}
  }

  /** A free handle is left exactly when not all are live. */
  lemma FreeHandles(pool: MemPool)
    requires pool.Valid()
    ensures pool.HandlesExhausted() <==> Spare(pool) == 0
    ensures 0 <= Spare(pool)
  {
    var all := Handles(pool.blocks.Length);
    Subset(pool.Live(), all);
    if pool.HandlesExhausted() {
      assert pool.Live() == all;
    }
    if pool.Live() == all {
      forall h | 0 < h < pool.blocks.Length
        ensures pool.blocks[h].size != 0
      {
        assert h in pool.Live();
      }
    }
  }

  lemma {:induction false} Subset(a: set<nat>, b: set<nat>)
    requires a <= b
    ensures |a| <= |b| && (|a| == |b| <==> a == b)
    decreases |b|
  {
    if a != {} {
      var x :| x in a;
      Subset(a - {x}, b - {x});
      assert a == (a - {x}) + {x} && b == (b - {x}) + {x};
    }
  }

  /** The store's guard, in terms of the room. */
  lemma FitsIs(pool: MemPool, q: seq<nat>, n: nat)
    requires pool.Valid() && |q| == NUM_PACKETS && IsQueue(pool.blocks[..], q)
    ensures RoomOf(pool, q).Fits(n) <==>
              q[NUM_PACKETS - 1] == NOBLOCK && n <= pool.FreeBytes() && !pool.HandlesExhausted()
  {
    LastSlot(pool.blocks[..], q);
    FreeHandles(pool);
  }

  // ---------------------------------------------------------------------------------------------
  // Operations
  // ---------------------------------------------------------------------------------------------

  /** The loop of _eatBlock that moves the slots up by one. */
  method ShiftDown(q: array<nat>)
    requires q.Length == NUM_PACKETS
    modifies q
    ensures q[..] == old(q[..])[1..] + [NOBLOCK]
  {
    var i := 0;
    while i < NUM_PACKETS - 1
      invariant 0 <= i <= NUM_PACKETS - 1
      invariant forall j {:trigger q[j]} :: 0 <= j < i ==> q[j] == old(q[..])[j + 1]
      invariant forall j :: i <= j < NUM_PACKETS ==> q[j] == old(q[..])[j]
    {
      q[i] := q[i + 1];
      i := i + 1;
    }
    q[NUM_PACKETS - 1] := NOBLOCK;
  }

  /** freeBlock on the first block of a queue, with its effect as values. */
  method Release(pool: MemPool, h: nat, ghost rest: seq<nat>)
    requires pool.Valid() && IsQueue(pool.blocks[..], rest)
    requires h == NOBLOCK || (IsLive(pool.blocks[..], h) && h !in rest)
    modifies pool.blocks, pool`path
    ensures pool.Valid() && IsQueue(pool.blocks[..], rest) && pool.Live() == old(pool.Live()) - {h}
    ensures Kept(old(pool.blocks[..]), old(pool.memory[..]), pool.blocks[..], pool.memory[..], [h])
    ensures h != NOBLOCK ==>
              && |old(pool.Bytes(h))| == old(pool.blocks[h].size) == pool.FreeBytes() - old(pool.FreeBytes())
              && Spare(pool) == old(Spare(pool)) + 1
    ensures Stream(pool.blocks[..], pool.memory[..], rest) == Stream(old(pool.blocks[..]), old(pool.memory[..]), rest)
    ensures Sizes(pool.blocks[..], rest) == Sizes(old(pool.blocks[..]), rest)
  {
    ghost var bs, mem := pool.blocks[..], pool.memory[..];
    FreeCounted(pool, h);
    QueueFrame(bs, pool.blocks[..], rest);
    SizesFrame(bs, pool.blocks[..], rest);
    StreamFrame(bs, mem, pool.blocks[..], mem, rest);
  }

  method FreeCounted(pool: MemPool, h: nat)
    requires pool.Valid() && (h == NOBLOCK || IsLive(pool.blocks[..], h))
    modifies pool.blocks, pool`path
    ensures pool.Valid() && pool.Live() == old(pool.Live()) - {h}
    ensures Kept(old(pool.blocks[..]), old(pool.memory[..]), pool.blocks[..], pool.memory[..], [h])
    ensures h != NOBLOCK ==>
              && |old(pool.Bytes(h))| == old(pool.blocks[h].size) == pool.FreeBytes() - old(pool.FreeBytes())
              && Spare(pool) == old(Spare(pool)) + 1
  {
    LiveIsLive(pool);
    if h != NOBLOCK {
      var size := pool.BlockSize(h);
    }
    pool.FreeBlock(h);
    LiveIsLive(pool);
  }

  /** _eatBlock: give the first block back and move the others up. */
  method EatBlock(pool: MemPool, q: array<nat>)
    requires pool.Valid() && IsQueue(pool.blocks[..], q[..]) && q.Length == NUM_PACKETS
    modifies pool.blocks, pool`path, q
    ensures pool.Valid() && IsQueue(pool.blocks[..], q[..]) && q[..] == old(q[..])[1..] + [NOBLOCK]
    ensures pool.Live() == old(pool.Live()) - {old(q[0])}
    ensures Kept(old(pool.blocks[..]), old(pool.memory[..]), pool.blocks[..], pool.memory[..], [old(q[0])])
    ensures Stream(pool.blocks[..], pool.memory[..], q[..])
         == Stream(old(pool.blocks[..]), old(pool.memory[..]), old(q[..])[1..])
    ensures Sizes(pool.blocks[..], q[..]) == Sizes(old(pool.blocks[..]), old(q[..])[1..])
    ensures old(q[0]) != NOBLOCK ==>
              && old(q[0]) < pool.blocks.Length
              && |old(pool.Bytes(q[0]))| == old(pool.blocks[q[0]].size) == pool.FreeBytes() - old(pool.FreeBytes())
              && Spare(pool) == old(Spare(pool)) + 1
  {
    ghost var s := q[..];
    EmptyHead(pool.blocks[..], s);
    Release(pool, q[0], s[1..]);
    ShiftDown(q);
    QueuePadding(pool.blocks[..], s[1..]);
    StreamPadding(pool.blocks[..], pool.memory[..], s[1..]);
    SizesPadding(pool.blocks[..], s[1..]);
  }

  lemma EmptyHead(bs: seq<MemBlock>, q: seq<nat>)
    requires IsQueue(bs, q) && q != []
    ensures IsQueue(bs, q[1..]) && (q[0] == NOBLOCK || (IsLive(bs, q[0]) && q[0] !in q[1..]))
  {
    if q[0] == NOBLOCK && q[1..] != [] {
      assert q[1..][0] == NOBLOCK;
    }
  }

  /** Every live handle outside `q` stays live and keeps its size and bytes. */
  ghost predicate Kept(bs: seq<MemBlock>, mem: seq<Byte>, bs': seq<MemBlock>, mem': seq<Byte>, q: seq<nat>) {
    && |bs| == |bs'|
    && forall h: nat {:trigger IsLive(bs, h)} :: IsLive(bs, h) && h !in q ==>
         IsLive(bs', h) && bs'[h].size == bs[h].size && BytesOf(bs, mem, h) == BytesOf(bs', mem', h)
  }

  /** Every slot of q' is empty or was a slot of q. */
  ghost predicate Within(q': seq<nat>, q: seq<nat>) {
    forall h :: h in q' ==> h == NOBLOCK || h in q
  }

  lemma KeptTransitive(bs: seq<MemBlock>, mem: seq<Byte>, bs': seq<MemBlock>, mem': seq<Byte>,
                       bs'': seq<MemBlock>, mem'': seq<Byte>, q: seq<nat>, q': seq<nat>)
    requires Kept(bs, mem, bs', mem', q) && Kept(bs', mem', bs'', mem'', q') && Within(q', q)
    ensures Kept(bs, mem, bs'', mem'', q)
  {
    forall h: nat | IsLive(bs, h) && h !in q
      ensures IsLive(bs'', h) && bs''[h].size == bs[h].size && BytesOf(bs, mem, h) == BytesOf(bs'', mem'', h)
    {
      assert IsLive(bs', h);
    }
  }

  /** `moved` has arrived in the buffer from `base` on, and nothing else changed. */
  ghost predicate Received(buf: seq<Byte>, buf': seq<Byte>, base: nat, moved: seq<Byte>) {
    && |buf| == |buf'| && base + |moved| <= |buf|
    && forall i {:trigger buf'[i]} :: 0 <= i < |buf| ==>
         buf'[i] == if base <= i < base + |moved| then moved[i - base] else buf[i]
  }

  lemma ReceivedMore(buf: seq<Byte>, buf': seq<Byte>, buf'': seq<Byte>, base: nat, moved: seq<Byte>,
                     offset: nat, more: seq<Byte>)
    requires Received(buf, buf', base, moved) && Received(buf', buf'', offset, more) && offset == base + |moved|
    ensures Received(buf, buf'', base, moved + more)
  {
    forall i | 0 <= i < |buf|
      ensures buf''[i] == if base <= i < base + |moved + more| then (moved + more)[i - base] else buf[i]
    {
      assert buf''[i] == if offset <= i < offset + |more| then more[i - offset] else buf'[i];
    }
  }

  /** readPacket on the first block of the queue. */
  method ReadFirst(pool: MemPool, h: nat, buf: array<Byte>, offset: nat, remain: nat) returns (read: nat, size: nat)
    requires pool.Valid() && IsLive(pool.blocks[..], h)
    requires offset + remain <= buf.Length && buf != pool.memory
    modifies buf
    ensures size == pool.blocks[h].size == |pool.Bytes(h)| && read == Min(remain, size)
    ensures Received(old(buf[..]), buf[..], offset, pool.Bytes(h)[..read])
  {
    LiveIsLive(pool);
    read := pool.ReadPacket(h, 0, buf, offset, remain);
    size := pool.BlockSize(h);
    forall i | 0 <= i < buf.Length
      ensures buf[i] == if offset <= i < offset + read then pool.Bytes(h)[..read][i - offset] else old(buf[i])
    {
      if offset <= i < offset + read {
        assert buf[i] == buf[offset..offset + read][i - offset];
      }
    }
  }

  /** Takes the `read` bytes just copied out of the first block off the queue. */
  method DropRead(pool: MemPool, q: array<nat>, read: nat, drained: bool, ghost asked: nat)
    requires pool.Valid() && IsQueue(pool.blocks[..], q[..]) && q.Length == NUM_PACKETS && q[0] != NOBLOCK
    requires q[0] < pool.blocks.Length && read <= pool.blocks[q[0]].size &&
             (drained <==> read == pool.blocks[q[0]].size)
    requires read <= asked && (drained || read == asked)
    modifies pool.blocks, pool`path, q
    ensures pool.Valid() && IsQueue(pool.blocks[..], q[..])
    ensures Kept(old(pool.blocks[..]), old(pool.memory[..]), pool.blocks[..], pool.memory[..], old(q[..]))
    ensures Within(q[..], old(q[..]))
    ensures |old(pool.Bytes(q[0]))| == old(pool.blocks[q[0]].size)
    ensures Stream(old(pool.blocks[..]), old(pool.memory[..]), old(q[..]))
         == old(pool.Bytes(q[0]))[..read] + Stream(pool.blocks[..], pool.memory[..], q[..])
    ensures old(RoomOf(pool, q[..])).Drained(asked) == RoomOf(pool, q[..]).Drained(asked - read)
  {
    if drained {
      EatFirst(pool, q, read, asked);
    } else {
      CutFirst(pool, q[0], read, q[..]);
      WithinItself(q[..]);
    }
  }

  lemma WithinItself(q: seq<nat>)
    ensures Within(q, q)
  {
  }

  lemma DrainedDrop(r: Room, n: nat, first: nat, r': Room)
    requires 0 < first <= n && r.waiting == [first] + r'.waiting
    requires r'.bytes == r.bytes + first && r'.handles == r.handles + 1
    ensures r.Drained(n) == r'.Drained(n - first)
  {
  }

  lemma DrainedCut(r: Room, read: nat, rest: seq<nat>, first: nat)
    requires r.waiting == [first] + rest && read < first
    ensures r.Drained(read) == Room([first - read] + rest, r.bytes + read, r.handles)
  {
  }

  /** The first block goes with its last byte. */
  method EatFirst(pool: MemPool, q: array<nat>, read: nat, ghost asked: nat)
    requires pool.Valid() && IsQueue(pool.blocks[..], q[..]) && q.Length == NUM_PACKETS && q[0] != NOBLOCK
    requires q[0] < pool.blocks.Length && read == pool.blocks[q[0]].size && read <= asked
    modifies pool.blocks, pool`path, q
    ensures pool.Valid() && IsQueue(pool.blocks[..], q[..])
    ensures Kept(old(pool.blocks[..]), old(pool.memory[..]), pool.blocks[..], pool.memory[..], old(q[..]))
    ensures Within(q[..], old(q[..]))
    ensures |old(pool.Bytes(q[0]))| == old(pool.blocks[q[0]].size)
    ensures Stream(old(pool.blocks[..]), old(pool.memory[..]), old(q[..]))
         == old(pool.Bytes(q[0]))[..read] + Stream(pool.blocks[..], pool.memory[..], q[..])
    ensures old(RoomOf(pool, q[..])).Drained(asked) == RoomOf(pool, q[..]).Drained(asked - read)
  {
    ghost var s, room := q[..], RoomOf(pool, q[..]);
    FirstBlock(pool.blocks[..], pool.memory[..], s, read);
    EatBlock(pool, q);
    ShiftedWithin(s, q[..]);
    DrainedDrop(room, asked, read, RoomOf(pool, q[..]));
  }

  lemma FirstBlock(bs: seq<MemBlock>, mem: seq<Byte>, q: seq<nat>, read: nat)
    requires IsQueue(bs, q) && q != [] && q[0] != NOBLOCK && bs[q[0]].size == read
    ensures 0 < read && Sizes(bs, q) == [read] + Sizes(bs, q[1..])
    ensures |BytesOf(bs, mem, q[0])| == read ==>
              Stream(bs, mem, q) == BytesOf(bs, mem, q[0])[..read] + Stream(bs, mem, q[1..])
  {
  }

  lemma ShiftedWithin(q: seq<nat>, q': seq<nat>)
    requires q != [] && q' == q[1..] + [NOBLOCK]
    ensures Within(q', q)
  {
  }

  /** The first block h of the queue q loses the bytes read. */
  method CutFirst(pool: MemPool, h: nat, read: nat, ghost q: seq<nat>)
    requires pool.Valid() && IsQueue(pool.blocks[..], q) && q != [] && q[0] == h != NOBLOCK
    requires h < pool.blocks.Length && read < pool.blocks[h].size
    modifies pool.blocks, pool`path
    ensures pool.Valid() && IsQueue(pool.blocks[..], q)
    ensures Kept(old(pool.blocks[..]), old(pool.memory[..]), pool.blocks[..], pool.memory[..], q)
    ensures |old(pool.Bytes(h))| == old(pool.blocks[h].size)
    ensures Stream(old(pool.blocks[..]), old(pool.memory[..]), q)
         == old(pool.Bytes(h))[..read] + Stream(pool.blocks[..], pool.memory[..], q)
    ensures old(RoomOf(pool, q)).Drained(read) == RoomOf(pool, q)
  {
    ghost var bs, mem, room := pool.blocks[..], pool.memory[..], RoomOf(pool, q);
    CutBlock(pool, h, read);
    CutQueue(bs, pool.blocks[..], mem, q, read);
    CutSizes(bs, pool.blocks[..], q, read);
    DrainedCut(room, read, Sizes(bs, q[1..]), bs[h].size);
  }

  lemma CutQueue(bs: seq<MemBlock>, bs': seq<MemBlock>, mem: seq<Byte>, q: seq<nat>, read: nat)
    requires IsQueue(bs, q) && q != [] && q[0] != NOBLOCK && OneCut(bs, bs', q[0], read)
    requires var first := BytesOf(bs, mem, q[0]); read <= |first| && BytesOf(bs', mem, q[0]) == first[read..]
    requires Kept(bs, mem, bs', mem, [q[0]])
    ensures IsQueue(bs', q) && Kept(bs, mem, bs', mem, q)
    ensures Stream(bs, mem, q) == BytesOf(bs, mem, q[0])[..read] + Stream(bs', mem, q)
  {
    CutIsQueue(bs, bs', mem, q, read);
    CutStream(BytesOf(bs, mem, q[0]), read, Stream(bs, mem, q[1..]));
  }

  /** resizeBlock, with its effect on the handles as values. */
  method CutBlock(pool: MemPool, h: nat, read: nat)
    requires pool.Valid() && IsLive(pool.blocks[..], h) && read < pool.blocks[h].size
    modifies pool.blocks, pool`path
    ensures pool.Valid() && Spare(pool) == old(Spare(pool)) && pool.FreeBytes() == old(pool.FreeBytes()) + read
    ensures OneCut(old(pool.blocks[..]), pool.blocks[..], h, read)
    ensures Kept(old(pool.blocks[..]), old(pool.memory[..]), pool.blocks[..], pool.memory[..], [h])
    ensures |old(pool.Bytes(h))| == old(pool.blocks[h].size) && pool.Bytes(h) == old(pool.Bytes(h))[read..]
  {
    LiveIsLive(pool);
    pool.ResizeBlock(h, read);
    LiveIsLive(pool);
  }

  ghost predicate OneCut(bs: seq<MemBlock>, bs': seq<MemBlock>, h: nat, read: nat) {
    && |bs| == |bs'| && h < |bs| && IsLive(bs', h) && bs[h].size == bs'[h].size + read
    && forall g: nat {:trigger IsLive(bs, g)} :: g != h && IsLive(bs, g) ==> IsLive(bs', g) && bs[g] == bs'[g]
  }

  lemma CutSizes(bs: seq<MemBlock>, bs': seq<MemBlock>, q: seq<nat>, read: nat)
    requires IsQueue(bs, q) && q != [] && q[0] != NOBLOCK && OneCut(bs, bs', q[0], read)
    ensures Sizes(bs', q) == [bs[q[0]].size - read] + Sizes(bs, q[1..]) &&
            Sizes(bs, q) == [bs[q[0]].size] + Sizes(bs, q[1..])
  {
    SizesFrame(bs, bs', q[1..]);
  }

  lemma CutStream(first: seq<Byte>, read: nat, rest: seq<Byte>)
    requires read <= |first|
    ensures first + rest == first[..read] + (first[read..] + rest)
  {
  }

  /** One turn of the loop: either the first block is drained and dropped, or it is cut short. */
  method RecvStep(pool: MemPool, q: array<nat>, buf: array<Byte>, offset: nat, remain: nat)
    returns (read: nat, drained: bool, ghost moved: seq<Byte>)
    requires pool.Valid() && IsQueue(pool.blocks[..], q[..]) && q.Length == NUM_PACKETS && q[0] != NOBLOCK
    requires offset + remain <= buf.Length && buf != pool.memory
    modifies pool.blocks, pool`path, q, buf
    ensures pool.Valid() && IsQueue(pool.blocks[..], q[..])
    ensures Kept(old(pool.blocks[..]), old(pool.memory[..]), pool.blocks[..], pool.memory[..], old(q[..]))
    ensures Within(q[..], old(q[..]))
    ensures read == |moved| <= remain && (!drained ==> read == remain) && (drained ==> 0 < read)
    ensures drained <==> old(pool.blocks[q[0]].size) <= remain
    ensures Received(old(buf[..]), buf[..], offset, moved)
    ensures Stream(old(pool.blocks[..]), old(pool.memory[..]), old(q[..]))
         == moved + Stream(pool.blocks[..], pool.memory[..], q[..])
    ensures old(RoomOf(pool, q[..])).Drained(remain) == RoomOf(pool, q[..]).Drained(remain - read)
  {
    var size;
    read, size := ReadFirst(pool, q[0], buf, offset, remain);
    drained := read == size;
    moved := pool.Bytes(q[0])[..read];
    DropRead(pool, q, read, drained, remain);
  }

  lemma LiveIsLive(pool: MemPool)
    ensures forall h: nat {:trigger IsLive(pool.blocks[..], h)} :: IsLive(pool.blocks[..], h) <==> h in pool.Live()
  {
  }

  lemma CutIsQueue(bs: seq<MemBlock>, bs': seq<MemBlock>, mem: seq<Byte>, q: seq<nat>, read: nat)
    requires IsQueue(bs, q) && q != [] && q[0] != NOBLOCK && OneCut(bs, bs', q[0], read)
    ensures IsQueue(bs', q) && Stream(bs', mem, q) == BytesOf(bs', mem, q[0]) + Stream(bs, mem, q[1..])
  {
    QueueFrame(bs, bs', q[1..]);
    StreamFrame(bs, mem, bs', mem, q[1..]);
  }

  /** The do-while loop of recv: moves bytes to the buffer until it is full or the queue is empty. */
  method RecvLoop(pool: MemPool, q: array<nat>, buf: array<Byte>, base: nat, asked: nat)
    returns (remain: nat, emptied: bool, ate: bool, ghost moved: seq<Byte>)
    requires pool.Valid() && IsQueue(pool.blocks[..], q[..]) && q.Length == NUM_PACKETS && q[0] != NOBLOCK
    requires base + asked <= buf.Length && buf != pool.memory
    modifies pool.blocks, pool`path, q, buf
    ensures pool.Valid() && IsQueue(pool.blocks[..], q[..])
    ensures Kept(old(pool.blocks[..]), old(pool.memory[..]), pool.blocks[..], pool.memory[..], old(q[..]))
    ensures remain + |moved| == asked && (!emptied ==> remain == 0) && (emptied ==> q[0] == NOBLOCK)
    ensures Received(old(buf[..]), buf[..], base, moved)
    ensures Stream(old(pool.blocks[..]), old(pool.memory[..]), old(q[..]))
         == moved + Stream(pool.blocks[..], pool.memory[..], q[..])
    ensures RoomOf(pool, q[..]) == old(RoomOf(pool, q[..])).Drained(asked)
    ensures ate <==> old(pool.blocks[q[0]].size) <= asked
  {
    ghost var bs, mem, s, was := pool.blocks[..], pool.memory[..], q[..], buf[..];
    ghost var room := RoomOf(pool, s).Drained(asked);
    remain, ate, moved := asked, false, [];
    WithinItself(s);
    while true
      invariant Moving(pool, q, buf, bs, mem, s, was, base, asked, remain, moved, room) && q[0] != NOBLOCK
      invariant if ate then bs[s[0]].size <= asked else remain == asked && pool.blocks[..] == bs && q[..] == s
      decreases remain
    {
      var drained;
      remain, drained, moved := RecvTurn(pool, q, buf, base, asked, remain, moved, bs, mem, s, was, room);
      if drained {
        ate := true;
        if q[0] == NOBLOCK {
          NothingWaits(pool.blocks[..], pool.memory[..], q[..]);
          NothingDrains(RoomOf(pool, q[..]), remain);
          return remain, true, ate, moved;
        }
      } else {
        return remain, false, ate, moved;
      }
      if remain == 0 {
        return remain, false, ate, moved;
      }
    }
  }

  /** The loop's state, `moved` having been moved since the start at bs, mem, s and was. */
  ghost predicate Moving(pool: MemPool, q: array<nat>, buf: array<Byte>, bs: seq<MemBlock>, mem: seq<Byte>,
                         s: seq<nat>, was: seq<Byte>, base: nat, asked: nat, remain: nat, moved: seq<Byte>, room: Room)
    reads pool, pool.blocks, pool.memory, q, buf
  {
    && pool.Valid() && IsQueue(pool.blocks[..], q[..]) && q.Length == NUM_PACKETS
    && base + asked <= buf.Length && buf != pool.memory
    && remain + |moved| == asked && RoomOf(pool, q[..]).Drained(remain) == room
    && MovedOut(bs, mem, s, was, pool.blocks[..], pool.memory[..], q[..], buf[..], base, moved)
  }

  ghost predicate MovedOut(bs: seq<MemBlock>, mem: seq<Byte>, s: seq<nat>, was: seq<Byte>, bs': seq<MemBlock>,
                           mem': seq<Byte>, q: seq<nat>, buf: seq<Byte>, base: nat, moved: seq<Byte>) {
    && Kept(bs, mem, bs', mem', s) && Within(q, s) && Received(was, buf, base, moved)
    && Stream(bs, mem, s) == moved + Stream(bs', mem', q)
  }

  lemma MovedOutMore(bs: seq<MemBlock>, mem: seq<Byte>, s: seq<nat>, was: seq<Byte>,
                     bs1: seq<MemBlock>, mem1: seq<Byte>, q1: seq<nat>, buf1: seq<Byte>, base: nat, moved: seq<Byte>,
                     bs2: seq<MemBlock>, mem2: seq<Byte>, q2: seq<nat>, buf2: seq<Byte>, at: nat, more: seq<Byte>)
    requires MovedOut(bs, mem, s, was, bs1, mem1, q1, buf1, base, moved) && at == base + |moved|
    requires MovedOut(bs1, mem1, q1, buf1, bs2, mem2, q2, buf2, at, more)
    ensures MovedOut(bs, mem, s, was, bs2, mem2, q2, buf2, base, moved + more)
  {
    KeptTransitive(bs, mem, bs1, mem1, bs2, mem2, s, q1);
    ReceivedMore(was, buf1, buf2, base, moved, at, more);
    AppendTwice(moved, more, Stream(bs2, mem2, q2));
  }

  /** One turn, seen from the start of the loop. */
  method RecvTurn(pool: MemPool, q: array<nat>, buf: array<Byte>, base: nat, asked: nat, remain: nat,
                  ghost moved: seq<Byte>, ghost bs: seq<MemBlock>, ghost mem: seq<Byte>, ghost s: seq<nat>,
                  ghost was: seq<Byte>, ghost room: Room)
    returns (left: nat, drained: bool, ghost now: seq<Byte>)
    requires Moving(pool, q, buf, bs, mem, s, was, base, asked, remain, moved, room) && q[0] != NOBLOCK
    modifies pool.blocks, pool`path, q, buf
    ensures Moving(pool, q, buf, bs, mem, s, was, base, asked, left, now, room)
    ensures if drained then left < remain else left == 0
    ensures drained <==> old(pool.blocks[q[0]].size) <= remain
  {
    ghost var bs1, mem1, slots, buf1 := pool.blocks[..], pool.memory[..], q[..], buf[..];
    var offset := base + (asked - remain);
    var read;
    ghost var more;
    read, drained, more := RecvStep(pool, q, buf, offset, remain);
    MovedOutMore(bs, mem, s, was, bs1, mem1, slots, buf1, base, moved,
                 pool.blocks[..], pool.memory[..], q[..], buf[..], offset, more);
    left, now := remain - read, moved + more;
  }

  lemma NothingWaits(bs: seq<MemBlock>, mem: seq<Byte>, q: seq<nat>)
    requires q != [] && q[0] == NOBLOCK
    ensures Stream(bs, mem, q) == [] && Sizes(bs, q) == []
  {
  }

  lemma NothingMoves(bs: seq<MemBlock>, mem: seq<Byte>, q: seq<nat>, buf: seq<Byte>, base: nat, low: nat)
    requires q != [] && q[0] == NOBLOCK && base + low <= |buf|
    ensures Kept(bs, mem, bs, mem, q) && Received(buf, buf, base, []) && Sizes(bs, q) == []
    ensures Stream(bs, mem, q) == [] + Stream(bs, mem, q) && Min(low, |Stream(bs, mem, q)|) == 0
  {
  }

  lemma NothingDrains(r: Room, n: nat)
    requires r.waiting == []
    ensures r.Drained(n) == r
  {
  }

  /** A read of n bytes reaches the end of the first block. */
  ghost predicate GivesBack(pool: MemPool, q: array<nat>, n: nat)
    reads pool.blocks, q
  {
    0 < q.Length && q[0] != NOBLOCK && q[0] < pool.blocks.Length && pool.blocks[q[0]].size <= n
  }

  /** recv.  For a request of up to 65535 bytes it moves min(size, waiting) bytes, in order, and
      leaves the rest waiting.  `remain` is a 16-bit variable: a larger request is served only for
      its low 16 bits, at the far end of the buffer, while the answer counts the skipped part too.  A
      stopped connection whose user is not closing is to go on again exactly when a block is given back. */
  method Recv(pool: MemPool, q: array<nat>, buf: array<Byte>, size: nat, stopped: bool, closing: bool)
    returns (n: nat, restart: bool, ghost moved: seq<Byte>)
    requires pool.Valid() && IsQueue(pool.blocks[..], q[..]) && q.Length == NUM_PACKETS
    requires size <= buf.Length && buf != pool.memory
    modifies pool.blocks, pool`path, q, buf
    ensures pool.Valid() && IsQueue(pool.blocks[..], q[..])
    ensures Kept(old(pool.blocks[..]), old(pool.memory[..]), pool.blocks[..], pool.memory[..], old(q[..]))
    ensures Stream(old(pool.blocks[..]), old(pool.memory[..]), old(q[..]))
         == moved + Stream(pool.blocks[..], pool.memory[..], q[..])
    ensures |moved| == Min(Low16(size), |Stream(old(pool.blocks[..]), old(pool.memory[..]), old(q[..]))|)
    ensures Received(old(buf[..]), buf[..], size - Low16(size), moved)
    ensures RoomOf(pool, q[..]) == old(RoomOf(pool, q[..])).Drained(Low16(size))
    ensures restart <==> stopped && !closing && old(GivesBack(pool, q, Low16(size)))
    ensures n == if old(q[0]) == NOBLOCK then 0 else size - Low16(size) + |moved|
  {
    var ate;
    n, ate, moved := RecvUpTo(pool, q, buf, size, Low16(size));
    restart := ate && stopped && !closing;
  }

  /** recv, with what its 16-bit variable keeps of the size. */
  method RecvUpTo(pool: MemPool, q: array<nat>, buf: array<Byte>, size: nat, low: nat)
    returns (n: nat, ate: bool, ghost moved: seq<Byte>)
    requires pool.Valid() && IsQueue(pool.blocks[..], q[..]) && q.Length == NUM_PACKETS
    requires low <= size <= buf.Length && buf != pool.memory
    modifies pool.blocks, pool`path, q, buf
    ensures pool.Valid() && IsQueue(pool.blocks[..], q[..])
    ensures Kept(old(pool.blocks[..]), old(pool.memory[..]), pool.blocks[..], pool.memory[..], old(q[..]))
    ensures Stream(old(pool.blocks[..]), old(pool.memory[..]), old(q[..]))
         == moved + Stream(pool.blocks[..], pool.memory[..], q[..])
    ensures |moved| == Min(low, |Stream(old(pool.blocks[..]), old(pool.memory[..]), old(q[..]))|)
    ensures Received(old(buf[..]), buf[..], size - low, moved)
    ensures RoomOf(pool, q[..]) == old(RoomOf(pool, q[..])).Drained(low)
    ensures ate <==> old(GivesBack(pool, q, low))
    ensures n == if old(q[0]) == NOBLOCK then 0 else size - low + |moved|
  {
    if q[0] == NOBLOCK {
      NothingMoves(pool.blocks[..], pool.memory[..], q[..], buf[..], size - low, low);
      NothingDrains(RoomOf(pool, q[..]), low);
      return 0, false, [];
    }
    var remain, emptied;
    remain, emptied, ate, moved := RecvSome(pool, q, buf, size - low, low);
    n := if emptied then size - remain else size;
  }

  /** The loop, with the number of bytes it moves. */
  method RecvSome(pool: MemPool, q: array<nat>, buf: array<Byte>, base: nat, asked: nat)
    returns (remain: nat, emptied: bool, ate: bool, ghost moved: seq<Byte>)
    requires pool.Valid() && IsQueue(pool.blocks[..], q[..]) && q.Length == NUM_PACKETS && q[0] != NOBLOCK
    requires base + asked <= buf.Length && buf != pool.memory
    modifies pool.blocks, pool`path, q, buf
    ensures pool.Valid() && IsQueue(pool.blocks[..], q[..])
    ensures Kept(old(pool.blocks[..]), old(pool.memory[..]), pool.blocks[..], pool.memory[..], old(q[..]))
    ensures Stream(old(pool.blocks[..]), old(pool.memory[..]), old(q[..]))
         == moved + Stream(pool.blocks[..], pool.memory[..], q[..])
    ensures |moved| == Min(asked, |Stream(old(pool.blocks[..]), old(pool.memory[..]), old(q[..]))|)
    ensures Received(old(buf[..]), buf[..], base, moved)
    ensures remain + |moved| == asked && (!emptied ==> remain == 0)
    ensures RoomOf(pool, q[..]) == old(RoomOf(pool, q[..])).Drained(asked)
    ensures ate <==> old(pool.blocks[q[0]].size) <= asked
  {
    remain, emptied, ate, moved := RecvLoop(pool, q, buf, base, asked);
    if emptied {
      NothingWaits(pool.blocks[..], pool.memory[..], q[..]);
    }
  }

  /** AllocBlock does not disturb a queue. */
  lemma AllocKeepsQueue(bs: seq<MemBlock>, mem: seq<Byte>, bs': seq<MemBlock>, mem': seq<Byte>, q: seq<nat>)
    requires IsQueue(bs, q) && Kept(bs, mem, bs', mem', [])
    ensures IsQueue(bs', q) && Stream(bs, mem, q) == Stream(bs', mem', q) && Sizes(bs, q) == Sizes(bs', q)
  {
    QueueFrame(bs, bs', q);
    SizesFrame(bs, bs', q);
    StreamFrame(bs, mem, bs', mem', q);
  }

  /** allocBlock, with its effect on the handles as values. */
  method Alloc(pool: MemPool, n: nat) returns (h: nat)
    requires pool.Valid() && 0 < n
    modifies pool.blocks, pool.memory, pool`path
    ensures pool.Valid() && (h == NOBLOCK <==> old(pool.FreeBytes()) < n || old(pool.HandlesExhausted()))
    ensures Kept(old(pool.blocks[..]), old(pool.memory[..]), pool.blocks[..], pool.memory[..], [])
    ensures pool.FreeBytes() == old(pool.FreeBytes()) - if h == NOBLOCK then 0 else n
    ensures Spare(pool) == old(Spare(pool)) - if h == NOBLOCK then 0 else 1
    ensures h == NOBLOCK ==> pool.HandlesExhausted() == old(pool.HandlesExhausted())
    ensures h != NOBLOCK ==>
              !IsLive(old(pool.blocks[..]), h) && IsLive(pool.blocks[..], h) && pool.blocks[h].size == n
  {
    ghost var bs := pool.blocks[..];
    LiveIsLive(pool);
    FreeHandles(pool);
    h := pool.AllocBlock(n);
    LiveIsLive(pool);
    FreeHandles(pool);
  }

  /** Allocates a block and fills it, or changes no byte of any live handle. */
  method AllocFilled(pool: MemPool, data: seq<Byte>) returns (h: nat)
    requires pool.Valid() && data != []
    modifies pool.blocks, pool.memory, pool`path
    ensures pool.Valid() && (h == NOBLOCK <==> old(pool.FreeBytes()) < |data| || old(pool.HandlesExhausted()))
    ensures Kept(old(pool.blocks[..]), old(pool.memory[..]), pool.blocks[..], pool.memory[..], [])
    ensures pool.FreeBytes() == old(pool.FreeBytes()) - if h == NOBLOCK then 0 else |data|
    ensures Spare(pool) == old(Spare(pool)) - if h == NOBLOCK then 0 else 1
    ensures h == NOBLOCK ==> pool.HandlesExhausted() == old(pool.HandlesExhausted())
    ensures h != NOBLOCK ==> !IsLive(old(pool.blocks[..]), h) && IsLive(pool.blocks[..], h)
                             && BytesOf(pool.blocks[..], pool.memory[..], h) == data && pool.blocks[h].size == |data|
  {
    ghost var bs, mem := pool.blocks[..], pool.memory[..];
    h := Alloc(pool, |data|);
    if h != NOBLOCK {
      ghost var mem1 := pool.memory[..];
      FillBlock(pool, h, data);
      KeptAround(bs, mem, pool.blocks[..], mem1, pool.memory[..], h);
    }
  }

  method FillBlock(pool: MemPool, h: nat, data: seq<Byte>)
    requires pool.Valid() && IsLive(pool.blocks[..], h) && pool.blocks[h].size == |data|
    modifies pool.memory
    ensures pool.Valid() && BytesOf(pool.blocks[..], pool.memory[..], h) == data
    ensures Kept(pool.blocks[..], old(pool.memory[..]), pool.blocks[..], pool.memory[..], [h])
  {
    LiveIsLive(pool);
    ghost var was := old(pool.memory[..]);
    var n := pool.WritePacket(h, 0, data);
    forall g: nat | IsLive(pool.blocks[..], g) && g != h
      ensures BytesOf(pool.blocks[..], was, g) == BytesOf(pool.blocks[..], pool.memory[..], g)
    {
      assert g in pool.Live() && pool.Bytes(g) == old(pool.Bytes(g));
    }
  }

  lemma KeptAround(bs: seq<MemBlock>, mem: seq<Byte>, bs': seq<MemBlock>, mem1: seq<Byte>, mem': seq<Byte>, h: nat)
    requires Kept(bs, mem, bs', mem1, []) && Kept(bs', mem1, bs', mem', [h]) && !IsLive(bs, h)
    ensures Kept(bs, mem, bs', mem', [])
  {
    forall g: nat | IsLive(bs, g)
      ensures IsLive(bs', g) && bs'[g].size == bs[g].size && BytesOf(bs, mem, g) == BytesOf(bs', mem', g)
    {
      assert IsLive(bs', g);
    }
  }

  /** One attempt of the loop below, at the empty slot i. */
  method StoreAt(pool: MemPool, q: array<nat>, i: nat, data: seq<Byte>) returns (stored: bool)
    requires pool.Valid() && IsQueue(pool.blocks[..], q[..]) && i < q.Length && q[i] == NOBLOCK && data != []
    requires !(pool.FreeBytes() < |data| || pool.HandlesExhausted()) ==> NoneEmpty(q[..], i)
    modifies pool.blocks, pool.memory, pool`path, q
    ensures pool.Valid() && IsQueue(pool.blocks[..], q[..])
    ensures stored <==> |data| <= old(pool.FreeBytes()) && !old(pool.HandlesExhausted())
    ensures Stream(pool.blocks[..], pool.memory[..], q[..])
         == Stream(old(pool.blocks[..]), old(pool.memory[..]), old(q[..])) + if stored then data else []
    ensures Kept(old(pool.blocks[..]), old(pool.memory[..]), pool.blocks[..], pool.memory[..], [])
    ensures Sizes(pool.blocks[..], q[..]) == Sizes(old(pool.blocks[..]), old(q[..])) + if stored then [|data|] else []
    ensures pool.FreeBytes() == old(pool.FreeBytes()) - if stored then |data| else 0
    ensures Spare(pool) == old(Spare(pool)) - if stored then 1 else 0
    ensures stored ==> old(q[q.Length - 1]) == NOBLOCK && (q[q.Length - 1] != NOBLOCK <==> i == q.Length - 1)
    ensures !stored ==> q[..] == old(q[..]) && pool.HandlesExhausted() == old(pool.HandlesExhausted())
  {
    ghost var bs, mem, s := pool.blocks[..], pool.memory[..], q[..];
    var h := AllocFilled(pool, data);
    q[i] := h;
    AllocKeepsQueue(bs, mem, pool.blocks[..], pool.memory[..], s);
    stored := h != NOBLOCK;
    if stored {
      StoreKeepsQueue(bs, pool.blocks[..], pool.memory[..], s, i, h);
      assert q[..] == s[i := h];
    } else {
      assert q[..] == s;
    }
  }

  /** The data branch of uipclient_appcall: store an arriving segment in the first empty slot.
      A failed allocation is retried at the later slots; since it fails there too, no hole appears. */
  method StoreNewData(pool: MemPool, q: array<nat>, data: seq<Byte>) returns (stored: bool, stop: bool)
    requires pool.Valid() && IsQueue(pool.blocks[..], q[..]) && q.Length == NUM_PACKETS && data != []
    modifies pool.blocks, pool.memory, pool`path, q
    ensures pool.Valid() && IsQueue(pool.blocks[..], q[..])
    ensures stored <==>
              old(q[NUM_PACKETS - 1]) == NOBLOCK && |data| <= old(pool.FreeBytes()) && !old(pool.HandlesExhausted())
    ensures Stream(pool.blocks[..], pool.memory[..], q[..])
         == Stream(old(pool.blocks[..]), old(pool.memory[..]), old(q[..])) + if stored then data else []
    ensures Kept(old(pool.blocks[..]), old(pool.memory[..]), pool.blocks[..], pool.memory[..], [])
    ensures RoomOf(pool, q[..]) == if stored then old(RoomOf(pool, q[..])).Filled(|data|) else old(RoomOf(pool, q[..]))
    ensures stop <==> !stored || q[NUM_PACKETS - 1] != NOBLOCK
    ensures !stored ==> q[..] == old(q[..])
  {
    ghost var bs, mem, s := pool.blocks[..], pool.memory[..], q[..];
    ghost var room := RoomOf(pool, s);
    ghost var lacks := pool.FreeBytes() < |data| || pool.HandlesExhausted();
    var i := 0;
    while i < NUM_PACKETS
      invariant 0 <= i <= NUM_PACKETS && q[..] == s && Unstored(pool, bs, mem, s, room)
      invariant lacks == (pool.FreeBytes() < |data| || pool.HandlesExhausted())
      invariant !lacks ==> NoneEmpty(s, i)
    {
      assert q[i] == s[i];
      if q[i] == NOBLOCK {
        stored := TrySlot(pool, q, i, data, bs, mem, s, room);
        if stored {
          return true, i == NUM_PACKETS - 1;
        }
        assert lacks;
      } else {
        NoneEmptyStep(s, i, lacks);
      }
      i := i + 1;
    }
    stored, stop := false, true;
  }

  lemma NoneEmptyStep(s: seq<nat>, i: nat, lacks: bool)
    requires i < |s| && s[i] != NOBLOCK && (!lacks ==> NoneEmpty(s, i))
    ensures !lacks ==> NoneEmpty(s, i + 1)
  {
  }

  /** The first i slots are taken. */
  ghost predicate NoneEmpty(s: seq<nat>, i: nat) { forall j :: 0 <= j < i && j < |s| ==> s[j] != NOBLOCK }

  /** Nothing has been stored since bs and mem: blocks may have moved. */
  ghost predicate Unstored(pool: MemPool, bs: seq<MemBlock>, mem: seq<Byte>, s: seq<nat>, room: Room)
    reads pool, pool.blocks, pool.memory
  {
    && pool.Valid() && IsQueue(pool.blocks[..], s) && Kept(bs, mem, pool.blocks[..], pool.memory[..], [])
    && Stream(pool.blocks[..], pool.memory[..], s) == Stream(bs, mem, s) && RoomOf(pool, s) == room
  }

  /** One attempt, seen from the start of the loop. */
  method TrySlot(pool: MemPool, q: array<nat>, i: nat, data: seq<Byte>,
                 ghost bs: seq<MemBlock>, ghost mem: seq<Byte>, ghost s: seq<nat>, ghost room: Room)
    returns (stored: bool)
    requires i < q.Length == NUM_PACKETS && q[i] == NOBLOCK && data != [] && q[..] == s
    requires Unstored(pool, bs, mem, s, room)
    requires !(pool.FreeBytes() < |data| || pool.HandlesExhausted()) ==> NoneEmpty(s, i)
    modifies pool.blocks, pool.memory, pool`path, q
    ensures stored <==> |data| <= old(pool.FreeBytes()) && !old(pool.HandlesExhausted())
    ensures pool.Valid() && IsQueue(pool.blocks[..], q[..]) && Kept(bs, mem, pool.blocks[..], pool.memory[..], [])
    ensures Stream(pool.blocks[..], pool.memory[..], q[..]) == Stream(bs, mem, s) + if stored then data else []
    ensures RoomOf(pool, q[..]) == if stored then room.Filled(|data|) else room
    ensures stored ==> s[NUM_PACKETS - 1] == NOBLOCK && (q[NUM_PACKETS - 1] != NOBLOCK <==> i == NUM_PACKETS - 1)
    ensures !stored ==>
              q[..] == s && pool.FreeBytes() == old(pool.FreeBytes()) &&
              pool.HandlesExhausted() == old(pool.HandlesExhausted())
  {
    ghost var bs1, mem1 := pool.blocks[..], pool.memory[..];
    stored := StoreAt(pool, q, i, data);
    KeptTransitive(bs, mem, bs1, mem1, pool.blocks[..], pool.memory[..], [], []);
  }

  lemma StoreKeepsQueue(bs: seq<MemBlock>, bs': seq<MemBlock>, mem: seq<Byte>, q: seq<nat>, i: nat, h: nat)
    requires IsQueue(bs, q) && IsQueue(bs', q) && i < |q| && q[i] == NOBLOCK &&
             forall j :: 0 <= j < i ==> q[j] != NOBLOCK
    requires !IsLive(bs, h) && IsLive(bs', h)
    ensures IsQueue(bs', q[i := h]) && Stream(bs', mem, q[i := h]) == Stream(bs', mem, q) + BytesOf(bs', mem, h)
    ensures Sizes(bs', q[i := h]) == Sizes(bs', q) + [bs'[h].size] && q[|q| - 1] == NOBLOCK
  {
    if h in q {
      QueueMembers(bs, q, h);
    }
    QueueStore(bs', q, i, h);
    StreamStore(bs', mem, q, i, h);
    SizesStore(bs', q, i, h);
  }
}
