/**
 From the wire to recv: the engine, the callback's store and the socket's queue together.
*/
module TcpReceiving {
  import opened Basics
  import opened MemoryPool
  import opened SocketBuffers
  import opened Tcp
  import opened TcpEngine
  import opened TcpDelivery

  /** The receive sequence number has moved when the callback finds no room, so the packet it keeps for
      another try is out of sequence then, and its bytes do not come again. */
  lemma KeptPacketIsStale(c: Conn, s: Segment, rtt: Byte, r: Reply)
    requires c.state == Established && Delivered(c, Input(s, rtt)) == s.payload != [] && |s.payload| < 0x10000
    ensures var d := Step(c, Input(s, rtt), r).conn;
            OutOfSequence(d, s) && Delivered(d, Input(s, rtt)) == []
  {
    assert s.seqno == c.rcvNxt;
    Moves(c.rcvNxt, |s.payload|);
    Moves(c.rcvNxt, 1 + |s.payload|);
  }

  lemma Moves(a: Seq32, n: nat)
    requires 0 < n <= 0x10000
    ensures Plus(a, n) != a
  {
  }

  // ---------------------------------------------------------------------------------------------
  // Whole runs, as values
  // ---------------------------------------------------------------------------------------------

  /** An event, or a recv of `size` bytes.  `wanted` is false when no client is attached or the user is
      closing; the rest of the callback is any reply. */
  datatype Moment = Net(h: Happening, wanted: bool) | Read(size: nat)

  /** The connection with what it delivered, and the room for more. */
  datatype Track = Track(w: World, room: Room)

  /** What an event hands to the callback. */
  function Piece(w: World, h: Happening): seq<Byte> { if w.c.Active() then Delivered(w.c, h.e) else [] }

  /** Nothing is handed over, or the store's guard holds for it. */
  predicate Takes(t: Track, m: Moment) {
    m.Net? && Piece(t.w, m.h) != [] ==> m.wanted && t.room.Fits(|Piece(t.w, m.h)|)
  }

  function NextTrack(t: Track, m: Moment): Track {
    match m
    case Net(h, wanted) =>
      var n := |Piece(t.w, h)|;
      Track(Advanced(t.w, h), if n > 0 && Takes(t, m) then t.room.Filled(n) else t.room)
    case Read(size) => t.(room := t.room.Drained(Low16(size)))
  }

  function Along(t: Track, ms: seq<Moment>): Track {
    if ms == [] then t else NextTrack(Along(t, ms[..|ms| - 1]), ms[|ms| - 1])
  }

  function Added(t: Track, m: Moment): seq<Byte> { if m.Net? && Takes(t, m) then Piece(t.w, m.h) else [] }

  /** The bytes that go into the queue in a run. */
  function Taken(t: Track, ms: seq<Moment>): seq<Byte> {
    if ms == [] then []
    else
      var before := ms[..|ms| - 1];
      Taken(t, before) + Added(Along(t, before), ms[|ms| - 1])
  }

  /** Before every event of the run there is room for what it brings. */
  predicate AlwaysRoom(t: Track, ms: seq<Moment>) {
    ms == [] ||
    (var before := ms[..|ms| - 1];
     AlwaysRoom(t, before) && Takes(Along(t, before), ms[|ms| - 1]))
  }

  ghost predicate Comes(p: Peer, w: World, m: Moment) {
    m.Net? && m.h.e.Input? && w.c.Active() ==> Arrives(p, w.c, m.h.e.s, m.h.off, w.at)
  }

  /** Every segment of the run is the peer's. */
  ghost predicate Expected(p: Peer, t: Track, ms: seq<Moment>) {
    forall i :: 0 <= i < |ms| ==> Comes(p, Along(t, ms[..i]).w, ms[i])
  }

  lemma ShorterRun(p: Peer, t: Track, ms: seq<Moment>)
    requires ms != [] && Expected(p, t, ms)
    ensures Expected(p, t, ms[..|ms| - 1]) && Comes(p, Along(t, ms[..|ms| - 1]).w, ms[|ms| - 1])
  {
    var n := |ms| - 1;
    var before := ms[..n];
    forall i | 0 <= i < n
      ensures Comes(p, Along(t, before[..i]).w, before[i])
    {
      assert before[..i] == ms[..i];
    }
  }

  lemma {:induction false} TrackKeepsPosition(p: Peer, t: Track, ms: seq<Moment>)
    requires Position(p, t.w.c, t.w.got, t.w.at) && Expected(p, t, ms)
    ensures var w := Along(t, ms).w; Position(p, w.c, w.got, w.at)
  {
    if ms != [] {
      var before, m := ms[..|ms| - 1], ms[|ms| - 1];
      ShorterRun(p, t, ms);
      TrackKeepsPosition(p, t, before);
      var w := Along(t, before).w;
      if m.Net? && w.c.Active() {
        StepKeepsPosition(p, w.c, m.h.e, m.h.reply, m.h.off, w.got, w.at);
      }
    }
  }

  /** A run stores all it hands over exactly when there always was room. */
  lemma {:induction false} TakenIsAll(t: Track, ms: seq<Moment>)
    requires t.w.got == []
    ensures |Taken(t, ms)| <= |Along(t, ms).w.got|
    ensures Taken(t, ms) == Along(t, ms).w.got <==> AlwaysRoom(t, ms)
  {
    if ms != [] {
      var before, m := ms[..|ms| - 1], ms[|ms| - 1];
      TakenIsAll(t, before);
      var u := Along(t, before);
      GotGrows(u, m);
      SameEnds(Taken(t, before), Added(u, m), u.w.got, if m.Net? then Piece(u.w, m.h) else []);
    }
  }

  lemma GotGrows(u: Track, m: Moment)
    ensures var piece := if m.Net? then Piece(u.w, m.h) else [];
            NextTrack(u, m).w.got == u.w.got + piece && (Added(u, m) == piece || (piece != [] && Added(u, m) == []))
    ensures Takes(u, m) <==> Added(u, m) == if m.Net? then Piece(u.w, m.h) else []
  {
  }

  lemma SameEnds(a: seq<Byte>, x: seq<Byte>, b: seq<Byte>, y: seq<Byte>)
    requires |a| <= |b| && |x| <= |y|
    ensures |a + x| <= |b + y| && (a + x == b + y <==> a == b && x == y)
  {
    if a + x == b + y {
      assert |a| == |b|;
      assert a == (a + x)[..|a|] && b == (b + y)[..|b|] && x == (a + x)[|a|..] && y == (b + y)[|b|..];
    }
  }

  /** End to end, over every run from the opening on: what goes through the queue to the caller of recv is
      all that the peer's stream brought, in order, exactly when the guard of the store held before each
      event; that guard is a matter of the sizes of the pieces and of the reads in between. */
  lemma EndToEnd(p: Peer, c: Conn, room: Room, ms: seq<Moment>)
    requires JustOpened(p, c) && Expected(p, Track(World(c, [], 0), room), ms)
    ensures var t := Track(World(c, [], 0), room);
            var w := Along(t, ms).w;
            && InOrder(p, w)
            && (Taken(t, ms) == w.got <==> AlwaysRoom(t, ms))
            && (AlwaysRoom(t, ms) ==> IsPrefix(Taken(t, ms), p.stream))
  {
    var t := Track(World(c, [], 0), room);
    OpeningPosition(p, c);
    TrackKeepsPosition(p, t, ms);
    PositionInOrder(p, Along(t, ms).w);
    TakenIsAll(t, ms);
  }

  // ---------------------------------------------------------------------------------------------
  // When there is room
  // ---------------------------------------------------------------------------------------------

  function Sum(ns: seq<nat>): nat { if ns == [] then 0 else ns[0] + Sum(ns[1..]) }

  /** Bytes and handles, free and waiting together. */
  function Bytes(r: Room): int { r.bytes + Sum(r.waiting) }

  function Blocks(r: Room): int { r.handles + |r.waiting| }

  lemma {:induction false} SumAppend(a: seq<nat>, n: nat)
    ensures Sum(a + [n]) == Sum(a) + n
  {
    if a != [] {
      assert (a + [n])[1..] == a[1..] + [n];
      SumAppend(a[1..], n);
    }
  }

  lemma {:induction false} DrainedKeepsRoom(r: Room, n: nat)
    ensures Bytes(r.Drained(n)) == Bytes(r) && Blocks(r.Drained(n)) == Blocks(r)
    ensures r.Drained(n).bytes == r.bytes + Min(n, Sum(r.waiting))
    ensures n >= Sum(r.waiting) && AllPositive(r.waiting) ==> r.Drained(n).waiting == []
    decreases |r.waiting|
  {
    if n != 0 && r.waiting != [] {
      var first := r.waiting[0];
      if first <= n {
        DrainedKeepsRoom(Room(r.waiting[1..], r.bytes + first, r.handles + 1), n - first);
      } else {
        var cut := [first - n] + r.waiting[1..];
        assert cut[1..] == r.waiting[1..];
      }
    }
  }

  predicate AllPositive(ns: seq<nat>) { forall i :: 0 <= i < |ns| ==> ns[i] > 0 }

  /** No run loses room: what is free and what waits add up to the same. */
  lemma {:induction false} RoomIsConserved(t: Track, ms: seq<Moment>)
    ensures Bytes(Along(t, ms).room) == Bytes(t.room) && Blocks(Along(t, ms).room) == Blocks(t.room)
  {
    if ms != [] {
      var u, m := Along(t, ms[..|ms| - 1]), ms[|ms| - 1];
      RoomIsConserved(t, ms[..|ms| - 1]);
      if m.Read? {
        DrainedKeepsRoom(u.room, Low16(m.size));
      } else {
        SumAppend(u.room.waiting, |Piece(u.w, m.h)|);
      }
    }
  }

  /** A user who takes every piece out before the next comes. */
  ghost predicate Eager(r: Room, ms: seq<Moment>) {
    forall i :: 0 <= i < |ms| ==> EagerAt(r, ms[i], Follower(ms, i))
  }

  function Follower(ms: seq<Moment>, i: nat): Option<Moment> {
    if i + 1 < |ms| then Some(ms[i + 1]) else None
  }

  predicate EagerAt(r: Room, m: Moment, after: Option<Moment>) {
    m.Net? && m.h.e.Input? ==>
      var n := |m.h.e.s.payload|;
      m.wanted && n <= r.bytes && (after.Some? ==> after.value.Read? && n <= Low16(after.value.size))
  }

  /** The room such a user leaves: all of it, or all but the last piece. */
  predicate AlmostAll(r: Room, room: Room, last: Option<Moment>) {
    room == r ||
    (last.Some? && last.value.Net? && last.value.h.e.Input? && room == r.Filled(|last.value.h.e.s.payload|))
  }

  function Last(ms: seq<Moment>): Option<Moment> { if ms == [] then None else Some(ms[|ms| - 1]) }

  lemma PieceOfSegment(w: World, h: Happening)
    ensures Piece(w, h) == [] || (h.e.Input? && Piece(w, h) == h.e.s.payload)
  {
  }

  lemma DrainedOne(r: Room, n: nat, size: nat)
    requires r.waiting == [] && n <= size
    ensures n > 0 ==> r.Filled(n).Drained(size) == r
    ensures r.Drained(size) == r
  {
    assert r.Filled(n).waiting == [n] && [n][1..] == [];
  }

  lemma EagerStep(r: Room, u: Track, last: Option<Moment>, m: Moment)
    requires r.waiting == [] && 0 < r.handles && AlmostAll(r, u.room, last) && EagerAt(r, m, None)
    requires last.Some? ==> EagerAt(r, last.value, Some(m))
    requires last.Some? && last.value.Net? && last.value.h.e.Input? && last.value.h.e.s.payload == [] ==> u.room == r
    ensures Takes(u, m) && AlmostAll(r, NextTrack(u, m).room, Some(m))
    ensures m.Net? && m.h.e.Input? && m.h.e.s.payload == [] ==> NextTrack(u, m).room == r
  {
    if m.Read? {
      DrainedOne(r, if u.room == r then 0 else |last.value.h.e.s.payload|, Low16(m.size));
    } else {
      assert u.room == r;
      PieceOfSegment(u.w, m.h);
    }
  }

  lemma EagerBefore(r: Room, ms: seq<Moment>)
    requires ms != [] && Eager(r, ms)
    ensures var n := |ms| - 1;
            && Eager(r, ms[..n]) && EagerAt(r, ms[n], None)
            && (0 < n ==> Last(ms[..n]) == Some(ms[n - 1]) && EagerAt(r, ms[n - 1], Some(ms[n])))
  {
    var n := |ms| - 1;
    var before := ms[..n];
    forall i | 0 <= i < n
      ensures EagerAt(r, before[i], Follower(before, i))
    {
      assert EagerAt(r, ms[i], Follower(ms, i));
    }
    assert EagerAt(r, ms[n], Follower(ms, n));
    assert 0 < n ==> EagerAt(r, ms[n - 1], Follower(ms, n - 1));
  }

  /** For him no piece is ever refused, however long the run. */
  lemma {:induction false} EagerLosesNothing(t: Track, ms: seq<Moment>)
    requires Eager(t.room, ms) && t.room.waiting == [] && 0 < t.room.handles
    ensures AlwaysRoom(t, ms) && AlmostAll(t.room, Along(t, ms).room, Last(ms))
    ensures Last(ms).Some? && Last(ms).value.Net? && Last(ms).value.h.e.Input? && Last(ms).value.h.e.s.payload == [] ==>
              Along(t, ms).room == t.room
  {
    if ms != [] {
      var before, m := ms[..|ms| - 1], ms[|ms| - 1];
      EagerBefore(t.room, ms);
      EagerLosesNothing(t, before);
      EagerStep(t.room, Along(t, before), Last(before), m);
    }
  }

  lemma HeadOfPrefix(a: seq<Byte>, b: seq<Byte>, s: seq<Byte>)
    ensures IsPrefix(a + b, s) ==> IsPrefix(a, s)
    ensures [] + a == a
  {
    if IsPrefix(a + b, s) {
      assert a == (a + b)[..|a|];
    }
  }

  /** What the store makes of a piece. */
  predicate Keeps(r: Room, wanted: bool, n: nat) { wanted && n > 0 && r.Fits(n) }

  ghost predicate Stepped(w: World, h: Happening, w': World, piece: seq<Byte>) {
    w' == Advanced(w, h) && piece == Piece(w, h)
  }

  lemma HandledTrack(t: Track, h: Happening, wanted: bool, w': World, piece: seq<Byte>, room': Room)
    requires Stepped(t.w, h, w', piece)
    requires room' == if Keeps(t.room, wanted, |piece|) then t.room.Filled(|piece|) else t.room
    ensures Track(w', room') == NextTrack(t, Net(h, wanted))
    ensures Added(t, Net(h, wanted)) == if Keeps(t.room, wanted, |piece|) then piece else []
  {
  }

  // ---------------------------------------------------------------------------------------------
  // The objects
  // ---------------------------------------------------------------------------------------------

  class Receiver {
    const engine: Engine
    const pool: MemPool
    const packetsIn: array<nat>
    ghost const peer: Peer
    /** The delivery at the boundary of the engine. */
    ghost var world: World
    /** Bytes given to the user so far. */
    ghost var read: seq<Byte>

    ghost predicate Valid()
      reads this, engine, pool, pool.blocks, packetsIn
    {
      Standing() && QueueValid()
    }

    ghost predicate Standing()
      reads this`world, engine
    {
      engine.Record() == world.c && Position(peer, world.c, world.got, world.at)
    }

    ghost predicate QueueValid()
      reads pool, pool.blocks, packetsIn
    {
      pool.Valid() && packetsIn.Length == NUM_PACKETS && IsQueue(pool.blocks[..], packetsIn[..])
    }

    ghost function Waiting(): seq<Byte>
      reads pool, pool.blocks, pool.memory, packetsIn
    {
      Stream(pool.blocks[..], pool.memory[..], packetsIn[..])
    }

    ghost function Left(): Room
      reads pool, pool.blocks, packetsIn
    {
      RoomOf(pool, packetsIn[..])
    }

    constructor (c: Conn, p: MemPool, ghost from: Peer)
      requires JustOpened(from, c) && p.Valid()
      ensures Valid() && world == World(c, [], 0) && read == [] && Waiting() == [] && pool == p && peer == from
      ensures fresh(engine) && fresh(packetsIn)
    {
      engine := new Engine(c);
      pool := p;
      packetsIn := new nat[NUM_PACKETS](_ => NOBLOCK);
      peer := from;
      world, read := World(c, [], 0), [];
      OpeningPosition(from, c);
    }

    /** One event: the engine's step, with the store of what it hands over. */
    method Handle(e: Event, ghost off: int, reply: Reply, wanted: bool)
      requires Valid() && world.c.Active() && Comes(peer, world, Net(Happening(e, off, reply), wanted))
      modifies this`world, engine, pool.blocks, pool.memory, pool`path, packetsIn
      ensures var t, m := Track(old(world), old(Left())), Net(Happening(e, off, reply), wanted);
              && Valid() && Track(world, Left()) == NextTrack(t, m)
              && read + Waiting() == old(read + Waiting()) + Added(t, m)
    {
      ghost var t, h, waiting := Track(world, Left()), Happening(e, off, reply), Waiting();
      var piece := Accept(e, off, reply, wanted);
      HandledTrack(t, h, wanted, world, piece, Left());
      AppendTwice(read, waiting, Added(t, Net(h, wanted)));
    }

    /** The engine and then the store. */
    method Accept(e: Event, ghost off: int, reply: Reply, wanted: bool) returns (piece: seq<Byte>)
      requires Valid() && world.c.Active() && (e.Input? ==> Arrives(peer, world.c, e.s, off, world.at))
      modifies this`world, engine, pool.blocks, pool.memory, pool`path, packetsIn
      ensures Valid() && Stepped(old(world), Happening(e, off, reply), world, piece)
      ensures Left() == if Keeps(old(Left()), wanted, |piece|) then old(Left()).Filled(|piece|) else old(Left())
      ensures Waiting() == old(Waiting()) + if Keeps(old(Left()), wanted, |piece|) then piece else []
    {
      piece := EngineStep(e, off, reply);
      Settle(piece, wanted);
    }

    /** The engine's part, and the piece it hands over. */
    method EngineStep(e: Event, ghost off: int, reply: Reply) returns (piece: seq<Byte>)
      requires Standing() && world.c.Active() && (e.Input? ==> Arrives(peer, world.c, e.s, off, world.at))
      modifies this`world, engine
      ensures Standing() && Stepped(old(world), Happening(e, off, reply), world, piece)
    {
      piece := Delivered(engine.Record(), e);
      StepKeepsPosition(peer, world.c, e, reply, off, world.got, world.at);
      world := Advanced(world, Happening(e, off, reply));
      var emit := engine.Process(e, _ => reply);
    }

    /** The callback's store: the piece goes into the queue exactly when it is wanted and fits. */
    method Settle(piece: seq<Byte>, wanted: bool)
      requires QueueValid()
      modifies pool.blocks, pool.memory, pool`path, packetsIn
      ensures QueueValid()
      ensures Left() == if Keeps(old(Left()), wanted, |piece|) then old(Left()).Filled(|piece|) else old(Left())
      ensures Waiting() == old(Waiting()) + if Keeps(old(Left()), wanted, |piece|) then piece else []
    {
      if wanted && piece != [] {
        FitsIs(pool, packetsIn[..], |piece|);
        var stored, stop := StoreNewData(pool, packetsIn, piece);
      }
    }

    /** recv: the user gets the next of the bytes that wait. */
    method Take(buf: array<Byte>, size: nat, closing: bool) returns (n: nat, restart: bool, ghost moved: seq<Byte>)
      requires Valid() && size <= buf.Length && buf != pool.memory
      modifies this`read, pool.blocks, pool`path, packetsIn, buf
      ensures Valid() && read == old(read) + moved && read + Waiting() == old(read + Waiting())
      ensures Left() == old(Left()).Drained(Low16(size)) && |moved| == Min(Low16(size), |old(Waiting())|)
      ensures Received(old(buf[..]), buf[..], size - Low16(size), moved)
      ensures restart <==> engine.stopped && !closing && old(GivesBack(pool, packetsIn, Low16(size)))
    {
      ghost var was := read;
      n, restart, moved := Recv(pool, packetsIn, buf, size, engine.stopped, closing);
      AppendTwice(was, moved, Waiting());
      read := read + moved;
    }

    /** From the opening on, what the user has and what waits is all that was handed over exactly when there
        always was room, and then what he has is the beginning of the peer's stream. */
    method ServeAll(ms: seq<Moment>, buf: array<Byte>)
      requires Valid() && Expected(peer, Track(world, Left()), ms) && JustOpened(peer, world.c)
      requires world.got == [] && world.at == 0 && read + Waiting() == []
      requires buf != pool.memory && forall i :: 0 <= i < |ms| && ms[i].Read? ==> ms[i].size <= buf.Length
      modifies this`world, this`read, engine, pool.blocks, pool.memory, pool`path, packetsIn, buf
      ensures var t := Track(old(world), old(Left()));
              && Valid() && Track(world, Left()) == Along(t, ms) && InOrder(peer, world)
              && (read + Waiting() == world.got <==> AlwaysRoom(t, ms))
              && (AlwaysRoom(t, ms) ==> IsPrefix(read, peer.stream))
    {
      ghost var t := Track(world, Left());
      Serve(ms, buf);
      EndToEnd(peer, t.w.c, t.room, ms);
      HeadOfPrefix(Taken(t, ms), [], peer.stream);
      HeadOfPrefix(read, Waiting(), peer.stream);
    }

    /** A whole run does what Along and Taken say. */
    method Serve(ms: seq<Moment>, buf: array<Byte>)
      requires Valid() && Expected(peer, Track(world, Left()), ms)
      requires buf != pool.memory && forall i :: 0 <= i < |ms| && ms[i].Read? ==> ms[i].size <= buf.Length
      modifies this`world, this`read, engine, pool.blocks, pool.memory, pool`path, packetsIn, buf
      ensures Valid() && Track(world, Left()) == Along(Track(old(world), old(Left())), ms)
      ensures read + Waiting() == old(read + Waiting()) + Taken(Track(old(world), old(Left())), ms)
    {
      ghost var t, had := Track(world, Left()), read + Waiting();
      for k := 0 to |ms|
        invariant Valid() && Track(world, Left()) == Along(t, ms[..k])
        invariant read + Waiting() == had + Taken(t, ms[..k])
      {
        assert ms[..k + 1][..k] == ms[..k];
        ghost var now := read + Waiting();
        Pass(ms[k], buf);
        AppendTwice(had, Taken(t, ms[..k]), Added(Along(t, ms[..k]), ms[k]));
      }
      assert ms[..|ms|] == ms;
    }

    /** A closed slot matches no segment and is not served by the timer. */
    method Pass(m: Moment, buf: array<Byte>)
      requires Valid() && Comes(peer, world, m)
      requires buf != pool.memory && (m.Read? ==> m.size <= buf.Length)
      modifies this`world, this`read, engine, pool.blocks, pool.memory, pool`path, packetsIn, buf
      ensures Valid() && Track(world, Left()) == NextTrack(Track(old(world), old(Left())), m)
      ensures read + Waiting() == old(read + Waiting()) + Added(Track(old(world), old(Left())), m)
    {
      match m
      case Read(size) => var n, restart, moved := Take(buf, size, false);
      case Net(h, wanted) =>
        if engine.Record().Active() {
          Handle(h.e, h.off, h.reply, wanted);
        }
    }
  }
}
