/**
 The blocks a TCP client has to send: packets_out with its fill position, what the callback does to
 them, and the write path that fills them.
*/
module TcpBlocks {
  import opened Basics

  const NUMPACKETS := 5

  /** A block of packets_out: the bytes written to it and the size it has in the pool. */
  datatype Block = Block(bytes: seq<Byte>, size: nat)
  {
    predicate Full() { |bytes| == size }
  }

  /** The part of uip_userdata_t the callback decides on.  Blocks before the last are always full,
      and the last one holds out_pos bytes. */
  datatype Client = Client(closing: bool, restart: bool, outs: seq<Block>)
  {
    ghost predicate Valid() { Shaped(outs) && Packed(outs) }
  }

  /** No more blocks than slots, and no block with more bytes than its size. */
  ghost predicate Shaped(outs: seq<Block>) {
    |outs| <= NUMPACKETS && forall i :: 0 <= i < |outs| ==> |outs[i].bytes| <= outs[i].size
  }

  /** All blocks but the last are full. */
  ghost predicate Packed(outs: seq<Block>) { forall i :: 0 <= i < |outs| - 1 ==> outs[i].Full() }

  /** UIP_SOCKET_DATALEN */
  const DATALEN: nat := 512

  /** _eatBlock */
  function Eaten(k: Client): Client { if k.outs == [] then k else k.(outs := k.outs[1..]) }

  /** out_pos while the block is the last one, and the block's size otherwise. */
  function SendLength(k: Client): nat
    requires k.outs != []
  {
    if |k.outs| == 1 then |k.outs[0].bytes| else k.outs[0].size
  }

  /** The last block is cut to what was written into it before it is sent. */
  function Sealed(k: Client): Client
    requires k.outs != []
  {
    var b := k.outs[0];
    if |k.outs| == 1 && |b.bytes| > 0 then k.(outs := [b.(size := |b.bytes|)]) else k
  }

  lemma SealedValid(k: Client)
    requires k.Valid() && k.outs != []
    ensures Sealed(k).Valid() && Sealed(k).outs != []
    ensures SendLength(k) == |k.outs[0].bytes| && Sealed(k).outs[0].bytes == k.outs[0].bytes
    ensures SendLength(k) > 0 ==> Sealed(k).outs[0].Full()
    ensures k.outs[0].Full() ==> Sealed(k) == k
  {
    if k.outs[0].Full() && |k.outs| == 1 {
      assert k.outs == [k.outs[0]];
    }
  }

  lemma EatenValid(k: Client)
    requires k.Valid()
    ensures Eaten(k).Valid()
  {
  }

  function Content(outs: seq<Block>): seq<Byte> {
    if outs == [] then [] else outs[0].bytes + Content(outs[1..])
  }

  // ---------------------------------------------------------------------------------------------
  // Writing
  // ---------------------------------------------------------------------------------------------

  /** The client after n bytes of data were written: they stand behind what was there, and a full
      first block is not touched. */
  ghost predicate Written(k: Client, k': Client, data: seq<Byte>, n: nat) {
    && k'.Valid() && k'.closing == k.closing && k'.restart == k.restart && n <= |data|
    && Content(k'.outs) == Content(k.outs) + data[..n]
    && (k.outs != [] && k.outs[0].Full() ==> k'.outs != [] && k'.outs[0] == k.outs[0])
  }

  lemma {:induction false} ContentAppend(a: seq<Block>, b: Block)
    ensures Content(a + [b]) == Content(a) + b.bytes
  {
    if a == [] {
      assert [b][1..] == [];
    } else {
      assert (a + [b])[1..] == a[1..] + [b];
      ContentAppend(a[1..], b);
    }
  }

  // The length that reaches writePacket is a 16-bit variable, so a pass with 65536 bytes or more to go
  // can leave a block unfilled and go on to the next one.

  function Room(outs: seq<Block>): nat
    requires outs != []
  {
    var b := outs[|outs| - 1];
    if |b.bytes| <= b.size then b.size - |b.bytes| else 0
  }

  /** writePacket at out_pos of the last block: the low 16 bits of the length, clipped to the block. */
  function Fill(outs: seq<Block>, rest: seq<Byte>): (r: (seq<Block>, nat))
    requires outs != [] && Shaped(outs)
    ensures Shaped(r.0) && |r.0| == |outs|
    ensures r.1 == Min(Room(outs), Low16(|rest|)) <= |rest|
  {
    var i := |outs| - 1;
    var n := Min(Room(outs), Low16(|rest|));
    (outs[i := outs[i].(bytes := outs[i].bytes + rest[..n])], n)
  }

  /** It leaves the other blocks alone, and fills the last one when it can. */
  lemma FillShape(outs: seq<Block>, rest: seq<Byte>)
    requires outs != [] && Shaped(outs)
    ensures var r, i := Fill(outs, rest), |outs| - 1;
            r.0[..i] == outs[..i] && (r.0[i].Full() <==> r.1 == Room(outs)) && (outs[i].Full() ==> r.0[i] == outs[i])
  {
    var i := |outs| - 1;
    if outs[i].Full() {
      assert rest[..0] == [] && outs[i].bytes + [] == outs[i].bytes;
    }
  }

  lemma LastGrows(outs: seq<Block>, b: Block, more: seq<Byte>)
    requires outs != [] && b.bytes == outs[|outs| - 1].bytes + more
    ensures Content(outs[|outs| - 1 := b]) == Content(outs) + more
  {
    var i := |outs| - 1;
    assert outs == outs[..i] + [outs[i]] && outs[i := b] == outs[..i] + [b];
    ContentAppend(outs[..i], outs[i]);
    ContentAppend(outs[..i], b);
    AppendTwice(Content(outs[..i]), outs[i].bytes, more);
  }

  function NewPacket(outs: seq<Block>): (r: seq<Block>)
    requires Shaped(outs) && |outs| < NUMPACKETS
    ensures Shaped(r) && |r| == |outs| + 1
  {
    outs + [Block([], DATALEN)]
  }

  /** One pass of _write between two calls of the stack: fill the current block, then take further
      blocks from the pool, of which `grants` are to be had. */
  function Pass(outs: seq<Block>, data: seq<Byte>, grants: nat): (r: (seq<Block>, nat))
    requires outs != [] && Shaped(outs)
    ensures Shaped(r.0) && |outs| <= |r.0| && r.1 <= |data|
    decreases grants
  {
    var f := Fill(outs, data);
    if f.1 == |data| || |outs| == NUMPACKETS || grants == 0 then f
    else
      var p := Pass(NewPacket(f.0), data[f.1..], grants - 1);
      (p.0, f.1 + p.1)
  }

  function WriteOnce(k: Client, data: seq<Byte>, grants: nat): (r: (Client, nat))
    requires Shaped(k.outs)
  {
    if k.outs == [] && grants == 0 then (k, 0)
    else
      var p := if k.outs == [] then Pass(NewPacket([]), data, grants - 1) else Pass(k.outs, data, grants);
      (k.(outs := p.0), p.1)
  }

  /** With `remain` bytes to go, `room` in the current block and `more` blocks to be had, the pass goes
      on from a block it did not fill. */
  predicate Skips(remain: nat, room: nat, more: nat)
    decreases more
  {
    more > 0 && if Low16(remain) < room then remain >= 0x10000 else Skips(remain - room, DATALEN, more - 1)
  }

  /** The same for a client about to write. */
  predicate LeavesGap(k: Client, data: seq<Byte>, grants: nat) {
    if k.outs == [] then grants > 0 && Skips(|data|, DATALEN, Min(grants - 1, NUMPACKETS - 1))
    else |k.outs| < NUMPACKETS && Skips(|data|, Room(k.outs), Min(grants, NUMPACKETS - |k.outs|))
  }

  /** No write of less than 65536 bytes leaves a gap. */
  lemma {:induction false} ShortWritesSkipNothing(remain: nat, room: nat, more: nat)
    requires remain < 0x10000
    ensures !Skips(remain, room, more)
    decreases more
  {
    if more > 0 && Low16(remain) >= room {
      ShortWritesSkipNothing(remain - room, DATALEN, more - 1);
    }
  }

  /** r holds what outs held and the first n bytes of the data. */
  ghost predicate Appended(outs: seq<Block>, data: seq<Byte>, r: seq<Block>, n: nat) {
    n <= |data| && Content(r) == Content(outs) + data[..n]
  }

  /** writePacket appends the bytes it takes. */
  lemma FillAppends(outs: seq<Block>, data: seq<Byte>)
    requires outs != [] && Shaped(outs)
    ensures Appended(outs, data, Fill(outs, data).0, Fill(outs, data).1)
  {
    var r, i := Fill(outs, data), |outs| - 1;
    LastGrows(outs, r.0[i], data[..r.1]);
  }

  lemma AppendedOn(outs: seq<Block>, data: seq<Byte>, f: seq<Block>, n: nat, b: Block, r: seq<Block>, m: nat)
    requires Appended(outs, data, f, n) && b.bytes == [] && Appended(f + [b], data[n..], r, m)
    ensures Appended(outs, data, r, n + m)
  {
    ContentAppend(f, b);
    assert Content(f) + [] == Content(f);
    TakeOn(Content(outs), data, n, m);
  }

  /** A pass appends a prefix of the data to the bytes written. */
  lemma {:induction false} PassAppends(outs: seq<Block>, data: seq<Byte>, grants: nat)
    requires outs != [] && Shaped(outs)
    ensures Appended(outs, data, Pass(outs, data, grants).0, Pass(outs, data, grants).1)
    decreases grants
  {
    var f := Fill(outs, data);
    FillAppends(outs, data);
    PassStep(outs, data, grants);
    if !(f.1 == |data| || |outs| == NUMPACKETS || grants == 0) {
      var next, rest := NewPacket(f.0), data[f.1..];
      PassAppends(next, rest, grants - 1);
      var p := Pass(next, rest, grants - 1);
      AppendedOn(outs, data, f.0, f.1, Block([], DATALEN), p.0, p.1);
    }
  }

  /** It leaves all blocks but the current one alone, and that one too when it is full. */
  lemma {:induction false} PassKeepsFront(outs: seq<Block>, data: seq<Byte>, grants: nat)
    requires outs != [] && Shaped(outs)
    ensures var r, i := Pass(outs, data, grants).0, |outs| - 1;
            r[..i] == outs[..i] && (outs[i].Full() ==> r[i] == outs[i])
    decreases grants
  {
    var f := Fill(outs, data);
    FillShape(outs, data);
    PassStep(outs, data, grants);
    if !(f.1 == |data| || |outs| == NUMPACKETS || grants == 0) {
      var next, rest := NewPacket(f.0), data[f.1..];
      PassKeepsFront(next, rest, grants - 1);
      assert next[..|f.0|] == f.0;
      PrefixOfPrefix(Pass(next, rest, grants - 1).0, f.0, outs);
    }
  }

  lemma PrefixOfPrefix(r: seq<Block>, f: seq<Block>, outs: seq<Block>)
    requires 0 < |f| == |outs| <= |r| && r[..|f|] == f && f[..|outs| - 1] == outs[..|outs| - 1]
    ensures r[..|outs| - 1] == outs[..|outs| - 1] && r[|outs| - 1] == f[|outs| - 1]
  {
    assert r[..|f|][..|outs| - 1] == r[..|outs| - 1] && r[|outs| - 1] == r[..|f|][|outs| - 1];
  }

  lemma TakeOn(c: seq<Byte>, data: seq<Byte>, n: nat, m: nat)
    requires n + m <= |data|
    ensures (c + data[..n]) + data[n..][..m] == c + data[..n + m]
  {
    assert data[..n] + data[n..][..m] == data[..n + m];
  }

  /** A block left with room stays so when the pass goes on behind it. */
  lemma PassKeepsGap(f: seq<Block>, rest: seq<Byte>, grants: nat)
    requires f != [] && Shaped(f) && |f| < NUMPACKETS && !f[|f| - 1].Full()
    ensures !Packed(Pass(NewPacket(f), rest, grants).0)
  {
    var next := NewPacket(f);
    PassKeepsFront(next, rest, grants);
    assert next[..|f|] == f;
    GapStays(f, next, Pass(next, rest, grants).0);
  }

  /** The blocks are packed after a pass exactly when it skipped nothing. */
  lemma {:induction false} PassPacks(outs: seq<Block>, data: seq<Byte>, grants: nat, more: nat)
    requires outs != [] && Shaped(outs) && Packed(outs) && more == Min(grants, NUMPACKETS - |outs|)
    ensures Packed(Pass(outs, data, grants).0) <==> !Skips(|data|, Room(outs), more)
    decreases grants
  {
    var f := Fill(outs, data);
    FillShape(outs, data);
    FilledStaysPacked(outs, f.0);
    if f.1 == |data| {
      ShortWritesSkipNothing(|data|, Room(outs), more);
    } else if more > 0 {
      var next, rest := NewPacket(f.0), data[f.1..];
      SkipsStep(|data|, Room(outs), more, f.1);
      PassStep(outs, data, grants);
      if f.1 == Room(outs) {
        AppendedStaysPacked(f.0, next);
        assert Room(next) == DATALEN && |rest| == |data| - Room(outs);
        PassPacks(next, rest, grants - 1, more - 1);
      } else {
        PassKeepsGap(f.0, rest, grants - 1);
      }
    }
  }

  lemma SkipsStep(remain: nat, room: nat, more: nat, n: nat)
    requires more > 0 && n == Min(room, Low16(remain)) < remain
    ensures if n == room then Skips(remain, room, more) == Skips(remain - room, DATALEN, more - 1)
            else Skips(remain, room, more)
  {
  }

  lemma PassStep(outs: seq<Block>, data: seq<Byte>, grants: nat)
    requires outs != [] && Shaped(outs)
    ensures var f := Fill(outs, data);
            if f.1 == |data| || |outs| == NUMPACKETS || grants == 0 then Pass(outs, data, grants) == f
            else var p := Pass(NewPacket(f.0), data[f.1..], grants - 1); Pass(outs, data, grants) == (p.0, f.1 + p.1)
  {
  }

  /** A block that was not filled stays so behind its successor. */
  lemma GapStays(f: seq<Block>, next: seq<Block>, p: seq<Block>)
    requires 0 < |f| && |next| == |f| + 1 <= |p| && p[..|f|] == next[..|f|] == f && !f[|f| - 1].Full()
    ensures !Packed(p)
  {
    assert p[|f| - 1] == p[..|f|][|f| - 1];
  }

  lemma FilledStaysPacked(outs: seq<Block>, f: seq<Block>)
    requires 0 < |outs| == |f| && Packed(outs) && f[..|outs| - 1] == outs[..|outs| - 1]
    ensures Packed(f)
  {
    forall i | 0 <= i < |f| - 1
      ensures f[i].Full()
    {
      assert f[i] == f[..|outs| - 1][i] == outs[..|outs| - 1][i];
    }
  }

  lemma AppendedStaysPacked(f: seq<Block>, next: seq<Block>)
    requires 0 < |f| && |next| == |f| + 1 && next[..|f|] == f && Packed(f) && f[|f| - 1].Full()
    ensures Packed(next)
  {
    forall i | 0 <= i < |next| - 1
      ensures next[i].Full()
    {
      assert next[i] == next[..|f|][i];
    }
  }

  /** A write does what a writer expects exactly when it leaves no gap. */
  lemma WrittenUnlessGap(k: Client, data: seq<Byte>, grants: nat)
    requires k.Valid()
    ensures var r := WriteOnce(k, data, grants);
            Written(k, r.0, data, r.1) <==> !LeavesGap(k, data, grants)
  {
    if k.outs == [] && grants == 0 {
      assert data[..0] == [];
    } else {
      var outs := if k.outs == [] then NewPacket([]) else k.outs;
      var left := if k.outs == [] then grants - 1 else grants;
      PassAppends(outs, data, left);
      PassKeepsFront(outs, data, left);
      PassPacks(outs, data, left, Min(left, NUMPACKETS - |outs|));
      var r := Pass(outs, data, left);
      if |outs| > 1 {
        assert r.0[0] == r.0[..|outs| - 1][0] == outs[..|outs| - 1][0];
      }
    }
  }

  /** The failing input: 65536 bytes to an idle client.  No byte is written, yet all five blocks are
      queued, and the callback offers the first one as 512 bytes. */
  lemma LongWriteLeavesGaps(data: seq<Byte>)
    requires |data| == 0x10000
    ensures var r := WriteOnce(Client(false, false, []), data, NUMPACKETS);
            r.1 == 0 && |r.0.outs| == NUMPACKETS && Content(r.0.outs) == [] && SendLength(r.0) == DATALEN
  {
    NothingWritten(NewPacket([]), data, 4);
  }

  /** With 65536 bytes to go the pass only takes blocks. */
  lemma {:induction false} NothingWritten(outs: seq<Block>, data: seq<Byte>, grants: nat)
    requires outs != [] && Shaped(outs) && |outs| + grants <= NUMPACKETS && |data| == 0x10000
    ensures var r := Pass(outs, data, grants);
            r.1 == 0 && |r.0| == |outs| + grants && r.0[0] == outs[0] && Content(r.0) == Content(outs)
    decreases grants
  {
    if grants == 0 {
      EmptyFill(outs, data);
    } else {
      EmptyPass(outs, data, grants);
      NothingWritten(NewPacket(outs), data, grants - 1);
      ContentAppend(outs, Block([], DATALEN));
    }
  }

  lemma EmptyPass(outs: seq<Block>, data: seq<Byte>, grants: nat)
    requires outs != [] && Shaped(outs) && |outs| < NUMPACKETS && |data| == 0x10000 && grants > 0
    ensures Pass(outs, data, grants) == Pass(NewPacket(outs), data, grants - 1)
  {
    EmptyFill(outs, data);
    PassStep(outs, data, grants);
    assert data[0..] == data;
  }

  /** With 65536 bytes to go nothing is written. */
  lemma EmptyFill(outs: seq<Block>, data: seq<Byte>)
    requires outs != [] && Shaped(outs) && |data| == 0x10000
    ensures Fill(outs, data) == (outs, 0)
  {
    var i := |outs| - 1;
    assert outs[i].bytes + data[..0] == outs[i].bytes;
    assert Fill(outs, data).0 == outs;
  }

  /** _write: one pass. */
  method WritePass(k: Client, data: seq<Byte>, grants: nat) returns (k': Client, n: nat)
    requires k.Valid()
    ensures (k', n) == WriteOnce(k, data, grants)
    ensures Written(k, k', data, n) <==> !LeavesGap(k, data, grants)
    ensures |data| < 0x10000 ==> Written(k, k', data, n)
    ensures n < |data| ==> |k'.outs| == NUMPACKETS || |k'.outs| == |k.outs| + grants
  {
    WrittenUnlessGap(k, data, grants);
    if |data| < 0x10000 {
      NoGapBelow(k, data, grants);
    }
    if k.outs == [] && grants == 0 {
      return k, 0;
    }
    var outs, left := k.outs, grants;
    if outs == [] {
      outs, left := NewPacket(outs), left - 1;
    }
    outs, n := PassLoop(outs, data, left);
    k' := k.(outs := outs);
  }

  /** The goto loop. */
  method PassLoop(outs0: seq<Block>, data: seq<Byte>, grants: nat) returns (outs: seq<Block>, n: nat)
    requires outs0 != [] && Shaped(outs0)
    ensures (outs, n) == Pass(outs0, data, grants)
    ensures n < |data| ==> |outs| == NUMPACKETS || |outs| == |outs0| + grants
  {
    outs, n := outs0, 0;
    var left, rest := grants, data;
    ghost var goal := Pass(outs0, data, grants);
    while true
      invariant outs != [] && Shaped(outs) && left >= 0 && |outs| + left == |outs0| + grants && n + |rest| == |data|
      invariant GoesOn(outs, rest, left, n, goal)
      decreases left
    {
      GoesOnStep(outs, rest, left, n, goal);
      var f := Fill(outs, rest);
      outs, n, rest := f.0, n + f.1, rest[f.1..];
      if rest == [] || |outs| == NUMPACKETS || left == 0 {
        break;
      }
      outs, left := NewPacket(outs), left - 1;
    }
  }

  /** From here on the pass comes to the goal. */
  ghost predicate GoesOn(outs: seq<Block>, rest: seq<Byte>, left: nat, n: nat, goal: (seq<Block>, nat))
    requires outs != [] && Shaped(outs)
  {
    Pass(outs, rest, left).0 == goal.0 && n + Pass(outs, rest, left).1 == goal.1
  }

  lemma GoesOnStep(outs: seq<Block>, rest: seq<Byte>, left: nat, n: nat, goal: (seq<Block>, nat))
    requires outs != [] && Shaped(outs) && GoesOn(outs, rest, left, n, goal)
    ensures var f := Fill(outs, rest);
            if f.1 == |rest| || |outs| == NUMPACKETS || left == 0 then goal == (f.0, n + f.1)
            else GoesOn(NewPacket(f.0), rest[f.1..], left - 1, n + f.1, goal)
  {
    PassStep(outs, rest, left);
  }

  lemma NoGapBelow(k: Client, data: seq<Byte>, grants: nat)
    requires k.Valid() && |data| < 0x10000
    ensures !LeavesGap(k, data, grants)
  {
    if k.outs == [] {
      if grants > 0 {
        ShortWritesSkipNothing(|data|, DATALEN, Min(grants - 1, NUMPACKETS - 1));
      }
    } else {
      ShortWritesSkipNothing(|data|, Room(k.outs), Min(grants, NUMPACKETS - |k.outs|));
    }
  }
}
