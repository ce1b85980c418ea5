/**
 The receiving side of a UDP socket over the pool: one datagram being read and one that waits.
*/
module UdpBuffers {
  import opened Basics
  import opened MemoryPool
  import opened SocketBuffers

  class UdpSocket {
    const pool: MemPool
    var packetIn: nat
    var packetNext: nat

    ghost predicate Valid()
      reads this, pool, pool.blocks, pool.memory
    {
      && pool.Valid()
      && (packetIn == NOBLOCK || IsLive(pool.blocks[..], packetIn))
      && (packetNext == NOBLOCK || IsLive(pool.blocks[..], packetNext))
      && (packetIn == packetNext ==> packetIn == NOBLOCK)
    }

    /** What is left of the datagram being read. */
    ghost function Current(): seq<Byte>
      reads this, pool, pool.blocks, pool.memory
      requires Valid()
    {
      if packetIn == NOBLOCK then [] else BytesOf(pool.blocks[..], pool.memory[..], packetIn)
    }

    /** The datagram that waits. */
    ghost function Waiting(): seq<Byte>
      reads this, pool, pool.blocks, pool.memory
      requires Valid()
    {
      if packetNext == NOBLOCK then [] else BytesOf(pool.blocks[..], pool.memory[..], packetNext)
    }

    constructor (p: MemPool)
      requires p.Valid()
      ensures Valid() && pool == p && Current() == [] && Waiting() == []
    {
      pool, packetIn, packetNext := p, NOBLOCK, NOBLOCK;
    }

    /** read: the next bytes of the datagram, as many as there are of those asked for; readPacket sees
        only the low 16 bits of that number.  No byte is lost or given twice, and the waiting datagram
        is not touched. */
    method Read(buf: array<Byte>, len: nat) returns (n: nat)
      requires Valid() && len <= buf.Length && buf != pool.memory
      modifies pool.blocks, pool`path, this`packetIn, buf
      ensures Valid() && n == Min(Low16(len), |old(Current())|)
      ensures old(Current()) == buf[..n] + Current() && Waiting() == old(Waiting())
      ensures forall i :: n <= i < buf.Length ==> buf[i] == old(buf[i])
    {
      if packetIn == NOBLOCK {
        return 0;
      }
      ghost var all := Current();
      var size;
      n, size := ReadFirst(pool, packetIn, buf, 0, Low16(len));
      assert buf[..n] == all[..n] && all == all[..n] + all[n..];
      Discard(n, n == size);
    }

    /** The bytes read are taken off the block, or the block goes with its last byte. */
    method Discard(n: nat, drained: bool)
      requires Valid() && packetIn != NOBLOCK && n <= |Current()| == pool.blocks[packetIn].size &&
               (drained <==> n == |Current()|)
      modifies pool.blocks, pool`path, this`packetIn
      ensures Valid() && Current() == old(Current())[n..] && Waiting() == old(Waiting())
    {
      LiveIsLive(pool);
      if drained {
        pool.FreeBlock(packetIn);
        packetIn := NOBLOCK;
      } else {
        pool.ResizeBlock(packetIn, n);
      }
      LiveIsLive(pool);
    }

    /** parsePacket: the rest of the old datagram goes, and the waiting one takes its place. */
    method ParsePacket() returns (size: nat)
      requires Valid()
      modifies pool.blocks, pool`path, this`packetIn, this`packetNext
      ensures Valid() && Current() == old(Waiting()) && Waiting() == [] && size == |Current()|
    {
      LiveIsLive(pool);
      pool.FreeBlock(packetIn);
      LiveIsLive(pool);
      packetIn := packetNext;
      packetNext := NOBLOCK;
      size := BlockLength(pool, packetIn);
    }

    /** The data branch of uipudp_appcall: a datagram is kept if none waits and the pool has room, and
        dropped otherwise; either way nothing else changes. */
    method Arrive(data: seq<Byte>) returns (kept: bool)
      requires Valid() && data != []
      modifies pool.blocks, pool.memory, pool`path, this`packetNext
      ensures Valid() && Current() == old(Current())
      ensures kept <==> old(packetNext) == NOBLOCK && |data| <= old(pool.FreeBytes()) && !old(pool.HandlesExhausted())
      ensures Waiting() == if kept then data else old(Waiting())
    {
      if packetNext != NOBLOCK {
        return false;
      }
      packetNext := AllocFilled(pool, data);
      kept := packetNext != NOBLOCK;
    }

    /** The same branch for a datagram without data: unless one waits or no handle is free, it leaves the
        pool without a valid layout. */
    method ArriveEmpty()
      requires Valid()
      modifies pool.blocks, this`packetNext
      ensures old(packetNext) != NOBLOCK || old(pool.HandlesExhausted()) ==>
                Valid() && Current() == old(Current()) && Waiting() == old(Waiting())
      ensures old(packetNext) == NOBLOCK && !old(pool.HandlesExhausted()) ==> !pool.Valid()
    {
      if packetNext != NOBLOCK {
        return;
      }
      packetNext := pool.AllocNothing();
    }
  }

  /** blockSize; the size of no block is 0. */
  method BlockLength(pool: MemPool, h: nat) returns (size: nat)
    requires pool.Valid() && (h == NOBLOCK || IsLive(pool.blocks[..], h))
    ensures size == if h == NOBLOCK then 0 else |BytesOf(pool.blocks[..], pool.memory[..], h)|
  {
    if h == NOBLOCK {
      return 0;
    }
    LiveIsLive(pool);
    size := pool.BlockSize(h);
  }
}
