/**
 The ARP cache: a table of fixed size that stands for a map from addresses to hardware addresses.
*/
module Arp {
  import opened Basics

  /** An IPv4 address as the two 16-bit halves the program compares. */
  datatype Address = Address(high: nat, low: nat)
  {
    /** Both halves nonzero: only such entries are recognised when an address is announced again. */
    predicate Usable() { high != 0 && low != 0 }
  }

  const NoAddress := Address(0, 0)

  type Mac = seq<Byte>

  datatype Entry = Entry(ip: Address, mac: Mac, time: Byte)

  const MAXAGE := 120

  /** The first entry for an address, as the lookup before sending finds it. */
  function Lookup(table: seq<Entry>, ip: Address): Option<Mac> {
    if table == [] then None else if table[0].ip == ip then Some(table[0].mac) else Lookup(table[1..], ip)
  }

  /** No usable address stands in the table twice. */
  ghost predicate Single(table: seq<Entry>) {
    forall i, j :: 0 <= i < |table| && 0 <= j < |table| && i != j && table[i].ip.Usable() ==> table[i].ip != table[j].ip
  }

  predicate Absent(table: seq<Entry>, ip: Address) { forall i :: 0 <= i < |table| ==> table[i].ip != ip }

  lemma {:induction false} LookupAbsent(table: seq<Entry>, ip: Address)
    ensures Lookup(table, ip) == None <==> Absent(table, ip)
  {
    if table != [] {
      LookupAbsent(table[1..], ip);
      assert forall i :: 0 < i < |table| ==> table[i] == table[1..][i - 1];
    }
  }

  lemma {:induction false} LookupAt(table: seq<Entry>, k: nat)
    requires k < |table| && forall i :: 0 <= i < k ==> table[i].ip != table[k].ip
    ensures Lookup(table, table[k].ip) == Some(table[k].mac)
    decreases k
  {
    if k > 0 {
      LookupAt(table[1..], k - 1);
    }
  }

  lemma {:induction false} LookupOther(table: seq<Entry>, k: nat, e: Entry, q: Address)
    requires k < |table| && table[k].ip != q && e.ip != q
    ensures Lookup(table[k := e], q) == Lookup(table, q)
    decreases k
  {
    if k > 0 {
      assert table[k := e][1..] == table[1..][k - 1 := e];
      LookupOther(table[1..], k - 1, e, q);
    } else {
      assert table[k := e][1..] == table[1..];
    }
  }

  /** An entry in front of the slot that was filled hides it. */
  lemma {:induction false} LookupFilled(table: seq<Entry>, k: nat, e: Entry)
    requires k < |table|
    ensures var front := Lookup(table[..k], e.ip);
            Lookup(table[k := e], e.ip) == if front == None then Some(e.mac) else front
    decreases k
  {
    if k > 0 {
      assert table[k := e][1..] == table[1..][k - 1 := e] && table[..k][1..] == table[1..][..k - 1];
      LookupFilled(table[1..], k - 1, e);
    }
  }

  /** What the map says after the slot k was filled with e. */
  lemma FillMeans(table: seq<Entry>, k: nat, e: Entry, q: Address)
    requires Single(table) && k < |table| && e.ip.Usable() && (Absent(table, e.ip) || table[k].ip == e.ip)
    ensures Single(table[k := e])
    ensures Lookup(table[k := e], e.ip) == Some(e.mac)
    ensures q != e.ip && q != table[k].ip ==> Lookup(table[k := e], q) == Lookup(table, q)
    ensures q != e.ip && q == table[k].ip && q.Usable() ==> Lookup(table[k := e], q) == None
  {
    var t := table[k := e];
    LookupAt(t, k);
    if q != e.ip {
      if q != table[k].ip {
        LookupOther(table, k, e, q);
      } else if q.Usable() {
        LookupAbsent(t, q);
      }
    }
  }

  // ---------------------------------------------------------------------------------------------
  // The slot that an announcement takes
  // ---------------------------------------------------------------------------------------------

  /** The first entry from i on that is recognised as the address; the table's length if none is. */
  function Recognised(table: seq<Entry>, ip: Address, i: nat): (k: nat)
    requires i <= |table|
    ensures i <= k <= |table| && (k < |table| ==> table[k].ip == ip && ip.Usable())
    ensures forall j :: i <= j < k ==> !(table[j].ip.Usable() && table[j].ip == ip)
    decreases |table| - i
  {
    if i == |table| || (table[i].ip.Usable() && ip == table[i].ip) then i else Recognised(table, ip, i + 1)
  }

  /** The first unused entry from i on. */
  function Unused(table: seq<Entry>, i: nat): (k: nat)
    requires i <= |table|
    ensures i <= k <= |table| && (k < |table| ==> table[k].ip == NoAddress)
    ensures forall j :: i <= j < k ==> table[j].ip != NoAddress
    decreases |table| - i
  {
    if i == |table| || table[i].ip == NoAddress then i else Unused(table, i + 1)
  }

  /** The entry with the largest positive age from i on, given the best so far; by a clock that wraps.
      Of several of that age it is the first. */
  function Oldest(table: seq<Entry>, now: Byte, i: nat, age: int, best: nat): (k: nat)
    requires i <= |table| && best < |table|
    ensures k < |table| && (k == best || (i <= k && now - table[k].time > age))
    ensures forall j :: i <= j < |table| ==> now - table[j].time <= age || now - table[j].time <= now - table[k].time
    ensures forall j :: i <= j < k && k != best ==> now - table[j].time < now - table[k].time
    decreases |table| - i
  {
    if i == |table| then best
    else if now - table[i].time > age then Oldest(table, now, i + 1, now - table[i].time, i)
    else Oldest(table, now, i + 1, age, best)
  }

  function Slot(table: seq<Entry>, now: Byte, ip: Address): (k: nat)
    requires table != []
    ensures k < |table|
    ensures Recognised(table, ip, 0) == |table| && Unused(table, 0) == |table| ==>
              forall j :: 0 <= j < |table| ==> now - table[j].time <= 0 || now - table[j].time <= now - table[k].time
  {
    if Recognised(table, ip, 0) < |table| then Recognised(table, ip, 0)
    else if Unused(table, 0) < |table| then Unused(table, 0)
    else Oldest(table, now, 0, 0, 0)
  }

  /** The entries in front of the slot do not hide the new binding. */
  predicate NewestShows(table: seq<Entry>, now: Byte, ip: Address, mac: Mac)
    requires table != []
  {
    var front := Lookup(table[..Slot(table, now, ip)], ip);
    front == None || front == Some(mac)
  }

  /** For a usable address they never do. */
  lemma UsableShows(table: seq<Entry>, now: Byte, ip: Address, mac: Mac)
    requires table != [] && ip.Usable()
    ensures NewestShows(table, now, ip, mac)
  {
    var k := Slot(table, now, ip);
    LookupAbsent(table[..k], ip);
    assert forall j :: 0 <= j < k && table[..k][j].ip == ip ==> table[j].ip == ip;
  }

  class Cache {
    const table: array<Entry>
    var now: Byte

    ghost predicate Valid()
      reads this, table
    {
      0 < table.Length && Single(table[..])
    }

    /** uip_arp_init */
    constructor (size: nat)
      requires 0 < size
      ensures Valid() && table.Length == size && fresh(table) && now == 0
      ensures forall i :: 0 <= i < size ==> table[i] == Entry(NoAddress, [], 0)
      ensures forall q: Address :: q != NoAddress ==> Lookup(table[..], q) == None
    {
      table := new Entry[size](_ => Entry(NoAddress, [], 0));
      now := 0;
      new;
      forall q: Address | q != NoAddress
        ensures Lookup(table[..], q) == None
      {
        LookupAbsent(table[..], q);
      }
    }

    /** The first loop of uip_arp_update. */
    method FindEntry(ip: Address) returns (k: nat)
      ensures k == Recognised(table[..], ip, 0)
    {
      k := 0;
      while k < table.Length && !(table[k].ip.Usable() && ip == table[k].ip)
        invariant k <= table.Length && Recognised(table[..], ip, 0) == Recognised(table[..], ip, k)
      {
        k := k + 1;
      }
    }

    /** The second loop. */
    method FindFree() returns (k: nat)
      ensures k == Unused(table[..], 0)
    {
      k := 0;
      while k < table.Length && table[k].ip != NoAddress
        invariant k <= table.Length && Unused(table[..], 0) == Unused(table[..], k)
      {
        k := k + 1;
      }
    }

    /** The third loop. */
    method FindOldest() returns (k: nat)
      requires 0 < table.Length
      ensures k == Oldest(table[..], now, 0, 0, 0)
    {
      k := 0;
      var age := 0;
      for i := 0 to table.Length
        invariant k < table.Length && Oldest(table[..], now, 0, 0, 0) == Oldest(table[..], now, i, age, k)
      {
        if now - table[i].time > age {
          age := now - table[i].time;
          k := i;
        }
      }
    }

    method FindSlot(ip: Address) returns (k: nat)
      requires 0 < table.Length
      ensures k == Slot(table[..], now, ip)
    {
      k := FindEntry(ip);
      if k == table.Length {
        k := FindFree();
        if k == table.Length {
          k := FindOldest();
        }
      }
    }

    /** uip_arp_update: the binding goes into the slot, and is found afterwards exactly when no entry in
        front hides it, as for every usable address.  Of all other usable addresses at most one is
        forgotten, and only when the table is full. */
    method Update(ip: Address, mac: Mac) returns (k: nat)
      requires Valid()
      modifies table
      ensures Valid() && k == Slot(old(table[..]), now, ip) && table[..] == old(table[..])[k := Entry(ip, mac, now)]
      ensures Lookup(table[..], ip) == Some(mac) <==> NewestShows(old(table[..]), now, ip, mac)
      ensures ip.Usable() ==> Lookup(table[..], ip) == Some(mac)
      ensures forall q: Address {:trigger Lookup(table[..], q)} :: ip.Usable() && q != ip && q.Usable() ==>
                Lookup(table[..], q) == if q == old(table[k].ip) then None else Lookup(old(table[..]), q)
      ensures ip.Usable() && old(table[k].ip).Usable() && old(table[k].ip) != ip ==>
                Absent(old(table[..]), ip) && Absent(old(table[..]), NoAddress)
    {
      ghost var was := table[..];
      k := FindSlot(ip);
      var e := Entry(ip, mac, now);
      table[k] := e;
      assert table[..] == was[k := e];
      LookupFilled(was, k, e);
      if ip.Usable() {
        UsableShows(was, now, ip, mac);
        forall q: Address
          ensures Single(table[..])
          ensures q != ip && q.Usable() ==> Lookup(table[..], q) == if q == was[k].ip then None else Lookup(was, q)
        {
          FillMeans(was, k, e, q);
        }
      }
    }

    /** uip_arp_timer: an entry goes when it is too old; the clock is one byte and the difference is
        not, so an entry from before a wrap-around stays. */
    method Expire()
      requires Valid()
      modifies this`now, table
      ensures Valid() && now == (old(now) + 1) % 256
      ensures forall i :: 0 <= i < table.Length ==>
                var e := old(table[i]);
                table[i] == if e.ip != NoAddress && now - e.time >= MAXAGE then e.(ip := NoAddress) else e
    {
      now := NextByte(now);
      for i := 0 to table.Length
        invariant now == (old(now) + 1) % 256
        invariant forall j :: 0 <= j < i ==> table[j] == Aged(old(table[j]), now)
        invariant forall j :: i <= j < table.Length ==> table[j] == old(table[j])
      {
        if table[i].ip != NoAddress && now - table[i].time >= MAXAGE {
          table[i] := table[i].(ip := NoAddress);
        }
      }
    }
  }

  function Aged(e: Entry, now: Byte): Entry {
    if e.ip != NoAddress && now - e.time >= MAXAGE then e.(ip := NoAddress) else e
  }

  /** An address with a zero half is not recognised again: of two announcements the lookup still gives
      the first. */
  method AnnounceTwice(a: Mac, b: Mac) returns (cache: Cache)
    requires a != b
    ensures fresh(cache) && cache.Valid() && Lookup(cache.table[..], Address(10, 0)) == Some(a)
  {
    var ip := Address(10, 0);
    cache := new Cache(2);
    ghost var empty := cache.table[..];
    assert empty[0] == Entry(NoAddress, [], 0) && empty[1] == Entry(NoAddress, [], 0);
    var k := cache.Update(ip, a);
    assert Recognised(empty, ip, 0) == Recognised(empty, ip, 1) == Recognised(empty, ip, 2) == 2;
    ghost var one := cache.table[..];
    k := cache.Update(ip, b);
    assert Recognised(one, ip, 0) == Recognised(one, ip, 1) == Recognised(one, ip, 2) == 2;
    assert Unused(one, 0) == Unused(one, 1) == 1;
    assert cache.table[..][0].ip == ip;
  }
}
