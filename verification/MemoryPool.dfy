/**
 The handle-based memory pool that backs every packet buffer of the Ethernet stack: a best-fit
 allocator over a linked list threaded through a fixed array of handles.  When no gap is large
 enough the live blocks are slid together, so a block's address may change while its handle and
 its bytes do not.

 Handle 0 is at once the list head (POOLSTART) and the "no block" answer (NOBLOCK); size 0 marks
 a free handle.
*/
module MemoryPool {
  import opened Basics

  const POOLSTART: nat := 0
  const NOBLOCK: nat := 0

  /** One entry of the handle array. */
  datatype MemBlock = MemBlock(begin: nat, size: nat, next: nat) {
    function End(): nat { begin + size }
  }

  /** Where the pool lies in the chip's memory. */
  datatype Extent = Extent(start: nat, length: nat) {
    function Limit(): nat { start + length }
  }

  // ---------------------------------------------------------------------------------------------
  // The walk from POOLSTART, as a value
  // ---------------------------------------------------------------------------------------------

  /** What one step of the walk meets. */
  datatype Node = Node(handle: nat, begin: nat, size: nat) {
    function End(): nat { begin + size }
  }

  /** The first address after the gap that follows node i. */
  ghost function GapEnd(e: Extent, path: seq<Node>, i: nat): nat
    requires i < |path|
  {
    if i + 1 < |path| then path[i + 1].begin else e.Limit()
  }

  /** Sorted, disjoint and inside the pool; only the head is empty. */
  ghost predicate Placed(e: Extent, path: seq<Node>) {
    && 0 < |path| && path[0] == Node(POOLSTART, e.start, 0)
    && (forall i :: 0 < i < |path| ==> 0 < path[i].handle && 0 < path[i].size)
    && (forall i {:trigger GapEnd(e, path, i)} :: 0 <= i < |path| ==> path[i].End() <= GapEnd(e, path, i))
  }

  ghost function Gap(e: Extent, path: seq<Node>, i: nat): nat
    requires Placed(e, path) && i < |path|
  {
    GapEnd(e, path, i) - path[i].End()
  }

  /** Nodes further down the path lie at higher addresses. */
  lemma {:induction false} PathIsSorted(e: Extent, path: seq<Node>, i: nat, j: nat)
    requires Placed(e, path) && i < j < |path|
    ensures path[i].End() <= path[j].begin
  {
    assert path[j - 1].End() <= GapEnd(e, path, j - 1);
    if i + 1 < j {
      PathIsSorted(e, path, i, j - 1);
    }
  }

  lemma {:induction false} EndsInPool(e: Extent, path: seq<Node>, i: nat)
    requires Placed(e, path) && i < |path|
    ensures e.start <= path[i].begin && path[i].End() <= e.Limit()
    decreases |path| - i
  {
    assert path[i].End() <= GapEnd(e, path, i);
    if i + 1 < |path| {
      EndsInPool(e, path, i + 1);
    }
    if 0 < i {
      PathIsSorted(e, path, 0, i);
    }
  }

  /** Two nodes of the path never carry the same handle, if equal handles mean equal addresses. */
  lemma NodesDiffer(e: Extent, path: seq<Node>, i: nat, j: nat)
    requires Placed(e, path) && i < j < |path|
    requires path[i].handle == path[j].handle ==> path[i].begin == path[j].begin
    ensures path[i].handle != path[j].handle
  {
    PathIsSorted(e, path, i, j);
  }

  // ---------------------------------------------------------------------------------------------
  // Accounting
  // ---------------------------------------------------------------------------------------------

  /** Bytes held by a stretch of the path. */
  ghost function Used(path: seq<Node>): nat {
    if path == [] then 0 else Used(path[..|path| - 1]) + path[|path| - 1].size
  }

  lemma {:induction false} UsedConcat(p: seq<Node>, q: seq<Node>)
    ensures Used(p + q) == Used(p) + Used(q)
  {
    if q == [] {
      assert p + q == p;
    } else {
      UsedConcat(p, q[..|q| - 1]);
      assert (p + q)[..|p + q| - 1] == p + q[..|q| - 1];
    }
  }

  lemma UsedAround(p: seq<Node>, n: Node, q: seq<Node>)
    ensures Used(p + [n] + q) == Used(p) + n.size + Used(q)
  {
    UsedConcat(p + [n], q);
    UsedConcat(p, [n]);
  }

  /** The nodes up to j, and any one gap before j, fit below the end of node j. */
  lemma {:induction false} UsedPlusGap(e: Extent, path: seq<Node>, i: nat, j: nat)
    requires Placed(e, path) && i < |path| && j < |path|
    ensures e.start + Used(path[..j + 1]) + (if i < j then Gap(e, path, i) else 0) <= path[j].End()
    decreases j
  {
    assert path[..j + 1][..j] == path[..j];
    if j != 0 {
      UsedPlusGap(e, path, i, j - 1);
      assert path[j - 1].End() <= GapEnd(e, path, j - 1);
    }
  }

  /** No gap is larger than the pool's free total. */
  lemma GapWithinFree(e: Extent, path: seq<Node>, i: nat)
    requires Placed(e, path) && i < |path|
    ensures Used(path) + Gap(e, path, i) <= e.length
  {
    var last := |path| - 1;
    assert path[..last + 1] == path;
    UsedPlusGap(e, path, i, last);
    EndsInPool(e, path, last);
  }

  // ---------------------------------------------------------------------------------------------
  // One edit of the path at a time
  // ---------------------------------------------------------------------------------------------

  ghost function InsertAfter(path: seq<Node>, i: nat, n: Node): (path': seq<Node>)
    requires i < |path|
    ensures |path'| == |path| + 1
    ensures forall j {:trigger path'[j]} :: 0 <= j < |path'| ==>
              path'[j] == if j <= i then path[j] else if j == i + 1 then n else path[j - 1]
    ensures Used(path') == Used(path) + n.size
  {
    UsedAround(path[..i + 1], n, path[i + 1..]);
    UsedConcat(path[..i + 1], path[i + 1..]);
    assert path[..i + 1] + path[i + 1..] == path;
    path[..i + 1] + [n] + path[i + 1..]
  }

  ghost function RemoveAt(path: seq<Node>, i: nat): (path': seq<Node>)
    requires i < |path|
    ensures |path'| == |path| - 1
    ensures forall j {:trigger path'[j]} :: 0 <= j < |path'| ==> path'[j] == if j < i then path[j] else path[j + 1]
    ensures Used(path') == Used(path) - path[i].size
  {
    UsedAround(path[..i], path[i], path[i + 1..]);
    UsedConcat(path[..i], path[i + 1..]);
    assert path[..i] + [path[i]] + path[i + 1..] == path;
    path[..i] + path[i + 1..]
  }

  lemma UsedUpdate(path: seq<Node>, i: nat, n: Node)
    requires i < |path|
    ensures Used(path[i := n]) == Used(path) - path[i].size + n.size
  {
    UsedAround(path[..i], path[i], path[i + 1..]);
    UsedAround(path[..i], n, path[i + 1..]);
    assert path[..i] + [path[i]] + path[i + 1..] == path;
    assert path[..i] + [n] + path[i + 1..] == path[i := n];
  }

  lemma InsertKeepsPlaced(e: Extent, path: seq<Node>, i: nat, n: Node)
    requires Placed(e, path) && i < |path|
    requires 0 < n.handle && 0 < n.size <= Gap(e, path, i) && n.begin == path[i].End()
    ensures Placed(e, InsertAfter(path, i, n))
  {
    var path' := InsertAfter(path, i, n);
    forall j | 0 <= j < |path'|
      ensures path'[j].End() <= GapEnd(e, path', j)
    {
      var k := if j <= i then j else j - 1;
      assert path[k].End() <= GapEnd(e, path, k);
    }
  }

  lemma RemoveKeepsPlaced(e: Extent, path: seq<Node>, i: nat)
    requires Placed(e, path) && 0 < i < |path|
    ensures Placed(e, RemoveAt(path, i))
  {
    var path' := RemoveAt(path, i);
    forall j | 0 <= j < |path'|
      ensures path'[j].End() <= GapEnd(e, path', j)
    {
      if j < i {
        assert path[j].End() <= GapEnd(e, path, j);
      }
      assert path[j + 1].End() <= GapEnd(e, path, j + 1);
    }
  }

  /** A node may shrink, or slide down, within the space from its predecessor's end to its own. */
  lemma UpdateKeepsPlaced(e: Extent, path: seq<Node>, i: nat, n: Node)
    requires Placed(e, path) && 0 < i < |path|
    requires n.handle == path[i].handle && 0 < n.size && path[i - 1].End() <= n.begin && n.End() <= path[i].End()
    ensures Placed(e, path[i := n])
  {
    var path' := path[i := n];
    forall j | 0 <= j < |path'|
      ensures path'[j].End() <= GapEnd(e, path', j)
    {
      assert path[j].End() <= GapEnd(e, path, j);
    }
  }

  // ---------------------------------------------------------------------------------------------
  // The handle array holds a path
  // ---------------------------------------------------------------------------------------------

  ghost function NextHandle(path: seq<Node>, i: nat): nat
    requires i < |path|
  {
    if i + 1 < |path| then path[i + 1].handle else NOBLOCK
  }

  /** Entry b stores node i of the path. */
  ghost predicate Stores(bs: seq<MemBlock>, path: seq<Node>, i: nat)
    requires i < |path|
  {
    && path[i].handle < |bs|
    && bs[path[i].handle] == MemBlock(path[i].begin, path[i].size, NextHandle(path, i))
  }

  ghost predicate OnPath(path: seq<Node>, h: nat) {
    exists i :: 0 <= i < |path| && path[i].handle == h
  }

  /** The list threaded through the handles is exactly the path, and every handle off it is free. */
  ghost predicate Holds(bs: seq<MemBlock>, path: seq<Node>) {
    && (forall i {:trigger Stores(bs, path, i)} :: 0 <= i < |path| ==> Stores(bs, path, i))
    && (forall h {:trigger OnPath(path, h)} :: 0 <= h < |bs| && !OnPath(path, h) ==> bs[h].size == 0)
  }

  /** Sorted, disjoint, in bounds, acyclic, and made of exactly the handles of non-zero size. */
  ghost predicate Layout(e: Extent, bs: seq<MemBlock>, path: seq<Node>) {
    Placed(e, path) && Holds(bs, path)
  }

  /** The position of a live handle on the path. */
  lemma Locate(e: Extent, bs: seq<MemBlock>, path: seq<Node>, h: nat) returns (i: nat)
    requires Layout(e, bs, path) && 0 < h < |bs| && bs[h].size != 0
    ensures 0 < i < |path| && path[i].handle == h
    ensures bs[h] == MemBlock(path[i].begin, path[i].size, NextHandle(path, i))
    ensures e.start <= bs[h].begin && bs[h].End() <= e.Limit()
  {
    assert OnPath(path, h);
    i :| 0 <= i < |path| && path[i].handle == h;
    assert Stores(bs, path, i);
    EndsInPool(e, path, i);
  }

  lemma HandlesDiffer(e: Extent, bs: seq<MemBlock>, path: seq<Node>, i: nat, j: nat)
    requires Layout(e, bs, path) && i < |path| && j < |path| && i != j
    ensures path[i].handle != path[j].handle
  {
    assert Stores(bs, path, i) && Stores(bs, path, j);
    NodesDiffer(e, path, if i < j then i else j, if i < j then j else i);
  }

  /** Two different live handles never share an address. */
  lemma LiveBlocksDisjoint(e: Extent, bs: seq<MemBlock>, path: seq<Node>, g: nat, h: nat)
    requires Layout(e, bs, path) && 0 < g < |bs| && 0 < h < |bs| && g != h && bs[g].size != 0 && bs[h].size != 0
    ensures bs[g].End() <= bs[h].begin || bs[h].End() <= bs[g].begin
  {
    var i := Locate(e, bs, path, g);
    var j := Locate(e, bs, path, h);
    if i < j {
      PathIsSorted(e, path, i, j);
    } else {
      PathIsSorted(e, path, j, i);
    }
  }

  /** The handle array after giving free handle h the gap behind prev. */
  ghost function Linked(bs: seq<MemBlock>, prev: nat, h: nat, size: nat): seq<MemBlock>
    requires prev < |bs| && h < |bs| && prev != h
  {
    bs[h := MemBlock(bs[prev].End(), size, bs[prev].next)][prev := bs[prev].(next := h)]
  }

  lemma InsertOnPath(path: seq<Node>, i: nat, n: Node, h: nat)
    requires i < |path|
    ensures OnPath(InsertAfter(path, i, n), h) <==> OnPath(path, h) || h == n.handle
    ensures OnPath(path, path[i].handle)
  {
    var path' := InsertAfter(path, i, n);
    assert path'[i + 1] == n;
    if OnPath(path, h) {
      var j :| 0 <= j < |path| && path[j].handle == h;
      assert path'[if j <= i then j else j + 1].handle == h;
    }
  }

  lemma RemoveOnPath(path: seq<Node>, i: nat, h: nat)
    requires i < |path|
    ensures OnPath(path, h) && h != path[i].handle ==> OnPath(RemoveAt(path, i), h)
    ensures 0 < i ==> OnPath(path, path[i - 1].handle)
  {
    var path' := RemoveAt(path, i);
    if OnPath(path, h) && h != path[i].handle {
      var j :| 0 <= j < |path| && path[j].handle == h;
      assert path'[if j < i then j else j - 1].handle == h;
    }
  }

  lemma LinkKeepsStores(e: Extent, bs: seq<MemBlock>, path: seq<Node>, i: nat, h: nat, size: nat, j: nat)
    requires Layout(e, bs, path) && i < |path| && j <= |path|
    requires 0 < h < |bs| && bs[h].size == 0 && path[i].handle < |bs| && path[i].handle != h
    ensures Stores(Linked(bs, path[i].handle, h, size), InsertAfter(path, i, Node(h, path[i].End(), size)), j)
  {
    var k := if j <= i then j else j - 1;
    assert Stores(bs, path, i) && Stores(bs, path, k);
    if k != i {
      HandlesDiffer(e, bs, path, i, k);
    }
  }

  lemma LinkKeepsLayout(e: Extent, bs: seq<MemBlock>, path: seq<Node>, i: nat, h: nat, size: nat)
    requires Layout(e, bs, path) && i < |path|
    requires 0 < h < |bs| && bs[h].size == 0 && 0 < size <= Gap(e, path, i)
    ensures path[i].handle < |bs| && path[i].handle != h
    ensures Layout(e, Linked(bs, path[i].handle, h, size), InsertAfter(path, i, Node(h, path[i].End(), size)))
  {
    assert Stores(bs, path, i);
    var n := Node(h, path[i].End(), size);
    var bs', path' := Linked(bs, path[i].handle, h, size), InsertAfter(path, i, n);
    InsertKeepsPlaced(e, path, i, n);
    forall j | 0 <= j < |path'|
      ensures Stores(bs', path', j)
    {
      LinkKeepsStores(e, bs, path, i, h, size, j);
    }
    forall g | 0 <= g < |bs| && !OnPath(path', g)
      ensures bs'[g].size == 0
    {
      InsertOnPath(path, i, n, g);
      assert g != h && g != path[i].handle;
    }
  }

  /** A block of no bytes: no path describes the list it is linked into, since its handle counts as free
      and is on the list. */
  lemma EmptyBlockBreaksLayout(e: Extent, bs: seq<MemBlock>, path: seq<Node>, i: nat, h: nat, p: seq<Node>)
    requires Layout(e, bs, path) && i < |path| && 0 < h < |bs| && bs[h].size == 0
    ensures path[i].handle < |bs| && path[i].handle != h
    ensures !Layout(e, Linked(bs, path[i].handle, h, 0), p)
  {
    assert Stores(bs, path, i);
    var best := path[i].handle;
    var bs' := Linked(bs, best, h, 0);
    if Layout(e, bs', p) {
      NextIsLive(e, bs', p, best);
    }
  }

  /** In a layout the entry behind the head or a live block has bytes. */
  lemma NextIsLive(e: Extent, bs: seq<MemBlock>, path: seq<Node>, b: nat)
    requires Layout(e, bs, path) && b < |bs| && (b == POOLSTART || bs[b].size != 0) && bs[b].next != NOBLOCK
    ensures bs[b].next < |bs| && bs[bs[b].next].size > 0
  {
    assert Stores(bs, path, 0);
    if b != POOLSTART {
      assert OnPath(path, b);
    }
    var k :| 0 <= k < |path| && path[k].handle == b;
    assert Stores(bs, path, k);
    assert Stores(bs, path, k + 1);
  }

  /** The handle array after taking f, which follows prev, off the list. */
  ghost function Unlinked(bs: seq<MemBlock>, prev: nat, f: nat): seq<MemBlock>
    requires prev < |bs| && f < |bs| && prev != f
  {
    bs[prev := bs[prev].(next := bs[f].next)][f := MemBlock(bs[f].begin, 0, NOBLOCK)]
  }

  lemma UnlinkKeepsStores(e: Extent, bs: seq<MemBlock>, path: seq<Node>, i: nat, j: nat)
    requires Layout(e, bs, path) && 0 < i < |path| && j + 1 < |path|
    requires path[i - 1].handle < |bs| && path[i].handle < |bs| && path[i - 1].handle != path[i].handle
    ensures Stores(Unlinked(bs, path[i - 1].handle, path[i].handle), RemoveAt(path, i), j)
  {
    var k := if j < i then j else j + 1;
    assert Stores(bs, path, i - 1) && Stores(bs, path, i) && Stores(bs, path, k);
    HandlesDiffer(e, bs, path, i, k);
    if k != i - 1 {
      HandlesDiffer(e, bs, path, i - 1, k);
    }
  }

  lemma UnlinkKeepsLayout(e: Extent, bs: seq<MemBlock>, path: seq<Node>, i: nat)
    requires Layout(e, bs, path) && 0 < i < |path|
    ensures path[i - 1].handle < |bs| && path[i].handle < |bs| && path[i - 1].handle != path[i].handle
    ensures Layout(e, Unlinked(bs, path[i - 1].handle, path[i].handle), RemoveAt(path, i))
  {
    HandlesDiffer(e, bs, path, i - 1, i);
    assert Stores(bs, path, i - 1) && Stores(bs, path, i);
    var bs', path' := Unlinked(bs, path[i - 1].handle, path[i].handle), RemoveAt(path, i);
    RemoveKeepsPlaced(e, path, i);
    forall j | 0 <= j < |path'|
      ensures Stores(bs', path', j)
    {
      UnlinkKeepsStores(e, bs, path, i, j);
    }
    forall g | 0 <= g < |bs| && !OnPath(path', g)
      ensures bs'[g].size == 0
    {
      RemoveOnPath(path, i, g);
      RemoveOnPath(path, i, path[i - 1].handle);
    }
  }

  lemma UpdateKeepsLayout(e: Extent, bs: seq<MemBlock>, path: seq<Node>, i: nat, n: Node)
    requires Layout(e, bs, path) && 0 < i < |path|
    requires n.handle == path[i].handle && 0 < n.size && path[i - 1].End() <= n.begin && n.End() <= path[i].End()
    ensures n.handle < |bs| && Layout(e, bs[n.handle := bs[n.handle].(begin := n.begin, size := n.size)], path[i := n])
  {
    assert Stores(bs, path, i);
    var bs', path' := bs[n.handle := bs[n.handle].(begin := n.begin, size := n.size)], path[i := n];
    UpdateKeepsPlaced(e, path, i, n);
    forall j | 0 <= j < |path'|
      ensures Stores(bs', path', j)
    {
      assert Stores(bs, path, j);
      if j != i {
        HandlesDiffer(e, bs, path, i, j);
      }
    }
    forall g | 0 <= g < |bs| && !OnPath(path', g)
      ensures bs'[g].size == 0
    {
      assert path'[i].handle == n.handle;
      assert forall j :: 0 <= j < |path| ==> path[j].handle == path'[j].handle;
      assert !OnPath(path, g);
    }
  }

  // ---------------------------------------------------------------------------------------------
  // Contents
  // ---------------------------------------------------------------------------------------------

  /** The bytes a handle stands for. */
  ghost function BytesOf(bs: seq<MemBlock>, mem: seq<Byte>, h: nat): seq<Byte>
    requires h < |bs|
  {
    if bs[h].End() <= |mem| then mem[bs[h].begin..bs[h].End()] else []
  }

  ghost predicate IsLive(bs: seq<MemBlock>, h: nat) {
    0 < h < |bs| && bs[h].size != 0
  }

  /** Every live handle keeps its size and its bytes. */
  ghost predicate SameBytes(bs: seq<MemBlock>, mem: seq<Byte>, bs': seq<MemBlock>, mem': seq<Byte>) {
    && |bs| == |bs'|
    && forall h: nat {:trigger IsLive(bs, h)} :: IsLive(bs, h) ==>
         bs[h].size == bs'[h].size && BytesOf(bs, mem, h) == BytesOf(bs', mem', h)
  }

  lemma SameBytesTransitive(bs: seq<MemBlock>, mem: seq<Byte>, bs': seq<MemBlock>, mem': seq<Byte>,
                            bs'': seq<MemBlock>, mem'': seq<Byte>)
    requires SameBytes(bs, mem, bs', mem') && SameBytes(bs', mem', bs'', mem'')
    ensures SameBytes(bs, mem, bs'', mem'')
  {
    forall h: nat | IsLive(bs, h)
      ensures bs[h].size == bs''[h].size && BytesOf(bs, mem, h) == BytesOf(bs'', mem'', h)
    {
      assert IsLive(bs', h);
    }
  }

  /** The effect of an ascending byte copy of n bytes from src down to dest. */
  ghost predicate Copied(mem: seq<Byte>, mem': seq<Byte>, dest: nat, src: nat, n: nat) {
    && |mem| == |mem'| && dest <= src && src + n <= |mem|
    && forall a {:trigger mem'[a]} :: 0 <= a < |mem| ==>
         mem'[a] == if dest <= a < dest + n then mem[a - dest + src] else mem[a]
  }

  lemma CopiedSlice(mem: seq<Byte>, mem': seq<Byte>, dest: nat, src: nat, n: nat, from: nat, to: nat, m: nat)
    requires Copied(mem, mem', dest, src, n) && from + m <= |mem|
    requires (from == src && to == dest && m == n) || (from == to && (to + m <= dest || dest + n <= to))
    ensures mem[from..from + m] == mem'[to..to + m]
  {
    var was, now := mem[from..from + m], mem'[to..to + m];
    forall a | 0 <= a < m
      ensures was[a] == now[a]
    {
      assert mem'[to + a] == mem[from + a];
    }
  }

  lemma SliceOfSlice(mem: seq<Byte>, begin: nat, size: nat, position: nat, n: nat)
    requires begin + size <= |mem| && position + n <= size
    ensures mem[begin..begin + size][position..position + n] == mem[begin + position..begin + position + n]
  {
    var s, t := mem[begin..begin + size][position..position + n], mem[begin + position..begin + position + n];
    forall a | 0 <= a < n
      ensures s[a] == t[a]
    {
      assert s[a] == mem[begin..begin + size][position + a];
    }
  }

  lemma SplicedAt(was: seq<Byte>, data: seq<Byte>, position: nat, a: nat)
    requires position + |data| <= |was| && a < |was|
    ensures (was[..position] + data + was[position + |data|..])[a] ==
            if position <= a < position + |data| then data[a - position] else was[a]
  {
  }

  /** The slice of a block after `data` has been written into it at `position`. */
  lemma WrittenSlice(mem: seq<Byte>, mem': seq<Byte>, begin: nat, size: nat, position: nat, data: seq<Byte>)
    requires |mem| == |mem'| && begin + size <= |mem| && position + |data| <= size
    requires forall a :: 0 <= a < |data| ==> mem'[begin + position + a] == data[a]
    requires forall a :: 0 <= a < |mem| && !(begin + position <= a < begin + position + |data|) ==> mem'[a] == mem[a]
    ensures mem'[begin..begin + size] ==
            mem[begin..begin + size][..position] + data + mem[begin..begin + size][position + |data|..]
  {
    var now := mem'[begin..begin + size];
    var was := mem[begin..begin + size];
    forall a | 0 <= a < size
      ensures now[a] == (was[..position] + data + was[position + |data|..])[a]
    {
      SplicedAt(was, data, position, a);
      if position <= a < position + |data| {
        assert mem'[begin + position + (a - position)] == data[a - position];
      } else {
        assert mem'[begin + a] == mem[begin + a];
      }
    }
  }

  /** A change inside one live block leaves the others their bytes. */
  lemma OthersUntouched(e: Extent, bs: seq<MemBlock>, path: seq<Node>, g: nat, h: nat, mem: seq<Byte>, mem': seq<Byte>)
    requires Layout(e, bs, path) && 0 < g < |bs| && 0 < h < |bs| && g != h && bs[g].size != 0 && bs[h].size != 0
    requires |mem| == |mem'| && e.Limit() <= |mem|
    requires forall a :: 0 <= a < |mem| && !(bs[g].begin <= a < bs[g].End()) ==> mem'[a] == mem[a]
    ensures BytesOf(bs, mem, h) == BytesOf(bs, mem', h)
  {
    var j := Locate(e, bs, path, h);
    LiveBlocksDisjoint(e, bs, path, g, h);
  }

  /** A live block is either the one that slides or clear of the bytes written. */
  lemma SlideKeepsOneBlock(e: Extent, bs: seq<MemBlock>, path: seq<Node>, i: nat, h: nat)
    requires Layout(e, bs, path) && 0 < i < |path| && IsLive(bs, h)
    ensures if h == path[i].handle then bs[h].begin == path[i].begin && bs[h].size == path[i].size
            else bs[h].End() <= path[i - 1].End() || path[i].End() <= bs[h].begin
    ensures path[i - 1].End() <= path[i].begin && bs[h].End() <= e.Limit()
  {
    var j := Locate(e, bs, path, h);
    if j < i - 1 {
      PathIsSorted(e, path, j, i - 1);
    } else if i < j {
      PathIsSorted(e, path, i, j);
    }
    if j != i {
      HandlesDiffer(e, bs, path, i, j);
    }
    PathIsSorted(e, path, i - 1, i);
  }

  /** Moving one block's bytes down over the gap below it leaves every live handle's bytes alone,
      although source and destination may overlap. */
  lemma SlideKeepsBytes(e: Extent, bs: seq<MemBlock>, path: seq<Node>, i: nat, mem: seq<Byte>, mem': seq<Byte>)
    requires Layout(e, bs, path) && 0 < i < |path| && e.Limit() <= |mem|
    requires Copied(mem, mem', path[i - 1].End(), path[i].begin, path[i].size)
    ensures path[i].handle < |bs|
    ensures SameBytes(bs, mem, bs[path[i].handle := bs[path[i].handle].(begin := path[i - 1].End())], mem')
  {
    var dest, f := path[i - 1].End(), path[i].handle;
    assert Stores(bs, path, i);
    var bs' := bs[f := bs[f].(begin := dest)];
    forall h: nat | IsLive(bs, h)
      ensures BytesOf(bs, mem, h) == BytesOf(bs', mem', h)
    {
      SlideKeepsOneBlock(e, bs, path, i, h);
      CopiedSlice(mem, mem', dest, path[i].begin, path[i].size, bs[h].begin, bs'[h].begin, bs[h].size);
    }
  }

  // ---------------------------------------------------------------------------------------------
  // The pool
  // ---------------------------------------------------------------------------------------------

  class MemPool {
    const e: Extent
    const blocks: array<MemBlock>
    const memory: array<Byte>
    ghost var path: seq<Node>

    ghost predicate Valid()
      reads this, blocks
    {
      && 0 < blocks.Length <= 256
      && e.Limit() <= memory.Length <= 0x10000 && e.length < 0xFFFF
      && Layout(e, blocks[..], path)
    }

    ghost function Live(): set<nat>
      reads blocks
    {
      set h: nat | 0 < h < blocks.Length && blocks[h].size != 0
    }

    ghost function Bytes(h: nat): seq<Byte>
      requires h < blocks.Length
      reads blocks, memory
    {
      BytesOf(blocks[..], memory[..], h)
    }

    ghost function FreeBytes(): int
      reads this
    {
      e.length - Used(path)
    }

    ghost predicate HandlesExhausted()
      reads blocks
    {
      forall h :: 0 < h < blocks.Length ==> blocks[h].size != 0
    }

    ghost predicate SomeGapFits(size: nat)
      requires Valid()
      reads this, blocks
    {
      exists i :: 0 <= i < |path| && size <= Gap(e, path, i)
    }

    /** Gap number `at` holds `size` bytes and no smaller gap does. */
    ghost predicate BestGap(at: nat, size: nat)
      requires Valid()
      reads this, blocks
    {
      && at < |path| && size <= Gap(e, path, at)
      && forall i :: 0 <= i < |path| && size <= Gap(e, path, i) ==> Gap(e, path, at) <= Gap(e, path, i)
    }

    /** init: every handle free, the whole extent one gap. */
    constructor (e: Extent, numBlocks: nat, memorySize: nat)
      requires numBlocks < 256 && e.Limit() <= memorySize <= 0x10000 && e.length < 0xFFFF
      ensures Valid() && fresh(blocks) && fresh(memory)
      ensures this.e == e && blocks.Length == numBlocks + 1 && memory.Length == memorySize
      ensures Live() == {} && FreeBytes() == e.length
    {
      this.e := e;
      blocks := new MemBlock[numBlocks + 1](_ => MemBlock(0, 0, NOBLOCK));
      memory := new Byte[memorySize](_ => 0);
      path := [Node(POOLSTART, e.start, 0)];
      new;
      blocks[POOLSTART] := MemBlock(e.start, 0, NOBLOCK);
      assert Used(path) == Used(path[..|path| - 1]) + 0 == 0;
      assert Stores(blocks[..], path, 0);
    }

    /** The chip's copy engine: ascending, one byte at a time. */
    method MoveBytes(dest: nat, src: nat, n: nat)
      requires dest <= src && src + n <= memory.Length
      modifies memory
      ensures Copied(old(memory[..]), memory[..], dest, src, n)
    {
      var i := 0;
      while i < n
        invariant 0 <= i <= n
        invariant Copied(old(memory[..]), memory[..], dest, src, i)
      {
        assert memory[..][src + i] == old(memory[..])[src + i];
        memory[dest + i] := memory[src + i];
        i := i + 1;
      }
    }

    /** The handle after node k, and the size of the gap between them. */
    method GapAfter(block: nat, ghost k: nat) returns (next: nat, freeSize: nat)
      requires Valid() && k < |path| && path[k].handle == block
      ensures next == NextHandle(path, k) && (next == NOBLOCK <==> k + 1 == |path|)
      ensures freeSize == Gap(e, path, k) <= e.length
    {
      assert Stores(blocks[..], path, k);
      next := blocks[block].next;
      if next != NOBLOCK {
        assert Stores(blocks[..], path, k + 1);
      }
      GapWithinFree(e, path, k);
      freeSize := (if next == NOBLOCK then e.Limit() else blocks[next].begin) - blocks[block].begin -
        blocks[block].size;
    }

    /** The best-fit search: the smallest gap that is large enough, or -1. */
    method Search(size: nat) returns (best: int, ghost at: nat)
      requires Valid()
      ensures best < 0 <==> !SomeGapFits(size)
      ensures 0 <= best ==> BestGap(at, size) && path[at].handle == best
    {
      best, at := -1, 0;
      var cur, bestSize := POOLSTART, e.length + 1;
      ghost var k := 0;
      while true
        invariant 0 <= k < |path| && cur == path[k].handle
        invariant best < 0 ==> bestSize == e.length + 1
        invariant best < 0 ==> forall i :: 0 <= i < k ==> Gap(e, path, i) < size
        invariant 0 <= best ==> at < k && path[at].handle == best && size < bestSize == Gap(e, path, at)
        invariant 0 <= best ==> forall i :: 0 <= i < k && size <= Gap(e, path, i) ==> bestSize <= Gap(e, path, i)
        decreases |path| - k
      {
        var next, freeSize := GapAfter(cur, k);
        if freeSize == size {
          return cur, k;
        }
        if size < freeSize < bestSize {
          bestSize := freeSize;
          best, at := cur, k;
        }
        if next == NOBLOCK {
          return;
        }
        cur, k := next, k + 1;
      }
    }

    /** One turn of the compaction loop: close the gap behind node k. */
    method Slide(block: nat, ghost k: nat) returns (next: nat)
      requires Valid() && k + 1 < |path| && path[k].handle == block
      modifies blocks, memory, this`path
      ensures Valid()
      ensures path == old(path)[k + 1 := old(path)[k + 1].(begin := old(path)[k].End())]
      ensures next == path[k + 1].handle
      ensures forall h :: 0 <= h < blocks.Length ==> blocks[h].size == old(blocks[h].size)
      ensures SameBytes(old(blocks[..]), old(memory[..]), blocks[..], memory[..])
      ensures forall a :: 0 <= a < memory.Length && !(e.start <= a < e.Limit()) ==> memory[a] == old(memory[a])
    {
      ghost var bs, p := blocks[..], path;
      assert Stores(bs, p, k) && Stores(bs, p, k + 1);
      next := blocks[block].next;
      var dest := blocks[block].begin + blocks[block].size;
      EndsInPool(e, p, k);
      EndsInPool(e, p, k + 1);
      PathIsSorted(e, p, k, k + 1);
      if dest != blocks[next].begin {
        UpdateKeepsLayout(e, bs, p, k + 1, p[k + 1].(begin := dest));
        MoveBytes(dest, blocks[next].begin, blocks[next].size);
        SlideKeepsBytes(e, bs, p, k + 1, old(memory[..]), memory[..]);
        blocks[next] := blocks[next].(begin := dest);
        path := p[k + 1 := p[k + 1].(begin := dest)];
        assert blocks[..] == bs[next := bs[next].(begin := dest)];
      }
    }

    /** Slides all live blocks together; returns the last handle of the path. */
    method Collect() returns (last: nat)
      requires Valid()
      modifies blocks, memory, this`path
      ensures Valid() && last == path[|path| - 1].handle
      ensures Gap(e, path, |path| - 1) == FreeBytes() == old(FreeBytes())
      ensures forall h :: 0 <= h < blocks.Length ==> blocks[h].size == old(blocks[h].size)
      ensures SameBytes(old(blocks[..]), old(memory[..]), blocks[..], memory[..])
      ensures forall a :: 0 <= a < memory.Length && !(e.start <= a < e.Limit()) ==> memory[a] == old(memory[a])
    {
      last := POOLSTART;
      ghost var k, bs, mem := 0, blocks[..], memory[..];
      var next, gap := GapAfter(last, k);
      while next != NOBLOCK
        invariant Valid() && 0 <= k < |path| && last == path[k].handle && next == NextHandle(path, k)
        invariant next == NOBLOCK <==> k + 1 == |path|
        invariant path[k].End() == e.start + Used(path[..k + 1]) && FreeBytes() == old(FreeBytes())
        invariant Moved(bs, mem, blocks[..], memory[..])
        decreases |path| - k
      {
        last := SlideOn(last, k, bs, mem);
        k := k + 1;
        next, gap := GapAfter(last, k);
      }
      assert path[..k + 1] == path;
    }

    /** Since bs and mem, blocks may have moved: sizes and bytes of live handles are the same, and so is
        the memory outside the pool. */
    ghost predicate Moved(bs: seq<MemBlock>, mem: seq<Byte>, bs': seq<MemBlock>, mem': seq<Byte>) {
      && |bs| == |bs'| && |mem| == |mem'| && SameBytes(bs, mem, bs', mem')
      && (forall h :: 0 <= h < |bs| ==> bs'[h].size == bs[h].size)
      && (forall a :: 0 <= a < |mem| && !(e.start <= a < e.Limit()) ==> mem'[a] == mem[a])
    }

    /** A turn of the loop, seen from its start. */
    method SlideOn(block: nat, ghost k: nat, ghost bs: seq<MemBlock>, ghost mem: seq<Byte>) returns (next: nat)
      requires Valid() && k + 1 < |path| && path[k].handle == block && path[k].End() == e.start + Used(path[..k + 1])
      requires Moved(bs, mem, blocks[..], memory[..])
      modifies blocks, memory, this`path
      ensures Valid() && |path| == |old(path)| && next == path[k + 1].handle
      ensures path[k + 1].End() == e.start + Used(path[..k + 2]) && FreeBytes() == old(FreeBytes())
      ensures Moved(bs, mem, blocks[..], memory[..])
    {
      UsedUpdate(path, k + 1, path[k + 1].(begin := path[k].End()));
      assert path[..k + 2][..k + 1] == path[..k + 1];
      ghost var bs1, mem1 := blocks[..], memory[..];
      next := Slide(block, k);
      SameBytesTransitive(bs, mem, bs1, mem1, blocks[..], memory[..]);
    }

    /** Gives the free handle h the gap behind node `at`. */
    method Link(best: nat, ghost at: nat, h: nat, size: nat)
      requires Valid() && at < |path| && path[at].handle == best
      requires 0 < size <= Gap(e, path, at)
      requires 0 < h < blocks.Length && blocks[h].size == 0
      modifies blocks, this`path
      ensures Valid() && FreeBytes() == old(FreeBytes()) - size
      ensures blocks[h].size == size && blocks[h].begin == old(path)[at].End()
      ensures forall g :: 0 <= g < blocks.Length && g != h ==>
                blocks[g].begin == old(blocks[g].begin) && blocks[g].size == old(blocks[g].size)
    {
      ghost var bs, p := blocks[..], path;
      LinkKeepsLayout(e, bs, p, at, h, size);
      assert Stores(bs, p, at);
      blocks[h] := MemBlock(blocks[best].begin + blocks[best].size, size, blocks[best].next);
      blocks[best] := blocks[best].(next := h);
      path := InsertAfter(p, at, Node(h, p[at].End(), size));
      assert blocks[..] == Linked(bs, best, h, size);
    }

    /** Gives the lowest free handle the gap behind node `at`; NOBLOCK when every handle is taken. */
    method Insert(best: nat, ghost at: nat, size: nat) returns (handle: nat)
      requires Valid() && at < |path| && path[at].handle == best
      requires 0 < size <= Gap(e, path, at)
      modifies blocks, this`path
      ensures Valid()
      ensures handle == NOBLOCK <==> old(HandlesExhausted())
      ensures handle != NOBLOCK ==> handle !in old(Live()) && handle < blocks.Length && blocks[handle].size == size
                                    && blocks[handle].begin == old(path)[at].End()
      ensures Live() == old(Live()) + if handle == NOBLOCK then {} else {handle}
      ensures FreeBytes() == old(FreeBytes()) - if handle == NOBLOCK then 0 else size
      ensures forall h :: h in old(Live()) ==>
                blocks[h].begin == old(blocks[h].begin) && blocks[h].size == old(blocks[h].size)
      ensures forall h :: 0 < h < handle ==> h in old(Live())
    {
      handle := 1;
      while handle < blocks.Length
        invariant 1 <= handle <= blocks.Length
        invariant forall h :: 0 < h < handle ==> blocks[h].size != 0
        invariant blocks[..] == old(blocks[..]) && path == old(path)
      {
        if blocks[handle].size == 0 {
          Link(best, at, handle, size);
          return;
        }
        handle := handle + 1;
      }
      handle := NOBLOCK;
    }

    /** The path through the label `collect`. */
    method AllocAfterCollect(size: nat) returns (handle: nat)
      requires Valid() && 0 < size
      modifies blocks, memory, this`path
      ensures Valid()
      ensures handle == NOBLOCK <==> old(FreeBytes()) < size || old(HandlesExhausted())
      ensures handle != NOBLOCK ==> handle !in old(Live()) && handle < blocks.Length && blocks[handle].size == size
      ensures Live() == old(Live()) + if handle == NOBLOCK then {} else {handle}
      ensures FreeBytes() == old(FreeBytes()) - if handle == NOBLOCK then 0 else size
      ensures forall h :: h in old(Live()) ==> blocks[h].size == old(blocks[h].size) && Bytes(h) == old(Bytes(h))
      ensures forall h :: 0 < h < handle ==> h in old(Live())
      ensures forall a :: 0 <= a < memory.Length && !(e.start <= a < e.Limit()) ==> memory[a] == old(memory[a])
    {
      var last := Collect();
      assert forall h :: h in old(Live()) ==> IsLive(old(blocks[..]), h);
      assert Stores(blocks[..], path, |path| - 1);
      if e.Limit() - blocks[last].begin - blocks[last].size < size {
        return NOBLOCK;
      }
      handle := Insert(last, |path| - 1, size);
    }

    /** allocBlock.  It fails exactly when the free bytes, wherever they lie, are too few or every
        handle is taken; it never disturbs the bytes of a live handle; and when some gap is large
        enough nothing moves and the new block lies in a smallest such gap. */
    method AllocBlock(size: nat) returns (handle: nat)
      requires Valid() && 0 < size
      modifies blocks, memory, this`path
      ensures Valid()
      ensures handle == NOBLOCK <==> old(FreeBytes()) < size || old(HandlesExhausted())
      ensures handle != NOBLOCK ==> handle !in old(Live()) && handle < blocks.Length && blocks[handle].size == size
      ensures Live() == old(Live()) + if handle == NOBLOCK then {} else {handle}
      ensures FreeBytes() == old(FreeBytes()) - if handle == NOBLOCK then 0 else size
      ensures forall h :: h in old(Live()) ==> blocks[h].size == old(blocks[h].size) && Bytes(h) == old(Bytes(h))
      ensures forall h :: 0 < h < handle ==> h in old(Live())
      ensures forall a :: 0 <= a < memory.Length && !(e.start <= a < e.Limit()) ==> memory[a] == old(memory[a])
      ensures old(SomeGapFits(size)) ==> memory[..] == old(memory[..])
      ensures old(SomeGapFits(size)) ==> forall h :: h in old(Live()) ==> blocks[h].begin == old(blocks[h].begin)
      ensures old(SomeGapFits(size)) && handle != NOBLOCK ==>
                exists at: nat :: old(BestGap(at, size)) && blocks[handle].begin == old(path)[at].End()
    {
      var best, at := Search(size);
      if best < 0 {
        handle := AllocAfterCollect(size);
      } else {
        GapWithinFree(e, path, at);
        handle := Insert(best, at, size);
        assert old(BestGap(at, size));
      }
    }

    /** allocBlock(0).  A handle is given out unless all are taken, and from then on the list has no
        layout: the handle that is on it counts as free. */
    method AllocNothing() returns (handle: nat)
      requires Valid()
      modifies blocks
      ensures handle == NOBLOCK <==> old(HandlesExhausted())
      ensures handle == NOBLOCK ==> Valid() && blocks[..] == old(blocks[..])
      ensures handle != NOBLOCK ==>
                handle !in old(Live()) && forall p {:trigger Layout(e, blocks[..], p)} :: !Layout(e, blocks[..], p)
    {
      var best, at := Search(0);
      assert 0 <= Gap(e, path, 0);
      ghost var bs := blocks[..];
      handle := 1;
      while handle < blocks.Length
        invariant 1 <= handle <= blocks.Length
        invariant forall h :: 0 < h < handle ==> blocks[h].size != 0
        invariant blocks[..] == bs
      {
        if blocks[handle].size == 0 {
          assert Stores(bs, path, at);
          forall p
            ensures !Layout(e, Linked(bs, best, handle, 0), p)
          {
            EmptyBlockBreaksLayout(e, bs, path, at, handle, p);
          }
          EmptyBlockBreaksLayout(e, bs, path, at, handle, path);
          blocks[handle] := MemBlock(blocks[best].begin + blocks[best].size, 0, blocks[best].next);
          blocks[best] := blocks[best].(next := handle);
          assert blocks[..] == Linked(bs, best, handle, 0);
          return;
        }
        handle := handle + 1;
      }
      handle := NOBLOCK;
    }

    /** Takes node i off the list. */
    method Unlink(prev: nat, ghost i: nat)
      requires Valid() && 0 < i < |path| && prev == path[i - 1].handle
      modifies blocks, this`path
      ensures Valid() && FreeBytes() == old(FreeBytes()) + old(path)[i].size
      ensures Live() == old(Live()) - {old(path)[i].handle}
      ensures forall h :: h in Live() ==>
                blocks[h].begin == old(blocks[h].begin) && blocks[h].size == old(blocks[h].size)
    {
      ghost var bs, p := blocks[..], path;
      assert Stores(bs, p, i - 1) && Stores(bs, p, i);
      UnlinkKeepsLayout(e, bs, p, i);
      var f := blocks[prev].next;
      blocks[prev] := blocks[prev].(next := blocks[f].next);
      blocks[f] := MemBlock(blocks[f].begin, 0, NOBLOCK);
      path := RemoveAt(p, i);
      assert blocks[..] == Unlinked(bs, prev, f);
    }

    /** freeBlock.  A handle that is not live (NOBLOCK included) is ignored. */
    method FreeBlock(handle: nat)
      requires Valid()
      modifies blocks, this`path
      ensures Valid()
      ensures Live() == old(Live()) - {handle}
      ensures handle !in old(Live()) ==> blocks[..] == old(blocks[..]) && path == old(path)
      ensures handle in old(Live()) ==> FreeBytes() == old(FreeBytes()) + old(blocks[handle].size)
      ensures forall h :: h in Live() ==>
                blocks[h].begin == old(blocks[h].begin) && blocks[h].size == old(blocks[h].size)
      ensures forall h :: h in Live() ==> Bytes(h) == old(Bytes(h))
    {
      if handle == NOBLOCK {
        return;
      }
      var b := POOLSTART;
      ghost var k := 0;
      while true
        invariant 0 <= k < |path| && b == path[k].handle
        invariant blocks[..] == old(blocks[..]) && path == old(path)
        invariant forall i :: 0 <= i <= k ==> path[i].handle != handle
        decreases |path| - k
      {
        var next, gap := GapAfter(b, k);
        if next == handle {
          assert Stores(blocks[..], path, k + 1);
          Unlink(b, k + 1);
          return;
        }
        if next == NOBLOCK {
          assert !OnPath(path, handle);
          return;
        }
        b, k := next, k + 1;
      }
    }

    /** resizeBlock with a position and a size: keep that window of the block. */
    method ResizeBlockTo(handle: nat, position: nat, size: nat)
      requires Valid() && handle in Live() && 0 < size && position + size <= blocks[handle].size
      modifies blocks, this`path
      ensures Valid() && Live() == old(Live())
      ensures |old(Bytes(handle))| == old(blocks[handle].size)
      ensures blocks[handle].size == size && Bytes(handle) == old(Bytes(handle))[position..position + size]
      ensures FreeBytes() == old(FreeBytes()) + old(blocks[handle].size) - size
      ensures forall h :: h in Live() && h != handle ==> blocks[h] == old(blocks[h]) && Bytes(h) == old(Bytes(h))
    {
      ghost var bs, p := blocks[..], path;
      ghost var i := Locate(e, bs, p, handle);
      ghost var n := Node(handle, bs[handle].begin + position, size);
      PathIsSorted(e, p, i - 1, i);
      UpdateKeepsLayout(e, bs, p, i, n);
      UsedUpdate(p, i, n);
      SliceOfSlice(memory[..], bs[handle].begin, bs[handle].size, position, size);
      blocks[handle] := MemBlock(blocks[handle].begin + position, size, blocks[handle].next);
      path := p[i := n];
      assert blocks[..] == bs[handle := bs[handle].(begin := n.begin, size := n.size)];
    }

    /** resizeBlock with a position: drop that many bytes from the front. */
    method ResizeBlock(handle: nat, position: nat)
      requires Valid() && handle in Live() && position < blocks[handle].size
      modifies blocks, this`path
      ensures Valid() && Live() == old(Live())
      ensures |old(Bytes(handle))| == old(blocks[handle].size)
      ensures blocks[handle].size == old(blocks[handle].size) - position
      ensures Bytes(handle) == old(Bytes(handle))[position..]
      ensures FreeBytes() == old(FreeBytes()) + position
      ensures forall h :: h in Live() && h != handle ==> blocks[h] == old(blocks[h]) && Bytes(h) == old(Bytes(h))
    {
      ResizeBlockTo(handle, position, blocks[handle].size - position);
    }

    method BlockSize(handle: nat) returns (size: nat)
      requires Valid() && handle < blocks.Length
      ensures size == blocks[handle].size
      ensures size != 0 ==> handle in Live()
      ensures handle in Live() ==> size == |Bytes(handle)|
    {
      assert Stores(blocks[..], path, 0);
      if blocks[handle].size != 0 {
        ghost var i := Locate(e, blocks[..], path, handle);
      }
      size := blocks[handle].size;
    }

    /** readPacket: copy up to `len` bytes of the block, from `position` on, into the buffer. */
    method ReadPacket(handle: nat, position: nat, buffer: array<Byte>, offset: nat, len: nat) returns (n: nat)
      requires Valid() && handle in Live() && position <= blocks[handle].size
      requires offset + len <= buffer.Length && buffer != memory
      modifies buffer
      ensures |Bytes(handle)| == blocks[handle].size
      ensures n == if len > blocks[handle].size - position then blocks[handle].size - position else len
      ensures buffer[offset..offset + n] == Bytes(handle)[position..position + n]
      ensures forall i :: 0 <= i < buffer.Length && !(offset <= i < offset + n) ==> buffer[i] == old(buffer[i])
    {
      ghost var at := Locate(e, blocks[..], path, handle);
      n := if len > blocks[handle].size - position then blocks[handle].size - position else len;
      var start := blocks[handle].begin + position;
      forall i | 0 <= i < n {
        buffer[offset + i] := memory[start + i];
      }
      assert buffer[offset..offset + n] == memory[start..start + n];
      SliceOfSlice(memory[..], blocks[handle].begin, blocks[handle].size, position, n);
    }

    /** writeBuffer: store `data` from address `start` on. */
    method WriteBuffer(start: nat, data: seq<Byte>)
      requires start + |data| <= memory.Length
      modifies memory
      ensures forall a :: 0 <= a < |data| ==> memory[start + a] == data[a]
      ensures forall a :: 0 <= a < memory.Length && !(start <= a < start + |data|) ==> memory[a] == old(memory[a])
    {
      var i := 0;
      while i < |data|
        invariant 0 <= i <= |data|
        invariant forall a :: 0 <= a < i ==> memory[start + a] == data[a]
        invariant forall a :: 0 <= a < memory.Length && !(start <= a < start + i) ==> memory[a] == old(memory[a])
      {
        memory[start + i] := data[i];
        i := i + 1;
      }
    }

    /** writePacket: copy as much of `data` as fits into the block from `position` on. */
    method WritePacket(handle: nat, position: nat, data: seq<Byte>) returns (n: nat)
      requires Valid() && handle in Live() && position <= blocks[handle].size
      modifies memory
      ensures Valid() && |old(Bytes(handle))| == blocks[handle].size
      ensures n == if |data| > blocks[handle].size - position then blocks[handle].size - position else |data|
      ensures Bytes(handle) == old(Bytes(handle))[..position] + data[..n] + old(Bytes(handle))[position + n..]
      ensures forall h :: h in Live() && h != handle ==> Bytes(h) == old(Bytes(h))
    {
      ghost var bs, p := blocks[..], path;
      ghost var at := Locate(e, bs, p, handle);
      n := if |data| > blocks[handle].size - position then blocks[handle].size - position else |data|;
      WriteBuffer(blocks[handle].begin + position, data[..n]);
      forall h | h in Live() && h != handle
        ensures Bytes(h) == old(Bytes(h))
      {
        OthersUntouched(e, bs, p, handle, h, old(memory[..]), memory[..]);
      }
      WrittenSlice(old(memory[..]), memory[..], bs[handle].begin, bs[handle].size, position, data[..n]);
    }
  }
}
