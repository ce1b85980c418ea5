/**
 The table of connections: 32-bit addition on bytes, the search for a local port, the choice of a
 slot, demultiplexing, and the invariant that no two live connections answer to the same segment.
*/
module TcpTable {
  import opened Basics
  import opened Tcp
  import opened TcpEngine

  // ---------------------------------------------------------------------------------------------
  // uip_add32
  // ---------------------------------------------------------------------------------------------

  /** Four bytes in network order. */
  function Value(b: seq<Byte>): Seq32
    requires |b| == 4
  {
    var x: int, y: int, z: int, w: int := b[0], b[1], b[2], b[3];
    x * 0x1000000 + y * 0x10000 + z * 0x100 + w
  }

  function Weight(i: nat): nat { if i == 0 then 0x1000000 else if i == 1 then 0x10000 else if i == 2 then 0x100 else 1 }

  /** One is added to byte i, and the carry runs to the bytes before it; a carry out of the first
      byte is lost.  These are the nested ifs of the additions below. */
  method Carry(b: array<Byte>, i: nat) returns (ghost over: nat)
    requires b.Length == 4 && i < 4
    modifies b
    ensures Value(b[..]) + TWO32 * over == old(Value(b[..])) + Weight(i)
    ensures forall j :: i < j < 4 ==> b[j] == old(b[j])
  {
    b[i] := NextByte(b[i]);
    over := 0;
    if b[i] == 0 {
      if i == 0 {
        over := 1;
      } else {
        over := Carry(b, i - 1);
      }
    }
  }

  /** The sum lands in the accumulator, byte by byte with carries. */
  method Add32(op32: array<Byte>, op16: Port, acc: array<Byte>)
    requires op32.Length == 4 && acc.Length == 4 && op32 != acc
    modifies acc
    ensures Value(acc[..]) == Plus(Value(op32[..]), op16)
  {
    var low: Byte, high: Byte := op16 % 256, op16 / 256;
    acc[0], acc[1], acc[2], acc[3] := op32[0], op32[1], AddByte(op32[2], high), AddByte(op32[3], low);
    ghost var over := 0;
    if acc[2] < high {
      over := Carry(acc, 1);
    }
    if acc[3] < low {
      ghost var more := Carry(acc, 2);
      over := over + more;
    }
    Wraps(Value(acc[..]), over, Value(op32[..]) + op16);
  }

  /** The sum of two bytes is cut to eight bits, and is below an operand exactly when it was cut. */
  function AddByte(a: Byte, b: Byte): (c: Byte)
    ensures var x: int, y: int := a, b; x + y == if c < b then c + 256 else c
  {
    var x: int, y: int := a, b;
    (x + y) % 256
  }

  lemma Wraps(v: Seq32, over: nat, total: int)
    requires v + TWO32 * over == total
    ensures v == total % TWO32
  {
  }

  /** The increment of the initial sequence number at every timer event. */
  method Increment(iss: array<Byte>)
    requires iss.Length == 4
    modifies iss
    ensures Value(iss[..]) == Plus(old(Value(iss[..])), 1)
  {
    ghost var over := Carry(iss, 3);
    assert Value(iss[..]) + TWO32 * over == old(Value(iss[..])) + 1;
  }

  // ---------------------------------------------------------------------------------------------
  // Local ports
  // ---------------------------------------------------------------------------------------------

  const FIRST := 4096
  const LIMIT := 32000
  const CYCLE := 27904

  function NextPort(p: Port): Port { if p + 1 >= LIMIT then FIRST else p + 1 }

  /** The k-th port tried after `last`. */
  function Candidate(last: Port, k: nat): Port
    requires last < LIMIT
  {
    if last + k < LIMIT then last + k else FIRST + (last + k - LIMIT) % CYCLE
  }

  lemma CandidateStep(last: Port, k: nat)
    requires last < LIMIT
    ensures Candidate(last, k + 1) == NextPort(Candidate(last, k)) && Candidate(last, k) < LIMIT
  {
  }

  /** No port comes up twice within one turn of the cycle. */
  lemma CandidatesDiffer(last: Port, j: nat, k: nat)
    requires last < LIMIT && 0 < j < k <= CYCLE
    ensures Candidate(last, j) != Candidate(last, k)
  {
  }

  /** The ports go up to 31999 and then on from 4096. */
  lemma CandidateRange(last: Port, k: nat)
    requires last < LIMIT && 0 < k
    ensures Candidate(last, k) < 32000 && (Candidate(last, k) == last + k || 4096 <= Candidate(last, k))
  {
  }

  predicate Uses(c: Conn, port: Port) { c.Active() && c.lport == port }

  /** The k ports tried so far, all in use, belong to k different connections. */
  lemma {:induction false} TriedAreFew(conns: seq<Conn>, tried: set<Port>)
    requires forall p :: p in tried ==> exists i :: 0 <= i < |conns| && Uses(conns[i], p)
    ensures |tried| <= |conns|
  {
    if conns != [] {
      var c := conns[0];
      var rest := tried - {c.lport};
      forall p | p in rest
        ensures exists i :: 0 <= i < |conns[1..]| && Uses(conns[1..][i], p)
      {
        var i :| 0 <= i < |conns| && Uses(conns[i], p);
        assert conns[1..][i - 1] == conns[i];
      }
      TriedAreFew(conns[1..], rest);
    } else {
      assert tried == {};
    }
  }

  /** The first k candidates were tried and are in use. */
  ghost predicate Tried(start: Port, k: nat, tried: set<Port>, conns: seq<Conn>)
    requires start < LIMIT
  {
    && |tried| == k
    && (forall p :: p in tried ==> exists j: nat :: 0 < j <= k && p == Candidate(start, j))
    && (forall p :: p in tried ==> exists i :: 0 <= i < |conns| && Uses(conns[i], p))
  }

  lemma TryNext(start: Port, k: nat, tried: set<Port>, conns: seq<Conn>, port: Port)
    requires start < LIMIT && Tried(start, k, tried, conns) && |conns| < CYCLE
    requires port == Candidate(start, k + 1) && exists i :: 0 <= i < |conns| && Uses(conns[i], port)
    ensures Tried(start, k + 1, tried + {port}, conns) && k < |conns|
  {
    TriedAreFew(conns, tried);
    forall j: nat | 0 < j <= k
      ensures Candidate(start, j) != port
    {
      CandidatesDiffer(start, j, k + 1);
    }
    TriedAreFew(conns, tried + {port});
  }

  // ---------------------------------------------------------------------------------------------
  // Slots
  // ---------------------------------------------------------------------------------------------

  /** A slot that may be given to a new connection. */
  predicate Reusable(c: Conn) { !c.stopped && (c.state == Closed || c.state == TimeWait) }

  /** The first closed slot, or else the one longest in time-wait. */
  ghost predicate BestSlot(conns: seq<Conn>, k: nat) {
    && k < |conns| && Reusable(conns[k])
    && (conns[k].Active() ==>
          forall i :: 0 <= i < |conns| ==>
            conns[i].Active() && (Reusable(conns[i]) ==> conns[i].timer <= conns[k].timer))
    && (!conns[k].Active() ==> forall i :: 0 <= i < k ==> conns[i].Active())
  }

  // ---------------------------------------------------------------------------------------------
  // Demultiplexing
  // ---------------------------------------------------------------------------------------------

  predicate Matches(c: Conn, s: Segment) {
    c.Active() && s.destport == c.lport && s.srcport == c.rport && s.srcip == c.ripaddr
  }

  /** Two live connections that would answer to the same segment. */
  predicate Clash(a: Conn, b: Conn) {
    a.Active() && b.Active() && a.lport == b.lport && a.rport == b.rport && a.ripaddr == b.ripaddr
  }

  ghost predicate Distinct(conns: seq<Conn>) {
    forall i, j :: 0 <= i < |conns| && 0 <= j < |conns| && i != j ==> !Clash(conns[i], conns[j])
  }

  lemma AtMostOneMatch(conns: seq<Conn>, s: Segment, i: nat, j: nat)
    requires Distinct(conns) && i < |conns| && j < |conns| && Matches(conns[i], s) && Matches(conns[j], s)
    ensures i == j
  {
    assert Clash(conns[i], conns[j]);
  }

  /** The record answers to exactly the segments between these two ends. */
  ghost predicate AnswersTo(c: Conn, lport: Port, rport: Port, ripaddr: int) {
    forall s: Segment {:trigger Matches(c, s)} ::
      Matches(c, s) <==> s.destport == lport && s.srcport == rport && s.srcip == ripaddr
  }

  /** One control segment is outstanding, under the initial sequence number, with its first timeout. */
  predicate Fresh(c: Conn, iss: Seq32, timer: Byte) {
    && c.sndNxt == iss && c.len == 1 && c.nrtx == 0 && c.timer == timer && c.rto == RTO && !c.stopped
  }

  /** What uip_connect leaves in a slot: a SYN to send at the second tick, and the segments of the other end. */
  lemma ConnectRecordIs(slot: Conn, iss: Seq32, lport: Port, rport: Port, ripaddr: int)
    ensures var c := ConnectRecord(slot, iss, lport, rport, ripaddr);
            && c.state == SynSent && Fresh(c, iss, 1) && AnswersTo(c, lport, rport, ripaddr)
            && c.mss == c.initialmss == TCP_MSS
  {
  }

  /** What a SYN leaves in a slot: its answer outstanding, the next sequence number of the peer, and the segments
      of the end the SYN came from; the segment size is the slot's old one unless the SYN says another. */
  lemma ListenRecordIs(slot: Conn, iss: Seq32, s: Segment)
    ensures var c := ListenRecord(slot, iss, s);
            && c.state == SynRcvd && Fresh(c, iss, RTO) && c.rcvNxt == Plus(s.seqno, 1)
            && AnswersTo(c, s.destport, s.srcport, s.srcip)
            && (s.mssOption == NoMss ==> c.mss == slot.mss && c.initialmss == slot.initialmss)
            && (s.mssOption.Mss? ==> c.mss == c.initialmss == Min(s.mssOption.value, TCP_MSS))
  {
  }

  predicate SameKey(c: Conn, d: Conn) { c.lport == d.lport && c.rport == d.rport && c.ripaddr == d.ripaddr }

  lemma ResumeKeepsKey(c: Conn, after: After, r: Reply)
    ensures SameKey(c, Resume(c, after, r).conn)
  {
  }

  lemma SegmentKeepsKey(c: Conn, s: Segment, rtt: Byte)
    ensures SameKey(c, OnSegment(c, s, rtt).conn)
  {
  }

  /** No step changes whom a connection answers to. */
  lemma StepKeepsKey(c: Conn, e: Event, r: Reply)
    ensures SameKey(c, Step(c, e, r).conn)
  {
    if e.Input? {
      SegmentKeepsKey(c, e.s, e.rtt);
    }
    var b := Begin(c, e);
    if b.Call? {
      ResumeKeepsKey(b.conn, b.after, r);
    }
  }

  lemma UpdateKeepsDistinct(conns: seq<Conn>, k: nat, d: Conn)
    requires Distinct(conns) && k < |conns|
    requires forall i :: 0 <= i < |conns| && i != k ==> !Clash(conns[i], d)
    ensures Distinct(conns[k := d])
  {
  }

  /** uip_conns, lastport, iss and the listening ports. */
  class Stack {
    const conns: array<Conn>
    var lastport: Port
    var iss: Seq32
    const listening: seq<Port>

    /** Fewer connections than ports in the cycle; and no two live connections clash. */
    ghost predicate Valid()
      reads this, conns
    {
      conns.Length < CYCLE && lastport < LIMIT && Distinct(conns[..])
    }

    constructor (n: nat, ports: seq<Port>, blank: Conn)
      requires n < CYCLE && !blank.Active()
      ensures Valid() && fresh(conns) && conns.Length == n && listening == ports
    {
      conns := new Conn[n](_ => blank);
      listening := ports;
      lastport := 1024;
      iss := 0;
    }

    /** The search that the label `again` belongs to: it ends because each port it rejects belongs to
        a connection of its own. */
    method FindPort()
      requires Valid()
      modifies this`lastport
      ensures Valid() && forall i :: 0 <= i < conns.Length ==> !Uses(conns[i], lastport)
      ensures exists k: nat :: 0 < k <= conns.Length + 1 && lastport == Candidate(old(lastport), k)
    {
      ghost var start, k: nat, tried := lastport, 0, {};
      var used := true;
      while used
        invariant Valid() && lastport == Candidate(start, k) && k <= conns.Length + 1 && (k == 0 ==> used)
        invariant used ==> Tried(start, k, tried, conns[..])
        invariant !used ==> forall i :: 0 <= i < conns.Length ==> !Uses(conns[i], lastport)
        decreases conns.Length + 1 - k
      {
        used, tried := TryPort(start, k, tried);
        k := k + 1;
      }
    }

    /** The next candidate, and whether a connection uses it. */
    method TryPort(ghost start: Port, ghost k: nat, ghost tried: set<Port>)
      returns (used: bool, ghost tried': set<Port>)
      requires Valid() && start < LIMIT && lastport == Candidate(start, k) && Tried(start, k, tried, conns[..])
      modifies this`lastport
      ensures Valid() && lastport == Candidate(start, k + 1) && k <= conns.Length
      ensures used ==> Tried(start, k + 1, tried', conns[..])
      ensures !used ==> forall i :: 0 <= i < conns.Length ==> !Uses(conns[i], lastport)
    {
      TriedAreFew(conns[..], tried);
      CandidateStep(start, k);
      CandidateStep(start, k + 1);
      lastport := NextPort(lastport);
      used := InUse(lastport);
      tried' := tried + {lastport};
      if used {
        TryNext(start, k, tried, conns[..], lastport);
      }
    }

    method InUse(port: Port) returns (used: bool)
      ensures used <==> exists i :: 0 <= i < |conns[..]| && Uses(conns[..][i], port)
    {
      for c := 0 to conns.Length
        invariant forall i :: 0 <= i < c ==> !Uses(conns[i], port)
      {
        if conns[c].Active() && conns[c].lport == port {
          assert Uses(conns[..][c], port);
          return true;
        }
      }
      return false;
    }

    /** The slot search shared by connect and listen. */
    method FindSlot() returns (slot: int)
      ensures slot == -1 <==> forall i :: 0 <= i < conns.Length ==> !Reusable(conns[i])
      ensures slot != -1 ==> 0 <= slot && BestSlot(conns[..], slot)
    {
      slot := -1;
      for c := 0 to conns.Length
        invariant -1 <= slot < c
        invariant forall i :: 0 <= i < c ==> conns[i].Active()
        invariant slot == -1 ==> forall i :: 0 <= i < c ==> !Reusable(conns[i])
        invariant slot != -1 ==> Reusable(conns[slot]) && forall i :: 0 <= i < c && Reusable(conns[i]) ==>
                    conns[i].timer <= conns[slot].timer
      {
        if !conns[c].Active() {
          return c;
        }
        if conns[c].state == TimeWait && !conns[c].stopped {
          if slot == -1 || conns[c].timer > conns[slot].timer {
            slot := c;
          }
        }
      }
    }

    /** uip_connect */
    method Connect(ripaddr: int, rport: Port) returns (slot: int)
      requires Valid()
      modifies this`lastport, conns
      ensures Valid()
      ensures slot == -1 <==> forall i :: 0 <= i < conns.Length ==> !Reusable(old(conns[i]))
      ensures slot == -1 ==> conns[..] == old(conns[..])
      ensures slot != -1 ==>
                0 <= slot && BestSlot(old(conns[..]), slot) &&
                (forall i :: 0 <= i < conns.Length ==> !Uses(old(conns[i]), lastport))
      ensures slot != -1 ==>
                conns[..] == old(conns[..])[slot := ConnectRecord(old(conns[..])[slot], iss, lastport, rport, ripaddr)]
      ensures slot != -1 ==>
                conns[slot].state == SynSent && Fresh(conns[slot], iss, 1) &&
                AnswersTo(conns[slot], lastport, rport, ripaddr)
    {
      FindPort();
      slot := FindSlot();
      if slot != -1 {
        ghost var was := conns[..];
        conns[slot] := ConnectRecord(conns[slot], iss, lastport, rport, ripaddr);
        ConnectRecordIs(was[slot], iss, lastport, rport, ripaddr);
        UpdateKeepsDistinct(was, slot, conns[slot]);
      }
    }

    /** The loop over the table: the first match, which is the only one. */
    method Demultiplex(s: Segment) returns (k: int)
      requires Valid()
      ensures k == -1 ==> forall i :: 0 <= i < conns.Length ==> !Matches(conns[i], s)
      ensures k != -1 ==> 0 <= k < conns.Length && forall i :: 0 <= i < conns.Length ==>
                (Matches(conns[i], s) <==> i == k)
    {
      for c := 0 to conns.Length
        invariant forall i :: 0 <= i < c ==> !Matches(conns[i], s)
      {
        if Matches(conns[c], s) {
          forall i | 0 <= i < conns.Length && Matches(conns[i], s)
            ensures i == c
          {
            AtMostOneMatch(conns[..], s, i, c);
          }
          return c;
        }
      }
      return -1;
    }

    method Listens(port: Port) returns (yes: bool)
      ensures yes <==> port in listening
    {
      for c := 0 to |listening|
        invariant port !in listening[..c]
      {
        if port == listening[c] {
          return true;
        }
      }
      assert listening[..|listening|] == listening;
      return false;
    }

    /** One connection of the table goes through the engine. */
    method Step(k: nat, e: Event, app: Application) returns (emit: Emit)
      requires Valid() && k < conns.Length && (conns[k].Active() || !e.Input?)
      modifies conns
      ensures Valid()
      ensures var r := Stepped(old(conns[k]), e, app); emit == r.emit && conns[..] == old(conns[..])[k := r.conn]
    {
      ghost var was := conns[..];
      var engine := new Engine(conns[k]);
      emit := engine.Process(e, app);
      KeepsDistinct(was, k, e, app);
      conns[k] := engine.Record();
    }

    /** TCP input: the one connection the segment is for makes a step; else a SYN for a listening port
        opens a connection in the best slot, and all else is answered as Unmatched says. */
    method Input(s: Segment, rtt: Byte, app: Application) returns (emit: Emit)
      requires Valid()
      modifies conns
      ensures Valid()
      ensures forall k :: 0 <= k < conns.Length && Matches(old(conns[k]), s) ==>
                var r := Stepped(old(conns[k]), Event.Input(s, rtt), app);
                emit == r.emit && conns[..] == old(conns[..])[k := r.conn]
      ensures (forall k :: 0 <= k < conns.Length ==> !Matches(old(conns[k]), s)) ==>
                Unmatched(old(conns[..]), listening, iss, s, conns[..], emit)
      ensures (forall k :: 0 <= k < conns.Length ==> !Matches(old(conns[k]), s)) && emit.Syn? ==>
                Accepted(old(conns[..]), conns[..], iss, s)
    {
      var k := Demultiplex(s);
      if k != -1 {
        emit := Step(k, Event.Input(s, rtt), app);
      } else {
        emit := Accept(s);
        if emit.Syn? {
          AcceptedIs(old(conns[..]), listening, iss, s, conns[..], emit);
        }
      }
    }

    /** A segment that matches no connection. */
    method Accept(s: Segment) returns (emit: Emit)
      requires Valid() && forall k :: 0 <= k < conns.Length ==> !Matches(conns[k], s)
      modifies conns
      ensures Valid() && Unmatched(old(conns[..]), listening, iss, s, conns[..], emit)
    {
      ghost var was := conns[..];
      if !s.SynOnly() {
        return if s.rst then Nothing else Reset;
      }
      var listens := Listens(s.destport);
      if !listens {
        return Reset;
      }
      var slot := FindSlot();
      if slot == -1 {
        return Nothing;
      }
      conns[slot] := ListenRecord(conns[slot], iss, s);
      UpdateKeepsDistinct(was, slot, conns[slot]);
      assert conns[..] == was[slot := ListenRecord(was[slot], iss, s)];
      return Syn(iss, Plus(s.seqno, 1), true);
    }

    /** The periodic timer or a poll request for one connection. */
    method Serve(k: nat, e: Event, app: Application) returns (emit: Emit)
      requires Valid() && k < conns.Length && !e.Input?
      modifies this`iss, conns
      ensures Valid() && iss == if e.Timer? then Plus(old(iss), 1) else old(iss)
      ensures var r := Stepped(old(conns[k]), e, app); emit == r.emit && conns[..] == old(conns[..])[k := r.conn]
    {
      if e.Timer? {
        iss := Plus(iss, 1);
      }
      emit := Step(k, e, app);
    }
  }

  /** The step of the model, with the application's reply. */
  function Stepped(c: Conn, e: Event, app: Application): Result { Tcp.Step(c, e, app(Begin(c, e))) }

  /** What becomes of the table and what leaves when no connection matches. */
  ghost predicate Unmatched(was: seq<Conn>, listening: seq<Port>, iss: Seq32, s: Segment, conns: seq<Conn>,
                            emit: Emit) {
    if !s.SynOnly() then conns == was && emit == if s.rst then Nothing else Reset
    else if s.destport !in listening then conns == was && emit == Reset
    else if forall k :: 0 <= k < |was| ==> !Reusable(was[k]) then conns == was && emit == Nothing
    else
      && emit == Syn(iss, Plus(s.seqno, 1), true)
      && exists k: nat :: BestSlot(was, k) && conns == was[k := ListenRecord(was[k], iss, s)]
  }

  /** A slot was reused for the end the SYN came from, and the others are as they were. */
  ghost predicate Accepted(was: seq<Conn>, conns: seq<Conn>, iss: Seq32, s: Segment) {
    |conns| == |was| &&
    exists k: nat :: BestSlot(was, k) && Opens(conns[k], iss, s) && conns == was[k := conns[k]]
  }

  ghost predicate Opens(c: Conn, iss: Seq32, s: Segment) {
    && c.state == SynRcvd && Fresh(c, iss, RTO) && c.rcvNxt == Plus(s.seqno, 1)
    && AnswersTo(c, s.destport, s.srcport, s.srcip)
  }

  lemma AcceptedIs(was: seq<Conn>, listening: seq<Port>, iss: Seq32, s: Segment, conns: seq<Conn>, emit: Emit)
    requires Unmatched(was, listening, iss, s, conns, emit) && emit.Syn?
    ensures Accepted(was, conns, iss, s)
  {
    var k: nat :| BestSlot(was, k) && conns == was[k := ListenRecord(was[k], iss, s)];
    ListenRecordIs(was[k], iss, s);
    assert conns[k] == ListenRecord(was[k], iss, s);
  }

  /** A step keeps live connections distinct; a closed one it leaves closed, unless a segment came. */
  lemma KeepsDistinct(conns: seq<Conn>, k: nat, e: Event, app: Application)
    requires Distinct(conns) && k < |conns| && (conns[k].Active() || !e.Input?)
    ensures Distinct(conns[k := Stepped(conns[k], e, app).conn])
  {
    if conns[k].Active() {
      StepKeepsKey(conns[k], e, app(Begin(conns[k], e)));
      ReplaceKeepsDistinct(conns, k, Stepped(conns[k], e, app).conn);
    } else {
      assert Stepped(conns[k], e, app).conn == conns[k];
    }
  }

  lemma ReplaceKeepsDistinct(conns: seq<Conn>, k: nat, d: Conn)
    requires Distinct(conns) && k < |conns| && conns[k].Active() && SameKey(conns[k], d)
    ensures Distinct(conns[k := d])
  {
    forall i | 0 <= i < |conns| && i != k
      ensures !Clash(conns[i], d)
    {
      assert !Clash(conns[i], conns[k]);
    }
    UpdateKeepsDistinct(conns, k, d);
  }
}
