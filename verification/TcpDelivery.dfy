/**
 In-order delivery: whatever the network loses, repeats or reorders, the application is given the
 peer's bytes in order, without a gap and without a repetition.
*/
module TcpDelivery {
  import opened Basics
  import opened Tcp

  /** The peer: its initial sequence number and the whole stream it will ever send. */
  datatype Peer = Peer(irs: Seq32, stream: seq<Byte>)

  /** A segment the peer really sent, at byte offset `off` of its stream.  The SYN stands at -1. */
  ghost predicate Truthful(p: Peer, s: Segment, off: int) {
    && -1 <= off
    && s.seqno == (p.irs + 1 + off) % TWO32
    && (s.syn ==> off == -1)
    && (!s.syn ==> 0 <= off && off + |s.payload| <= |p.stream| && s.payload == p.stream[off..off + |s.payload|])
    && (s.fin ==> !s.syn && off + |s.payload| == |p.stream|)
  }

  /** Not older or newer than the receiver's position by the whole sequence space. */
  predicate Fresh(off: int, at: int) { -TWO32 < off - at < TWO32 }

  /** What the network may bring: any reset, anything without content, and what the peer really sent. */
  ghost predicate Arrives(p: Peer, c: Conn, s: Segment, off: int, at: int) {
    || s.rst
    || (s.payload == [] && !s.syn && !s.fin)
    || (Truthful(p, s, off) && (c.state == SynSent || c.state == Closed || Fresh(off, at)))
  }

  ghost predicate IsPrefix(a: seq<Byte>, b: seq<Byte>) { |a| <= |b| && a == b[..|a|] }

  /** The receiver stands at offset `at`, and has handed over `got`. */
  ghost predicate Position(p: Peer, c: Conn, got: seq<Byte>, at: int) {
    && (c.state == SynSent ==> got == [])
    && (c.state != SynSent && c.state != Closed ==> 0 <= at && c.rcvNxt == (p.irs + 1 + at) % TWO32)
    && (c.state == SynRcvd ==> at == 0 && got == [])
    && (c.state == Established ==> at <= |p.stream| && got == p.stream[..at])
    && (c.state == FinWait1 || c.state == FinWait2 ==> at <= |p.stream|)
    && (c.state == Closing || c.state == TimeWait || c.state == LastAck ==> at == |p.stream| + 1)
    && (c.state == LastAck ==> got == p.stream)
    && IsPrefix(got, p.stream)
  }

  /** How far a segment moves the receiver. */
  function Advance(c: Conn, s: Segment, at: int): int {
    if s.rst || OutOfSequence(c, s) then at
    else
      var acked := Acks(c, s);
      var n := |s.payload|;
      match c.state
      case SynRcvd => if acked then at + n else at
      case SynSent => 0
      case Established =>
        if s.fin && !c.stopped then (if c.len > 0 && !acked then at else at + n + 1)
        else if c.stopped then at else at + n
      case FinWait1 => at + n + (if s.fin then 1 else 0)
      case FinWait2 => at + n + (if s.fin then 1 else 0)
      case _ => at
  }

  function Next(c: Conn, e: Event, at: int): int { if e.Input? then Advance(c, e.s, at) else at }

  /** Equal sequence numbers of positions less than the sequence space apart are equal positions. */
  lemma SameOffset(irs: Seq32, a: int, b: int)
    requires Fresh(a, b) && -1 <= a && 0 <= b
    requires (irs + 1 + a) % TWO32 == (irs + 1 + b) % TWO32
    ensures a == b
  {
    var d := a - b;
    assert d % TWO32 == 0;
  }

  lemma PlusIs(irs: Seq32, at: int, x: Seq32, n: nat)
    requires -1 <= at && x == (irs + 1 + at) % TWO32
    ensures Plus(x, n) == (irs + 1 + at + n) % TWO32
  {
  }

  /** What a segment in sequence carries is the next piece of the stream. */
  lemma NextPiece(p: Peer, s: Segment, off: int, got: seq<Byte>, at: int)
    requires 0 <= at <= |p.stream| && got == p.stream[..at]
    requires s.payload != [] ==> Truthful(p, s, off) && off == at && !s.syn
    ensures at + |s.payload| <= |p.stream| && got + s.payload == p.stream[..at + |s.payload|]
  {
    if s.payload == [] {
      assert got + s.payload == got;
    }
  }

  lemma InSequence(p: Peer, c: Conn, s: Segment, off: int, at: int)
    requires Arrives(p, c, s, off, at) && !s.rst && 0 <= at && c.rcvNxt == (p.irs + 1 + at) % TWO32
    requires c.state != SynSent && c.state != Closed && !OutOfSequence(c, s)
    ensures s.payload != [] || s.fin ==> Truthful(p, s, off) && off == at
    ensures !s.syn
  {
    if s.payload != [] || s.syn || s.fin {
      SameOffset(p.irs, off, at);
    }
  }

  /** The application's reply moves neither the receiver nor what it was given. */
  lemma AnswerKeepsPosition(p: Peer, c: Conn, r: Reply, got: seq<Byte>, at: int)
    requires c.state == Established && Position(p, c, got, at)
    ensures Position(p, Resume(c, AppSend, r).conn, got, at)
    ensures Position(p, Resume(c, AppRexmit, r).conn, got, at)
  {
  }

  lemma TimerKeepsPosition(p: Peer, c: Conn, r: Reply, got: seq<Byte>, at: int)
    requires Position(p, c, got, at)
    ensures Delivered(c, Timer) == [] && Position(p, Step(c, Timer, r).conn, got, at)
  {
    if c.state == Established && OnTimer(c).Call? && OnTimer(c).after.AppSend? {
      AnswerKeepsPosition(p, c, r, got, at);
    }
  }

  lemma PollKeepsPosition(p: Peer, c: Conn, r: Reply, got: seq<Byte>, at: int)
    requires Position(p, c, got, at)
    ensures Delivered(c, PollRequest) == [] && Position(p, Step(c, PollRequest, r).conn, got, at)
  {
    if c.state == Established {
      AnswerKeepsPosition(p, c, r, got, at);
    }
  }

  lemma AcceptingKeepsPosition(p: Peer, c: Conn, e: Event, r: Reply, off: int, got: seq<Byte>, at: int)
    requires e.Input? && Arrives(p, c, e.s, off, at) && Position(p, c, got, at)
    requires c.state == SynRcvd
    ensures Position(p, Step(c, e, r).conn, got + Delivered(c, e), Advance(c, e.s, at))
  {
    var s, n := e.s, |e.s.payload|;
    assert got == [] && got + [] == got;
    if !s.rst && !OutOfSequence(c, s) && Acks(c, s) {
      var d := OnSegment(c, s, e.rtt).conn;
      InSequence(p, c, s, off, at);
      NextPiece(p, s, off, got, at);
      PlusIs(p.irs, at, c.rcvNxt, n);
      AnswerKeepsPosition(p, d, r, got + s.payload, at + n);
      assert n == 0 ==> s.payload == [];
    }
  }

  lemma ConnectingKeepsPosition(p: Peer, c: Conn, e: Event, r: Reply, off: int, got: seq<Byte>, at: int)
    requires e.Input? && Arrives(p, c, e.s, off, at) && Position(p, c, got, at)
    requires c.state == SynSent
    ensures Position(p, Step(c, e, r).conn, got + Delivered(c, e), Advance(c, e.s, at))
  {
    var s := e.s;
    assert got == [] && got + [] == got;
    if !s.rst && !OutOfSequence(c, s) && Acks(c, s) && s.SynAck() {
      PlusIs(p.irs, -1, s.seqno, 1);
      AnswerKeepsPosition(p, OnSegment(c, s, e.rtt).conn, r, [], 0);
    }
  }

  lemma EstablishedKeepsPosition(p: Peer, c: Conn, e: Event, r: Reply, off: int, got: seq<Byte>, at: int)
    requires e.Input? && Arrives(p, c, e.s, off, at) && Position(p, c, got, at)
    requires c.state == Established
    ensures Position(p, Step(c, e, r).conn, got + Delivered(c, e), Advance(c, e.s, at))
  {
    var s, n := e.s, |e.s.payload|;
    assert got + [] == got;
    if !s.rst && !OutOfSequence(c, s) {
      var q := OnSegment(c, s, e.rtt);
      InSequence(p, c, s, off, at);
      NextPiece(p, s, off, got, at);
      assert n == 0 ==> s.payload == [];
      PlusIs(p.irs, at, c.rcvNxt, n);
      PlusIs(p.irs, at, c.rcvNxt, 1 + n);
      if q.Call? && q.after.AppSend? {
        AnswerKeepsPosition(p, q.conn, r, got + Delivered(c, e), Advance(c, s, at));
      }
    }
  }

  /** Where the receiver stands after a segment in sequence and its FIN. */
  lemma CountsOn(p: Peer, c: Conn, s: Segment, off: int, at: int)
    requires c.state == FinWait1 || c.state == FinWait2
    requires Arrives(p, c, s, off, at) && !s.rst && !OutOfSequence(c, s) && 0 <= at <= |p.stream| &&
             c.rcvNxt == (p.irs + 1 + at) % TWO32
    ensures var n := |s.payload|;
            && at + n <= |p.stream| && Plus(c.rcvNxt, n) == (p.irs + 1 + (at + n)) % TWO32
            && Plus(Plus(c.rcvNxt, n), 1) == (p.irs + 1 + (at + n + 1)) % TWO32
            && (s.fin ==> at + n == |p.stream|)
  {
    InSequence(p, c, s, off, at);
    PlusIs(p.irs, at, c.rcvNxt, |s.payload|);
    PlusIs(p.irs, at + |s.payload|, Plus(c.rcvNxt, |s.payload|), 1);
  }

  lemma FinWait1KeepsPosition(p: Peer, c: Conn, e: Event, r: Reply, off: int, got: seq<Byte>, at: int)
    requires e.Input? && Arrives(p, c, e.s, off, at) && Position(p, c, got, at) && c.state == FinWait1
    ensures Delivered(c, e) == [] && Position(p, Step(c, e, r).conn, got, Advance(c, e.s, at))
  {
    if !e.s.rst && !OutOfSequence(c, e.s) {
      CountsOn(p, c, e.s, off, at);
    }
  }

  lemma FinWait2KeepsPosition(p: Peer, c: Conn, e: Event, r: Reply, off: int, got: seq<Byte>, at: int)
    requires e.Input? && Arrives(p, c, e.s, off, at) && Position(p, c, got, at) && c.state == FinWait2
    ensures Delivered(c, e) == [] && Position(p, Step(c, e, r).conn, got, Advance(c, e.s, at))
  {
    if !e.s.rst && !OutOfSequence(c, e.s) {
      CountsOn(p, c, e.s, off, at);
    }
  }

  lemma EndKeepsPosition(p: Peer, c: Conn, e: Event, r: Reply, got: seq<Byte>, at: int)
    requires e.Input? && Position(p, c, got, at)
    requires c.state == Closing || c.state == TimeWait || c.state == LastAck || c.state == Closed
    ensures Delivered(c, e) == [] && Position(p, Step(c, e, r).conn, got, Advance(c, e.s, at))
  {
  }

  /** One step of the engine, with any reply of the application, keeps the position. */
  lemma StepKeepsPosition(p: Peer, c: Conn, e: Event, r: Reply, off: int, got: seq<Byte>, at: int)
    requires Position(p, c, got, at)
    requires e.Input? ==> Arrives(p, c, e.s, off, at)
    ensures Position(p, Step(c, e, r).conn, got + Delivered(c, e), Next(c, e, at))
  {
    assert got + [] == got;
    if e.Timer? {
      TimerKeepsPosition(p, c, r, got, at);
    } else if e.PollRequest? {
      PollKeepsPosition(p, c, r, got, at);
    } else if c.state == SynRcvd {
      AcceptingKeepsPosition(p, c, e, r, off, got, at);
    } else if c.state == SynSent {
      ConnectingKeepsPosition(p, c, e, r, off, got, at);
    } else if c.state == Established {
      EstablishedKeepsPosition(p, c, e, r, off, got, at);
    } else if c.state == FinWait1 {
      FinWait1KeepsPosition(p, c, e, r, off, got, at);
    } else if c.state == FinWait2 {
      FinWait2KeepsPosition(p, c, e, r, off, got, at);
    } else {
      EndKeepsPosition(p, c, e, r, got, at);
    }
  }

  /** The freshness bound is exact: a segment of the peer's from 2^32 bytes ago is taken for new data. */
  lemma StaleSegmentIsTaken(p: Peer, c: Conn, s: Segment, rtt: Byte, got: seq<Byte>, at: int)
    requires Position(p, c, got, at) && c.state == Established && !c.stopped
    requires Truthful(p, s, at - TWO32) && s.payload != [] && !s.syn && !s.fin && !s.rst
    ensures Delivered(c, Input(s, rtt)) == s.payload
  {
    assert (p.irs + 1 + at - TWO32) % TWO32 == (p.irs + 1 + at) % TWO32;
  }

  // ---------------------------------------------------------------------------------------------
  // Whole runs
  // ---------------------------------------------------------------------------------------------

  /** An event of a run: for a segment, `off` says where the peer's stream it belongs. */
  datatype Happening = Happening(e: Event, off: int, reply: Reply)

  datatype World = World(c: Conn, got: seq<Byte>, at: int)

  /** A closed slot matches no segment and is not served by the timer. */
  function Advanced(w: World, h: Happening): World {
    if w.c.Active() then World(Step(w.c, h.e, h.reply).conn, w.got + Delivered(w.c, h.e), Next(w.c, h.e, w.at)) else w
  }

  function Run(w: World, hs: seq<Happening>): World {
    if hs == [] then w else Advanced(Run(w, hs[..|hs| - 1]), hs[|hs| - 1])
  }

  /** Every segment of the run is the peer's, and no staler than the sequence space when it arrives. */
  ghost predicate Plausible(p: Peer, w: World, hs: seq<Happening>) {
    forall i :: 0 <= i < |hs| && hs[i].e.Input? ==>
      var v := Run(w, hs[..i]);
      v.c.Active() ==> Arrives(p, v.c, hs[i].e.s, hs[i].off, v.at)
  }

  lemma {:induction false} RunKeepsPosition(p: Peer, w: World, hs: seq<Happening>)
    requires Position(p, w.c, w.got, w.at) && Plausible(p, w, hs)
    ensures var v := Run(w, hs); Position(p, v.c, v.got, v.at)
  {
    if hs != [] {
      var n := |hs| - 1;
      forall i | 0 <= i < n && hs[i].e.Input?
        ensures var v := Run(w, hs[..n][..i]); v.c.Active() ==> Arrives(p, v.c, hs[..n][i].e.s, hs[..n][i].off, v.at)
      {
        assert hs[..n][..i] == hs[..i];
      }
      RunKeepsPosition(p, w, hs[..n]);
      var v := Run(w, hs[..n]);
      if v.c.Active() {
        StepKeepsPosition(p, v.c, hs[n].e, hs[n].reply, hs[n].off, v.got, v.at);
      }
    }
  }

  /** A connection just opened, from either side. */
  ghost predicate JustOpened(p: Peer, c: Conn) {
    c.state == SynSent || (c.state == SynRcvd && c.rcvNxt == Plus(p.irs, 1))
  }

  lemma OpenersJustOpen(p: Peer, slot: Conn, iss: Seq32, s: Segment, lport: Port, rport: Port, ripaddr: int)
    ensures JustOpened(p, ConnectRecord(slot, iss, lport, rport, ripaddr))
    ensures s.seqno == p.irs ==> JustOpened(p, ListenRecord(slot, iss, s))
  {
  }

  lemma OpeningPosition(p: Peer, c: Conn)
    requires JustOpened(p, c)
    ensures Position(p, c, [], 0)
  {
    PlusIs(p.irs, -1, p.irs, 1);
  }

  /** The bytes handed over are the first bytes of the peer's stream; while established they are
      exactly the bytes the receive sequence number counts, and in LAST_ACK the whole stream. */
  ghost predicate InOrder(p: Peer, w: World) {
    && IsPrefix(w.got, p.stream)
    && (w.c.state == Established ==> w.c.rcvNxt == (p.irs + 1 + |w.got|) % TWO32)
    && (w.c.state == LastAck ==> w.got == p.stream)
  }

  lemma PositionInOrder(p: Peer, w: World)
    requires Position(p, w.c, w.got, w.at)
    ensures InOrder(p, w)
  {
  }

  /** In every run from the opening on, with any loss, repetition and reordering on the way and any
      application above. */
  lemma InOrderDelivery(p: Peer, c: Conn, hs: seq<Happening>)
    requires JustOpened(p, c) && Plausible(p, World(c, [], 0), hs)
    ensures InOrder(p, Run(World(c, [], 0), hs))
  {
    OpeningPosition(p, c);
    RunKeepsPosition(p, World(c, [], 0), hs);
    PositionInOrder(p, Run(World(c, [], 0), hs));
  }
}
