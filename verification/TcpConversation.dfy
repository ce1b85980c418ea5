/**
 Two connections talking: what one puts on the wire, taken off it by the other, opens the connection on
 both sides, carries a block across, and closes both ends.
*/
module TcpConversation {
  import opened Basics
  import opened Tcp
  import opened TcpBlocks
  import opened TcpCallback
  import opened TcpAnswers
  import TcpSending
  import TcpTable

  /** The segment that leaves from a record, as tcp_send fills it in. */
  function Sent(c: Conn, host: int, emit: Emit, payload: seq<Byte>): Segment
    requires Leaves(emit)
  {
    var blank := Segment(emit.seqno, emit.ackno, false, false, false, false, true, Window(c), payload, NoMss,
                         c.rport, c.lport, host);
    match emit
    case Pure(_, _) => blank
    case Fin(_, _) => blank.(fin := true)
    case Syn(_, _, ack) => blank.(syn := true, ack := ack, mssOption := Mss(TCP_MSS))
    case Data(_, _, _) => blank.(psh := true)
  }

  /** The two records are the ends of one connection: segments of one match the other. */
  predicate Ends(a: Conn, hostA: int, b: Conn, hostB: int) {
    a.lport == b.rport && a.rport == b.lport && a.ripaddr == hostB && b.ripaddr == hostA
  }

  /** Each knows what the other has sent, and nothing is on the way. */
  predicate InStep(a: Conn, b: Conn) { a.sndNxt == b.rcvNxt && b.sndNxt == a.rcvNxt && a.len == 0 && b.len == 0 }

  predicate Open(a: Conn, hostA: int, b: Conn, hostB: int) {
    a.state == Established && b.state == Established && Ends(a, hostA, b, hostB) && InStep(a, b)
  }

  lemma EndsMatch(a: Conn, hostA: int, b: Conn, hostB: int, emit: Emit, payload: seq<Byte>)
    requires Ends(a, hostA, b, hostB) && Leaves(emit) && b.Active()
    ensures TcpTable.Matches(b, Sent(a, hostA, emit, payload))
  {
  }

  // ---------------------------------------------------------------------------------------------
  // Opening
  // ---------------------------------------------------------------------------------------------

  /** The second tick after uip_connect sends the SYN. */
  lemma SecondTickSends(c: Conn, u: Attached, lucks: (Luck, Luck))
    requires c.state == SynSent && !c.stopped && c.len == 1 && c.timer == 1 && c.nrtx == 0
    ensures var first := PairStep(Pair(c, u), Timer, lucks.0);
            var second := PairStep(first.pair, Timer, lucks.1);
            && first.emit == Nothing && second.emit == Syn(c.sndNxt, c.rcvNxt, false)
            && second.pair == Pair(c.(timer := RTO, nrtx := 1), u)
  {
  }

  lemma SynAckOpens(p: Pair, s: Segment, rtt: Byte, luck: Luck)
    requires p.c.state == SynSent && p.u == NoClient && s.SynAck() && s.ackno == Plus(p.c.sndNxt, p.c.len) &&
             p.c.len > 0
    requires s.payload == []
    ensures var o := PairStep(p, Input(s, rtt), luck);
            && o.pair.c.state == Established && !o.pair.c.stopped && o.pair.c.len == 0
            && o.pair.c.sndNxt == s.ackno && o.pair.c.rcvNxt == Plus(s.seqno, 1) && TcpTable.SameKey(o.pair.c, p.c)
            && o.emit == Pure(s.ackno, Plus(s.seqno, 1)) && (o.pair.u.Attached? <==> luck.record)
  {
  }

  lemma AckOpens(p: Pair, s: Segment, rtt: Byte, luck: Luck)
    requires p.c.state == SynRcvd && p.u == NoClient && s.ack && s.ackno == Plus(p.c.sndNxt, p.c.len) && p.c.len > 0
    requires s.payload == [] && !s.syn && !s.fin && !s.rst
    ensures var o := PairStep(p, Input(s, rtt), luck);
            && o.pair.c.state == Established && !o.pair.c.stopped && o.pair.c.len == 0
            && o.pair.c.sndNxt == s.ackno && o.pair.c.rcvNxt == p.c.rcvNxt && TcpTable.SameKey(o.pair.c, p.c)
            && o.emit == Nothing && (o.pair.u.Attached? <==> luck.record)
  {
  }

  /** uip_connect on one side, a listening port on the other, three segments between them: both ends are open and
      in step, from whatever the two slots held before. */
  lemma Handshake(slotA: Conn, slotB: Conn, issA: Seq32, issB: Seq32, lport: Port, rport: Port, hostA: int, hostB: int,
                  lucks: (Luck, Luck, Luck, Luck), rtt: Byte)
    ensures var a0 := ConnectRecord(slotA, issA, lport, rport, hostB);
            var a1 := PairStep(Pair(a0, NoClient), Timer, lucks.0).pair;
            var a2 := PairStep(a1, Timer, lucks.1);
            a2.emit.Syn? &&
            var syn := Sent(a2.pair.c, hostA, a2.emit, []);
            var b0 := ListenRecord(slotB, issB, syn);
            var synAck := Sent(b0, hostB, Syn(issB, Plus(syn.seqno, 1), true), []);
            var a3 := PairStep(a2.pair, Input(synAck, rtt), lucks.2);
            Leaves(a3.emit) &&
            var b1 := PairStep(Pair(b0, NoClient), Input(Sent(a3.pair.c, hostA, a3.emit, []), rtt), lucks.3);
            && syn.SynOnly() && synAck.SynAck() && TcpTable.Matches(a2.pair.c, synAck)
            && b1.emit == Nothing && Open(a3.pair.c, hostA, b1.pair.c, hostB)
            && a3.pair.c.sndNxt == Plus(issA, 1) && b1.pair.c.sndNxt == Plus(issB, 1)
            && (a3.pair.u.Attached? <==> lucks.2.record) && (b1.pair.u.Attached? <==> lucks.3.record)
  {
    var a0 := ConnectRecord(slotA, issA, lport, rport, hostB);
    SecondTickSends(a0, NoClient, (lucks.0, lucks.1));
    var a2 := PairStep(PairStep(Pair(a0, NoClient), Timer, lucks.0).pair, Timer, lucks.1);
    var syn := Sent(a2.pair.c, hostA, a2.emit, []);
    var b0 := ListenRecord(slotB, issB, syn);
    var synAck := Sent(b0, hostB, Syn(issB, Plus(syn.seqno, 1), true), []);
    SynAckOpens(a2.pair, synAck, rtt, lucks.2);
    var a3 := PairStep(a2.pair, Input(synAck, rtt), lucks.2);
    AckOpens(Pair(b0, NoClient), Sent(a3.pair.c, hostA, a3.emit, []), rtt, lucks.3);
  }

  // ---------------------------------------------------------------------------------------------
  // A block across
  // ---------------------------------------------------------------------------------------------

  lemma PollOffersBlock(p: Pair, luck: Luck)
    requires Safe(p) && p.c.state == Established && p.c.len == 0 && p.c.mss > 0 && luck.copy
    requires Outs(p.u) != [] && Outs(p.u)[0].bytes != []
    ensures var o, n := PairStep(p, PollRequest, luck), Min(|Outs(p.u)[0].bytes|, p.c.mss);
            && o.emit == Data(p.c.sndNxt, p.c.rcvNxt, n) &&
               o.pair.c.(stopped := p.c.stopped) == p.c.(len := n, nrtx := 0)
            && TcpSending.Payload(p, PollRequest, luck) == Some(Outs(p.u)[0].bytes[..n])
  {
    CallbackOffers(p.u, p.c.stopped, NoFlags.(poll := true), luck);
    ClockSends(p, luck);
    TcpSending.DataCarriesFlight(p, PollRequest, luck);
  }

  /** Data in sequence is handed over and acknowledged. */
  lemma DataIsTaken(p: Pair, s: Segment, rtt: Byte, luck: Luck)
    requires p.c.state == Established && !p.c.stopped && p.c.len == 0 && !CallCloses(p.u)
    requires s.seqno == p.c.rcvNxt && s.payload != [] && !s.fin && !s.rst
    ensures var o := PairStep(p, Input(s, rtt), luck);
            && Delivered(p.c, Input(s, rtt)) == s.payload
            && o.pair.c.state == Established && o.pair.c.len == 0 && o.pair.c.sndNxt == p.c.sndNxt
            && o.pair.c.rcvNxt == Plus(p.c.rcvNxt, |s.payload|) && TcpTable.SameKey(o.pair.c, p.c)
            && o.emit == Pure(p.c.sndNxt, Plus(p.c.rcvNxt, |s.payload|))
  {
  }

  /** The acknowledgement takes the block off the queue. */
  lemma AckIsTaken(p: Pair, s: Segment, rtt: Byte, luck: Luck)
    requires Safe(p) && p.c.state == Established && p.c.len > 0 && !CallCloses(Attached(Eaten(p.u.client)))
    requires s.ack && s.ackno == Plus(p.c.sndNxt, p.c.len) && s.payload == [] && !s.syn && !s.fin && !s.rst
    ensures var o := PairStep(p, Input(s, rtt), luck);
            && o.pair.c.state == Established && o.pair.c.len == 0 && o.pair.c.rcvNxt == p.c.rcvNxt
            && o.pair.c.sndNxt == Plus(p.c.sndNxt, p.c.len) && TcpTable.SameKey(o.pair.c, p.c)
            && Outs(o.pair.u) == Outs(p.u)[1..]
  {
  }

  /** On an open connection the first block of a safe sender goes across whole or cut to the segment size: the
      receiver hands it over and acknowledges it, the sender takes it off, and the two ends are in step again. */
  lemma BlockAcross(pa: Pair, hostA: int, pb: Pair, hostB: int, lucks: (Luck, Luck, Luck), rtt: Byte)
    requires Safe(pa) && Open(pa.c, hostA, pb.c, hostB) && !pb.c.stopped && !CallCloses(pb.u)
    requires pa.c.mss > 0 && lucks.0.copy && Outs(pa.u) != [] && Outs(pa.u)[0].bytes != []
    requires !pa.u.client.closing
    ensures var sent, n := PairStep(pa, PollRequest, lucks.0), Min(|Outs(pa.u)[0].bytes|, pa.c.mss);
            Leaves(sent.emit) &&
            var piece := Outs(pa.u)[0].bytes[..n];
            var s := Sent(sent.pair.c, hostA, sent.emit, piece);
            var taken := PairStep(pb, Input(s, rtt), lucks.1);
            Leaves(taken.emit) &&
            var ack := Sent(taken.pair.c, hostB, taken.emit, []);
            var done := PairStep(sent.pair, Input(ack, rtt), lucks.2);
            && TcpSending.Payload(pa, PollRequest, lucks.0) == Some(piece)
            && Delivered(pb.c, Input(s, rtt)) == piece
            && TcpTable.Matches(pb.c, s) && TcpTable.Matches(sent.pair.c, ack)
            && Open(done.pair.c, hostA, taken.pair.c, hostB)
            && Content(Outs(done.pair.u)) == Content(Outs(pa.u)[1..])
  {
    var sent := PairStep(pa, PollRequest, lucks.0);
    var n := Min(|Outs(pa.u)[0].bytes|, pa.c.mss);
    PollOffersBlock(pa, lucks.0);
    StepKeepsSafe(pa, PollRequest, lucks.0);
    var s := Sent(sent.pair.c, hostA, sent.emit, Outs(pa.u)[0].bytes[..n]);
    DataIsTaken(pb, s, rtt, lucks.1);
    var taken := PairStep(pb, Input(s, rtt), lucks.1);
    var ack := Sent(taken.pair.c, hostB, taken.emit, []);
    SealKeepsRest(pa.u.client);
    AckIsTaken(sent.pair, ack, rtt, lucks.2);
  }

  lemma SealKeepsRest(k: Client)
    requires k.outs != []
    ensures Sealed(k).outs[1..] == k.outs[1..] && Sealed(k).closing == k.closing
  {
  }

  // ---------------------------------------------------------------------------------------------
  // Closing
  // ---------------------------------------------------------------------------------------------

  lemma FinIsTaken(p: Pair, s: Segment, rtt: Byte, luck: Luck)
    requires p.c.state == Established && !p.c.stopped && p.c.len == 0
    requires s.seqno == p.c.rcvNxt && s.payload == [] && s.fin && !s.rst && !s.syn
    ensures var o := PairStep(p, Input(s, rtt), luck);
            && o.pair.c.state == LastAck && !o.pair.c.stopped && o.pair.c.len == 1 && o.pair.u == NoClient
            && o.pair.c.sndNxt == p.c.sndNxt && o.pair.c.rcvNxt == Plus(p.c.rcvNxt, 1)
            && o.emit == Fin(p.c.sndNxt, Plus(p.c.rcvNxt, 1)) && TcpTable.SameKey(o.pair.c, p.c)
  {
  }

  lemma PollCloses(p: Pair, luck: Luck)
    requires p.c.state == Established && p.c.len == 0 && CallCloses(p.u)
    ensures var o := PairStep(p, PollRequest, luck);
            && o.pair.c.state == FinWait1 && !o.pair.c.stopped && o.pair.c.len == 1 && o.pair.u == NoClient
            && o.pair.c.sndNxt == p.c.sndNxt && o.pair.c.rcvNxt == p.c.rcvNxt
            && o.emit == Fin(p.c.sndNxt, p.c.rcvNxt) && TcpTable.SameKey(o.pair.c, p.c)
  {
  }

  lemma FinMeetsFin(p: Pair, s: Segment, rtt: Byte, luck: Luck)
    requires p.c.state == FinWait1 && p.c.len == 1 && p.u == NoClient && s.ack && s.ackno == Plus(p.c.sndNxt, 1)
    requires s.seqno == p.c.rcvNxt && s.payload == [] && s.fin && !s.rst && !s.syn
    ensures var o := PairStep(p, Input(s, rtt), luck);
            && o.pair.c.state == TimeWait && o.pair.c.len == 0 && o.pair.u == NoClient
            && o.pair.c.sndNxt == Plus(p.c.sndNxt, 1) && o.pair.c.rcvNxt == Plus(p.c.rcvNxt, 1)
            && o.emit == Pure(Plus(p.c.sndNxt, 1), Plus(p.c.rcvNxt, 1)) && TcpTable.SameKey(o.pair.c, p.c)
  {
  }

  lemma LastAckCloses(p: Pair, s: Segment, rtt: Byte, luck: Luck)
    requires p.c.state == LastAck && !p.c.stopped && p.c.len == 1 && p.u == NoClient
    requires s.ack && s.ackno == Plus(p.c.sndNxt, 1) && s.payload == [] && !s.fin && !s.rst && !s.syn
    ensures var o := PairStep(p, Input(s, rtt), luck);
            && !o.pair.c.Active() && o.pair.c.len == 0 && o.pair.u == NoClient && o.emit == Nothing
            && o.pair.c.sndNxt == Plus(p.c.sndNxt, 1) && o.pair.c.rcvNxt == p.c.rcvNxt
  {
  }

  /** A user closes an open connection with nothing left to send: four segments later the one end counts down in
      TIME_WAIT, the other is closed, and both have let their clients go. */
  lemma CloseBoth(pa: Pair, hostA: int, pb: Pair, hostB: int, lucks: (Luck, Luck, Luck, Luck), rtt: Byte)
    requires Open(pa.c, hostA, pb.c, hostB) && !pb.c.stopped && CallCloses(pa.u)
    ensures var fin := PairStep(pa, PollRequest, lucks.0);
            Leaves(fin.emit) &&
            var answer := PairStep(pb, Input(Sent(fin.pair.c, hostA, fin.emit, []), rtt), lucks.1);
            Leaves(answer.emit) &&
            var last := PairStep(fin.pair, Input(Sent(answer.pair.c, hostB, answer.emit, []), rtt), lucks.2);
            Leaves(last.emit) &&
            var end := PairStep(answer.pair, Input(Sent(last.pair.c, hostA, last.emit, []), rtt), lucks.3);
            && fin.emit.Fin? && answer.emit.Fin? && last.emit.Pure? && end.emit == Nothing
            && last.pair.c.state == TimeWait && !end.pair.c.Active()
            && last.pair.u == NoClient && end.pair.u == NoClient
            && InStep(last.pair.c, end.pair.c)
  {
    PollCloses(pa, lucks.0);
    var fin := PairStep(pa, PollRequest, lucks.0);
    var s := Sent(fin.pair.c, hostA, fin.emit, []);
    FinIsTaken(pb, s, rtt, lucks.1);
    var answer := PairStep(pb, Input(s, rtt), lucks.1);
    var t := Sent(answer.pair.c, hostB, answer.emit, []);
    FinMeetsFin(fin.pair, t, rtt, lucks.2);
    var last := PairStep(fin.pair, Input(t, rtt), lucks.2);
    LastAckCloses(answer.pair, Sent(last.pair.c, hostA, last.emit, []), rtt, lucks.3);
  }
}
