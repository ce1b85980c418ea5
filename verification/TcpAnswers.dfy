/**
 What leaves in answer to what: the numbers every segment carries, when a segment is answered and when
 nothing leaves, what the clock sends, and how a stopped connection is opened again.
*/
module TcpAnswers {
  import opened Basics
  import opened Tcp
  import opened TcpBlocks
  import opened TcpCallback
  import opened TcpDelivery

  // ---------------------------------------------------------------------------------------------
  // The numbers
  // ---------------------------------------------------------------------------------------------

  /** A segment of the connection itself; a reset is none. */
  predicate Carries(emit: Emit, seqno: Seq32, ackno: Seq32) {
    match emit
    case Pure(s, a) => s == seqno && a == ackno
    case Fin(s, a) => s == seqno && a == ackno
    case Syn(s, a, _) => s == seqno && a == ackno
    case Data(s, a, _) => s == seqno && a == ackno
    case Nothing | Reset => false
  }

  predicate Leaves(emit: Emit) { !emit.Nothing? && !emit.Reset? }

  /** Whatever leaves carries the sequence number and the acknowledgement of the record it leaves behind. */
  lemma NumbersAreCurrent(c: Conn, e: Event, r: Reply)
    ensures var o := Step(c, e, r); Leaves(o.emit) ==> Carries(o.emit, o.conn.sndNxt, o.conn.rcvNxt)
  {
  }

  /** In every run the acknowledgement says exactly how far the receiver has come. */
  lemma AcknowledgesPosition(p: Peer, w: World, hs: seq<Happening>, h: Happening)
    requires Position(p, w.c, w.got, w.at) && Plausible(p, w, hs + [h])
    ensures var u, v := Run(w, hs), Run(w, hs + [h]);
            var o := Step(u.c, h.e, h.reply);
            u.c.Active() && Leaves(o.emit) && v.c.state != SynSent && v.c.state != Closed ==>
              Carries(o.emit, v.c.sndNxt, (p.irs + 1 + v.at) % TWO32)
  {
    RunKeepsPosition(p, w, hs + [h]);
    assert (hs + [h])[..|hs|] == hs;
    NumbersAreCurrent(Run(w, hs).c, h.e, h.reply);
  }

  // ---------------------------------------------------------------------------------------------
  // Answers to segments
  // ---------------------------------------------------------------------------------------------

  /** The callback has nothing to say of its own: no restart to announce and no close to make. */
  predicate CallSilent(u: Attached, acked: bool) {
    u.Attached? ==>
      !u.client.restart && !(u.client.closing && (if acked then Eaten(u.client) else u.client).outs == [])
  }

  /** The segments that get no answer. */
  predicate Unanswered(p: Pair, s: Segment) {
    var c, acked := p.c, Acks(p.c, s);
    s.rst ||
    (!OutOfSequence(c, s) &&
     match c.state
     case SynRcvd => !acked || (s.payload == [] && CallSilent(p.u, false))
     case SynSent => false
     case Established =>
       if s.fin && !c.stopped then c.len > 0 && !acked
       else (s.payload == [] || c.stopped) && (acked ==> CallSilent(p.u, true))
     case FinWait1 => !s.fin && (acked || s.payload == [])
     case FinWait2 => !s.fin && s.payload == []
     case TimeWait => false
     case Closing | LastAck | Closed => true)
  }

  lemma SilentCallback(u: Attached, stopped: bool, flags: Flags, data: seq<Byte>, luck: Luck)
    requires !flags.poll && !flags.rexmit && !flags.close && !flags.timedout && !flags.abort
    ensures var r := AppCall(u, stopped, flags, data, luck).reply;
            && r.slen == 0 && !r.flags.abort
            && (!r.flags.close && !r.flags.newdata <==> !flags.newdata && CallSilent(u, flags.ackdata))
            && (flags.newdata && !r.flags.close ==> r.flags.newdata)
  {
  }

  /** Nothing leaves in answer to a segment exactly in these cases. */
  lemma AnsweredUnless(p: Pair, s: Segment, rtt: Byte, luck: Luck)
    requires p.c.Active()
    ensures PairStep(p, Input(s, rtt), luck).emit == Nothing <==> Unanswered(p, s)
  {
    var b := OnSegment(p.c, s, rtt);
    if b.Call? && b.after.AppSend? {
      SilentCallback(p.u, b.conn.stopped, b.flags, b.data, luck);
    }
  }

  /** What is delivered is acknowledged by what leaves in the same step, a FIN with it. */
  lemma DeliveredIsAcknowledged(p: Pair, s: Segment, rtt: Byte, luck: Luck)
    requires Delivered(p.c, Input(s, rtt)) != []
    ensures var o := PairStep(p, Input(s, rtt), luck);
            var taken := |s.payload| + if p.c.state == Established && s.fin then 1 else 0;
            Carries(o.emit, o.pair.c.sndNxt, Plus(p.c.rcvNxt, taken))
  {
    var b := OnSegment(p.c, s, rtt);
    if b.after.AppSend? {
      SilentCallback(p.u, b.conn.stopped, b.flags, b.data, luck);
    }
    NumbersAreCurrent(p.c, Input(s, rtt), AppCall(p.u, b.conn.stopped, b.flags, b.data, luck).reply);
  }

  /** The third segment of an active open. */
  lemma OpeningIsAcknowledged(p: Pair, s: Segment, rtt: Byte, luck: Luck)
    requires p.c.state == SynSent && Acks(p.c, s) && s.SynAck()
    ensures var o := PairStep(p, Input(s, rtt), luck);
            && o.pair.c.state == (if CallCloses(p.u) then FinWait1 else Established)
            && Carries(o.emit, Plus(p.c.sndNxt, p.c.len), Plus(s.seqno, 1))
  {
    var b := OnSegment(p.c, s, rtt);
    SilentCallback(p.u, b.conn.stopped, b.flags, b.data, luck);
  }

  predicate CallCloses(u: Attached) { u.Attached? && u.client.closing && u.client.outs == [] }

  /** A FIN leaves exactly on the way out of the open states, a reset exactly when an opening fails, and
      everything else that answers a segment is a pure acknowledgement. */
  lemma AnswerKinds(p: Pair, s: Segment, rtt: Byte, luck: Luck)
    requires p.c.Active()
    ensures var o := PairStep(p, Input(s, rtt), luck);
            var q := o.pair.c.state;
            && (o.emit.Reset? <==>
                p.c.state == SynSent && !s.rst && !OutOfSequence(p.c, s) && !(Acks(p.c, s) && s.SynAck()))
            && (o.emit.Fin? <==> p.c.state != q && (q == LastAck || q == FinWait1))
            && !o.emit.Syn? && !o.emit.Data?
  {
    var b := OnSegment(p.c, s, rtt);
    if b.Call? && b.after.AppSend? {
      SilentCallback(p.u, b.conn.stopped, b.flags, b.data, luck);
    }
  }

  /** While the user has closed and the peer has not, a FIN or data in sequence is acknowledged at once, but
      for data that comes with the acknowledgement of our FIN: that is counted and not answered. */
  lemma HalfClosedAnswers(p: Pair, s: Segment, rtt: Byte, luck: Luck)
    requires (p.c.state == FinWait1 || p.c.state == FinWait2) && !s.rst && !OutOfSequence(p.c, s)
    ensures var o, n := PairStep(p, Input(s, rtt), luck), |s.payload|;
            var early := p.c.state == FinWait1 && Acks(p.c, s);
            if s.fin then
              && o.pair.c.state == (if p.c.state == FinWait1 && !early then Closing else TimeWait)
              && (o.pair.c.state == TimeWait ==> o.pair.c.timer == 0)
              && o.emit == Pure(o.pair.c.sndNxt, Plus(Plus(p.c.rcvNxt, n), 1))
            else
              && o.pair.c.state == (if early then FinWait2 else p.c.state)
              && o.emit == if early || n == 0 then Nothing else Pure(o.pair.c.sndNxt, Plus(p.c.rcvNxt, n))
  {
  }

  /** A simultaneous close ends in TIME_WAIT with the acknowledgement of our FIN, which answers everything that still
      comes; the other side's last acknowledgement closes at once. */
  lemma LastStates(p: Pair, s: Segment, rtt: Byte, luck: Luck)
    requires p.c.state in {Closing, TimeWait, LastAck} && !s.rst && !OutOfSequence(p.c, s)
    ensures var o, acked := PairStep(p, Input(s, rtt), luck), Acks(p.c, s);
            match p.c.state
            case Closing => o.emit == Nothing && o.pair.c.state == (if acked then TimeWait else Closing)
                            && (acked ==> o.pair.c.timer == 0)
            case TimeWait => o.emit == AckOf(o.pair.c) && o.pair.c.state == TimeWait
            case _ => o.emit == Nothing && o.pair.c.state == (if acked then Closed else LastAck)
  {
  }

  /** An exact acknowledgement moves the sequence number by what was outstanding, restarts the timer, and lets the
      round-trip estimate in only when nothing was sent twice. */
  lemma AckSettles(c: Conn, s: Segment, rtt: Byte)
    requires c.state == Established && Acks(c, s) && !s.rst && !OutOfSequence(c, s) && !(s.fin && !c.stopped)
    ensures var d := OnSegment(c, s, rtt).conn;
            && d.sndNxt == Plus(c.sndNxt, c.len) && d.len == 0 && d.timer == d.rto
            && d.rto == if c.nrtx == 0 then rtt else c.rto
  {
  }

  /** The segment size follows the peer's window, never above the size agreed on and never down to nothing. */
  lemma SizeFollowsWindow(c: Conn, s: Segment, rtt: Byte)
    requires c.state == Established && !s.rst && !OutOfSequence(c, s) && !(s.fin && !c.stopped)
    ensures var d := OnSegment(c, s, rtt).conn;
            && d.initialmss == c.initialmss && d.mss <= d.initialmss && (0 < d.initialmss ==> 0 < d.mss)
            && (0 < s.window <= c.initialmss ==> d.mss == s.window)
            && (s.window == 0 || c.initialmss < s.window ==> d.mss == c.initialmss)
  {
  }

  /** Only when the peer sends such data again is it told: the segment is out of sequence then. */
  lemma UnansweredDataComesAgain(p: Pair, s: Segment, rtt: Byte, luck: Luck)
    requires p.c.state == FinWait1 && Acks(p.c, s) && !s.rst && !s.fin && !OutOfSequence(p.c, s)
    requires 0 < |s.payload| < 0x10000
    ensures var o := PairStep(p, Input(s, rtt), luck);
            o.emit == Nothing && PairStep(o.pair, Input(s, rtt), luck).emit == AckOf(o.pair.c)
  {
    assert s.seqno == p.c.rcvNxt;
    Wrapped(p.c.rcvNxt, |s.payload|);
  }

  lemma Wrapped(a: Seq32, n: nat)
    requires 0 < n < 0x10000
    ensures Plus(a, n) != a
  {
  }

  // ---------------------------------------------------------------------------------------------
  // What the clock sends
  // ---------------------------------------------------------------------------------------------

  /** With nothing outstanding: the first block that waits, the FIN that waits, or the news of a restart. */
  function Polled(p: Pair): Emit {
    if p.u == NoClient then Nothing
    else
      var k, c := p.u.client, p.c;
      if k.outs != [] && k.outs[0].bytes != [] && c.mss > 0 then Data(c.sndNxt, c.rcvNxt, Min(|k.outs[0].bytes|, c.mss))
      else if k.outs == [] && k.closing then Fin(c.sndNxt, c.rcvNxt)
      else if k.restart then Pure(c.sndNxt, c.rcvNxt)
      else Nothing
  }

  /** With something outstanding and its timer run out: the same again, or a reset when it was tried too often. */
  function Again(c: Conn): Emit {
    if GivesUp(c) then Reset
    else
      match c.state
      case SynSent => Syn(c.sndNxt, c.rcvNxt, false)
      case SynRcvd => Syn(c.sndNxt, c.rcvNxt, true)
      case Established => Data(c.sndNxt, c.rcvNxt, c.len)
      case FinWait1 | Closing | LastAck => Fin(c.sndNxt, c.rcvNxt)
      case FinWait2 | TimeWait | Closed => Nothing
  }

  function Clocked(p: Pair): Emit {
    var c := p.c;
    if !c.Active() || (!c.stopped && (c.state == TimeWait || c.state == FinWait2)) then Nothing
    else if c.len > 0 then (if c.timer > 0 then Nothing else Again(c))
    else if c.state == Established then Polled(p)
    else Nothing
  }

  lemma PollSends(p: Pair, luck: Luck)
    requires Safe(p) && p.c.state == Established && p.c.len == 0
    ensures var v := AppCall(p.u, p.c.stopped, NoFlags.(poll := true), [], luck);
            Resume(p.c, AppSend, v.reply).emit == Polled(p)
  {
    if p.u.Attached? && p.u.client.outs != [] {
      SealedValid(p.u.client);
    }
  }

  lemma RexmitSends(p: Pair, luck: Luck)
    requires Safe(p) && p.c.state == Established && p.c.len > 0
    ensures AppCall(p.u, p.c.stopped, NoFlags.(rexmit := true), [], luck).reply.slen > 0
  {
    SealedValid(p.u.client);
  }

  /** Nothing outstanding is forgotten, and nothing that waits: this is all the clock ever sends. */
  lemma ClockSends(p: Pair, luck: Luck)
    requires Safe(p)
    ensures PairStep(p, Timer, luck).emit == Clocked(p)
    ensures PairStep(p, PollRequest, luck).emit ==
            if p.c.state == Established && p.c.len == 0 then Polled(p) else Nothing
  {
    if p.c.state == Established {
      if p.c.len == 0 {
        PollSends(p, luck);
      } else {
        RexmitSends(p, luck);
      }
    }
  }

  // ---------------------------------------------------------------------------------------------
  // Stopping and going on
  // ---------------------------------------------------------------------------------------------

  /** The client the callback works with: the attached one, or a new one on a connection just made. */
  function Served(u: Attached, flags: Flags, luck: Luck): Attached {
    if u == NoClient && flags.connected && luck.record then Attached(Client(false, false, [])) else u
  }

  /** The callback comes to the branch of a closing user: nothing else to do first. */
  predicate Waits(k: Client, flags: Flags) {
    var left := if flags.ackdata then Eaten(k) else k;
    && !flags.close && !flags.timedout && k.closing && left.outs != []
    && !flags.poll && !flags.rexmit
  }

  /** The callback leaves the stop bit set exactly when a closing user has blocks to wait for, or when the bit
      was set or the queue ran full and no restart was asked for. */
  lemma StopsExactly(u: Attached, stopped: bool, flags: Flags, data: seq<Byte>, luck: Luck)
    ensures var v, w := AppCall(u, stopped, flags, data, luck), Served(u, flags, luck);
            v.reply.stopped <==>
              if w == NoClient then stopped
              else
                var full := flags.newdata && data != [] && !w.client.closing && luck.queueFull;
                Waits(w.client, flags) || (!w.client.restart && (stopped || full))
  {
  }

  /** A closing user has nothing left to send. */
  predicate Done(k: Client, flags: Flags) { k.closing && (if flags.ackdata then Eaten(k) else k).outs == [] }

  /** A client is let go exactly at the end of the connection or when a closing user is done; uip_close is
      called in the second case. */
  lemma LetsGoExactly(u: Attached, stopped: bool, flags: Flags, data: seq<Byte>, luck: Luck)
    ensures var v, w := AppCall(u, stopped, flags, data, luck), Served(u, flags, luck);
            && (v.u == NoClient <==> w == NoClient || flags.close || flags.timedout || Done(w.client, flags))
            && (v.reply.flags.close <==> flags.close || (w.Attached? && Done(w.client, flags) && !flags.timedout))
  {
  }

  /** One that stays keeps its wish to close, and has no wish to restart left. */
  lemma KeepsWishes(u: Attached, stopped: bool, flags: Flags, data: seq<Byte>, luck: Luck)
    ensures var v, w := AppCall(u, stopped, flags, data, luck), Served(u, flags, luck);
            v.u.Attached? ==> w.Attached? && v.u.client.closing == w.client.closing && !v.u.client.restart
  {
  }

  const RECEIVE_WINDOW := 512

  /** The window a segment tells the peer. */
  function Window(c: Conn): nat { if c.stopped then 0 else RECEIVE_WINDOW }

  /** A stopped user who asked to go on, and did not close, is open again at the next poll, and the peer is told:
      a segment leaves, with the window open. */
  lemma RestartReopens(p: Pair, e: Event, luck: Luck)
    requires Safe(p) && p.c.state == Established && p.c.stopped && p.c.len == 0 && (e.Timer? || e.PollRequest?)
    requires p.u.Attached? && p.u.client.restart && !p.u.client.closing
    ensures var o := PairStep(p, e, luck);
            && o.pair.c.state == Established && Window(p.c) == 0 && Window(o.pair.c) == RECEIVE_WINDOW
            && o.pair.u.Attached? && !o.pair.u.client.restart && o.pair.c.rcvNxt == p.c.rcvNxt
            && Carries(o.emit, p.c.sndNxt, p.c.rcvNxt)
  {
    ClockSends(p, luck);
    CallbackOffers(p.u, true, NoFlags.(poll := true), luck);
  }

  /** And then the next piece in sequence is taken, whole. */
  lemma OpenTakes(c: Conn, s: Segment, rtt: Byte)
    requires c.state == Established && !c.stopped && s.seqno == c.rcvNxt && !s.rst && !s.fin && s.payload != []
    ensures Delivered(c, Input(s, rtt)) == s.payload
  {
  }

  /** While stopped nothing is taken, whatever comes. */
  lemma StoppedTakesNothing(c: Conn, s: Segment, rtt: Byte)
    requires c.state == Established && c.stopped
    ensures Delivered(c, Input(s, rtt)) == [] && (!s.rst ==> OnSegment(c, s, rtt).conn.rcvNxt == c.rcvNxt)
  {
  }

  lemma RestartThenTakes(p: Pair, e: Event, luck: Luck, s: Segment, rtt: Byte)
    requires Safe(p) && p.c.state == Established && p.c.stopped && p.c.len == 0 && (e.Timer? || e.PollRequest?)
    requires p.u.Attached? && p.u.client.restart && !p.u.client.closing
    requires s.seqno == p.c.rcvNxt && !s.rst && !s.fin && s.payload != []
    ensures Delivered(p.c, Input(s, rtt)) == []
    ensures Delivered(PairStep(p, e, luck).pair.c, Input(s, rtt)) == s.payload
  {
    RestartReopens(p, e, luck);
    OpenTakes(PairStep(p, e, luck).pair.c, s, rtt);
    StoppedTakesNothing(p.c, s, rtt);
  }

  /** Stopped, with a user who neither closes nor asks to go on. */
  predicate Stuck(p: Pair) {
    p.c.state == Established && p.c.stopped && p.u.Attached? && !p.u.client.closing && !p.u.client.restart
  }

  /** No event of the network ends that but a reset or the retransmissions running out: data and a FIN are ignored.
      Only recv can, by giving a block back; when the store failed while the queue was empty, there is none. */
  lemma StuckUntilRead(p: Pair, e: Event, luck: Luck)
    requires Stuck(p)
    ensures var q := PairStep(p, e, luck).pair;
            && Delivered(p.c, e) == []
            && (Stuck(q) || (q.c.state == Closed && ((e.Input? && e.s.rst) || (e.Timer? && GivesUp(p.c)))))
  {
  }
}
