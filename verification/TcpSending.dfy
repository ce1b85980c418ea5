/**
 The sending side over whole runs: stop-and-wait, the bytes on the wire, and where bytes are lost.
*/
module TcpSending {
  import opened Basics
  import opened Tcp
  import opened TcpBlocks
  import opened TcpCallback
  import TcpDelivery

  /** In ESTABLISHED, this segment acknowledges the block in flight. */
  predicate AcksFlight(c: Conn, e: Event) {
    c.state == Established && e.Input? && !e.s.rst && !OutOfSequence(c, e.s) && Acks(c, e.s)
  }

  // ---------------------------------------------------------------------------------------------
  // The send sequence number
  // ---------------------------------------------------------------------------------------------

  lemma ResumeKeepsSequence(c: Conn, after: After, r: Reply)
    ensures Resume(c, after, r).conn.sndNxt == c.sndNxt
  {
  }

  lemma SegmentMovesSequence(c: Conn, s: Segment, rtt: Byte)
    ensures OnSegment(c, s, rtt).conn.sndNxt ==
            if !s.rst && !OutOfSequence(c, s) && Acks(c, s) then Plus(c.sndNxt, c.len) else c.sndNxt
  {
  }

  /** snd_nxt moves by exactly len, and only on an exact acknowledgement; whatever the application
      answers. */
  lemma SendSequenceMoves(c: Conn, e: Event, r: Reply)
    ensures Step(c, e, r).conn.sndNxt ==
            if e.Input? && !e.s.rst && !OutOfSequence(c, e.s) && Acks(c, e.s) then Plus(c.sndNxt, c.len) else c.sndNxt
  {
    var b := Begin(c, e);
    if b.Call? {
      ResumeKeepsSequence(b.conn, b.after, r);
    }
    if e.Input? {
      SegmentMovesSequence(c, e.s, e.rtt);
    }
  }

  /** The client's blocks after the callback: the first one goes when it is acknowledged, and the
      bytes of the others stay. */
  lemma CallbackContent(u: Attached, stopped: bool, flags: Flags, data: seq<Byte>, luck: Luck)
    ensures var v := AppCall(u, stopped, flags, data, luck);
            v.u.Attached? ==>
              Content(Outs(v.u)) == Content(if flags.ackdata && Outs(u) != [] then Outs(u)[1..] else Outs(u))
  {
    var v := AppCall(u, stopped, flags, data, luck);
    if u.Attached? && v.u.Attached? {
      var left := if flags.ackdata && Outs(u) != [] then Outs(u)[1..] else Outs(u);
      if left != [] && |left| == 1 {
        assert Outs(v.u) == left || Outs(v.u) == [left[0].(size := |left[0].bytes|)];
        assert Content(left) == left[0].bytes + Content([]);
      } else {
        assert Outs(v.u) == left;
      }
    }
  }

  lemma StepContent(p: Pair, e: Event, luck: Luck)
    requires Safe(p)
    ensures var q := PairStep(p, e, luck).pair;
            q.u.Attached? ==> Content(Outs(q.u)) == Content(if AcksFlight(p.c, e) then Outs(p.u)[1..] else Outs(p.u))
  {
    var b := Begin(p.c, e);
    if b.Call? {
      CallbackContent(p.u, b.conn.stopped, b.flags, b.data, luck);
      FlagsSayAcked(p.c, e);
    }
  }

  lemma FlagsSayAcked(c: Conn, e: Event)
    ensures var b := Begin(c, e); b.Call? ==> (b.flags.ackdata <==> AcksFlight(c, e))
  {
  }

  // ---------------------------------------------------------------------------------------------
  // The block in flight
  // ---------------------------------------------------------------------------------------------

  /** The bytes on the wire that wait for their acknowledgement. */
  function Flight(p: Pair): seq<Byte> {
    if p.c.state == Established && p.c.len > 0 && Outs(p.u) != [] && p.c.len <= |Outs(p.u)[0].bytes|
    then Outs(p.u)[0].bytes[..p.c.len] else []
  }

  /** While something is in flight the callback never closes the connection. */
  lemma NoCloseInFlight(p: Pair, e: Event, luck: Luck)
    requires Safe(p) && p.c.state == Established && p.c.len > 0
    ensures var b := Begin(p.c, e);
            b.Call? && b.conn.len > 0 && !b.flags.close ==>
              !AppCall(p.u, b.conn.stopped, b.flags, b.data, luck).reply.flags.close
    ensures PairStep(p, e, luck).pair.c.state == FinWait1 || PairStep(p, e, luck).pair.c.state == LastAck ==>
              AcksFlight(p.c, e)
  {
    var b := Begin(p.c, e);
    if b.Call? {
      if b.flags.poll || b.flags.rexmit {
        CallbackOffers(p.u, b.conn.stopped, b.flags, luck);
      } else if !b.flags.close && !b.flags.timedout && !b.flags.abort {
        CallbackListens(p.u, b.conn.stopped, b.flags, b.data, luck);
      }
    }
  }

  /** An answer that sends leaves the first block in flight. */
  lemma AnswerCarriesFlight(d: Conn, after: After, v: Attached, r: Reply)
    requires d.state == Established && (after.AppSend? || after.AppRexmit?)
    requires Safe(Pair(Resume(d, after, r).conn, v))
    ensures var o := Resume(d, after, r);
            o.emit.Data? ==> o.emit.seqno == d.sndNxt && o.emit.size == |Flight(Pair(o.conn, v))| > 0
  {
  }

  /** The bytes a data segment carries behind its headers; None when the copy of the block could not be
      made and what leaves, if anything, does not hold the block. */
  function Payload(p: Pair, e: Event, luck: Luck): Option<seq<Byte>> {
    var b, o := Begin(p.c, e), PairStep(p, e, luck);
    if b.Quiet? || !o.emit.Data? then None
    else
      var x := CopiedOut(p.u, b.flags, luck);
      if x.Some? && o.emit.size <= |x.value| then Some(x.value[..o.emit.size]) else None
  }

  lemma SegmentFlags(c: Conn, s: Segment, rtt: Byte)
    ensures var b := OnSegment(c, s, rtt);
            if b.Quiet? then !b.emit.Data? else !b.flags.poll && !b.flags.rexmit
  {
  }

  lemma CallbackSilent(u: Attached, stopped: bool, flags: Flags, data: seq<Byte>, luck: Luck)
    requires !flags.poll && !flags.rexmit
    ensures AppCall(u, stopped, flags, data, luck).reply.slen == 0
  {
  }

  lemma NothingToSend(d: Conn, after: After, r: Reply)
    requires r.slen == 0
    ensures !Resume(d, after, r).emit.Data?
  {
  }

  lemma SegmentAnswersWithoutData(p: Pair, s: Segment, rtt: Byte, luck: Luck)
    ensures !PairStep(p, Input(s, rtt), luck).emit.Data?
  {
    SegmentFlags(p.c, s, rtt);
    var b := OnSegment(p.c, s, rtt);
    if b.Call? {
      CallbackSilent(p.u, b.conn.stopped, b.flags, b.data, luck);
      NothingToSend(b.conn, b.after, AppCall(p.u, b.conn.stopped, b.flags, b.data, luck).reply);
    }
  }

  /** A segment with data answers a poll or a retransmission. */
  lemma DataIsOffered(p: Pair, e: Event, luck: Luck)
    requires Safe(p)
    ensures var b := Begin(p.c, e);
            PairStep(p, e, luck).emit.Data? ==>
              && b.Call? && (b.after.AppSend? || b.after.AppRexmit?)
              && (b.flags == NoFlags.(poll := true) || b.flags == NoFlags.(rexmit := true))
              && b.data == [] && Outs(p.u) != []
  {
    if e.Input? {
      SegmentAnswersWithoutData(p, e.s, e.rtt, luck);
    } else {
      var b := Begin(p.c, e);
      if b.Call? && (b.after.AppSend? || b.after.AppRexmit?) {
        CallbackOffers(p.u, b.conn.stopped, b.flags, luck);
      }
    }
  }

  /** Every data segment that leaves stands at the sequence number of the flight and has its size, and
      it carries the bytes of the flight exactly when the block could be copied. */
  lemma DataCarriesFlight(p: Pair, e: Event, luck: Luck)
    requires Safe(p)
    ensures var o := PairStep(p, e, luck);
            o.emit.Data? ==>
              && o.emit.seqno == o.pair.c.sndNxt && o.emit.size == |Flight(o.pair)| > 0
              && Payload(p, e, luck) == if luck.copy then Some(Flight(o.pair)) else None
  {
    var o := PairStep(p, e, luck);
    if o.emit.Data? {
      StepKeepsSafe(p, e, luck);
      SentInEstablished(p.c, e);
      DataIsOffered(p, e, luck);
      var b := Begin(p.c, e);
      var v := AppCall(p.u, b.conn.stopped, b.flags, b.data, luck);
      CallbackOffers(p.u, b.conn.stopped, b.flags, luck);
      AnswerCarriesFlight(b.conn, b.after, v.u, v.reply);
    }
  }

  lemma SentInEstablished(c: Conn, e: Event)
    ensures var b := Begin(c, e);
            && (b.Quiet? ==> !b.emit.Data?)
            && (b.Call? && (b.after.AppSend? || b.after.AppRexmit?) ==> b.conn.state == Established)
  {
  }

  /** Until its acknowledgement a flight does not change. */
  lemma FlightIsConstant(p: Pair, e: Event, luck: Luck)
    requires Safe(p) && p.c.state == Established && p.c.len > 0 && !AcksFlight(p.c, e)
    ensures var q := PairStep(p, e, luck).pair;
            q.c.state == Established ==>
              q.c.sndNxt == p.c.sndNxt && q.c.len == p.c.len && Flight(q) == Flight(p) && Outs(q.u) == Outs(p.u)
  {
    var b := Begin(p.c, e);
    if b.Call? {
      if b.flags.rexmit {
        CallbackOffers(p.u, b.conn.stopped, b.flags, luck);
      } else if !b.flags.close && !b.flags.timedout && !b.flags.abort {
        CallbackListens(p.u, b.conn.stopped, b.flags, b.data, luck);
      }
    }
  }

  // ---------------------------------------------------------------------------------------------
  // Whole runs
  // ---------------------------------------------------------------------------------------------

  datatype Action = Net(e: Event, luck: Luck) | Write(data: seq<Byte>, grants: nat) | AskClose | AskRestart

  /** The initial send sequence number, the pair, the bytes the user wrote, the bytes of the blocks given back
      after their acknowledgement, the bytes the peer acknowledged; whether the block in flight and all blocks
      acknowledged so far were no longer than the segment size when they were sent. */
  datatype Ledger = Ledger(iss: Seq32, p: Pair, written: seq<Byte>, eaten: seq<Byte>, acked: seq<Byte>,
                           flightFits: bool, allFit: bool)

  ghost function Do(x: Ledger, a: Action): Ledger {
    match a
    case Net(e, luck) => if x.p.c.Active() then Network(x, e, luck) else x
    case Write(data, grants) =>
      if x.p.u.Attached? && !x.p.u.client.closing && Shaped(x.p.u.client.outs) then
        var r := WriteOnce(x.p.u.client, data, grants);
        x.(p := x.p.(u := Attached(r.0)), written := x.written + data[..r.1])
      else x
    case AskClose =>
      if x.p.u.Attached? then x.(p := x.p.(u := Attached(x.p.u.client.(closing := true)))) else x
    case AskRestart =>
      if x.p.u.Attached? then x.(p := x.p.(u := Attached(x.p.u.client.(restart := true)))) else x
  }

  function Network(x: Ledger, e: Event, luck: Luck): Ledger {
    Entered(x, PairStep(x.p, e, luck).pair, AcksFlight(x.p.c, e))
  }

  function Entered(x: Ledger, q: Pair, acked: bool): Ledger {
    if acked && Outs(x.p.u) != [] then
      x.(p := q, eaten := x.eaten + Outs(x.p.u)[0].bytes, acked := x.acked + Flight(x.p),
         allFit := x.allFit && x.flightFits)
    else if Sends(x.p, q) then x.(p := q, flightFits := |Outs(q.u)[0].bytes| <= x.p.c.mss)
    else x.(p := q)
  }

  /** The step put a block on the wire. */
  predicate Sends(p: Pair, q: Pair) {
    p.c.len == 0 && q.c.state == Established && q.c.len > 0 && Outs(q.u) != []
  }

  /** The one restriction on a run: no write leaves a gap. */
  predicate Enabled(x: Ledger, a: Action) {
    a.Write? && x.p.u.Attached? ==> !LeavesGap(x.p.u.client, a.data, a.grants)
  }

  /** Nothing written is lost before it is acknowledged, the send sequence number counts the bytes
      the peer acknowledged, and the peer acknowledged all that was given
      back exactly when every block fitted. */
  ghost predicate Books(x: Ledger) {
    && Safe(x.p)
    && (x.p.u.Attached? || x.p.c.state == SynRcvd || x.p.c.state == SynSent ==>
        x.written == x.eaten + Content(Outs(x.p.u)))
    && (x.p.c.state == Established && x.p.c.len > 0 ==> (x.flightFits <==> x.p.c.len == |Outs(x.p.u)[0].bytes|))
    && (Opening(x.p) ==> x.p.c.len == 1 && x.p.c.sndNxt == x.iss && x.acked == [])
    && (x.p.c.state == Established ==> x.p.c.sndNxt == (x.iss + 1 + |x.acked|) % TWO32)
    && |x.acked| <= |x.eaten|
    && (x.allFit <==> x.acked == x.eaten)
  }

  /** A segment puts nothing new in flight. */
  lemma SegmentSendsNothing(p: Pair, s: Segment, rtt: Byte, luck: Luck)
    requires Safe(p)
    ensures var e := Input(s, rtt);
            var q := PairStep(p, e, luck).pair;
            q.c.state == Established && q.c.len > 0 ==> !AcksFlight(p.c, e) && p.c.state == Established && p.c.len > 0
  {
    var b := OnSegment(p.c, s, rtt);
    if b.Call? && b.after.AppSend? {
      CallbackListens(p.u, b.conn.stopped, b.flags, b.data, luck);
    }
  }

  /** A poll sends the first block, whole exactly when it is no longer than the segment size. */
  lemma PollSends(p: Pair, luck: Luck)
    requires Safe(p) && p.c.state == Established && p.c.len == 0
    ensures var v := AppCall(p.u, p.c.stopped, NoFlags.(poll := true), [], luck);
            var q := Pair(Resume(p.c, AppSend, v.reply).conn, v.u);
            q.c.state == Established && q.c.len > 0 ==>
              Outs(q.u) != [] && (q.c.len == |Outs(q.u)[0].bytes| <==> |Outs(q.u)[0].bytes| <= p.c.mss)
  {
    CallbackOffers(p.u, p.c.stopped, NoFlags.(poll := true), luck);
  }

  lemma ClockSends(p: Pair, e: Event, luck: Luck)
    requires Safe(p) && !e.Input?
    ensures var q := PairStep(p, e, luck).pair;
            && (q.c.state == Established && q.c.len > 0 ==> (p.c.state == Established && p.c.len > 0) || Sends(p, q))
            && (Sends(p, q) ==> (q.c.len == |Outs(q.u)[0].bytes| <==> |Outs(q.u)[0].bytes| <= p.c.mss))
  {
    if p.c.state == Established && p.c.len == 0 {
      PollSends(p, luck);
    }
  }

  /** Something is in flight after a step only if it was before, or the step sent it. */
  lemma FlightBegins(p: Pair, e: Event, luck: Luck)
    requires Safe(p)
    ensures var q := PairStep(p, e, luck).pair;
            q.c.state == Established && q.c.len > 0 ==>
              && !AcksFlight(p.c, e)
              && ((p.c.state == Established && p.c.len > 0) || Sends(p, q))
  {
    if e.Input? {
      SegmentSendsNothing(p, e.s, e.rtt, luck);
    } else {
      ClockSends(p, e, luck);
    }
  }

  /** A block goes out whole exactly when it is no longer than the segment size. */
  lemma SentWhole(p: Pair, e: Event, luck: Luck)
    requires Safe(p)
    ensures var q := PairStep(p, e, luck).pair;
            Sends(p, q) ==> (q.c.len == |Outs(q.u)[0].bytes| <==> |Outs(q.u)[0].bytes| <= p.c.mss)
  {
    if e.Input? {
      SegmentSendsNothing(p, e.s, e.rtt, luck);
    } else {
      ClockSends(p, e, luck);
    }
  }

  lemma ConnectedWhenOpening(c: Conn, e: Event)
    ensures var b := Begin(c, e); b.Call? && b.flags.connected ==> c.state == SynRcvd || c.state == SynSent
  {
  }

  lemma ResumeNeverOpens(d: Conn, after: After, r: Reply)
    requires d.state != SynRcvd && (d.state != SynSent || after.SendReset?)
    ensures var q := Resume(d, after, r).conn; q.state != SynRcvd && q.state != SynSent
  {
  }

  lemma OpeningIsQuiet(c: Conn, e: Event, r: Reply)
    ensures var d := Step(c, e, r).conn;
            d.state == SynRcvd || d.state == SynSent ==> c.state == d.state && Begin(c, e).Quiet?
  {
    var b := Begin(c, e);
    if b.Call? {
      ResumeNeverOpens(b.conn, b.after, r);
    }
  }

  lemma ClientFromConnect(u: Attached, stopped: bool, flags: Flags, data: seq<Byte>, luck: Luck)
    ensures AppCall(u, stopped, flags, data, luck).u.Attached? ==> u.Attached? || flags.connected
  {
  }

  /** A client is there after a step only if it was before, or the connection was being opened; and
      an opening connection comes out of no other state. */
  lemma ClientStays(p: Pair, e: Event, luck: Luck)
    ensures var q := PairStep(p, e, luck).pair;
            && (q.u.Attached? ==> p.u.Attached? || Opening(p))
            && (Opening(q) ==> Opening(p) && q.u == p.u)
  {
    ConnectedWhenOpening(p.c, e);
    var b := Begin(p.c, e);
    if b.Call? {
      ClientFromConnect(p.u, b.conn.stopped, b.flags, b.data, luck);
      OpeningIsQuiet(p.c, e, AppCall(p.u, b.conn.stopped, b.flags, b.data, luck).reply);
    } else {
      OpeningIsQuiet(p.c, e, Reply(NoFlags, false, 0));
    }
  }

  ghost predicate InFlight(p: Pair) { p.c.state == Established && p.c.len > 0 }

  predicate Opening(p: Pair) { p.c.state == SynRcvd || p.c.state == SynSent }

  /** The books balance after a step that does to the pair what the lemmas above say. */
  lemma EntryBalances(x: Ledger, q: Pair, acked: bool)
    requires Books(x) && Safe(q) && (acked ==> InFlight(x.p))
    requires q.u.Attached? ==> x.p.u.Attached? || Opening(x.p)
    requires q.u.Attached? ==> Content(Outs(q.u)) == Content(if acked then Outs(x.p.u)[1..] else Outs(x.p.u))
    requires Opening(q) ==> Opening(x.p) && q.u == x.p.u
    requires Opening(q) ==> q.c.len == x.p.c.len && q.c.sndNxt == x.p.c.sndNxt && !acked
    requires q.c.state == Established ==> x.p.c.state == Established || Opening(x.p)
    requires q.c.state == Established ==>
               q.c.sndNxt == if acked || Opening(x.p) then Plus(x.p.c.sndNxt, x.p.c.len) else x.p.c.sndNxt
    requires InFlight(q) ==> !acked && (InFlight(x.p) || Sends(x.p, q))
    requires InFlight(q) && InFlight(x.p) ==> q.c.len == x.p.c.len && Outs(q.u) == Outs(x.p.u)
    requires Sends(x.p, q) ==> (q.c.len == |Outs(q.u)[0].bytes| <==> |Outs(q.u)[0].bytes| <= x.p.c.mss)
    ensures Books(Entered(x, q, acked))
  {
    if acked {
      var b, n := Outs(x.p.u)[0].bytes, x.p.c.len;
      AppendTwice(x.eaten, b, Content(Outs(x.p.u)[1..]));
      BothGrow(x.acked, x.eaten, b, n);
    }
  }

  /** The shorter one catches up only if it never fell behind. */
  lemma BothGrow(a: seq<Byte>, e: seq<Byte>, b: seq<Byte>, n: nat)
    requires |a| <= |e| && n <= |b|
    ensures a + b[..n] == e + b <==> a == e && n == |b|
  {
    if a + b[..n] == e + b {
      assert (a + b[..n])[..|a|] == a && (e + b)[..|e|] == e;
    }
    assert b[..|b|] == b;
  }

  /** The sequence number of the pair, and the way into ESTABLISHED. */
  lemma PairSequence(p: Pair, e: Event, luck: Luck)
    requires Safe(p)
    ensures var q := PairStep(p, e, luck).pair;
            && (Opening(q) ==> q.c.len == p.c.len && q.c.sndNxt == p.c.sndNxt)
            && (q.c.state == Established ==> p.c.state == Established || Opening(p))
            && (q.c.state == Established ==>
                q.c.sndNxt == if AcksFlight(p.c, e) || Opening(p) then Plus(p.c.sndNxt, p.c.len) else p.c.sndNxt)
  {
    var b := Begin(p.c, e);
    if b.Call? {
      SendSequenceMoves(p.c, e, AppCall(p.u, b.conn.stopped, b.flags, b.data, luck).reply);
    } else {
      SendSequenceMoves(p.c, e, Reply(NoFlags, false, 0));
    }
    ReachesEstablished(p.c, e);
    ClientStays(p, e, luck);
  }

  lemma ReachesEstablished(c: Conn, e: Event)
    ensures var b := Begin(c, e);
            && (b.conn.state == Established ==> c.state == Established || c.state == SynRcvd || c.state == SynSent)
            && (b.conn.state == Established && c.state != Established ==>
                e.Input? && !e.s.rst && !OutOfSequence(c, e.s) && Acks(c, e.s))
            && (b.Quiet? && (b.conn.state == SynRcvd || b.conn.state == SynSent) ==>
                b.conn.len == c.len && b.conn.sndNxt == c.sndNxt)
  {
  }

  lemma NetworkKeepsBooks(x: Ledger, e: Event, luck: Luck)
    requires Books(x)
    ensures Books(Network(x, e, luck))
  {
    StepKeepsSafe(x.p, e, luck);
    ClientStays(x.p, e, luck);
    FlightBegins(x.p, e, luck);
    SentWhole(x.p, e, luck);
    StepContent(x.p, e, luck);
    if InFlight(x.p) && !AcksFlight(x.p.c, e) {
      FlightIsConstant(x.p, e, luck);
    }
    PairSequence(x.p, e, luck);
    EntryBalances(x, PairStep(x.p, e, luck).pair, AcksFlight(x.p.c, e));
  }

  lemma UserKeepsBooks(x: Ledger, a: Action)
    requires Books(x) && Enabled(x, a) && !a.Net?
    ensures Books(Do(x, a))
  {
    if a.Write? && x.p.u.Attached? && !x.p.u.client.closing {
      var k := x.p.u.client;
      WrittenUnlessGap(k, a.data, a.grants);
      AppendTwice(x.eaten, Content(k.outs), a.data[..WriteOnce(k, a.data, a.grants).1]);
    }
  }

  ghost function DoAll(x: Ledger, actions: seq<Action>): Ledger {
    if actions == [] then x else Do(DoAll(x, actions[..|actions| - 1]), actions[|actions| - 1])
  }

  ghost predicate AllEnabled(x: Ledger, actions: seq<Action>) {
    forall i :: 0 <= i < |actions| ==> Enabled(DoAll(x, actions[..i]), actions[i])
  }

  /** In every run of network events, writes, closes and reads, from any open connection with any
      blocks already in its client: the pair is safe at every point, what was written is what was
      given back and what is still queued, and the peer has acknowledged all that was given back
      exactly when every block was no longer than the segment size at the time it was sent. */
  lemma {:induction false} StopAndWait(x: Ledger, actions: seq<Action>)
    requires Books(x) && AllEnabled(x, actions)
    ensures Books(DoAll(x, actions))
  {
    if actions != [] {
      var n := |actions| - 1;
      forall i | 0 <= i < n
        ensures Enabled(DoAll(x, actions[..n][..i]), actions[..n][i])
      {
        assert actions[..n][..i] == actions[..i];
      }
      StopAndWait(x, actions[..n]);
      var y, a := DoAll(x, actions[..n]), actions[n];
      if a.Net? {
        if y.p.c.Active() {
          NetworkKeepsBooks(y, a.e, a.luck);
        }
      } else {
        UserKeepsBooks(y, a);
      }
    }
  }

  // ---------------------------------------------------------------------------------------------
  // What the peer gets
  // ---------------------------------------------------------------------------------------------

  /** A segment with data answers the clock, on a connection that was established before. */
  lemma DataMovesNothing(p: Pair, e: Event, luck: Luck)
    requires Safe(p) && PairStep(p, e, luck).emit.Data?
    ensures var q := PairStep(p, e, luck).pair;
            && p.c.state == Established && q.c.sndNxt == p.c.sndNxt && p.u.Attached? && Outs(q.u) != []
            && Content(Outs(q.u)) == Content(Outs(p.u))
  {
    DataIsOffered(p, e, luck);
    DataCarriesFlight(p, e, luck);
    if e.Input? {
      SegmentAnswersWithoutData(p, e.s, e.rtt, luck);
    }
    PairSequence(p, e, luck);
    ReachesEstablished(p.c, e);
    SentInEstablished(p.c, e);
    StepContent(p, e, luck);
  }

  lemma FirstOfContent(outs: seq<Block>, n: nat, before: seq<Byte>, all: seq<Byte>)
    requires outs != [] && n <= |outs[0].bytes| && all == before + Content(outs)
    ensures Stands(outs[0].bytes[..n], all, |before|)
  {
    var b, rest := outs[0].bytes, Content(outs[1..]);
    assert all[|before|..] == b + rest;
    assert all[|before|..][..n] == all[|before|..|before| + n];
  }

  /** The bytes stand in the whole at offset n. */
  ghost predicate Stands(bytes: seq<Byte>, all: seq<Byte>, n: nat) {
    n + |bytes| <= |all| && all[n..n + |bytes|] == bytes
  }

  lemma StandsInMore(bytes: seq<Byte>, all: seq<Byte>, more: seq<Byte>, n: nat)
    requires Stands(bytes, all, n) && |all| <= |more| && more[..|all|] == all
    ensures Stands(bytes, more, n)
  {
    assert more[..|all|][n..n + |bytes|] == more[n..n + |bytes|];
  }

  lemma FlightStands(p: Pair, q: Pair, acked: seq<Byte>, written: seq<Byte>)
    requires Outs(q.u) != [] && Content(Outs(q.u)) == Content(Outs(p.u)) && written == acked + Content(Outs(p.u))
    ensures Flight(q) != [] ==> Stands(Flight(q), written, |acked|)
  {
    if Flight(q) != [] {
      FirstOfContent(Outs(q.u), q.c.len, acked, written);
    }
  }

  /** As long as every block fitted, a data segment carries the bytes written next behind those the peer
      acknowledged, under the sequence number that counts them. */
  lemma DataIsNextWritten(x: Ledger, e: Event, luck: Luck)
    requires Books(x) && x.allFit && luck.copy && PairStep(x.p, e, luck).emit.Data?
    ensures var emit, sent := PairStep(x.p, e, luck).emit, Payload(x.p, e, luck);
            && emit.seqno == (x.iss + 1 + |x.acked|) % TWO32 && sent.Some? && |sent.value| == emit.size > 0
            && Stands(sent.value, x.written, |x.acked|)
  {
    DataCarriesFlight(x.p, e, luck);
    DataMovesNothing(x.p, e, luck);
    FlightStands(x.p, PairStep(x.p, e, luck).pair, x.acked, x.written);
  }

  ghost predicate Grows(x: Ledger, y: Ledger) {
    y.iss == x.iss && |x.written| <= |y.written| && x.written == y.written[..|x.written|]
  }

  lemma {:induction false} WrittenGrows(x: Ledger, before: seq<Action>, more: seq<Action>)
    ensures Grows(DoAll(x, before), DoAll(x, before + more))
    decreases |more|
  {
    if more == [] {
      assert before + more == before;
    } else {
      var n, a := |more| - 1, more[|more| - 1];
      WrittenGrows(x, before, more[..n]);
      assert (before + more)[..|before + more| - 1] == before + more[..n];
      var y := DoAll(x, before + more[..n]);
      assert Grows(y, Do(y, a));
    }
  }

  /** s holds the data that leaves in a step. */
  ghost predicate Carries(p: Pair, e: Event, luck: Luck, s: Segment) {
    var emit := PairStep(p, e, luck).emit;
    emit.Data? && s.seqno == emit.seqno && Some(s.payload) == Payload(p, e, luck) && !s.syn && !s.fin
  }

  lemma CarriedIsTruthful(y: Ledger, z: Ledger, e: Event, luck: Luck, s: Segment)
    requires Books(y) && y.allFit && luck.copy && Grows(y, z) && Carries(y.p, e, luck, s)
    ensures TcpDelivery.Truthful(TcpDelivery.Peer(y.iss, z.written), s, |y.acked|)
  {
    DataIsNextWritten(y, e, luck);
    StandsInMore(s.payload, y.written, z.written, |y.acked|);
  }

  /** The sender's half of end-to-end delivery.  At every point of every run, a data segment that leaves
      while all blocks fitted is one the receiver's theorem asks for: a true piece of the stream that the
      user will have written in the end, however the run goes on. */
  lemma SentIsTruthful(x: Ledger, before: seq<Action>, e: Event, luck: Luck, more: seq<Action>, s: Segment)
    requires Books(x) && AllEnabled(x, before) && DoAll(x, before).allFit && luck.copy
    requires Carries(DoAll(x, before).p, e, luck, s)
    ensures var stream := DoAll(x, before + more).written;
            TcpDelivery.Truthful(TcpDelivery.Peer(x.iss, stream), s, |DoAll(x, before).acked|)
  {
    StopAndWait(x, before);
    WrittenGrows(x, [], before);
    WrittenGrows(x, before, more);
    assert [] + before == before;
    CarriedIsTruthful(DoAll(x, before), DoAll(x, before + more), e, luck, s);
  }

  /** Both ways of opening a connection on a slot open the books, whatever client is left on it. */
  lemma OpenBooks(slot: Conn, u: Attached, iss: Seq32, s: Segment, lport: Port, rport: Port, ripaddr: int)
    requires ClientValid(u)
    ensures Books(Ledger(iss, Pair(ConnectRecord(slot, iss, lport, rport, ripaddr), u), Content(Outs(u)), [], [],
                         true, true))
    ensures Books(Ledger(iss, Pair(ListenRecord(slot, iss, s), u), Content(Outs(u)), [], [], true, true))
  {
    assert [] + Content(Outs(u)) == Content(Outs(u));
  }

  /** Bytes are lost for certain once a block longer than the segment size was sent and acknowledged:
      here three bytes against a window of two. */
  lemma LongBlockLosesBytes(iss: Seq32, c: Conn, rtt: Byte, luck: Luck)
    requires c.state == Established && !c.stopped && c.len == 0 && c.mss == 2 && c.nrtx == 0 && c.sndNxt == Plus(iss, 1)
    ensures var x := Ledger(iss, Pair(c, Attached(Client(false, false, [Block([7, 8, 9], 512)]))), [7, 8, 9], [], [],
                            true, true);
            var ack := Segment(c.rcvNxt, Plus(c.sndNxt, 2), false, false, false, false, true, 512, [], NoMss, c.lport,
                               c.rport, c.ripaddr);
            var y := DoAll(x, [Net(PollRequest, luck), Net(Input(ack, rtt), luck)]);
            Books(x) && Outs(y.p.u) == [] && y.acked == [7, 8] && y.written == [7, 8, 9]
  {
    var outs := [Block([7, 8, 9], 512)];
    assert Content(outs) == [7, 8, 9] + Content([]);
    var x := Ledger(iss, Pair(c, Attached(Client(false, false, outs))), [7, 8, 9], [], [], true, true);
    var ack := Segment(c.rcvNxt, Plus(c.sndNxt, 2), false, false, false, false, true, 512, [], NoMss, c.lport,
                       c.rport, c.ripaddr);
    DoTwo(x, Net(PollRequest, luck), Net(Input(ack, rtt), luck));
    AtRest(x);
    TwoOfThreeSent(x, luck);
    TwoOfThreeAcked(Do(x, Net(PollRequest, luck)), ack, rtt, luck);
  }

  lemma DoTwo(x: Ledger, a: Action, b: Action)
    ensures DoAll(x, [a, b]) == Do(Do(x, a), b)
  {
    assert [a, b][..1] == [a] && [a][..0] == [];
    assert DoAll(x, [a]) == Do(x, a);
  }

  /** An established connection with nothing in flight and all that was written queued. */
  lemma AtRest(x: Ledger)
    requires x.p.c.state == Established && !x.p.c.stopped && x.p.c.len == 0 && x.p.c.nrtx == 0 &&
             x.p.c.sndNxt == Plus(x.iss, 1)
    requires x.p.u.Attached? && x.p.u.client.Valid() && x.written == Content(Outs(x.p.u)) && x.eaten == [] &&
             x.acked == [] && x.allFit
    ensures Books(x)
  {
    assert [] + x.written == x.written;
  }

  lemma TwoOfThreeSent(x: Ledger, luck: Luck)
    requires x.p.c.state == Established && !x.p.c.stopped && x.p.c.len == 0 && x.p.c.mss == 2 && x.p.c.nrtx == 0
    requires x.p.u == Attached(Client(false, false, [Block([7, 8, 9], 512)]))
    ensures var y := Do(x, Net(PollRequest, luck));
            && y.p == Pair(x.p.c.(len := 2), Attached(Client(false, false, [Block([7, 8, 9], 3)])))
            && y.acked == x.acked && y.written == x.written
  {
  }

  lemma TwoOfThreeAcked(y: Ledger, ack: Segment, rtt: Byte, luck: Luck)
    requires y.p.c.state == Established && !y.p.c.stopped && y.p.c.len == 2 && y.p.u.Attached? &&
             !y.p.u.client.closing && !y.p.u.client.restart
    requires Outs(y.p.u) == [Block([7, 8, 9], 3)] && y.acked == []
    requires ack.ack && !ack.rst && !ack.syn && !ack.fin && ack.payload == [] && ack.ackno == Plus(y.p.c.sndNxt, 2)
    ensures var z := Do(y, Net(Input(ack, rtt), luck)); Outs(z.p.u) == [] && z.acked == [7, 8] && z.written == y.written
  {
    assert [7, 8, 9][..2] == [7, 8];
  }
}
