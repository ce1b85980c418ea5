/**
 The application side of the TCP engine: the callback uipclient_appcall, and what holds of a
 connection and its client together.
*/
module TcpCallback {
  import opened Basics
  import opened Tcp
  import opened TcpBlocks

  datatype Attached = NoClient | Attached(client: Client)

  /** What the callback finds outside: a free userdata record, a receive queue that must stop, room
      for the outgoing copy of a block. */
  datatype Luck = Luck(record: bool, queueFull: bool, copy: bool)

  datatype Called = Called(u: Attached, reply: Reply)

  /** uipclient_appcall */
  function AppCall(u0: Attached, stopped: bool, flags: Flags, data: seq<Byte>, luck: Luck): Called {
    var u := if u0 == NoClient && flags.connected && luck.record then Attached(Client(false, false, [])) else u0;
    match u
    case NoClient => Called(NoClient, Reply(flags, stopped, 0))
    case Attached(k) =>
      var full := flags.newdata && data != [] && !k.closing && luck.queueFull;
      if k.restart then Served(k.(restart := false), flags.(newdata := true), false)
      else Served(k, flags, stopped || full)
  }

  /** The callback from finish_newdata on. */
  function Served(k: Client, flags: Flags, stopped: bool): Called {
    if flags.close || flags.timedout then Called(NoClient, Reply(flags, stopped, 0))
    else
      var eaten := if flags.ackdata then Eaten(k) else k;
      if (flags.poll || flags.rexmit) && eaten.outs != [] then
        var sealed := Sealed(eaten);
        Called(Attached(sealed), Reply(flags, stopped, SendLength(eaten)))
      else if eaten.closing then
        if eaten.outs == [] then Called(NoClient, Reply(NoFlags.(close := true), stopped, 0))
        else Called(Attached(eaten), Reply(flags, true, 0))
      else Called(Attached(eaten), Reply(flags, stopped, 0))
  }

  /** The block copied into the outgoing packet, when there is one to send and room for the copy. */
  function CopiedOut(u: Attached, flags: Flags, luck: Luck): Option<seq<Byte>> {
    if u == NoClient || flags.close || flags.timedout || !(flags.poll || flags.rexmit) || !luck.copy then None
    else
      var k := if flags.ackdata then Eaten(u.client) else u.client;
      if k.outs == [] || SendLength(k) == 0 then None else Some(k.outs[0].bytes)
  }

  // ---------------------------------------------------------------------------------------------
  // A connection and its client
  // ---------------------------------------------------------------------------------------------

  datatype Pair = Pair(c: Conn, u: Attached)

  datatype Outcome = Outcome(pair: Pair, emit: Emit)

  /** One call of uip_process with uipclient_appcall as the application. */
  function PairStep(p: Pair, e: Event, luck: Luck): Outcome {
    match Begin(p.c, e)
    case Quiet(d, emit) => Outcome(Pair(d, p.u), emit)
    case Call(d, flags, data, after) =>
      var called := AppCall(p.u, d.stopped, flags, data, luck);
      var r := Resume(d, after, called.reply);
      Outcome(Pair(r.conn, called.u), r.emit)
  }

  ghost predicate ClientValid(u: Attached) { u.Attached? ==> u.client.Valid() }

  /** The block in flight is the first block of packets_out, and nothing can be written into it. */
  ghost predicate FlightHeld(p: Pair) {
    && p.u.Attached? && p.u.client.outs != []
    && var b := p.u.client.outs[0];
       p.c.len <= |b.bytes| && b.Full()
  }

  /** States in which the callback has let go of the connection. */
  predicate Leaving(s: State) { s in {FinWait1, FinWait2, Closing, TimeWait, LastAck} }

  /** States in which nothing can be outstanding, and may therefore be found with len == 0. */
  predicate Idle(s: State) { s in {Closed, Established, FinWait2, TimeWait} }

  ghost predicate Safe(p: Pair) {
    && ClientValid(p.u)
    && (p.c.state == Established && p.c.len > 0 ==> FlightHeld(p))
    && (Leaving(p.c.state) ==> p.u == NoClient)
    && (p.c.stopped ==> p.c.state == Established || p.c.state == Closed)
    && (p.c.len == 0 ==> Idle(p.c.state))
    && p.c.nrtx <= MAXRTX
  }

  lemma ServedKeepsClient(k: Client, flags: Flags, stopped: bool)
    requires k.Valid()
    ensures ClientValid(Served(k, flags, stopped).u)
  {
    EatenValid(k);
    var eaten := if flags.ackdata then Eaten(k) else k;
    if eaten.outs != [] {
      SealedValid(eaten);
    }
  }

  /** The callback keeps the client's blocks in shape. */
  lemma CallbackKeepsClient(u: Attached, stopped: bool, flags: Flags, data: seq<Byte>, luck: Luck)
    requires ClientValid(u)
    ensures ClientValid(AppCall(u, stopped, flags, data, luck).u)
  {
    var k := if u.Attached? then u.client else Client(false, false, []);
    var full := flags.newdata && data != [] && !k.closing && luck.queueFull;
    if k.restart {
      ServedKeepsClient(k.(restart := false), flags.(newdata := true), false);
    } else {
      ServedKeepsClient(k, flags, stopped || full);
    }
  }

  function Outs(u: Attached): seq<Block> { if u == NoClient then [] else u.client.outs }

  /** Called without poll or retransmission: nothing is sent, and uip_close is called only with no
      block left. */
  lemma CallbackListens(u: Attached, stopped: bool, flags: Flags, data: seq<Byte>, luck: Luck)
    requires !flags.poll && !flags.rexmit && !flags.close && !flags.timedout && !flags.abort
    ensures var v := AppCall(u, stopped, flags, data, luck);
            var left := if flags.ackdata && Outs(u) != [] then Outs(u)[1..] else Outs(u);
            && v.reply.slen == 0 && !v.reply.flags.abort
            && (v.reply.flags.close ==> left == [] && v.u == NoClient)
            && (!v.reply.flags.close ==> Outs(v.u) == left)
  {
  }

  /** Called to poll or retransmit: the first block is offered, whole, and sealed if it has content. */
  lemma CallbackOffers(u: Attached, stopped: bool, flags: Flags, luck: Luck)
    requires ClientValid(u) && (flags.poll || flags.rexmit)
    requires !flags.close && !flags.timedout && !flags.abort && !flags.ackdata && !flags.connected
    ensures var v := AppCall(u, stopped, flags, [], luck);
            && !v.reply.flags.abort
            && (Outs(u) == [] ==> v.reply.slen == 0 && (v.reply.flags.close ==> v.u == NoClient))
            && (Outs(u) != [] ==>
                && !v.reply.flags.close && v.reply.slen == |Outs(u)[0].bytes|
                && |Outs(v.u)| == |Outs(u)| && Outs(v.u)[0].bytes == Outs(u)[0].bytes
                && (v.reply.slen > 0 ==> Outs(v.u)[0].Full())
                && (Outs(u)[0].Full() ==> Outs(v.u) == Outs(u)))
  {
    if u.Attached? && u.client.outs != [] {
      SealedValid(if u.client.restart then u.client.(restart := false) else u.client);
    }
  }

  /** What the engine makes of such an answer. */
  lemma AnswerKeepsSafe(d: Conn, u: Attached, v: Attached, r: Reply)
    requires d.state == Established && Safe(Pair(d, u)) && ClientValid(v)
    requires !r.flags.abort && (r.flags.close ==> v == NoClient)
    requires d.len > 0 ==> r.slen == 0 && Outs(v) == Outs(u)
    requires r.slen > 0 ==> Outs(v) != [] && r.slen == |Outs(v)[0].bytes| && Outs(v)[0].Full()
    ensures Safe(Pair(Resume(d, AppSend, r).conn, v))
  {
  }

  lemma TimerKeepsSafe(p: Pair, luck: Luck)
    requires Safe(p)
    ensures Safe(PairStep(p, Timer, luck).pair)
  {
    var q := OnTimer(p.c);
    if q.Call? {
      CallbackKeepsClient(p.u, q.conn.stopped, q.flags, q.data, luck);
      var v := AppCall(p.u, q.conn.stopped, q.flags, q.data, luck);
      if q.after.AppSend? {
        CallbackOffers(p.u, q.conn.stopped, q.flags, luck);
        AnswerKeepsSafe(q.conn, p.u, v.u, v.reply);
      } else if q.after.AppRexmit? {
        CallbackOffers(p.u, q.conn.stopped, q.flags, luck);
      }
    }
  }

  lemma PollKeepsSafe(p: Pair, luck: Luck)
    requires Safe(p)
    ensures Safe(PairStep(p, PollRequest, luck).pair)
  {
    var q := OnPoll(p.c);
    if q.Call? {
      CallbackKeepsClient(p.u, q.conn.stopped, q.flags, q.data, luck);
      var v := AppCall(p.u, q.conn.stopped, q.flags, q.data, luck);
      CallbackOffers(p.u, q.conn.stopped, q.flags, luck);
      AnswerKeepsSafe(q.conn, p.u, v.u, v.reply);
    }
  }

  lemma EstablishedKeepsSafe(p: Pair, s: Segment, rtt: Byte, luck: Luck)
    requires Safe(p) && p.c.state == Established
    ensures Safe(PairStep(p, Input(s, rtt), luck).pair)
  {
    var q := OnSegment(p.c, s, rtt);
    if q.Call? {
      CallbackKeepsClient(p.u, q.conn.stopped, q.flags, q.data, luck);
      var v := AppCall(p.u, q.conn.stopped, q.flags, q.data, luck);
      if q.after.AppSend? {
        CallbackListens(p.u, q.conn.stopped, q.flags, q.data, luck);
        AnswerKeepsSafe(q.conn, p.u, v.u, v.reply);
      }
    }
  }

  lemma OpeningKeepsSafe(p: Pair, s: Segment, rtt: Byte, luck: Luck)
    requires Safe(p) && (p.c.state == SynRcvd || p.c.state == SynSent)
    ensures Safe(PairStep(p, Input(s, rtt), luck).pair)
  {
    var q := OnSegment(p.c, s, rtt);
    if q.Call? {
      CallbackKeepsClient(p.u, q.conn.stopped, q.flags, q.data, luck);
      var v := AppCall(p.u, q.conn.stopped, q.flags, q.data, luck);
      if q.after.AppSend? {
        CallbackListens(p.u, q.conn.stopped, q.flags, q.data, luck);
        AnswerKeepsSafe(q.conn, p.u, v.u, v.reply);
      }
    }
  }

  lemma LeavingKeepsSafe(p: Pair, s: Segment, rtt: Byte, luck: Luck)
    requires Safe(p) && (Leaving(p.c.state) || p.c.state == Closed)
    ensures Safe(PairStep(p, Input(s, rtt), luck).pair)
  {
    var q := OnSegment(p.c, s, rtt);
    if q.Call? {
      CallbackKeepsClient(p.u, q.conn.stopped, q.flags, q.data, luck);
    }
  }

  /** Every call of uip_process keeps a connection and its client safe. */
  lemma StepKeepsSafe(p: Pair, e: Event, luck: Luck)
    requires Safe(p)
    ensures Safe(PairStep(p, e, luck).pair)
  {
    match e
    case Timer => TimerKeepsSafe(p, luck);
    case PollRequest => PollKeepsSafe(p, luck);
    case Input(s, rtt) =>
      if p.c.state == Established {
        EstablishedKeepsSafe(p, s, rtt, luck);
      } else if p.c.state == SynRcvd || p.c.state == SynSent {
        OpeningKeepsSafe(p, s, rtt, luck);
      } else {
        LeavingKeepsSafe(p, s, rtt, luck);
      }
  }
}
