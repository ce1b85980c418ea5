/**
 Timeouts: which connections the periodic timer alone brings to CLOSED, and the slot that no event
 can free again.
*/
module TcpProgress {
  import opened Basics
  import opened Tcp
  import opened TcpBlocks
  import opened TcpCallback

  function Tick(p: Pair, luck: Luck): Pair { PairStep(p, Timer, luck).pair }

  /** The timer fires once for each element. */
  function Ticks(p: Pair, lucks: seq<Luck>): Pair
    decreases |lucks|
  {
    if lucks == [] then p else Ticks(Tick(p, lucks[0]), lucks[1..])
  }

  /** Waiting for the time-wait timeout. */
  predicate Counting(c: Conn) { !c.stopped && (c.state == TimeWait || c.state == FinWait2) }

  /** Something is outstanding or the time-wait clock is running. */
  predicate Pending(c: Conn) { c.Active() && (Counting(c) || c.len > 0) }

  /** The stop bit on a closed connection with nothing outstanding. */
  predicate Zombie(c: Conn) { c.state == Closed && c.stopped && c.len == 0 }

  predicate Resting(c: Conn) { c.state == Established && c.len == 0 }

  /** Retransmissions left and timer, or the ticks the time-wait clock still has to make. */
  function Rank(c: Conn): nat
    requires c.nrtx <= MAXRTX
  {
    if !c.Active() then 0
    else if Counting(c) then (TIME_WAIT_TIMEOUT - 1 - c.timer) % 256 + 1
    else (MAXRTX - c.nrtx) * 300 + c.timer + 1
  }

  lemma TimeWaitRank(t: Byte)
    requires (t + 1) % 256 != TIME_WAIT_TIMEOUT
    ensures (TIME_WAIT_TIMEOUT - 1 - (t + 1) % 256) % 256 < (TIME_WAIT_TIMEOUT - 1 - t) % 256
  {
  }

  /** The callback on retransmission and on timeout. */
  lemma TimerCallback(p: Pair, luck: Luck)
    requires Safe(p) && OnTimer(p.c).Call?
    ensures var b := OnTimer(p.c);
            b.flags.timedout ==> !AppCall(p.u, b.conn.stopped, b.flags, b.data, luck).reply.stopped
  {
  }

  /** Every tick lowers the rank of a pending connection until it is closed. */
  lemma TickLowersRank(p: Pair, luck: Luck)
    requires Safe(p) && Pending(p.c)
    ensures var q := Tick(p, luck);
            Safe(q) && (!q.c.Active() || (Pending(q.c) && Rank(q.c) < Rank(p.c)))
  {
    StepKeepsSafe(p, Timer, luck);
    if Counting(p.c) {
      if (p.c.timer + 1) % 256 != TIME_WAIT_TIMEOUT {
        TimeWaitRank(p.c.timer);
      }
    } else if OnTimer(p.c).Call? {
      TimerCallback(p, luck);
    }
  }

  lemma TickKeepsClosed(p: Pair, luck: Luck)
    requires !p.c.Active() || Zombie(p.c)
    ensures Tick(p, luck) == p
  {
  }

  lemma {:induction false} TicksKeepClosed(p: Pair, lucks: seq<Luck>)
    requires !p.c.Active() || Zombie(p.c)
    ensures Ticks(p, lucks) == p
    decreases |lucks|
  {
    if lucks != [] {
      TickKeepsClosed(p, lucks[0]);
      TicksKeepClosed(p, lucks[1..]);
    }
  }

  lemma {:induction false} PendingCloses(p: Pair, lucks: seq<Luck>)
    requires Safe(p) && Pending(p.c) && |lucks| >= Rank(p.c)
    ensures !Ticks(p, lucks).c.Active()
    decreases Rank(p.c)
  {
    TickLowersRank(p, lucks[0]);
    var q := Tick(p, lucks[0]);
    if q.c.Active() {
      PendingCloses(q, lucks[1..]);
    } else {
      TicksKeepClosed(q, lucks[1..]);
    }
  }

  // ---------------------------------------------------------------------------------------------
  // The exact deadline
  // ---------------------------------------------------------------------------------------------

  /** Ticks until the timer has run out once too often. */
  function Patience(timer: nat, nrtx: nat, limit: nat): (ticks: nat)
    ensures timer < ticks
    decreases limit - nrtx
  {
    timer + 1 + if nrtx < limit then Patience(Backoff(nrtx), nrtx + 1, limit) else 0
  }

  /** Openings are tried fewer times. */
  function Limit(c: Conn): nat {
    if (c.state == SynSent || c.state == SynRcvd) && c.nrtx <= MAXSYNRTX then MAXSYNRTX else MAXRTX
  }

  function Deadline(c: Conn): nat {
    if Counting(c) then (TIME_WAIT_TIMEOUT - 1 - c.timer) % 256 + 1 else Patience(c.timer, c.nrtx, Limit(c))
  }

  lemma TimeWaitStep(t: Byte)
    ensures (t + 1) % 256 == TIME_WAIT_TIMEOUT <==> (TIME_WAIT_TIMEOUT - 1 - t) % 256 == 0
    ensures (t + 1) % 256 != TIME_WAIT_TIMEOUT ==>
              (TIME_WAIT_TIMEOUT - 1 - (t + 1) % 256) % 256 + 1 == (TIME_WAIT_TIMEOUT - 1 - t) % 256
  {
  }

  predicate OneNearer(c: Conn, d: Conn) {
    if Deadline(c) == 1 then !d.Active() else Pending(d) && Deadline(d) == Deadline(c) - 1
  }

  lemma CountingTick(p: Pair, luck: Luck)
    requires p.c.Active() && Counting(p.c)
    ensures OneNearer(p.c, Tick(p, luck).c)
  {
    TimeWaitStep(p.c.timer);
  }

  lemma WaitingTick(p: Pair, luck: Luck)
    requires Pending(p.c) && !Counting(p.c) && p.c.timer > 0
    ensures OneNearer(p.c, Tick(p, luck).c)
  {
    assert Tick(p, luck).c == p.c.(timer := p.c.timer - 1);
  }

  lemma GivesUpAtLimit(c: Conn)
    requires c.nrtx <= MAXRTX && (c.stopped ==> c.state == Established || c.state == Closed)
    ensures GivesUp(c) <==> c.nrtx >= Limit(c)
  {
  }

  /** The record after another try. */
  function Retried(c: Conn): Conn
    requires c.nrtx < MAXRTX
  {
    c.(timer := Backoff(c.nrtx), nrtx := c.nrtx + 1)
  }

  lemma ExpiringTick(p: Pair, luck: Luck)
    requires Safe(p) && Pending(p.c) && !Counting(p.c) && p.c.timer == 0
    ensures var q := Tick(p, luck);
            && (p.c.nrtx >= Limit(p.c) ==> !q.c.Active())
            && (p.c.nrtx < Limit(p.c) ==>
                  q.c.(stopped := p.c.stopped) == Retried(p.c) &&
                  (q.c.stopped ==> p.c.state == Established || p.c.stopped))
  {
    GivesUpAtLimit(p.c);
    if OnTimer(p.c).Call? {
      TimerCallback(p, luck);
    }
  }

  lemma RetriedIsNearer(c: Conn, d: Conn)
    requires Pending(c) && !Counting(c) && c.timer == 0 && c.nrtx < Limit(c) && c.len > 0
    requires d.(stopped := c.stopped) == Retried(c) && d.Active() && !Counting(d)
    ensures OneNearer(c, d)
  {
    assert Limit(d) == Limit(c);
  }

  /** A tick brings a pending connection exactly one tick nearer. */
  lemma TickCounts(p: Pair, luck: Luck)
    requires Safe(p) && Pending(p.c)
    ensures Safe(Tick(p, luck)) && OneNearer(p.c, Tick(p, luck).c)
  {
    StepKeepsSafe(p, Timer, luck);
    if Counting(p.c) {
      CountingTick(p, luck);
    } else if p.c.timer > 0 {
      WaitingTick(p, luck);
    } else {
      ExpiringTick(p, luck);
      if p.c.nrtx < Limit(p.c) {
        RetriedIsNearer(p.c, Tick(p, luck).c);
      }
    }
  }

  /** So a pending connection is closed by the clock after exactly as many ticks as its deadline. */
  lemma {:induction false} ClosesOnTime(p: Pair, lucks: seq<Luck>)
    requires Safe(p) && Pending(p.c)
    ensures !Ticks(p, lucks).c.Active() <==> |lucks| >= Deadline(p.c)
    decreases |lucks|
  {
    if lucks != [] {
      TickCounts(p, lucks[0]);
      var q := Tick(p, lucks[0]);
      if q.c.Active() {
        ClosesOnTime(q, lucks[1..]);
      } else {
        TicksKeepClosed(q, lucks[1..]);
      }
    }
  }

  /** The timeout doubles four times. */
  lemma BackoffDoubles(n: nat)
    ensures Backoff(0) == RTO && Backoff(n + 1) == if n < 4 then 2 * Backoff(n) else Backoff(n)
  {
  }

  /** An attempt to connect that nobody answers takes 100 ticks, and one that is never confirmed 102. */
  lemma OpeningDeadlines(slot: Conn, iss: Seq32, s: Segment, lport: Port, rport: Port, ripaddr: int)
    ensures Deadline(ConnectRecord(slot, iss, lport, rport, ripaddr)) == 100
    ensures Deadline(ListenRecord(slot, iss, s)) == 102
  {
    assert Patience(48, 5, 5) == 49;
    assert Patience(24, 4, 5) == 74;
    assert Patience(12, 3, 5) == 87;
    assert Patience(6, 2, 5) == 94;
    assert Patience(3, 1, 5) == 98;
  }

  // ---------------------------------------------------------------------------------------------
  // The established connection with nothing outstanding
  // ---------------------------------------------------------------------------------------------

  /** The next poll sends a block or closes. */
  predicate PollMoves(p: Pair) {
    p.u.Attached? && if p.u.client.outs == [] then p.u.client.closing else |p.u.client.outs[0].bytes| > 0 && p.c.mss > 0
  }

  lemma RestingTick(p: Pair, luck: Luck)
    requires Safe(p) && Resting(p.c)
    ensures var q := Tick(p, luck);
            && Safe(q)
            && (PollMoves(p) ==> Pending(q.c))
            && (!PollMoves(p) ==> Resting(q.c) && !PollMoves(q))
  {
    StepKeepsSafe(p, Timer, luck);
    CallbackOffers(p.u, p.c.stopped, NoFlags.(poll := true), luck);
  }

  lemma {:induction false} RestingStays(p: Pair, lucks: seq<Luck>)
    requires Safe(p) && Resting(p.c) && !PollMoves(p)
    ensures Resting(Ticks(p, lucks).c)
    decreases |lucks|
  {
    if lucks != [] {
      RestingTick(p, lucks[0]);
      RestingStays(Tick(p, lucks[0]), lucks[1..]);
    }
  }

  /** Ticks that are enough for every connection. */
  const BOUND := 2700

  predicate TimerCloses(p: Pair) {
    if Resting(p.c) then PollMoves(p) else !Zombie(p.c)
  }

  /** Under timer events alone a connection reaches CLOSED exactly unless it is established with
      nothing to send and nothing to close, or a closed slot that kept the stop bit. */
  lemma TimeoutProgress(p: Pair, lucks: seq<Luck>)
    requires Safe(p) && |lucks| >= BOUND
    ensures !Ticks(p, lucks).c.Active() <==> TimerCloses(p)
  {
    if Resting(p.c) {
      if PollMoves(p) {
        RestingTick(p, lucks[0]);
        PendingCloses(Tick(p, lucks[0]), lucks[1..]);
      } else {
        RestingStays(p, lucks);
      }
    } else if !p.c.Active() || Zombie(p.c) {
      TicksKeepClosed(p, lucks);
    } else {
      PendingCloses(p, lucks);
    }
  }

  /** A write of nothing followed by a close: when a block could be had for the write, the connection rests
      under every number of ticks; when not, the ticks close it. */
  lemma EmptyWriteRests(p: Pair, grants: nat, lucks: seq<Luck>)
    requires Safe(p) && Resting(p.c) && p.u.Attached? && p.u.client.outs == []
    ensures var q := p.(u := Attached(WriteOnce(p.u.client, [], grants).0.(closing := true)));
            && (grants > 0 ==> Resting(Ticks(q, lucks).c))
            && (grants == 0 && |lucks| >= BOUND ==> !Ticks(q, lucks).c.Active())
  {
    var k := WriteOnce(p.u.client, [], grants).0;
    var q := p.(u := Attached(k.(closing := true)));
    if grants > 0 {
      assert k.outs == Fill(NewPacket([]), []).0 == [Block([] + [], DATALEN)];
      RestingStays(q, lucks);
    } else if |lucks| >= BOUND {
      TimeoutProgress(q, lucks);
    }
  }

  // ---------------------------------------------------------------------------------------------
  // The slot that is never freed
  // ---------------------------------------------------------------------------------------------

  /** A reset finds the user closing with blocks not sent yet. */
  predicate ResetWhileClosing(p: Pair, e: Event) {
    e.Input? && e.s.rst && p.u.Attached? && p.u.client.closing && p.u.client.outs != []
  }

  predicate Abandoned(p: Pair) {
    p.c.state == Closed && p.c.stopped && p.u.Attached? && p.u.client.closing && p.u.client.outs != []
  }

  lemma ResetEffect(p: Pair, e: Event, luck: Luck)
    requires e.Input? && e.s.rst
    ensures var q := PairStep(p, e, luck).pair;
            && q.c.state == Closed && q.c.len == p.c.len
            && (q.c.stopped <==> ResetWhileClosing(p, e))
            && (q.c.stopped ==> Abandoned(q))
  {
  }

  /** The clock: only the timeout closes, and its callback does not stop. */
  lemma TimerNeverStops(p: Pair, luck: Luck)
    requires Safe(p) && !(p.c.state == Closed && p.c.stopped)
    ensures var q := Tick(p, luck); !(q.c.state == Closed && q.c.stopped)
  {
    var b := OnTimer(p.c);
    if b.Call? && !b.after.AppSend? && !b.after.AppRexmit? {
      TimerCallback(p, luck);
    }
  }

  lemma PollNeverStops(p: Pair, luck: Luck)
    requires Safe(p) && !(p.c.state == Closed && p.c.stopped)
    ensures var q := PairStep(p, PollRequest, luck).pair; !(q.c.state == Closed && q.c.stopped)
  {
  }

  lemma SegmentNeverStops(p: Pair, s: Segment, rtt: Byte, luck: Luck)
    requires Safe(p) && !(p.c.state == Closed && p.c.stopped) && !s.rst
    ensures var q := PairStep(p, Input(s, rtt), luck).pair; !(q.c.state == Closed && q.c.stopped)
  {
    var b := OnSegment(p.c, s, rtt);
    if b.Call? && b.after.AppSend? {
      assert b.conn.state == Established;
    }
  }

  lemma NoResetNoStop(p: Pair, e: Event, luck: Luck)
    requires Safe(p) && !(p.c.state == Closed && p.c.stopped) && !(e.Input? && e.s.rst)
    ensures var q := PairStep(p, e, luck).pair; !(q.c.state == Closed && q.c.stopped)
  {
    match e
    case Input(s, rtt) => SegmentNeverStops(p, s, rtt, luck);
    case Timer => TimerNeverStops(p, luck);
    case PollRequest => PollNeverStops(p, luck);
  }

  /** Exactly one thing leaves a closed connection with the stop bit; with nothing outstanding it
      leaves a zombie. */
  lemma AbandonedByReset(p: Pair, e: Event, luck: Luck)
    requires Safe(p) && !(p.c.state == Closed && p.c.stopped)
    ensures var q := PairStep(p, e, luck).pair;
            && (q.c.state == Closed && q.c.stopped <==> ResetWhileClosing(p, e))
            && (ResetWhileClosing(p, e) ==> Abandoned(q) && (Zombie(q.c) <==> p.c.len == 0))
  {
    if e.Input? && e.s.rst {
      ResetEffect(p, e, luck);
    } else {
      NoResetNoStop(p, e, luck);
    }
  }

  /** Once nothing is outstanding such a slot stays as it is under every event: neither a connect nor
      a listen can take it. */
  lemma ZombieForever(p: Pair, e: Event, luck: Luck)
    requires Abandoned(p) && Zombie(p.c)
    ensures Abandoned(PairStep(p, e, luck).pair) && Zombie(PairStep(p, e, luck).pair.c)
  {
  }
}
