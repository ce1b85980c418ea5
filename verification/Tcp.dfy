/**
 One connection of the TCP engine.  A call of uip_process on a connection runs up to the point where
 the application is called, and goes on from there with what the application left behind; it calls
 the application at most once.  So a step is two functions: Begin gives a Pause (finished, or waiting
 for the application), and Resume takes the application's Reply.
*/
module Tcp {
  import opened Basics

  const TWO32: int := 0x1_0000_0000

  /** A 32-bit sequence number. */
  type Seq32 = x: int | 0 <= x < 0x1_0000_0000

  type Port = x: int | 0 <= x < 0x1_0000

  function Plus(a: Seq32, n: nat): Seq32 { (a + n) % TWO32 }

  datatype State = Closed | SynRcvd | SynSent | Established | FinWait1 | FinWait2 | Closing | TimeWait | LastAck

  /** struct uip_conn; `stopped` is the UIP_STOPPED bit that shares a byte with the state. */
  datatype Conn = Conn(
    state: State, stopped: bool,
    rcvNxt: Seq32, sndNxt: Seq32, len: nat,
    mss: nat, initialmss: nat,
    nrtx: nat, timer: Byte, rto: Byte,
    lport: Port, rport: Port, ripaddr: int)
  {
    /** tcpstateflags != UIP_CLOSED, with the stop bit looked at too. */
    predicate Active() { state != Closed || stopped }

    /** An assignment to tcpstateflags, which clears the stop bit. */
    function Enter(s: State): Conn { this.(state := s, stopped := false) }

    function Received(n: nat): Conn { this.(rcvNxt := Plus(rcvNxt, n)) }
  }

  /** An incoming segment without urgent data; `mssOption` is what the option parser found. */
  datatype Segment = Segment(
    seqno: Seq32, ackno: Seq32, fin: bool, syn: bool, rst: bool, psh: bool, ack: bool,
    window: nat, payload: seq<Byte>, mssOption: MssOption, destport: Port, srcport: Port, srcip: int)
  {
    /** (flags & TCP_CTL) == (TCP_SYN | TCP_ACK) */
    predicate SynAck() { syn && ack && !fin && !rst && !psh }

    /** (flags & TCP_CTL) == TCP_SYN */
    predicate SynOnly() { syn && !ack && !fin && !rst && !psh }
  }

  datatype MssOption = NoMss | Mss(value: nat)

  /** uip_flags */
  datatype Flags = Flags(ackdata: bool, newdata: bool, rexmit: bool, poll: bool, close: bool, abort: bool,
                         connected: bool, timedout: bool)

  const NoFlags := Flags(false, false, false, false, false, false, false, false)

  /** What leaves the engine at the end of a step. */
  datatype Emit = Nothing
    | Pure(seqno: Seq32, ackno: Seq32)
    | Fin(seqno: Seq32, ackno: Seq32)
    | Syn(seqno: Seq32, ackno: Seq32, ack: bool)
    | Reset
    | Data(seqno: Seq32, ackno: Seq32, size: nat)

  /** Where the code goes on after the application returns. */
  datatype After = AppSend | AppRexmit | SendFinAck | Drop | SendAck | SendReset | TimedOut

  datatype Pause = Quiet(conn: Conn, emit: Emit)
    | Call(conn: Conn, flags: Flags, data: seq<Byte>, after: After)

  /** What the application leaves: uip_flags, the stop bit, uip_slen. */
  datatype Reply = Reply(flags: Flags, stopped: bool, slen: nat)

  const TCP_MSS := 512
  const RTO := 3
  const MAXRTX := 8
  const MAXSYNRTX := 5
  const TIME_WAIT_TIMEOUT := 120

  function AckOf(c: Conn): Emit { Pure(c.sndNxt, c.rcvNxt) }

  // ---------------------------------------------------------------------------------------------
  // A segment for this connection
  // ---------------------------------------------------------------------------------------------

  /** The segment carries an acknowledgement of exactly what is outstanding. */
  predicate Acks(c: Conn, s: Segment) {
    s.ack && c.len > 0 && s.ackno == Plus(c.sndNxt, c.len)
  }

  /** `rtt` is what the round-trip estimator makes of the timer when nothing was retransmitted. */
  function Acked(c: Conn, rtt: Byte): Conn {
    var rto := if c.nrtx == 0 then rtt else c.rto;
    c.(sndNxt := Plus(c.sndNxt, c.len), rto := rto, timer := rto, len := 0)
  }

  /** Data, SYN and FIN are looked at only in sequence; a SYN-ACK opens its own sequence. */
  predicate OutOfSequence(c: Conn, s: Segment) {
    && !(c.state == SynSent && s.SynAck())
    && (s.payload != [] || s.syn || s.fin)
    && s.seqno != c.rcvNxt
  }

  function OnSegment(c: Conn, s: Segment, rtt: Byte): Pause {
    if s.rst then Call(c.Enter(Closed), NoFlags.(abort := true), [], Drop)
    else if OutOfSequence(c, s) then Quiet(c, AckOf(c))
    else if Acks(c, s) then ByState(Acked(c, rtt), s, true)
    else ByState(c, s, false)
  }

  function ByState(c: Conn, s: Segment, acked: bool): Pause {
    var n := |s.payload|;
    match c.state
    case SynRcvd =>
      if acked then
        Call(c.Enter(Established).Received(n).(len := 0), NoFlags.(connected := true, newdata := n > 0), s.payload,
             AppSend)
      else Quiet(c, Nothing)
    case SynSent =>
      if acked && s.SynAck() then
        Call(Opened(c, s).Enter(Established).(len := 0), NoFlags.(connected := true, newdata := true), [], AppSend)
      else Call(c, NoFlags.(abort := true), s.payload, SendReset)
    case Established => WhenEstablished(c, s, acked)
    case LastAck =>
      if acked then Call(c.Enter(Closed), NoFlags.(close := true), s.payload, Drop) else Quiet(c, Nothing)
    case FinWait1 =>
      if s.fin then
        Call((if acked then c.Enter(TimeWait).(timer := 0, len := 0) else c.Enter(Closing)).Received(n).Received(1),
             NoFlags.(close := true), s.payload, SendAck)
      else if acked then Quiet(c.Received(n).Enter(FinWait2).(len := 0), Nothing)
      else AckData(c.Received(n), n)
    case FinWait2 =>
      if s.fin then
        Call(c.Enter(TimeWait).(timer := 0).Received(n).Received(1), NoFlags.(close := true), s.payload, SendAck)
      else AckData(c.Received(n), n)
    case TimeWait => Quiet(c, AckOf(c))
    case Closing => Quiet(if acked then c.Enter(TimeWait).(timer := 0) else c, Nothing)
    case Closed => Quiet(c, Nothing)
  }

  function AckData(c: Conn, n: nat): Pause { Quiet(c, if n > 0 then AckOf(c) else Nothing) }

  function Opened(c: Conn, s: Segment): Conn {
    var d := c.(rcvNxt := Plus(s.seqno, 1));
    if s.mssOption.Mss? then
      var m := if s.mssOption.value > TCP_MSS then TCP_MSS else s.mssOption.value;
      d.(mss := m, initialmss := m)
    else d
  }

  function WhenEstablished(c: Conn, s: Segment, acked: bool): Pause {
    var n := |s.payload|;
    if s.fin && !c.stopped then
      if c.len > 0 then Quiet(c, Nothing)
      else Call(c.Received(1 + n), NoFlags.(ackdata := acked, close := true, newdata := n > 0), s.payload, SendFinAck)
    else
      var take := n > 0 && !c.stopped;
      var window := if s.window > c.initialmss || s.window == 0 then c.initialmss else s.window;
      var d := (if take then c.Received(n) else c).(mss := window);
      if take || acked then Call(d, NoFlags.(ackdata := acked, newdata := take), s.payload, AppSend)
      else Quiet(d, Nothing)
  }

  // ---------------------------------------------------------------------------------------------
  // The periodic timer and the poll request
  // ---------------------------------------------------------------------------------------------

  function OnTimer(c: Conn): Pause {
    if !c.stopped && (c.state == TimeWait || c.state == FinWait2) then
      var t := (c.timer + 1) % 256;
      Quiet(if t == TIME_WAIT_TIMEOUT then c.Enter(Closed).(timer := t) else c.(timer := t), Nothing)
    else if !c.Active() then Quiet(c, Nothing)
    else if c.len > 0 then
      if c.timer == 0 then Expired(c) else Quiet(c.(timer := c.timer - 1), Nothing)
    else if c.state == Established then Call(c, NoFlags.(poll := true), [], AppSend)
    else Quiet(c, Nothing)
  }

  predicate GivesUp(c: Conn) {
    c.nrtx == MAXRTX || (!c.stopped && (c.state == SynSent || c.state == SynRcvd) && c.nrtx == MAXSYNRTX)
  }

  /** UIP_RTO << (nrtx > 4 ? 4 : nrtx) */
  function Backoff(nrtx: nat): (t: Byte)
    ensures RTO <= t <= 48
  {
    if nrtx == 0 then 3 else if nrtx == 1 then 6 else if nrtx == 2 then 12 else if nrtx == 3 then 24 else 48
  }

  /** The timer has run out with data outstanding. */
  function Expired(c: Conn): Pause {
    if GivesUp(c) then Call(c.Enter(Closed).(timer := 255), NoFlags.(timedout := true), [], TimedOut)
    else
      var d := c.(timer := Backoff(c.nrtx), nrtx := (c.nrtx + 1) % 256);
      match c.state
      case SynRcvd => Quiet(d, Syn(c.sndNxt, c.rcvNxt, true))
      case SynSent => Quiet(d, Syn(c.sndNxt, c.rcvNxt, false))
      case Established => Call(d, NoFlags.(rexmit := true), [], AppRexmit)
      case FinWait1 | Closing | LastAck => Quiet(d, Fin(c.sndNxt, c.rcvNxt))
      case Closed | FinWait2 | TimeWait => Quiet(d, Nothing)
  }

  function OnPoll(c: Conn): Pause {
    if c.state == Established && c.len == 0 then Call(c, NoFlags.(poll := true), [], AppSend) else Quiet(c, Nothing)
  }

  // ---------------------------------------------------------------------------------------------
  // After the application has returned
  // ---------------------------------------------------------------------------------------------

  datatype Result = Result(conn: Conn, emit: Emit)

  function Resume(c0: Conn, after: After, r: Reply): Result {
    var c := c0.(stopped := r.stopped);
    match after
    case AppSend => Answer(c, r)
    case AppRexmit => Result(c, Transmit(c, r.slen, r.flags.newdata))
    case SendFinAck =>
      var d := c.Enter(LastAck).(len := 1, nrtx := 0);
      Result(d, Fin(d.sndNxt, d.rcvNxt))
    case Drop => Result(c, Nothing)
    case SendAck => Result(c, AckOf(c))
    case SendReset => Result(c.Enter(Closed), Reset)
    case TimedOut => Result(c, Reset)
  }

  /** appsend: */
  function Answer(c: Conn, r: Reply): Result {
    if r.flags.abort then Result(c.Enter(Closed), Reset)
    else if r.flags.close then
      var d := c.Enter(FinWait1).(len := 1, nrtx := 0);
      Result(d, Fin(d.sndNxt, d.rcvNxt))
    else
      var d := Load(c, r).(nrtx := 0);
      Result(d, Transmit(d, if r.slen > 0 then d.len else 0, r.flags.newdata))
  }

  /** The length that becomes outstanding. */
  function Load(c: Conn, r: Reply): Conn {
    if r.slen == 0 then c
    else if r.flags.ackdata || c.len == 0 then c.(len := if r.slen > c.mss then c.mss else r.slen)
    else c
  }

  /** apprexmit: */
  function Transmit(c: Conn, slen: nat, newdata: bool): Emit {
    if slen > 0 && c.len > 0 then Data(c.sndNxt, c.rcvNxt, c.len)
    else if newdata then AckOf(c)
    else Nothing
  }

  // ---------------------------------------------------------------------------------------------
  // Whole steps
  // ---------------------------------------------------------------------------------------------

  datatype Event = Input(s: Segment, rtt: Byte) | Timer | PollRequest

  function Begin(c: Conn, e: Event): Pause {
    match e
    case Input(s, rtt) => OnSegment(c, s, rtt)
    case Timer => OnTimer(c)
    case PollRequest => OnPoll(c)
  }

  /** One call of uip_process on this connection, with the application's reply should it be called. */
  function Step(c: Conn, e: Event, r: Reply): Result {
    match Begin(c, e)
    case Quiet(d, emit) => Result(d, emit)
    case Call(d, _, _, after) => Resume(d, after, r)
  }

  /** The bytes handed to the application with UIP_NEWDATA in this step. */
  function Delivered(c: Conn, e: Event): seq<Byte> {
    var p := Begin(c, e);
    if p.Call? && p.flags.newdata then p.data else []
  }

  /** uip_connect's record for a slot. */
  function ConnectRecord(slot: Conn, iss: Seq32, lport: Port, rport: Port, ripaddr: int): Conn {
    slot.(state := SynSent, stopped := false, sndNxt := iss, initialmss := TCP_MSS, mss := TCP_MSS, len := 1, nrtx := 0,
         timer := 1, rto := RTO, lport := lport, rport := rport, ripaddr := ripaddr)
  }

  /** found_listen's record for a slot; the maximum segment size stays the slot's old one unless the
      SYN carries the option. */
  function ListenRecord(slot: Conn, iss: Seq32, s: Segment): Conn {
    Opened(slot.(timer := RTO, rto := RTO, nrtx := 0, lport := s.destport, rport := s.srcport, ripaddr := s.srcip,
                state := SynRcvd, stopped := false, sndNxt := iss, len := 1), s)
  }
}
