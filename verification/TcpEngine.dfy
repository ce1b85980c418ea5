/**
 The connection record as uip_process changes it, field by field, with the working variables uip_flags,
 uip_len and uip_slen and one method per label of the code.  Each method is tied to the functions of Tcp.
*/
module TcpEngine {
  import opened Basics
  import opened Tcp

  /** The application: what it leaves when it is called with what a Pause says. */
  type Application = Pause -> Reply

  /** A step from its pause on. */
  function Finish(p: Pause, app: Application): Result {
    match p
    case Quiet(c, emit) => Result(c, emit)
    case Call(c, _, _, after) => Resume(c, after, app(p))
  }

  lemma FinishIsStep(c: Conn, e: Event, app: Application)
    ensures Finish(Begin(c, e), app) == Step(c, e, app(Begin(c, e)))
  {
  }

  class Engine {
    var state: State
    var stopped: bool
    var rcvNxt: Seq32
    var sndNxt: Seq32
    var len: nat
    var mss: nat
    var initialmss: nat
    var nrtx: nat
    var timer: Byte
    var rto: Byte
    const lport: Port
    const rport: Port
    const ripaddr: int
    // uip_flags and uip_slen
    var flags: Flags
    var slen: nat

    function Record(): Conn
      reads this
    {
      Conn(state, stopped, rcvNxt, sndNxt, len, mss, initialmss, nrtx, timer, rto, lport, rport, ripaddr)
    }

    constructor (c: Conn)
      ensures Record() == c
    {
      state, stopped, rcvNxt, sndNxt, len := c.state, c.stopped, c.rcvNxt, c.sndNxt, c.len;
      mss, initialmss, nrtx, timer, rto := c.mss, c.initialmss, c.nrtx, c.timer, c.rto;
      lport, rport, ripaddr := c.lport, c.rport, c.ripaddr;
      flags, slen := NoFlags, 0;
    }

    /** An assignment to tcpstateflags. */
    method SetState(s: State)
      modifies this`state, this`stopped
      ensures Record() == old(Record()).Enter(s)
    {
      state, stopped := s, false;
    }

    /** uip_add_rcv_nxt */
    method AddRcvNxt(n: nat)
      modifies this`rcvNxt
      ensures Record() == old(Record()).Received(n)
    {
      rcvNxt := Plus(rcvNxt, n);
    }

    /** UIP_APPCALL */
    method CallApplication(data: seq<Byte>, after: After, app: Application)
      modifies this`flags, this`slen, this`stopped
      ensures var r := app(Call(old(Record()), old(flags), data, after));
              Record() == old(Record()).(stopped := r.stopped) && flags == r.flags && slen == r.slen
    {
      var r := app(Call(Record(), flags, data, after));
      flags, stopped, slen := r.flags, r.stopped, r.slen;
    }

    /** tcp_send_ack */
    method SendAck() returns (emit: Emit)
      ensures emit == AckOf(Record())
    {
      emit := Pure(sndNxt, rcvNxt);
    }

    /** apprexmit */
    method AppRexmit() returns (emit: Emit)
      ensures emit == Transmit(Record(), slen, flags.newdata)
    {
      if slen > 0 && len > 0 {
        return Data(sndNxt, rcvNxt, len);
      }
      if flags.newdata {
        emit := SendAck();
        return;
      }
      return Nothing;
    }

    /** appsend */
    method AppSend() returns (emit: Emit)
      modifies this
      ensures Result(Record(), emit) == Answer(old(Record()), Reply(old(flags), old(stopped), old(slen)))
    {
      if flags.abort {
        slen := 0;
        SetState(Closed);
        return Reset;
      }
      if flags.close {
        slen := 0;
        len := 1;
        SetState(FinWait1);
        nrtx := 0;
        return Fin(sndNxt, rcvNxt);
      }
      if slen > 0 {
        if flags.ackdata {
          len := 0;
        }
        if len == 0 {
          if slen > mss {
            slen := mss;
          }
          len := slen;
        } else {
          slen := len;
        }
      }
      nrtx := 0;
      emit := AppRexmit();
    }

    /** The application is called, and the answer sent. */
    method CallAndSend(data: seq<Byte>, app: Application) returns (emit: Emit)
      modifies this
      ensures Result(Record(), emit) == Finish(Call(old(Record()), old(flags), data, After.AppSend), app)
    {
      CallApplication(data, After.AppSend, app);
      emit := AppSend();
    }

    // -------------------------------------------------------------------------------------------
    // Segments
    // -------------------------------------------------------------------------------------------

    /** found: the reset, the sequence check, the acknowledgement. */
    method Segment(s: Segment, rtt: Byte, app: Application) returns (emit: Emit)
      modifies this
      ensures Result(Record(), emit) == Finish(OnSegment(old(Record()), s, rtt), app)
    {
      flags := NoFlags;
      if s.rst {
        SetState(Closed);
        flags := NoFlags.(abort := true);
        CallApplication([], After.Drop, app);
        return Nothing;
      }
      if !(state == SynSent && s.SynAck()) {
        if (s.payload != [] || s.syn || s.fin) && s.seqno != rcvNxt {
          emit := SendAck();
          return;
        }
      }
      if s.ack && len > 0 {
        var sum := Plus(sndNxt, len);
        if s.ackno == sum {
          sndNxt := sum;
          if nrtx == 0 {
            rto := rtt;
          }
          flags := NoFlags.(ackdata := true);
          timer := rto;
          len := 0;
        }
      }
      emit := Switch(s, app);
    }

    method Switch(s: Segment, app: Application) returns (emit: Emit)
      requires flags == NoFlags || flags == NoFlags.(ackdata := true)
      modifies this
      ensures Result(Record(), emit) == Finish(ByState(old(Record()), s, old(flags).ackdata), app)
    {
      match state
      case SynRcvd => emit := InSynRcvd(s, app);
      case SynSent => emit := InSynSent(s, app);
      case Established => emit := InEstablished(s, app);
      case LastAck => emit := InLastAck(s, app);
      case FinWait1 => emit := InFinWait1(s, app);
      case FinWait2 => emit := InFinWait2(s, app);
      case TimeWait => emit := SendAck();
      case Closing =>
        if flags.ackdata {
          SetState(TimeWait);
          timer := 0;
        }
        emit := Nothing;
      case Closed => emit := Nothing;
    }

    method InSynRcvd(s: Segment, app: Application) returns (emit: Emit)
      requires state == SynRcvd
      modifies this
      ensures Result(Record(), emit) == Finish(ByState(old(Record()), s, old(flags).ackdata), app)
    {
      if flags.ackdata {
        SetState(Established);
        flags := NoFlags.(connected := true);
        len := 0;
        if |s.payload| > 0 {
          flags := flags.(newdata := true);
          AddRcvNxt(|s.payload|);
        } else {
          NothingReceived(Record());
        }
        slen := 0;
        emit := CallAndSend(s.payload, app);
        return;
      }
      return Nothing;
    }

    method InSynSent(s: Segment, app: Application) returns (emit: Emit)
      requires state == SynSent
      modifies this
      ensures Result(Record(), emit) == Finish(ByState(old(Record()), s, old(flags).ackdata), app)
    {
      if flags.ackdata && s.SynAck() {
        Open(s);
        flags := NoFlags.(connected := true, newdata := true);
        len := 0;
        slen := 0;
        emit := CallAndSend([], app);
        return;
      }
      flags := NoFlags.(abort := true);
      CallApplication(s.payload, After.SendReset, app);
      SetState(Closed);
      return Reset;
    }

    /** The peer's segment size and its initial sequence number. */
    method Open(s: Segment)
      modifies this
      ensures Record() == Opened(old(Record()), s).Enter(Established)
    {
      if s.mssOption.Mss? {
        initialmss := if s.mssOption.value > TCP_MSS then TCP_MSS else s.mssOption.value;
        mss := initialmss;
      }
      SetState(Established);
      rcvNxt := s.seqno;
      AddRcvNxt(1);
    }

    method InEstablished(s: Segment, app: Application) returns (emit: Emit)
      requires state == Established && (flags == NoFlags || flags == NoFlags.(ackdata := true))
      modifies this
      ensures Result(Record(), emit) == Finish(WhenEstablished(old(Record()), s, old(flags).ackdata), app)
    {
      if s.fin && !stopped {
        if len > 0 {
          return Nothing;
        }
        AddRcvNxt(1 + |s.payload|);
        flags := flags.(close := true);
        if |s.payload| > 0 {
          flags := flags.(newdata := true);
        }
        CallApplication(s.payload, After.SendFinAck, app);
        len := 1;
        SetState(LastAck);
        nrtx := 0;
        return Fin(sndNxt, rcvNxt);
      }
      emit := InEstablishedData(s, app);
    }

    /** The branch without a FIN to take. */
    method InEstablishedData(s: Segment, app: Application) returns (emit: Emit)
      requires state == Established && (flags == NoFlags || flags == NoFlags.(ackdata := true)) && !(s.fin && !stopped)
      modifies this
      ensures Result(Record(), emit) == Finish(WhenEstablished(old(Record()), s, old(flags).ackdata), app)
    {
      if |s.payload| > 0 && !stopped {
        flags := flags.(newdata := true);
        AddRcvNxt(|s.payload|);
      }
      var window := s.window;
      if window > initialmss || window == 0 {
        window := initialmss;
      }
      mss := window;
      if flags.newdata || flags.ackdata {
        slen := 0;
        emit := CallAndSend(s.payload, app);
        return;
      }
      return Nothing;
    }

    method InLastAck(s: Segment, app: Application) returns (emit: Emit)
      requires state == LastAck
      modifies this
      ensures Result(Record(), emit) == Finish(ByState(old(Record()), s, old(flags).ackdata), app)
    {
      if flags.ackdata {
        SetState(Closed);
        flags := NoFlags.(close := true);
        CallApplication(s.payload, After.Drop, app);
      }
      return Nothing;
    }

    method InFinWait1(s: Segment, app: Application) returns (emit: Emit)
      requires state == FinWait1
      modifies this
      ensures Result(Record(), emit) == Finish(ByState(old(Record()), s, old(flags).ackdata), app)
    {
      NothingReceived(Record());
      if |s.payload| > 0 {
        AddRcvNxt(|s.payload|);
      }
      if s.fin {
        if flags.ackdata {
          SetState(TimeWait);
          timer := 0;
          len := 0;
        } else {
          SetState(Closing);
        }
        AddRcvNxt(1);
        flags := NoFlags.(close := true);
        CallApplication(s.payload, After.SendAck, app);
        emit := SendAck();
        return;
      } else if flags.ackdata {
        SetState(FinWait2);
        len := 0;
        return Nothing;
      }
      if |s.payload| > 0 {
        emit := SendAck();
        return;
      }
      return Nothing;
    }

    method InFinWait2(s: Segment, app: Application) returns (emit: Emit)
      requires state == FinWait2
      modifies this
      ensures Result(Record(), emit) == Finish(ByState(old(Record()), s, old(flags).ackdata), app)
    {
      NothingReceived(Record());
      if |s.payload| > 0 {
        AddRcvNxt(|s.payload|);
      }
      if s.fin {
        SetState(TimeWait);
        timer := 0;
        AddRcvNxt(1);
        flags := NoFlags.(close := true);
        CallApplication(s.payload, After.SendAck, app);
        emit := SendAck();
        return;
      }
      if |s.payload| > 0 {
        emit := SendAck();
        return;
      }
      return Nothing;
    }

    // -------------------------------------------------------------------------------------------
    // Timer and poll
    // -------------------------------------------------------------------------------------------

    method Tick(app: Application) returns (emit: Emit)
      modifies this
      ensures Result(Record(), emit) == Finish(OnTimer(old(Record())), app)
    {
      slen := 0;
      if !stopped && (state == TimeWait || state == FinWait2) {
        timer := NextByte(timer);
        if timer == TIME_WAIT_TIMEOUT {
          SetState(Closed);
        }
        return Nothing;
      }
      if state != Closed || stopped {
        if len > 0 {
          var was := timer;
          timer := if timer == 0 then 255 else timer - 1;
          if was == 0 {
            emit := Expire(app);
            return;
          }
        } else if state == Established {
          flags := NoFlags.(poll := true);
          emit := CallAndSend([], app);
          return;
        }
      }
      return Nothing;
    }

    method Expire(app: Application) returns (emit: Emit)
      requires timer == 255
      modifies this
      ensures Result(Record(), emit) == Finish(Expired(old(Record()).(timer := 0)), app)
    {
      if nrtx == MAXRTX || (!stopped && (state == SynSent || state == SynRcvd) && nrtx == MAXSYNRTX) {
        SetState(Closed);
        flags := NoFlags.(timedout := true);
        CallApplication([], After.TimedOut, app);
        return Reset;
      }
      timer := Backoff(nrtx);
      nrtx := (nrtx + 1) % 256;
      match state
      case SynRcvd => return Syn(sndNxt, rcvNxt, true);
      case SynSent => return Syn(sndNxt, rcvNxt, false);
      case Established =>
        flags := NoFlags.(rexmit := true);
        CallApplication([], After.AppRexmit, app);
        emit := AppRexmit();
        return;
      case FinWait1 | Closing | LastAck => return Fin(sndNxt, rcvNxt);
      case Closed | FinWait2 | TimeWait => return Nothing;
    }

    method Poll(app: Application) returns (emit: Emit)
      modifies this
      ensures Result(Record(), emit) == Finish(OnPoll(old(Record())), app)
    {
      if state == Established && len == 0 {
        flags := NoFlags.(poll := true);
        emit := CallAndSend([], app);
        return;
      }
      return Nothing;
    }

    /** One call of uip_process for this connection is one step of the model. */
    method Process(e: Event, app: Application) returns (emit: Emit)
      modifies this
      ensures Result(Record(), emit) == Step(old(Record()), e, app(Begin(old(Record()), e)))
    {
      FinishIsStep(Record(), e, app);
      match e
      case Input(s, rtt) => emit := Segment(s, rtt, app);
      case Timer => emit := Tick(app);
      case PollRequest => emit := Poll(app);
    }
  }

  lemma NothingReceived(c: Conn)
    ensures c.Received(0) == c
  {
  }
}
