/**
 The connection record itself: ring arrays, counters and the receive context, updated in place by the loops of the
 source. Every method is proved to compute the function of `ArdpSpec` that the rest of the model reasons about.
 Time and the socket are inputs: whether the data timer has fired, whether its segment is too old, and how many
 datagrams the socket takes before it fails.
 */
module ArdpConnection {
  import opened Seq32
  import opened ArdpWire
  import opened ArdpSpec
  import opened ArdpRing

  class Connection {
    const local: U16
    const foreign: U16
    // snd
    var NXT: U32
    var UNA: U32
    var sndLCS: U32
    var sndSEGMAX: U32
    const sbuf: array<SendSlot>
    var pending: nat
    var msgLenTotal: U32
    var msgLenSent: U32
    var msgSOM: U32
    var newMsg: bool
    // rcv
    var CUR: U32
    var rcvLCS: U32
    const rbuf: array<RecvSlot>
    var ctx: RxContext

    ghost predicate Shaped()
    {
      sbuf.Length == UDP_SEGMAX && rbuf.Length == UDP_SEGMAX
    }

    ghost function Model(): Conn
      requires Shaped()
      reads this, sbuf, rbuf
    {
      Conn(local, foreign,
           Snd(NXT, UNA, sndLCS, sndSEGMAX, sbuf[..], pending, msgLenTotal, msgLenSent, msgSOM, newMsg),
           Rcv(CUR, rcvLCS, rbuf[..], ctx))
    }

    ghost predicate Valid()
      reads this, sbuf, rbuf
    {
      Shaped() && SndOk(Model().snd) && RcvOk(Model().rcv)
    }

    // An OPEN connection with nothing sent and the payload of the SYN-ACK consumed.
    constructor (local: U16, foreign: U16, iss: U32, peerIss: U32, peerSegmax: U32)
      requires iss + UDP_SEGMAX + ONE <= TWO32 && peerIss + UDP_SEGMAX < TWO32
      ensures Valid() && fresh(sbuf) && fresh(rbuf)
      ensures Model().snd.NXT == Model().snd.UNA && Model().snd.NXT as int == iss + ONE && Model().snd.LCS == iss
      ensures Queued(Model().snd) == [] && Unread(Model().rcv) == [] && Model().rcv.CUR == peerIss
    {
      this.local, this.foreign := local, foreign;
      NXT, UNA, sndLCS, sndSEGMAX := Add32(iss, 1), Add32(iss, 1), iss, peerSegmax;
      sbuf := new SendSlot[3](_ => EMPTY_SEND);
      pending, msgLenTotal, msgLenSent, msgSOM, newMsg := 0, 0, 0, 0, false;
      CUR, rcvLCS := peerIss, peerIss;
      rbuf := new RecvSlot[3](_ => EMPTY_RECV);
      ctx := Idle;
    }

    method StartMsgSend()
      requires Shaped()
      modifies this`newMsg, this`msgLenSent
      ensures Model() == StartMsg(old(Model()))
    {
      newMsg, msgLenSent := true, 0;
    }

    /**
     UpdateSndSegments: one pass over the ring that stops early once nothing is pending. It reports whether the
     acknowledged slot is handed to AdjustRTT first.
     */
    method UpdateSndSegments(ack: U32) returns (measured: bool)
      requires Shaped() && pending == InFlight(sbuf[..])
      modifies sbuf, this`pending
      ensures sbuf[..] == AckRing(old(sbuf[..]), ack) && pending == InFlight(sbuf[..])
      ensures measured == Measures(old(Model().snd), ack)
    {
      if pending == 0 {
        return false;
      }
      measured := sbuf[RingIndex(ack)].retransmits == 0 && sbuf[RingIndex(ack)].retry != 0;
      var i := 0;
      while i < UDP_SEGMAX
        invariant 0 <= i <= UDP_SEGMAX
        invariant forall j :: 0 <= j < i ==> sbuf[j] == AckSlot(old(sbuf[j]), ack)
        invariant forall j :: i <= j < UDP_SEGMAX ==> sbuf[j] == old(sbuf[j])
        invariant pending == InFlight(sbuf[..])
      {
        if SeqLet(sbuf[i].hdr.SEQ, ack) && sbuf[i].inFlight {
          sbuf[i] := sbuf[i].(data := [], inFlight := false, retry := 0, retransmits := 0);
          pending := pending - 1;
        }
        if pending == 0 {
          break;
        }
        i := i + 1;
      }
    }

    method ProcessAck(h: Header)
      requires Valid()
      modifies this, sbuf
      ensures Model() == old(Model()).(snd := OnAck(old(Model().snd), h))
    {
      PendingIsInFlight(Model().snd);
      if InRange(UNA, Add32(Sub32(NXT, UNA), 1), h.ACK) {
        UNA := Add32(h.ACK, 1);
        var measured := UpdateSndSegments(h.ACK);
      }
      sndLCS := h.LCS;
    }

    // The bytes of MarshalHeader for a segment with data.
    function MakeDataHeader(dlen: nat): Header
      reads this
    {
      Header(DATA_FLAGS, local, foreign, Wrap16(dlen), NXT, CUR, 0, rcvLCS, UNA, msgSOM, FragmentCount(msgLenTotal))
    }

    // The ring once k segments have been resent and `touched` headers patched.
    static ghost predicate RingIs(c: Conn, buf: seq<SendSlot>, k: nat, touched: nat) {
      && |buf| == UDP_SEGMAX
      && forall s :: c.snd.UNA <= s < c.snd.UNA + UDP_SEGMAX ==> buf[RingIndex(s)] == Resending(c, s, k, touched)
    }

    static lemma RingAt(c: Conn, buf: seq<SendSlot>, k: nat, touched: nat, s: int)
      requires RingIs(c, buf, k, touched) && c.snd.UNA <= s < c.snd.UNA + UDP_SEGMAX
      ensures |buf| == UDP_SEGMAX && buf[RingIndex(s)] == Resending(c, s, k, touched)
    {
    }

    // One round of the loop of DataTimerHandler, on slot i: time out, or patch the header and resend.
    method ResendSlot(i: nat, start: nat, late: bool, full: bool, ghost c: Conn, ghost k: nat) returns (status: Status)
      requires Shaped() && k < UDP_SEGMAX && RingIs(c, sbuf[..], k, k)
      requires c.snd.UNA == UNA && c.rcv.CUR == CUR && c.rcv.LCS == rcvLCS
      requires i == RingIndex(UNA as int + k) && start == RingIndex(UNA)
      modifies sbuf
      ensures status == if late && SendSlotOf(c.snd, UNA).retry + k > UDP_MIN_DATA_RETRIES then Timeout
                        else if full then WriteFailed else Ok
      ensures RingIs(c, sbuf[..], k + One(status == Ok), k + One(status != Timeout))
    {
      hide RingIs, Resending;
      ghost var before := sbuf[..];
      ResendingRetries(c, k);
      RingAt(c, before, k, k, UNA);
      RingAt(c, before, k, k, UNA as int + k);
      if late && sbuf[start].retry > UDP_MIN_DATA_RETRIES {
        status := Timeout;
        return;
      }
      sbuf[i] := sbuf[i].(hdr := sbuf[i].hdr.(ACK := CUR, LCS := rcvLCS, ACKNXT := UNA));
      status := if full then WriteFailed else Ok;
      if !full {
        sbuf[start] := sbuf[start].(retry := sbuf[start].retry + 1);
      }
      forall s | UNA <= s < UNA + UDP_SEGMAX
        ensures sbuf[RingIndex(s)] == Resending(c, s, k + One(status == Ok), k + One(status != Timeout))
      {
        RingAt(c, before, k, k, s);
        SameSlot(s, UNA as int + k);
        SameSlot(s, UNA);
        ResendingStep(c, s, k, !full);
      }
      RingFrom(c, sbuf[..], k + One(status == Ok), k + One(status != Timeout));
    }

    static lemma ResendingRetries(c: Conn, k: nat)
      ensures Resending(c, c.snd.UNA, k, k).retry == SendSlotOf(c.snd, c.snd.UNA).retry + k
    {
    }

    // Slot s before and after one round.
    static lemma ResendingStep(c: Conn, s: int, k: nat, sent: bool)
      requires c.snd.UNA <= s
      ensures var slot := Resending(c, s, k, k);
              var patched := if s == c.snd.UNA as int + k then Refreshed(c, slot) else slot;
              Resending(c, s, k + One(sent), k + 1)
              == if sent && s == c.snd.UNA then patched.(retry := patched.retry + 1) else patched
    {
      hide SendSlotOf;
    }

    static lemma RingFrom(c: Conn, buf: seq<SendSlot>, k: nat, touched: nat)
      requires |buf| == UDP_SEGMAX
      requires forall s :: c.snd.UNA <= s < c.snd.UNA + UDP_SEGMAX ==> buf[RingIndex(s)] == Resending(c, s, k, touched)
      ensures RingIs(c, buf, k, touched)
    {
    }

    // The loop of DataTimerHandler: `out` has been resent, `more` says that slot i comes next.
    static ghost predicate Resends(c: Conn, buf: seq<SendSlot>, out: seq<Segment>, status: Status, i: nat, late: bool,
                                   accept: nat, more: bool) {
      var n, k := c.snd.NXT as int - c.snd.UNA, |out|;
      && k <= n && k <= accept && (more ==> k < n && status == Ok && i == RingIndex(c.snd.UNA as int + k))
      && out == seq(k, j => ResentSegment(c, j))
      && (late ==> k == 0 || SendSlotOf(c.snd, c.snd.UNA).retry + k - 1 <= UDP_MIN_DATA_RETRIES)
      && Stopped(c, k, status, late, accept, more)
      && RingIs(c, buf, k, k + One(status == WriteFailed))
    }

    // What one round does to it.
    static lemma RoundResends(c: Conn, before: seq<SendSlot>, buf: seq<SendSlot>, out: seq<Segment>, status: Status,
                              i: nat, late: bool, accept: nat)
      requires SndOk(c.snd) && Resends(c, before, out, Ok, i, late, accept, true)
      requires status == if late && SendSlotOf(c.snd, c.snd.UNA).retry + |out| > UDP_MIN_DATA_RETRIES then Timeout
                         else if |out| == accept then WriteFailed else Ok
      requires RingIs(c, buf, |out| + One(status == Ok), |out| + One(status != Timeout))
      ensures |buf| == UDP_SEGMAX && i < UDP_SEGMAX
      ensures var next := NextSlot(i, UDP_SEGMAX);
              var out' := if status == Ok then out + [Segment(buf[i].hdr, buf[i].data)] else out;
              Resends(c, buf, out', status, next, late, accept,
                      status == Ok && buf[next].retry != 0 && next != RingIndex(c.snd.UNA))
    {
      hide RingIs, ResentSegment, Resends;
      ResendsNext(c, before, out, Ok, i, late, accept);
      var k := |out|;
      RingHasSize(c, buf, k + One(status == Ok), k + One(status != Timeout));
      if status == Ok {
        SlotResent(c, buf, k);
        NextInFlight(c, k + 1, buf);
        RoundSends(c, before, buf, out, i, late, accept);
      } else {
        RoundStops(c, before, buf, out, status, i, NextSlot(i, UDP_SEGMAX), late, accept);
      }
    }

    static lemma RoundSends(c: Conn, before: seq<SendSlot>, buf: seq<SendSlot>, out: seq<Segment>, i: nat, late: bool,
                            accept: nat)
      requires Resends(c, before, out, Ok, i, late, accept, true) && |out| < accept
      requires !(late && SendSlotOf(c.snd, c.snd.UNA).retry + |out| > UDP_MIN_DATA_RETRIES)
      requires RingIs(c, buf, |out| + 1, |out| + 1)
      ensures Resends(c, buf, out + [ResentSegment(c, |out|)], Ok, RingIndex(c.snd.UNA as int + |out| + 1),
                      late, accept,
                      |out| + 1 < c.snd.NXT as int - c.snd.UNA)
    {
      hide RingIs, ResentSegment, RingIndex;
    }

    static lemma RoundStops(c: Conn, before: seq<SendSlot>, buf: seq<SendSlot>, out: seq<Segment>, status: Status,
                            i: nat, next: nat,
                            late: bool, accept: nat)
      requires Resends(c, before, out, Ok, i, late, accept, true) && (status == Timeout || status == WriteFailed)
      requires (status == Timeout) == (late && SendSlotOf(c.snd, c.snd.UNA).retry + |out| > UDP_MIN_DATA_RETRIES)
      requires status == WriteFailed ==> |out| == accept
      requires RingIs(c, buf, |out|, |out| + One(status == WriteFailed))
      ensures Resends(c, buf, out, status, next, late, accept, false)
    {
      hide RingIs, ResentSegment, RingIndex;
    }

    static lemma RingHasSize(c: Conn, buf: seq<SendSlot>, k: nat, touched: nat)
      requires RingIs(c, buf, k, touched)
      ensures |buf| == UDP_SEGMAX
    {
    }

    /** DataTimerHandler: resends around the ring from the slot of UNA until a slot is not in flight. */
    method DataTimerHandler(late: bool, accept: nat) returns (out: seq<Segment>, status: Status)
      requires Valid() && UNA < NXT
      modifies sbuf
      ensures Model() == Resend(old(Model()), late, accept).0
      ensures out == Resend(old(Model()), late, accept).1 && status == Resend(old(Model()), late, accept).2
      ensures Valid()
    {
      hide RingIs, Resend, Resending, RcvOk, ResentSegment, SndOk, Resends, Stopped, Counted;
      ghost var c := Model();
      var start := RingIndex(UNA);
      var i := start;
      out, status := [], Ok;
      sbuf[i] := sbuf[i].(retransmits := Counted(sbuf[i].retransmits));
      FirstRound(c, sbuf[..], late, accept);
      var more := true;
      while more
        invariant Resends(c, sbuf[..], out, status, i, late, accept, more)
        decreases NXT as int - UNA - |out|, more
      {
        ghost var before := sbuf[..];
        ResendsNext(c, before, out, status, i, late, accept);
        status := ResendSlot(i, start, late, |out| == accept, c, |out|);
        RoundResends(c, before, sbuf[..], out, status, i, late, accept);
        if status == Ok {
          out := out + [Segment(sbuf[i].hdr, sbuf[i].data)];
        }
        i := NextSlot(i, UDP_SEGMAX);
        more := status == Ok && sbuf[i].retry != 0 && i != start;
      }
      ResendDone(c, out, status, i, late, accept, sbuf[..]);
      ResendKeepsRing(c, late, accept);
    }

    static lemma ResendsNext(c: Conn, buf: seq<SendSlot>, out: seq<Segment>, status: Status, i: nat, late: bool,
                             accept: nat)
      requires SndOk(c.snd) && Resends(c, buf, out, status, i, late, accept, true)
      ensures |out| < UDP_SEGMAX && |out| < c.snd.NXT as int - c.snd.UNA && |out| <= accept && status == Ok
      ensures i == RingIndex(c.snd.UNA as int + |out|) && RingIs(c, buf, |out|, |out|)
    {
      hide RingIs, ResentSegment;
    }

    static lemma SlotResent(c: Conn, buf: seq<SendSlot>, k: nat)
      requires k < UDP_SEGMAX && RingIs(c, buf, k + 1, k + 1)
      ensures |buf| == UDP_SEGMAX
      ensures var slot := buf[RingIndex(c.snd.UNA as int + k)]; Segment(slot.hdr, slot.data) == ResentSegment(c, k)
    {
      RingAt(c, buf, k + 1, k + 1, c.snd.UNA as int + k);
    }

    // Why the loop has stopped.
    static ghost predicate Stopped(c: Conn, k: nat, status: Status, late: bool, accept: nat, more: bool) {
      more ||
      match status
      case Ok => k == c.snd.NXT as int - c.snd.UNA
      case Timeout =>
        k < c.snd.NXT as int - c.snd.UNA && late && SendSlotOf(c.snd, c.snd.UNA).retry + k > UDP_MIN_DATA_RETRIES
      case WriteFailed =>
        && k == accept < c.snd.NXT as int - c.snd.UNA
        && !(late && SendSlotOf(c.snd, c.snd.UNA).retry + k > UDP_MIN_DATA_RETRIES)
      case _ => false
    }

    // The slot after the k-th resent one ends the walk exactly when the whole window has been resent.
    static lemma NextInFlight(c: Conn, k: nat, buf: seq<SendSlot>)
      requires SndOk(c.snd) && 0 < k <= c.snd.NXT as int - c.snd.UNA && RingIs(c, buf, k, k)
      ensures var s := c.snd.UNA as int + k;
              && RingIndex(s) == NextSlot(RingIndex(s - 1), UDP_SEGMAX) && |buf| == UDP_SEGMAX
              && (buf[RingIndex(s)].retry != 0 && RingIndex(s) != RingIndex(c.snd.UNA)
                  <==> k < c.snd.NXT as int - c.snd.UNA)
    {
      if k < UDP_SEGMAX {
        assert SendSlotOk(c.snd, c.snd.UNA as int + k);
        RingAt(c, buf, k, k, c.snd.UNA as int + k);
      }
    }

    static lemma ResendDone(c: Conn, out: seq<Segment>, status: Status, i: nat, late: bool, accept: nat, buf: SendRing)
      requires SndOk(c.snd) && Resends(c, buf, out, status, i, late, accept, false)
      ensures Resend(c, late, accept) == (c.(snd := c.snd.(buf := buf)), out, status)
    {
      hide Resending, RingIs, ResentSegment;
      var k := |out|;
      assert ResendCount(c, late, accept) == k;
      assert ResendStatus(c, late, accept) == status;
      forall i | 0 <= i < UDP_SEGMAX
        ensures buf[i] == ResentSlot(c, NumberOf(c.snd, i), late, accept)
      {
        assert RingIndex(NumberOf(c.snd, i)) == i;
        RingAt(c, buf, k, k + One(status == WriteFailed), NumberOf(c.snd, i));
      }
      assert Resend(c, late, accept).0.snd.buf == buf;
    }

    static lemma FirstRound(c: Conn, buf: seq<SendSlot>, late: bool, accept: nat)
      requires SndOk(c.snd) && c.snd.UNA < c.snd.NXT
      requires var i := RingIndex(c.snd.UNA);
               buf == c.snd.buf[i := c.snd.buf[i].(retransmits := Counted(c.snd.buf[i].retransmits))]
      ensures Resends(c, buf, [], Ok, RingIndex(c.snd.UNA), late, accept, true)
    {
      hide SndOk, RingIs, Counted;
      forall s | c.snd.UNA <= s < c.snd.UNA + UDP_SEGMAX
        ensures buf[RingIndex(s)] == Resending(c, s, 0, 0)
      {
        SameSlot(s, c.snd.UNA);
      }
      RingFrom(c, buf, 0, 0);
    }

    static lemma SameSlot(s: int, t: int)
      requires 0 <= s && 0 <= t && -3 < s - t < 3
      ensures RingIndex(s) == RingIndex(t) <==> s == t
    {
    }

    // Fills slot NXT with the next piece and sends it; false when it has to wait for more of the message.
    method SendPiece(d: seq<Byte>, full: bool) returns (sent: bool, status: Status)
      requires Shaped() && 0 < |d| <= ARDP_MAX_DLEN
      modifies this`NXT, this`pending, this`msgLenSent, sbuf
      ensures status == (if !old(Waits(Model().snd, |d|)) && full then WriteFailed else Ok)
      ensures sent == (!old(Waits(Model().snd, |d|)) && !full)
      ensures Model() == if old(Waits(Model().snd, |d|)) then Enqueue(old(Model()), d)
                         else if full then Marked(old(Model()), d) else Emit(old(Model()), d)
    {
      var i := RingIndex(NXT);
      if |d| < ARDP_MAX_DLEN && |d| != Sub32(msgLenTotal, msgLenSent) {
        sbuf[i] := sbuf[i].(data := d);
        return false, Ok;
      }
      sbuf[i] := sbuf[i].(data := d, inFlight := true, hdr := MakeDataHeader(|d|));
      msgLenSent := Wrap32(msgLenSent + |d|);
      if full {
        return false, WriteFailed;
      }
      NXT, pending := Add32(NXT, 1), pending + 1;
      sbuf[i] := sbuf[i].(retry := 1);
      return true, Ok;
    }

    /** The do/while loop of ARDP_Send: new bytes go behind the queued ones, and full segments leave. */
    method SendSegments(tx: seq<Byte>, accept: nat) returns (out: seq<Segment>, status: Status)
      requires Shaped() && tx != [] && |sbuf[RingIndex(NXT)].data| < ARDP_MAX_DLEN
      modifies this`NXT, this`pending, this`msgLenSent, sbuf
      ensures (Model(), out, status)
           == SendBytes(old(Model()), old(SendSlotOf(Model().snd, NXT).data) + tx, accept)
    {
      hide Emit, Marked, Enqueue, DataSegment, SendBytes, FirstPiece, Waits;
      ghost var c, stream := Model(), sbuf[RingIndex(NXT)].data + tx;
      var queued := sbuf[RingIndex(NXT)].data;
      var rest := tx;
      out, status := [], Ok;
      assert [] + SendBytes(c, stream, accept).1 == SendBytes(c, stream, accept).1;
      while true
        invariant rest != [] && |queued| < ARDP_MAX_DLEN && |out| <= accept && status == Ok
        invariant var r := SendBytes(Model(), queued + rest, accept - |out|);
                  SendBytes(c, stream, accept) == (r.0, out + r.1, r.2)
        decreases |rest|
      {
        ghost var m := Model();
        var take := if |rest| <= ARDP_MAX_DLEN - |queued| then |rest| else ARDP_MAX_DLEN - |queued|;
        var d := queued + rest[..take];
        FirstPieceIs(queued, rest, take);
        SendUnfolds(m, queued + rest, accept - |out|);
        var g := Segment(MakeDataHeader(|d|), d);
        assert g == DataSegment(m, d) by { DataHeaderIs(d); }
        var sent;
        sent, status := SendPiece(d, |out| == accept);
        if !sent {
          assert out + [] == out;
          return;
        }
        assert (queued + rest)[|d|..] == rest[take..];
        ghost var r := SendBytes(Model(), rest[take..], accept - |out| - 1);
        assert out + ([g] + r.1) == out + [g] + r.1;
        out := out + [g];
        rest := rest[take..];
        queued := [];
        assert queued + rest == rest;
        if rest == [] {
          SendUnfolds(Model(), rest, accept - |out|);
          assert out + [] == out;
          return;
        }
      }
    }

    static lemma FirstPieceIs(queued: seq<Byte>, rest: seq<Byte>, take: nat)
      requires |queued| < ARDP_MAX_DLEN && rest != [] && take <= |rest|
      requires take as int == if |rest| <= ARDP_MAX_DLEN - |queued| then |rest| else ARDP_MAX_DLEN - |queued|
      ensures FirstPiece(queued + rest) == queued + rest[..take]
    {
    }

    static lemma SendUnfolds(c: Conn, stream: seq<Byte>, accept: nat)
      ensures SendBytes(c, stream, accept) ==
              if stream == [] then (c, [], Ok)
              else
                var d := FirstPiece(stream);
                if Waits(c.snd, |d|) then (Enqueue(c, d), [], Ok)
                else if accept == 0 then (Marked(c, d), [], WriteFailed)
                else
                  var r := SendBytes(Emit(c, d), stream[|d|..], accept - 1);
                  (r.0, [DataSegment(c, d)] + r.1, r.2)
    {
      hide Emit, Marked, Enqueue, DataSegment, Waits, FirstPiece;
    }

    lemma DataHeaderIs(d: seq<Byte>)
      requires Shaped()
      ensures Segment(MakeDataHeader(|d|), d) == DataSegment(Model(), d)
    {
    }

    /** ARDP_Send. `fired` says that the data timer has run out when the call is made. */
    method Send(tx: seq<Byte>, total: U32, fired: bool, late: bool, accept: nat)
      returns (out: seq<Segment>, status: Status)
      requires Valid() && tx != []
      modifies this, sbuf
      ensures var r := if fired && old(UNA < NXT) then Resend(old(Model()), late, accept) else (old(Model()), [], Ok);
              if r.2 != Ok then (Model(), out, status) == r
              else var q := ArdpSpec.Send(r.0, tx, total, accept - |r.1|);
                   (Model(), out, status) == (q.0, r.1 + q.1, q.2)
    {
      ghost var c := Model();
      out, status := [], Ok;
      assert UNA < NXT ==> SendSlotOk(c.snd, UNA);
      assert UNA == NXT ==> SendSlotOk(c.snd, UNA);
      if fired && sbuf[RingIndex(UNA)].retry != 0 {
        out, status := DataTimerHandler(late, accept);
        ResendKeepsRing(c, late, accept);
        ResendWithin(c, late, accept);
        if status != Ok {
          return;
        }
      }
      var more;
      more, status := SendCore(tx, total, accept - |out|);
      out := out + more;
    }

    static lemma ResendWithin(c: Conn, late: bool, accept: nat)
      ensures |Resend(c, late, accept).1| <= accept
    {
    }

    method SendCore(tx: seq<Byte>, total: U32, accept: nat) returns (out: seq<Segment>, status: Status)
      requires Valid() && tx != []
      modifies this, sbuf
      ensures (Model(), out, status) == ArdpSpec.Send(old(Model()), tx, total, accept)
    {
      if pending == UDP_SEGMAX {
        return [], Backpressure;
      }
      assert SendSlotOk(Model().snd, NXT);
      hide SndOk, RcvOk, SendBytes, Capacity, Wrap16, Wrap32;
      if newMsg {
        msgLenTotal, newMsg, msgSOM := total, false, NXT;
      }
      var n := |sbuf[RingIndex(NXT)].data| + |tx|;
      var remote := Wrap16(Wrap32(NXT as int - sndLCS - 1));
      if n > Capacity(UDP_SEGMAX - pending) || n > Wrap32(Capacity(Wrap32(sndSEGMAX as int - remote))) {
        return [], Backpressure;
      }
      out, status := SendSegments(tx, accept);
    }

    /** ArdpMachine on an accepted segment. */
    method Receive(g: Segment) returns (out: seq<Segment>, status: Status)
      requires Valid()
      modifies this, sbuf, rbuf
      ensures (Model(), out, status) == Machine(old(Model()), g)
    {
      ghost var c := Model();
      ProcessAck(g.hdr);
      out, status := [], Ok;
      if SeqLt(Add32(CUR, 1), g.hdr.ACKNXT) {
        status := RecvExpired;
      } else if Has(g.hdr.flags, FLAG_NUL) {
        out := [Segment(Header(DATA_FLAGS, local, foreign, 0, NXT, CUR, 0, rcvLCS, UNA, 0, 0), [])];
      } else if g.hdr.DLEN != 0 && SeqLet(Add32(CUR, 1), g.hdr.SEQ) {
        var i := RingIndex(g.hdr.SEQ);
        rbuf[i] := RecvSlot(g.hdr.SEQ, g.data, g.hdr.SOM, g.hdr.FCNT);
        if ctx == Idle {
          ctx := Reading(i, 0, |g.data|);
        }
        CUR := g.hdr.SEQ;
      }
    }

    // RecvReady on the slot being read, then on to the next one.
    method ReleaseSlot()
      requires Shaped() && ctx.Reading? && ctx.slot < UDP_SEGMAX
      modifies this`rcvLCS, this`ctx, rbuf
      ensures Model() == old(Model()).(rcv := FinishSlot(old(Model().rcv)))
    {
      var i := ctx.slot;
      var next := NextSlot(i, UDP_SEGMAX);
      rcvLCS := rbuf[i].SEQ;
      rbuf[i] := rbuf[i].(data := [], FCNT := 0);
      ctx := if rbuf[next].data != [] then Reading(next, 0, |rbuf[next].data|) else Idle;
    }

    // b with `bytes` written over it from position `at`.
    static function Overwrite(b: seq<Byte>, at: nat, bytes: seq<Byte>): seq<Byte>
      requires at + |bytes| <= |b|
    { b[..at] + bytes + b[at + |bytes|..] }

    static lemma OverwriteMore(b: seq<Byte>, at: nat, x: seq<Byte>, y: seq<Byte>)
      requires at + |x| + |y| <= |b|
      ensures |Overwrite(b, at, x)| == |b| && Overwrite(b, at, []) == b
      ensures Overwrite(Overwrite(b, at, x), at + |x|, y) == Overwrite(b, at, x + y)
    {
    }

    /** UpdateReadBuffer: copies unread bytes to `buf` from position `at`, at most `len` and at most what fits. */
    method UpdateReadBuffer(buf: array<Byte>, at: nat, len: nat) returns (n: nat)
      requires Valid() && at <= buf.Length
      modifies this`rcvLCS, this`ctx, rbuf, buf
      ensures var r := Read(old(Model().rcv), if len <= buf.Length - at then len else buf.Length - at);
              && Model() == old(Model()).(rcv := r.0)
              && n == |r.1| && at + n <= buf.Length && buf[..] == Overwrite(old(buf[..]), at, r.1)
      ensures Valid()
    {
      hide Read, RcvOk, FinishSlot, CtxBytes, SndOk, Overwrite, ReadSoFar;
      ghost var rcv, want := Model().rcv, if len <= buf.Length - at then len else buf.Length - at;
      ghost var done := [];
      ReadIsPrefix(rcv, want);
      ReadStarts(rcv, want);
      var left := len;
      n := 0;
      OverwriteMore(buf[..], at, [], []);
      while ctx != Idle && left != 0
        invariant Valid() && n == |done| <= want && left == len - n && at + n <= buf.Length
        invariant Model() == old(Model()).(rcv := Model().rcv)
        invariant buf[..] == Overwrite(old(buf[..]), at, done)
        invariant ReadSoFar(rcv, want, Model().rcv, done)
        decreases CUR as int - rcvLCS
      {
        ghost var now := Model().rcv;
        var space := buf.Length - at - n;
        var rx := if space <= left then space else left;
        ReadRound(now, want - n);
        var consumed := if rx <= ctx.left then rx else ctx.left;
        var bytes := rbuf[ctx.slot].data[ctx.off..ctx.off + consumed];
        SliceOfRest(rbuf[ctx.slot].data, ctx.off, consumed);
        CopyBytes(buf, at + n, bytes);
        OverwriteMore(old(buf[..]), at, done, bytes);
        ReadGoesOn(rcv, want, now, done, bytes);
        n, left, done := n + consumed, left - consumed, done + bytes;
        if consumed == ctx.left {
          ReleaseSlot();
        } else {
          ctx := ctx.(off := ctx.off + rx, left := ctx.left - rx);
          return;
        }
      }
      ReadStops(rcv, want, Model().rcv, done);
    }

    // `done` has been read and `now` is what is left of the ring.
    static ghost predicate ReadSoFar(rcv: Rcv, want: nat, now: Rcv, done: seq<Byte>) {
      |done| <= want && var r := Read(now, want - |done|); Read(rcv, want) == (r.0, done + r.1)
    }

    static lemma ReadStarts(rcv: Rcv, want: nat)
      ensures ReadSoFar(rcv, want, rcv, [])
    {
      hide Read;
      assert [] + Read(rcv, want).1 == Read(rcv, want).1;
    }

    // One round copies the rest of a slot, or ends inside it.
    static lemma ReadGoesOn(rcv: Rcv, want: nat, now: Rcv, done: seq<Byte>, bytes: seq<Byte>)
      requires ReadSoFar(rcv, want, now, done) && RcvOk(now) && now.ctx.Reading? && now.ctx.slot < UDP_SEGMAX
      requires now.ctx.off + now.ctx.left == |now.buf[now.ctx.slot].data| && |done| + |bytes| <= want
      requires var n := if want - |done| < now.ctx.left then want - |done| else now.ctx.left;
               bytes == now.buf[now.ctx.slot].data[now.ctx.off..][..n]
      ensures if want - |done| < now.ctx.left then
                var m := want - |done|;
                Read(rcv, want) == (now.(ctx := now.ctx.(off := now.ctx.off + m, left := now.ctx.left - m)),
                done + bytes)
              else ReadSoFar(rcv, want, FinishSlot(now), done + bytes)
    {
      hide Read, FinishSlot, RcvOk;
      var m := want - |done|;
      ReadRound(now, m);
      if m >= now.ctx.left {
        assert bytes == now.buf[now.ctx.slot].data[now.ctx.off..];
        Reassociate(done, bytes, Read(FinishSlot(now), m - now.ctx.left).1);
      }
    }

    static lemma ReadStops(rcv: Rcv, want: nat, now: Rcv, done: seq<Byte>)
      requires ReadSoFar(rcv, want, now, done) && (now.ctx == Idle || |done| == want)
      ensures Read(rcv, want) == (now, done)
    {
      hide Read;
      ReadEnd(now, want - |done|);
      assert done + [] == done;
    }

    static lemma SliceOfRest(data: seq<Byte>, off: nat, n: nat)
      requires off + n <= |data|
      ensures data[off..off + n] == data[off..][..n]
      ensures off + n == |data| ==> data[off..off + n] == data[off..]
    {
    }

    // One round of the loop of UpdateReadBuffer for m bytes.
    static lemma ReadRound(rcv: Rcv, m: nat)
      requires RcvOk(rcv) && rcv.ctx != Idle
      ensures rcv.ctx.Reading? && rcv.ctx.slot < UDP_SEGMAX && 0 < rcv.ctx.left
      ensures rcv.ctx.off + rcv.ctx.left == |rcv.buf[rcv.ctx.slot].data|
      ensures rcv.LCS < rcv.CUR && RcvOk(FinishSlot(rcv)) && FinishSlot(rcv).CUR == rcv.CUR
      ensures FinishSlot(rcv).LCS > rcv.LCS
      ensures var bytes := rcv.buf[rcv.ctx.slot].data[rcv.ctx.off..];
              if m < rcv.ctx.left then
                Read(rcv, m) == (rcv.(ctx := rcv.ctx.(off := rcv.ctx.off + m, left := rcv.ctx.left - m)), bytes[..m])
              else
                var r := Read(FinishSlot(rcv), m - rcv.ctx.left); Read(rcv, m) == (r.0, bytes + r.1)
    {
      CtxIsRestOfSlot(rcv);
      FinishSlotKeepsRing(rcv);
    }

    static lemma ReadEnd(rcv: Rcv, m: nat)
      requires rcv.ctx == Idle || m == 0
      ensures Read(rcv, m) == (rcv, [])
    {
    }

    static method CopyBytes(buf: array<Byte>, at: nat, bytes: seq<Byte>)
      requires at + |bytes| <= buf.Length
      modifies buf
      ensures buf[..] == Overwrite(old(buf[..]), at, bytes)
    {
      forall i | 0 <= i < |bytes| {
        buf[at + i] := bytes[i];
      }
    }
  }
}
