/**
 What every step of a connection keeps of its two rings, and what it does to the bytes they hold.
 */
module ArdpRing {
  import opened Seq32
  import opened ArdpWire
  import opened ArdpSpec

  /* ---- Acknowledgements ---- */

  lemma AckSlotOf(snd: Snd, ack: U32, s: int)
    ensures AckRing(snd.buf, ack)[RingIndex(s)] == AckSlot(SendSlotOf(snd, s), ack)
  {
  }

  // In-flight numbers lie within SEGMAX of each other, so the 32-bit order is the true one.
  lemma NearOrder(a: U32, b: U32)
    requires -TWO31 <= a as int - b < TWO31
    ensures SeqLt(a, b) <==> a < b
    ensures SeqLet(a, b) <==> a <= b
  {
    SeqLtIsTrueOrder(a, b);
  }

  lemma WindowNumbers(una: U32, nxt: U32, ack: U32)
    requires una <= nxt <= una + UDP_SEGMAX
    ensures InRange(una, Add32(Sub32(nxt, una), 1), ack) <==> una <= ack <= nxt
  {
    assert Sub32(nxt, una) == nxt as int - una;
    var sz := Add32(Sub32(nxt, una), 1);
    assert sz == nxt as int - una + 1;
    InRangeIsModularDistance(una, sz, ack);
    assert Sub32(ack, una) == if una <= ack then ack as int - una else ack as int - una + TWO32;
  }

  lemma WindowTest(snd: Snd, ack: U32)
    requires SndOk(snd)
    ensures InRange(snd.UNA, Add32(Sub32(snd.NXT, snd.UNA), 1), ack) <==> snd.UNA <= ack <= snd.NXT
  {
    WindowNumbers(snd.UNA, snd.NXT, ack);
  }

  // Slot by slot, an in-range ACK clears exactly the numbers up to it.
  lemma AckedSlot(snd: Snd, ack: U32, s: int)
    requires SndOk(snd) && snd.UNA <= ack <= snd.NXT && snd.UNA <= s < snd.UNA + UDP_SEGMAX
    ensures SendSlotOk(snd, s)
    ensures AckSlot(SendSlotOf(snd, s), ack)
            == if s < snd.NXT && s <= ack
               then SendSlotOf(snd, s).(data := [], inFlight := false, retry := 0, retransmits := 0)
               else SendSlotOf(snd, s)
  {
    assert SendSlotOk(snd, s);
    if s < snd.NXT {
      NearOrder(SendSlotOf(snd, s).hdr.SEQ, ack);
    }
  }

  // Counting the ring by index is counting it from any sequence number on.
  lemma CountFrom(buf: SendRing, u: int)
    ensures InFlight(buf) == One(buf[RingIndex(u)].inFlight) + One(buf[RingIndex(u + 1)].inFlight)
                             + One(buf[RingIndex(u + 2)].inFlight)
  {
    if RingIndex(u) == 0 {
      assert RingIndex(u + 1) == 1 && RingIndex(u + 2) == 2;
    } else if RingIndex(u) == 1 {
      assert RingIndex(u + 1) == 2 && RingIndex(u + 2) == 0;
    } else {
      assert RingIndex(u + 1) == 0 && RingIndex(u + 2) == 1;
    }
  }

  lemma PendingIsInFlight(snd: Snd)
    requires SndOk(snd)
    ensures InFlight(snd.buf) == snd.pending
  {
    var u := snd.UNA as int;
    CountFrom(snd.buf, u);
    assert SendSlotOk(snd, u) && SendSlotOk(snd, u + 1) && SendSlotOk(snd, u + 2);
  }

  lemma AckedInFlight(snd: Snd, ack: U32)
    requires SndOk(snd) && snd.UNA <= ack <= snd.NXT
    ensures InFlight(AckRing(snd.buf, ack)) == if ack == snd.NXT then 0 else snd.NXT as int - ack - 1
  {
    var u := snd.UNA as int;
    CountFrom(AckRing(snd.buf, ack), u);
    AckSlotOf(snd, ack, u);
    AckSlotOf(snd, ack, u + 1);
    AckSlotOf(snd, ack, u + 2);
    AckedSlot(snd, ack, u);
    AckedSlot(snd, ack, u + 1);
    AckedSlot(snd, ack, u + 2);
  }

  // The ring after an in-range ACK, without the modular arithmetic.
  lemma OnAckInRange(snd: Snd, h: Header)
    requires SndOk(snd) && snd.UNA <= h.ACK < snd.NXT
    ensures OnAck(snd, h) == snd.(UNA := h.ACK + ONE, buf := AckRing(snd.buf, h.ACK),
                                  pending := snd.NXT as int - h.ACK - 1, LCS := h.LCS)
  {
    WindowTest(snd, h.ACK);
    AckedInFlight(snd, h.ACK);
  }

  lemma OnAckSlot(snd: Snd, ack: U32, r: Snd, s: int)
    requires SndOk(snd) && snd.UNA <= ack < snd.NXT && ack < s <= ack + UDP_SEGMAX
    requires r.NXT == snd.NXT && r.buf == AckRing(snd.buf, ack)
    ensures SendSlotOk(r, s)
    ensures s < r.NXT ==> SendSlotOf(r, s) == SendSlotOf(snd, s)
    ensures s == r.NXT ==> SendSlotOf(r, s).data == Queued(snd)
  {
    AckSlotOf(snd, ack, s);
    if s < snd.UNA + UDP_SEGMAX {
      AckedSlot(snd, ack, s);
    } else {
      AckedSlot(snd, ack, s - UDP_SEGMAX);
      assert SendSlotOf(snd, s) == SendSlotOf(snd, s - UDP_SEGMAX);
    }
  }

  /**
   A cumulative acknowledgement below NXT moves UNA just past it, frees exactly the slots it covers, and
   leaves the other in-flight segments and the queued bytes alone.
   */
  lemma OnAckKeepsRing(snd: Snd, h: Header)
    requires SndOk(snd) && snd.UNA as int - 1 <= h.ACK < snd.NXT
    ensures var r := OnAck(snd, h);
            && SndOk(r) && r.NXT == snd.NXT && r.UNA as int == h.ACK + ONE && r.LCS == h.LCS
            && (forall s :: r.UNA <= s < r.NXT ==> SendSlotOf(r, s) == SendSlotOf(snd, s))
            && Queued(r) == Queued(snd)
  {
    var r := OnAck(snd, h);
    if snd.UNA <= h.ACK {
      OnAckInRange(snd, h);
      forall s | r.UNA <= s < r.UNA + UDP_SEGMAX
        ensures SendSlotOk(r, s)
        ensures s < r.NXT ==> SendSlotOf(r, s) == SendSlotOf(snd, s)
        ensures s == r.NXT ==> SendSlotOf(r, s).data == Queued(snd)
      {
        OnAckSlot(snd, h.ACK, r, s);
      }
    } else {
      WindowTest(snd, h.ACK);
      assert r == snd.(LCS := h.LCS);
      forall s | r.UNA <= s < r.UNA + UDP_SEGMAX
        ensures SendSlotOk(r, s)
      {
        assert SendSlotOk(snd, s);
      }
    }
  }

  /**
   The window test admits ACK == NXT although nothing with that number was sent. That is the one acknowledgement,
   out of all 2^32, that breaks the send ring.
   */
  lemma OnAckKeepsRingExactly(snd: Snd, h: Header)
    requires SndOk(snd)
    ensures SndOk(OnAck(snd, h)) <==> h.ACK != snd.NXT
  {
    hide OnAck, SndOk;
    if snd.UNA <= h.ACK < snd.NXT {
      OnAckKeepsRing(snd, h);
    } else if h.ACK == snd.NXT {
      OnAckBreaks(snd, h);
    } else {
      OnAckOutside(snd, h);
      LcsKeepsRing(snd, h.LCS);
    }
  }

  lemma OnAckOutside(snd: Snd, h: Header)
    requires SndOk(snd) && !(snd.UNA <= h.ACK <= snd.NXT)
    ensures OnAck(snd, h) == snd.(LCS := h.LCS)
  {
    WindowTest(snd, h.ACK);
    hide SndOk, InRange;
  }

  lemma OnAckBreaks(snd: Snd, h: Header)
    requires SndOk(snd) && h.ACK == snd.NXT
    ensures !SndOk(OnAck(snd, h))
  {
    WindowTest(snd, h.ACK);
    assert snd.UNA <= snd.NXT && snd.NXT + UDP_SEGMAX <= TWO32;
    hide InRange, AckRing, InFlight, SendSlotOk;
    assert OnAck(snd, h).UNA as int == snd.NXT + ONE;
  }

  lemma LcsKeepsRing(snd: Snd, lcs: U32)
    requires SndOk(snd)
    ensures SndOk(snd.(LCS := lcs))
  {
    var r := snd.(LCS := lcs);
    forall s | r.UNA <= s < r.UNA + UDP_SEGMAX
      ensures SendSlotOk(r, s)
    {
      assert SendSlotOk(snd, s);
    }
  }

  /* ---- Sending ---- */

  // Room for one more segment and for its sequence number.
  ghost predicate CanEmit(snd: Snd) { SndOk(snd) && snd.pending < UDP_SEGMAX && snd.NXT + UDP_SEGMAX < TWO32 }

  lemma WithSlotOf(snd: Snd, slot: SendSlot, s: int)
    requires -UDP_SEGMAX < s - snd.NXT < UDP_SEGMAX
    ensures SendSlotOf(WithSlot(snd, slot), s) == if s == snd.NXT then slot else SendSlotOf(snd, s)
  {
  }

  lemma EmitSlotOk(c: Conn, d: seq<Byte>, s: int)
    requires CanEmit(c.snd) && 0 < |d| <= ARDP_MAX_DLEN && c.snd.UNA <= s < c.snd.UNA + UDP_SEGMAX
    ensures SendSlotOk(Emit(c, d).snd, s)
    ensures SendSlotOf(Emit(c, d).snd, s) == if s == c.snd.NXT then SlotWith(c, d, 1) else SendSlotOf(c.snd, s)
    ensures s == c.snd.NXT + ONE ==> SendSlotOf(Emit(c, d).snd, s).data == []
  {
    assert SendSlotOk(c.snd, s);
    WithSlotOf(c.snd, SlotWith(c, d, 1), s);
  }

  lemma EmitKeepsRing(c: Conn, d: seq<Byte>)
    requires CanEmit(c.snd) && 0 < |d| <= ARDP_MAX_DLEN
    ensures var r := Emit(c, d).snd;
            && SndOk(r) && r.NXT as int == c.snd.NXT + ONE && r.UNA == c.snd.UNA
            && SendSlotOf(r, c.snd.NXT) == SlotWith(c, d, 1)
            && (forall s :: r.UNA <= s < c.snd.NXT ==> SendSlotOf(r, s) == SendSlotOf(c.snd, s))
            && Queued(r) == []
  {
    var r := Emit(c, d).snd;
    forall s | c.snd.UNA <= s < c.snd.UNA + UDP_SEGMAX
      ensures SendSlotOk(r, s)
      ensures s == c.snd.NXT ==> SendSlotOf(r, s) == SlotWith(c, d, 1)
      ensures s < c.snd.NXT ==> SendSlotOf(r, s) == SendSlotOf(c.snd, s)
    {
      EmitSlotOk(c, d, s);
    }
    if r.pending < UDP_SEGMAX {
      EmitSlotOk(c, d, r.NXT);
    }
  }

  lemma EnqueueKeepsRing(c: Conn, d: seq<Byte>)
    requires SndOk(c.snd) && c.snd.pending < UDP_SEGMAX && |d| < ARDP_MAX_DLEN
    ensures var r := Enqueue(c, d).snd;
            && SndOk(r) && r.NXT == c.snd.NXT && r.UNA == c.snd.UNA && Queued(r) == d
            && (forall s :: r.UNA <= s < r.NXT ==> SendSlotOf(r, s) == SendSlotOf(c.snd, s))
  {
    var r := Enqueue(c, d).snd;
    forall s | r.UNA <= s < r.UNA + UDP_SEGMAX
      ensures SendSlotOk(r, s)
      ensures s != c.snd.NXT ==> SendSlotOf(r, s) == SendSlotOf(c.snd, s)
    {
      assert SendSlotOk(c.snd, s);
    }
  }

  /**
   A refused datagram leaves its slot marked in flight without advancing NXT: the ring is broken, and the slot
   that the next ARDP_Send would fill is the one marked in flight.
   */
  lemma MarkedBreaksRing(c: Conn, d: seq<Byte>)
    requires CanEmit(c.snd) && 0 < |d| <= ARDP_MAX_DLEN
    ensures !SndOk(Marked(c, d).snd)
    ensures Marked(c, d).snd.pending < UDP_SEGMAX && SendSlotOf(Marked(c, d).snd, Marked(c, d).snd.NXT).inFlight
  {
    assert !SendSlotOk(Marked(c, d).snd, c.snd.NXT);
  }

  // Number of segments that a stream can fill at most.
  function Ceil(n: nat): nat { Segments(n + ARDP_MAX_DLEN - 1) }

  lemma CeilStep(n: nat)
    requires n > 0
    ensures Ceil(n) == 1 + Ceil(if n <= ARDP_MAX_DLEN then 0 else n - ARDP_MAX_DLEN)
  {
  }

  lemma CeilFits(n: nat, k: nat)
    ensures n <= Capacity(k) <==> Ceil(n) <= k
  {
  }

  // Whether the loop reaches its end: the socket takes every segment that is ready.
  function Ready(c: Conn, stream: seq<Byte>): nat
    decreases |stream|
  {
    if stream == [] then 0
    else
      var d := FirstPiece(stream);
      if Waits(c.snd, |d|) then 0 else 1 + Ready(Emit(c, d), stream[|d|..])
  }

  /**
   ARDP_Send keeps the ring exactly when the socket takes every ready segment; otherwise it reports the failure
   and leaves the ring broken.
   */
  lemma {:induction false} SendBytesKeepsRing(c: Conn, stream: seq<Byte>, accept: nat)
    requires SndOk(c.snd) && c.snd.pending + Ceil(|stream|) <= UDP_SEGMAX
    requires c.snd.NXT + UDP_SEGMAX + Ceil(|stream|) <= TWO32
    ensures var r := SendBytes(c, stream, accept);
            && (SndOk(r.0.snd) <==> r.2 == Ok) && (r.2 == Ok <==> Ready(c, stream) <= accept)
            && (r.2 == Ok || r.2 == WriteFailed)
    decreases |stream|
  {
    if stream != [] {
      var d := FirstPiece(stream);
      CeilStep(|stream|);
      if Waits(c.snd, |d|) {
        EnqueueKeepsRing(c, d);
      } else if accept == 0 {
        MarkedBreaksRing(c, d);
      } else {
        EmitKeepsRing(c, d);
        SendBytesKeepsRing(Emit(c, d), stream[|d|..], accept - 1);
      }
    }
  }

  /**
   The flow-control test is sound and complete for a told LCS inside the window: it admits n bytes exactly when
   the segments they fill fit between LCS and LCS + SEGMAX.
   */
  lemma RemoteRoomInWindow(snd: Snd, n: nat)
    requires snd.LCS < snd.NXT && snd.NXT as int - snd.LCS - 1 <= snd.SEGMAX < TWO16
    ensures n <= RemoteRoom(snd) <==> snd.NXT as int - 1 + Ceil(n) <= snd.LCS as int + snd.SEGMAX
  {
    var k := snd.SEGMAX as int - (snd.NXT as int - snd.LCS - 1);
    assert RemoteRoom(snd) == Capacity(k);
    CeilFits(n, k);
  }

  /**
   For every told LCS: with w the low 16 bits of the distance from it to NXT - 1, the test admits a 16-bit length
   exactly when it fits SEGMAX - w segments, or w is more than SEGMAX. A distance beyond the window opens it instead.
   */
  lemma RemoteRoomExactly(snd: Snd, n: U16)
    requires snd.SEGMAX < TWO16
    ensures var w := Wrap16(Wrap32(snd.NXT as int - snd.LCS - 1));
            n <= RemoteRoom(snd) <==> w > snd.SEGMAX || n <= Capacity(snd.SEGMAX as int - w)
  {
    hide Capacity, Wrap16;
    var w := Wrap16(Wrap32(snd.NXT as int - snd.LCS - 1));
    RoomOf(snd.SEGMAX, w);
  }

  lemma RoomOf(segmax: U32, w: U16)
    requires segmax < TWO16
    ensures var room := Wrap32(Capacity(Wrap32(segmax as int - w)));
            if w > segmax then room >= TWO16 else room == Capacity(segmax as int - w)
  {
    if w > segmax {
      var k := w as int - segmax;
      assert Wrap32(0 - k) == TWO32 - k;
      assert Capacity(TWO32 - k) == (ARDP_MAX_DLEN - 1) * TWO32 + (TWO32 - Capacity(k));
      assert Wrap32(Capacity(TWO32 - k)) == TWO32 - Capacity(k);
    }
  }

  /* ---- Retransmission ---- */

  lemma NumberOfIndex(snd: Snd, s: int)
    requires snd.UNA <= s < snd.UNA + UDP_SEGMAX
    ensures NumberOf(snd, RingIndex(s)) == s
  {
  }

  lemma ResentSlotOf(c: Conn, s: int, late: bool, accept: nat)
    requires c.snd.UNA <= s < c.snd.UNA + UDP_SEGMAX
    ensures SendSlotOf(Resend(c, late, accept).0.snd, s) == ResentSlot(c, s, late, accept)
  {
    NumberOfIndex(c.snd, s);
    assert RingIndex(s) == 0 || RingIndex(s) == 1 || RingIndex(s) == 2;
  }

  lemma ResendCountBound(c: Conn, late: bool, accept: nat)
    requires SndOk(c.snd)
    ensures ResendCount(c, late, accept) <= c.snd.NXT as int - c.snd.UNA
  {
  }

  /** The handler keeps the ring, and of each stored segment only ACK, LCS and ACKNXT change. */
  lemma ResendKeepsRing(c: Conn, late: bool, accept: nat)
    requires SndOk(c.snd) && c.snd.UNA < c.snd.NXT
    ensures var r := Resend(c, late, accept).0.snd;
            && SndOk(r) && r.NXT == c.snd.NXT && r.UNA == c.snd.UNA && Queued(r) == Queued(c.snd)
            && (forall s :: r.UNA <= s < r.NXT ==>
                  && SendSlotOf(r, s).data == SendSlotOf(c.snd, s).data
                  && (SendSlotOf(r, s).hdr == SendSlotOf(c.snd, s).hdr
                      || SendSlotOf(r, s).hdr == Refreshed(c, SendSlotOf(c.snd, s)).hdr))
  {
    var r := Resend(c, late, accept).0.snd;
    ResendCountBound(c, late, accept);
    forall s | r.UNA <= s < r.UNA + UDP_SEGMAX
      ensures SendSlotOk(r, s)
      ensures SendSlotOf(r, s).data == SendSlotOf(c.snd, s).data
      ensures SendSlotOf(r, s).hdr == SendSlotOf(c.snd, s).hdr
              || SendSlotOf(r, s).hdr == Refreshed(c, SendSlotOf(c.snd, s)).hdr
    {
      assert SendSlotOk(c.snd, s);
      ResentSlotOf(c, s, late, accept);
    }
  }

  lemma ResentAt(c: Conn, late: bool, accept: nat, k: nat)
    requires SndOk(c.snd) && k < ResendCount(c, late, accept)
    ensures var g := Resend(c, late, accept).1[k];
            && g.hdr.SEQ as int == c.snd.UNA + k
            && g.data == SendSlotOf(c.snd, c.snd.UNA + k).data
            && g.hdr == Refreshed(c, SendSlotOf(c.snd, c.snd.UNA + k)).hdr
  {
    ResendCountBound(c, late, accept);
    assert SendSlotOk(c.snd, c.snd.UNA + k);
  }

  /**
   When the handler reports AJ_OK it has resent exactly UNA, UNA + 1, ..., NXT - 1, once each and in that order,
   every field as first sent except ACK, LCS and ACKNXT, which are current.
   */
  lemma ResendSendsWindow(c: Conn, late: bool, accept: nat)
    requires SndOk(c.snd) && c.snd.UNA < c.snd.NXT
    ensures var r := Resend(c, late, accept);
            && (r.2 == Ok <==> |r.1| == c.snd.NXT as int - c.snd.UNA)
            && |r.1| <= c.snd.NXT as int - c.snd.UNA
            && forall k :: 0 <= k < |r.1| ==>
                 && r.1[k].hdr.SEQ as int == c.snd.UNA + k
                 && r.1[k].data == SendSlotOf(c.snd, c.snd.UNA + k).data
                 && r.1[k].hdr == SendSlotOf(c.snd, c.snd.UNA + k).hdr.(ACK := c.rcv.CUR, LCS := c.rcv.LCS,
                       ACKNXT := c.snd.UNA)
  {
    var r := Resend(c, late, accept);
    ResendCountBound(c, late, accept);
    assert Sub32(c.snd.NXT, c.snd.UNA) == c.snd.NXT as int - c.snd.UNA;
    forall k | 0 <= k < |r.1|
      ensures r.1[k].hdr.SEQ as int == c.snd.UNA + k
      ensures r.1[k].data == SendSlotOf(c.snd, c.snd.UNA + k).data
      ensures r.1[k].hdr == SendSlotOf(c.snd, c.snd.UNA + k).hdr.(ACK := c.rcv.CUR, LCS := c.rcv.LCS,
                ACKNXT := c.snd.UNA)
    {
      ResentAt(c, late, accept, k);
    }
  }

  /**
   How a retransmission ends. The retries of the whole window are counted on its oldest segment, one per segment resent,
   and once that count is past five a late segment is given up.
   */
  lemma ResendEndsExactly(c: Conn, late: bool, accept: nat)
    requires SndOk(c.snd) && c.snd.UNA < c.snd.NXT
    ensures var r := Resend(c, late, accept);
            var inFlight, retry := c.snd.NXT as int - c.snd.UNA, SendSlotOf(c.snd, c.snd.UNA).retry;
            && (r.2 == Ok <==> inFlight <= accept && (late ==> retry + inFlight <= 6))
            && (r.2 == Timeout <==> late && retry + inFlight > 6 && (retry > 5 || accept >= 6 - retry))
            && (r.2 == Ok || r.2 == Timeout || (r.2 == WriteFailed && |r.1| == accept))
            && (r.2 == Timeout ==> |r.1| == if retry > 5 then 0 else 6 - retry)
            && SendSlotOf(r.0.snd, c.snd.UNA).retry == retry + |r.1|
  {
    var r := Resend(c, late, accept);
    assert Sub32(c.snd.NXT, c.snd.UNA) == c.snd.NXT as int - c.snd.UNA;
    ResentSlotOf(c, c.snd.UNA, late, accept);
  }

  lemma MeasuredSlot(c: Conn, late: bool, accept: nat, s: int)
    requires SndOk(c.snd) && c.snd.UNA <= s < c.snd.NXT
    ensures Measures(Resend(c, late, accept).0.snd, s) <==>
            if s == c.snd.UNA then SendSlotOf(c.snd, s).retransmits % 0x100 == 0xFF
            else SendSlotOf(c.snd, s).retransmits == 0
  {
    assert SendSlotOk(c.snd, s) && c.snd.pending != 0;
    hide SndOk, SendSlotOf, ResendCount, ResendStatus, Resending, Counted;
    ResentSlotOf(c, s, late, accept);
    var n := ResendCount(c, late, accept);
    ResendingCounters(c, s, n, n + One(ResendStatus(c, late, accept) == WriteFailed));
    CountedZero(SendSlotOf(c.snd, s).retransmits);
  }

  lemma ResendingCounters(c: Conn, s: int, k: nat, touched: nat)
    ensures var slot, r := SendSlotOf(c.snd, s), Resending(c, s, k, touched);
            && r.retransmits == (if s == c.snd.UNA then Counted(slot.retransmits) else slot.retransmits)
            && r.retry == slot.retry + if s == c.snd.UNA then k else 0
  {
    hide SendSlotOf, Counted;
  }

  lemma CountedZero(n: nat)
    ensures Counted(n) == 0 <==> n % 0x100 == 0xFF
  {
  }

  /**
   Round trips are to be measured on segments that were not retransmitted, but a retransmission is counted only on the
   oldest of the segments it resends. After the whole window has been resent, the acknowledgement of segment s measures
   exactly if s is not the oldest and was not the oldest before, or its counter has just wrapped.
   */
  lemma MeasuredAfterResend(c: Conn, late: bool, accept: nat, s: int)
    requires SndOk(c.snd) && c.snd.UNA <= s < c.snd.NXT && Resend(c, late, accept).2 == Ok
    ensures exists k :: 0 <= k < |Resend(c, late, accept).1| && Resend(c, late, accept).1[k].hdr.SEQ as int == s
    ensures Measures(Resend(c, late, accept).0.snd, s) <==>
            if s == c.snd.UNA then SendSlotOf(c.snd, s).retransmits % 0x100 == 0xFF
            else SendSlotOf(c.snd, s).retransmits == 0
  {
    ResendSendsWindow(c, late, accept);
    MeasuredSlot(c, late, accept, s);
    hide Resend, SndOk, SendSlotOf;
    assert Resend(c, late, accept).1[s - c.snd.UNA].hdr.SEQ as int == s;
  }

  /* ---- Receiving and reading ---- */

  lemma StoredSlotOf(rcv: Rcv, g: Segment, s: int)
    requires -UDP_SEGMAX < s - g.hdr.SEQ < UDP_SEGMAX
    ensures RecvSlotOf(AddRcvBuffer(rcv, g), s)
            == if s == g.hdr.SEQ then RecvSlot(g.hdr.SEQ, g.data, g.hdr.SOM, g.hdr.FCNT) else RecvSlotOf(rcv, s)
  {
  }

  lemma FinishedSlotOf(rcv: Rcv, s: int)
    requires rcv.ctx.Reading? && rcv.ctx.slot == RingIndex(rcv.LCS + ONE)
    requires -UDP_SEGMAX < s - (rcv.LCS + ONE) <= UDP_SEGMAX
    ensures RecvSlotOf(FinishSlot(rcv), s)
            == if s == rcv.LCS + ONE || s == rcv.LCS + ONE + UDP_SEGMAX then RecvSlotOf(rcv, s).(data := [], FCNT := 0)
               else RecvSlotOf(rcv, s)
  {
  }

  // Where OnData puts a segment that is next in sequence.
  lemma OnDataSlot(rcv: Rcv, g: Segment, s: int)
    requires RcvOk(rcv) && rcv.CUR < rcv.LCS + UDP_SEGMAX && rcv.LCS < s <= rcv.LCS + UDP_SEGMAX
    requires g.hdr.SEQ as int == rcv.CUR + ONE && g.data != [] && g.hdr.FCNT != 0
    ensures OnData(rcv, g) == AddRcvBuffer(rcv, g).(CUR := g.hdr.SEQ)
    ensures RecvSlotOk(rcv, s) && RecvSlotOk(OnData(rcv, g), s)
    ensures s <= rcv.CUR ==> RecvSlotOf(OnData(rcv, g), s) == RecvSlotOf(rcv, s)
    ensures s == g.hdr.SEQ ==> RecvSlotOf(OnData(rcv, g), s).data == g.data
  {
    NearOrder(Add32(rcv.CUR, 1), g.hdr.SEQ);
    assert RecvSlotOk(rcv, s);
    StoredSlotOf(rcv, g, s);
  }

  /** Data next in sequence, with room in the window, lands in a free slot and keeps the receive ring. */
  lemma OnDataKeepsRing(rcv: Rcv, g: Segment)
    requires RcvOk(rcv) && rcv.CUR < rcv.LCS + UDP_SEGMAX && rcv.CUR + UDP_SEGMAX + ONE < TWO32
    requires g.hdr.SEQ as int == rcv.CUR + ONE && g.data != [] && g.hdr.FCNT != 0
    ensures RecvSlotOf(rcv, g.hdr.SEQ).FCNT == 0
    ensures var r := OnData(rcv, g);
            && RcvOk(r) && r.CUR == g.hdr.SEQ && r.LCS == rcv.LCS
            && RecvSlotOf(r, g.hdr.SEQ).data == g.data
            && r.ctx == (if rcv.LCS == rcv.CUR then Reading(RingIndex(g.hdr.SEQ), 0, |g.data|) else rcv.ctx)
            && (forall s :: rcv.LCS < s <= rcv.CUR ==> RecvSlotOf(r, s) == RecvSlotOf(rcv, s))
  {
    var r := OnData(rcv, g);
    forall s | rcv.LCS < s <= rcv.LCS + UDP_SEGMAX
      ensures RecvSlotOk(r, s)
      ensures s <= rcv.CUR ==> RecvSlotOf(r, s) == RecvSlotOf(rcv, s)
    {
      OnDataSlot(rcv, g, s);
    }
    OnDataSlot(rcv, g, g.hdr.SEQ);
    OnDataSlot(rcv, g, rcv.LCS + ONE);
  }

  lemma FinishSlotKeepsRing(rcv: Rcv)
    requires RcvOk(rcv) && rcv.LCS < rcv.CUR
    ensures var r := FinishSlot(rcv);
            && RcvOk(r) && r.CUR == rcv.CUR && r.LCS as int == rcv.LCS + ONE
            && (r.LCS < r.CUR ==> r.ctx.off == 0)
            && (forall s :: r.LCS < s <= r.CUR ==> RecvSlotOf(r, s) == RecvSlotOf(rcv, s))
  {
    var r := FinishSlot(rcv);
    var next := rcv.LCS + ONE + ONE;
    assert RecvSlotOk(rcv, rcv.LCS + ONE);
    assert RecvSlotOk(rcv, next);
    FinishedSlotOf(rcv, next);
    assert RingIndex(next) == NextSlot(rcv.ctx.slot, UDP_SEGMAX);
    forall s | r.LCS < s <= r.LCS + UDP_SEGMAX
      ensures RecvSlotOk(r, s)
      ensures s <= r.CUR ==> RecvSlotOf(r, s) == RecvSlotOf(rcv, s)
    {
      FinishedSlotOf(rcv, s);
      if s <= rcv.LCS + UDP_SEGMAX {
        assert RecvSlotOk(rcv, s);
      }
    }
  }

  lemma {:induction false} StoredFromSame(a: Rcv, b: Rcv, s: int)
    requires a.CUR == b.CUR && forall t :: s <= t <= a.CUR ==> RecvSlotOf(a, t) == RecvSlotOf(b, t)
    ensures StoredFrom(a, s) == StoredFrom(b, s)
    decreases a.CUR + ONE - s
  {
    if s <= a.CUR {
      StoredFromSame(a, b, s + 1);
    }
  }

  // Finishing a slot drops from the unread stream exactly what was left of that slot.
  lemma FinishSlotUnread(rcv: Rcv)
    requires RcvOk(rcv) && rcv.LCS < rcv.CUR
    ensures CtxBytes(rcv) != [] && Unread(rcv) == CtxBytes(rcv) + Unread(FinishSlot(rcv))
  {
    hide RcvOk, CtxBytes, FinishSlot, StoredFrom, Unread, RecvSlotOf;
    assert rcv.ctx.Reading? by {
      UnreadIs(rcv);
    }
    UnreadIs(rcv);
    var r := FinishSlot(rcv);
    FinishSlotKeepsRing(rcv);
    UnreadFresh(r);
    StoredFromSame(rcv, r, rcv.LCS + ONE + ONE);
  }

  // The unread bytes: the rest of the slot being read and the slots behind it.
  lemma UnreadIs(rcv: Rcv)
    requires RcvOk(rcv) && rcv.LCS < rcv.CUR
    ensures rcv.ctx.Reading? && rcv.ctx.slot < UDP_SEGMAX && CtxBytes(rcv) != []
    ensures Unread(rcv) == CtxBytes(rcv) + StoredFrom(rcv, rcv.LCS + ONE + ONE)
  {
    CtxIsRestOfSlot(rcv);
    hide StoredFrom, CtxBytes;
  }

  // Before anything has been read of the next slot, that is everything stored.
  lemma UnreadFresh(rcv: Rcv)
    requires RcvOk(rcv) && (rcv.LCS < rcv.CUR ==> rcv.ctx.off == 0)
    ensures Unread(rcv) == StoredFrom(rcv, rcv.LCS + ONE)
  {
    if rcv.LCS < rcv.CUR {
      UnreadIs(rcv);
      CtxIsRestOfSlot(rcv);
      hide RcvOk, CtxBytes, Unread;
      assert RecvSlotOf(rcv, rcv.LCS + ONE).data[0..] == RecvSlotOf(rcv, rcv.LCS + ONE).data;
    }
  }

  lemma CtxIsRestOfSlot(rcv: Rcv)
    requires RcvOk(rcv)
    ensures CtxBytes(rcv) == if rcv.LCS < rcv.CUR then RecvSlotOf(rcv, rcv.LCS + ONE).data[rcv.ctx.off..] else []
    ensures rcv.LCS < rcv.CUR ==> |CtxBytes(rcv)| == rcv.ctx.left
  {
  }

  // Reading part of a slot moves only the context.
  lemma PartialReadKeepsRing(rcv: Rcv, n: nat, r: Rcv)
    requires RcvOk(rcv) && 0 < n < |CtxBytes(rcv)|
    requires r == rcv.(ctx := rcv.ctx.(off := rcv.ctx.off + n, left := rcv.ctx.left - n))
    ensures RcvOk(r)
  {
    CtxIsRestOfSlot(rcv);
    forall s | rcv.LCS < s <= rcv.LCS + UDP_SEGMAX
      ensures RecvSlotOk(r, s)
    {
      assert RecvSlotOk(rcv, s);
    }
  }

  lemma PartialRead(rcv: Rcv, n: nat, r: Rcv)
    requires RcvOk(rcv) && 0 < n < |CtxBytes(rcv)|
    requires r == rcv.(ctx := rcv.ctx.(off := rcv.ctx.off + n, left := rcv.ctx.left - n))
    ensures RcvOk(r) && Unread(rcv) == CtxBytes(rcv)[..n] + Unread(r)
  {
    PartialReadKeepsRing(rcv, n, r);
    PartialReadSplits(rcv, n, r);
    StoredFromSame(rcv, r, rcv.LCS + ONE + ONE);
    assert rcv.ctx.Reading?;
    hide RcvOk, StoredFrom, CtxBytes;
    Reassociate(CtxBytes(rcv)[..n], CtxBytes(r), StoredFrom(r, rcv.LCS + ONE + ONE));
  }

  lemma PartialReadSplits(rcv: Rcv, n: nat, r: Rcv)
    requires RcvOk(rcv) && 0 < n < |CtxBytes(rcv)|
    requires r == rcv.(ctx := rcv.ctx.(off := rcv.ctx.off + n, left := rcv.ctx.left - n))
    ensures CtxBytes(rcv) == CtxBytes(rcv)[..n] + CtxBytes(r)
  {
    hide RcvOk;
  }

  lemma Reassociate(a: seq<Byte>, b: seq<Byte>, c: seq<Byte>)
    ensures a + b + c == a + (b + c)
  {
  }

  // r is what is left after `out`, at most n bytes, has been read from rcv.
  ghost predicate ReadsPrefix(rcv: Rcv, n: nat, r: Rcv, out: seq<Byte>) {
    && RcvOk(r) && r.CUR == rcv.CUR && r.LCS >= rcv.LCS
    && |out| == (if n <= |Unread(rcv)| then n else |Unread(rcv)|)
    && Unread(rcv) == out + Unread(r)
  }

  lemma ReadNothing(rcv: Rcv, n: nat)
    requires RcvOk(rcv) && (n == 0 || CtxBytes(rcv) == [])
    ensures ReadsPrefix(rcv, n, rcv, [])
  {
    CtxIsRestOfSlot(rcv);
    assert [] + Unread(rcv) == Unread(rcv);
  }

  lemma ReadPart(rcv: Rcv, n: nat, r: Rcv)
    requires RcvOk(rcv) && 0 < n < |CtxBytes(rcv)|
    requires r == rcv.(ctx := rcv.ctx.(off := rcv.ctx.off + n, left := rcv.ctx.left - n))
    ensures ReadsPrefix(rcv, n, r, CtxBytes(rcv)[..n])
  {
    PartialRead(rcv, n, r);
  }

  lemma ReadOn(rcv: Rcv, n: nat, r: Rcv, out: seq<Byte>)
    requires RcvOk(rcv) && rcv.LCS < rcv.CUR && |CtxBytes(rcv)| <= n
    requires ReadsPrefix(FinishSlot(rcv), n - |CtxBytes(rcv)|, r, out)
    ensures ReadsPrefix(rcv, n, r, CtxBytes(rcv) + out)
  {
    FinishSlotKeepsRing(rcv);
    FinishSlotUnread(rcv);
    Reassociate(CtxBytes(rcv), out, Unread(r));
  }

  /**
   The receive ring refines a byte stream: reading n bytes hands over exactly the first n unread bytes (all of
   them if there are fewer) and keeps the rest, partly read segments included. LCS moves only past segments that
   are fully read.
   */
  lemma {:induction false} ReadIsPrefix(rcv: Rcv, n: nat)
    requires RcvOk(rcv)
    ensures ReadsPrefix(rcv, n, Read(rcv, n).0, Read(rcv, n).1)
    decreases n
  {
    var r := Read(rcv, n);
    var avail := CtxBytes(rcv);
    CtxIsRestOfSlot(rcv);
    if avail == [] || n == 0 {
      ReadNothing(rcv, n);
    } else if n < |avail| {
      ReadPart(rcv, n, r.0);
    } else {
      FinishSlotKeepsRing(rcv);
      ReadIsPrefix(FinishSlot(rcv), n - |avail|);
      var rest := Read(FinishSlot(rcv), n - |avail|);
      ReadOn(rcv, n, rest.0, rest.1);
    }
  }
}
