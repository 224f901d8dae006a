/**
 What each event brings about, in every reachable state of the link: when a send is refused, that a message handed over
 completely has gone out, what an arriving segment does to both rings, and what every new segment tells the peer. These
 say that the endpoints do their work, where ArdpNetwork says that they do no harm.
 */
module ArdpProgress {
  import opened Seq32
  import opened ArdpWire
  import opened ArdpSpec
  import opened ArdpRing
  import opened ArdpDirection
  import opened ArdpMessage
  import opened ArdpNetwork

  // The state of a link, seen from either end, after some proper run.
  ghost predicate Reachable(m: Net) {
    exists n, run :: Init(n) && Proper(n, run) && (m == After(n, run) || m == Swap(After(n, run)))
  }

  lemma ReachableInv(m: Net)
    requires Reachable(m)
    ensures NetInv(m)
  {
    hide NetInv, Init, Proper, After;
    var n, run :| Init(n) && Proper(n, run) && (m == After(n, run) || m == Swap(After(n, run)));
    RunKeeps(n, run);
    SwapInv(After(n, run));
  }

  /* ---- Sending ---- */

  // Segments of 1428 bytes that the queued and the new bytes fill.
  function Needed(snd: Snd, tx: seq<Byte>): nat { (|Queued(snd) + tx| + 1427) / 1428 }

  /**
   When ARDP_Send refuses, with the socket taking every datagram: all three buffers are in flight, or the segments that
   the bytes fill do not fit next to those in flight, or they go past the window that the peer was told to have.
   */
  lemma RefusedExactly(c: Conn, tx: seq<Byte>, total: U32)
    requires SndOk(c.snd) && c.snd.LCS < c.snd.NXT && c.snd.NXT as int - 1 - c.snd.LCS <= c.snd.SEGMAX < TWO16
    requires c.snd.NXT + UDP_SEGMAX + UDP_SEGMAX <= TWO32
    ensures var r, k := ArdpSpec.Send(c, tx, total, UDP_SEGMAX), Needed(c.snd, tx);
            && (r.2 == Backpressure <==>
                  || c.snd.pending == 3 || c.snd.pending + k > 3
                  || c.snd.NXT as int - 1 + k > c.snd.LCS as int + c.snd.SEGMAX)
            && (r.2 == Backpressure || r.2 == Ok)
  {
    var c1 := c.(snd := LatchMessage(c.snd, total));
    var stream := Queued(c.snd) + tx;
    SubmitOutcome(c, tx, total);
    hide Send, SendBytes;
    CeilFits(|stream|, UDP_SEGMAX - c.snd.pending);
    RemoteRoomInWindow(c1.snd, |stream|);
    if c.snd.pending < UDP_SEGMAX && |stream| <= LocalRoom(c1.snd) && |stream| <= RemoteRoom(c1.snd) {
      LatchKeepsRing(c.snd, total);
      SendBytesKeepsRing(c1, stream, UDP_SEGMAX);
      ReadyBound(c1, stream);
    }
  }

  lemma LatchKeepsRing(snd: Snd, total: U32)
    requires SndOk(snd)
    ensures SndOk(LatchMessage(snd, total))
  {
    var r := LatchMessage(snd, total);
    forall s | r.UNA <= s < r.UNA + UDP_SEGMAX
      ensures SendSlotOk(r, s)
    {
      assert SendSlotOk(snd, s);
    }
  }

  lemma {:induction false} ReadyBound(c: Conn, stream: seq<Byte>)
    ensures Ready(c, stream) <= Ceil(|stream|)
    decreases |stream|
  {
    if stream != [] {
      CeilStep(|stream|);
      var d := FirstPiece(stream);
      if !Waits(c.snd, |d|) {
        ReadyBound(Emit(c, d), stream[|d|..]);
      }
    }
  }

  // Room for the bytes here and at the peer.
  predicate HasRoom(snd: Snd, tx: seq<Byte>) {
    snd.pending < 3 && snd.pending + Needed(snd, tx) <= 3 && snd.NXT as int - 1 + Needed(snd, tx) <= snd.LCS as int + 3
  }

  lemma WindowNow(m: Net)
    requires NetInv(m)
    ensures var snd := m.a.snd; SndOk(snd) && snd.LCS < snd.NXT && snd.NXT as int - 1 - snd.LCS <= 3 == snd.SEGMAX
  {
  }

  /** In every reachable state, what is submitted joins the stream exactly when there is room for it. */
  lemma SubmitExtends(m: Net, tx: seq<Byte>, total: U32)
    requires Reachable(m) && EnabledA(m, Submit(tx, total))
    ensures StepA(m, Submit(tx, total)).ha.sub == m.ha.sub + if HasRoom(m.a.snd, tx) then tx else []
  {
    hide Reachable, NetInv, Send, SendAsserts, SndOk, Needed, Queued;
    ReachableInv(m);
    WindowNow(m);
    var r := ArdpSpec.Send(m.a, tx, total, UDP_SEGMAX);
    RefusedExactly(m.a, tx, total);
    var h := if r.2 == Ok then m.ha.(sub := m.ha.sub + tx, msg := m.ha.msg + tx) else m.ha;
    RecordedKeepsBytes(h, r.1);
  }

  /**
   In every reachable state, less than a segment is held back, and nothing of a message that was handed over completely:
   such a message has gone out.
   */
  lemma NothingHeldBack(m: Net)
    requires Reachable(m)
    ensures |Queued(m.a.snd)| < ARDP_MAX_DLEN
    ensures !m.a.snd.newMsg && |m.ha.msg| == m.a.snd.msgLenTotal ==> Complete(m.a.snd) && Queued(m.a.snd) == []
  {
    hide Reachable, Inv, Queued;
    ReachableInv(m);
  }

  /* ---- Arrival ---- */

  lemma AcknowledgedMoves(m: Net)
    requires NetInv(m) && m.ba != []
    ensures var g, snd := m.ba[0].hdr, OnAck(m.a.snd, m.ba[0].hdr);
            snd.UNA as int == g.ACK + ONE >= m.a.snd.UNA && snd.LCS == g.LCS && snd.NXT == m.a.snd.NXT
  {
    hide Inv, OnAck, SndOk;
    OldestSegment(m);
    OnAckKeepsRing(m.a.snd, m.ba[0].hdr);
  }

  // What the arriving segment brings that was not there.
  predicate IsNext(m: Net)
    requires m.ba != []
  { m.ba[0].hdr.DLEN != 0 && m.ba[0].hdr.SEQ as int == m.a.rcv.CUR + ONE }

  /**
   The arrival of the oldest segment in every reachable state. UNA moves just past the acknowledgement and LCS to the
   one told; data next in sequence is stored and becomes readable, anything else is not; a keepalive is answered by a
   bare acknowledgement of everything received, and nothing else is answered.
   */
  lemma ArrivalMoves(m: Net)
    requires Reachable(m) && m.ba != [] && NoGap(m)
    ensures var g, m' := m.ba[0].hdr, StepA(m, Arrival);
            && m'.a.snd.UNA as int == g.ACK + ONE >= m.a.snd.UNA && m'.a.snd.LCS == g.LCS && m'.a.snd.NXT == m.a.snd.NXT
            && m'.a.rcv.CUR == (if IsNext(m) then g.SEQ else m.a.rcv.CUR)
            && m'.ba == m.ba[1..] && m'.b == m.b && m'.hb == m.hb
            && m'.ab == m.ab + if g.flags == 0x52 then [Bared(m.a, g.ACK)] else []
    ensures Unread(StepA(m, Arrival).a.rcv) == Unread(m.a.rcv) + if IsNext(m) then m.ba[0].data else []
  {
    hide Reachable, NetInv, Arrived, Unread, NoGap, IsNext, Bared;
    ReachableInv(m);
    ArrivalCounters(m);
    ArrivalReadable(m);
  }

  // A bare acknowledgement by c, once everything up to `ack` has been acknowledged to it.
  function Bared(c: Conn, ack: U32): Segment {
    Segment(Header(0x42, c.local, c.foreign, 0, c.snd.NXT, c.rcv.CUR, 0, c.rcv.LCS, Add32(ack, 1), 0, 0), [])
  }

  lemma ArrivalCounters(m: Net)
    requires NetInv(m) && m.ba != [] && NoGap(m)
    ensures var g, m' := m.ba[0].hdr, Arrived(m);
            && m'.a.snd.UNA as int == g.ACK + ONE >= m.a.snd.UNA && m'.a.snd.LCS == g.LCS && m'.a.snd.NXT == m.a.snd.NXT
            && m'.a.rcv.CUR == (if IsNext(m) then g.SEQ else m.a.rcv.CUR)
            && m'.ba == m.ba[1..] && m'.b == m.b && m'.hb == m.hb
            && m'.ab == m.ab + if g.flags == 0x52 then [Bared(m.a, g.ACK)] else []
  {
    hide Inv, MessageOk, OnAck, Validate, EncodeSegment, SeqLt, SeqLet, Machine, NoGap, StoreAsserts;
    AcknowledgedMoves(m);
    SegmentsAccepted(m, 0);
    OldestMeans(m);
    MachineMoves(m.a, m.ba[0]);
  }

  // What is known of the oldest segment on its way to a.
  lemma OldestMeans(m: Net)
    requires NetInv(m) && m.ba != [] && NoGap(m)
    ensures var g := m.ba[0].hdr;
            && (g.flags == 0x42 || g.flags == 0x52) && (g.DLEN != 0 ==> g.flags == 0x42 && g.SEQ <= m.a.rcv.CUR + ONE)
            && !SeqLt(Add32(m.a.rcv.CUR, 1), g.ACKNXT)
            && (g.DLEN != 0 ==> (SeqLet(Add32(m.a.rcv.CUR, 1), g.SEQ) <==> m.a.rcv.CUR + ONE <= g.SEQ))
  {
    assert DataOk(Back(m), Back(m).data[0]);
    hide MessageOk, ChannelsOk, SndOk, RcvOk, SndHist, RcvHist, SeqLt, SeqLet;
    ArrivalOrder(m, m.ba[0]);
  }

  lemma MachineMoves(c: Conn, g: Segment)
    requires g.hdr.flags == 0x42 || (g.hdr.flags == 0x52 && g.hdr.DLEN == 0)
    requires !SeqLt(Add32(c.rcv.CUR, 1), g.hdr.ACKNXT)
    requires g.hdr.DLEN != 0 ==>
               && g.hdr.SEQ <= c.rcv.CUR + ONE
               && (SeqLet(Add32(c.rcv.CUR, 1), g.hdr.SEQ) <==> c.rcv.CUR + ONE <= g.hdr.SEQ)
    ensures var r, snd := Machine(c, g), OnAck(c.snd, g.hdr);
            && r.0.snd == snd
            && r.0.rcv.CUR ==
               (if g.hdr.DLEN != 0 && g.hdr.SEQ as int == c.rcv.CUR + ONE then g.hdr.SEQ else c.rcv.CUR)
            && r.1 == if g.hdr.flags != 0x52 then []
                      else [Segment(Header(0x42, c.local, c.foreign, 0, snd.NXT, c.rcv.CUR, 0, c.rcv.LCS, snd.UNA, 0,
                                           0), [])]
  {
    FlagsMean();
    hide OnAck, SeqLt, SeqLet, Has;
  }

  lemma FlagsMean()
    ensures Has(0x52, FLAG_NUL) && !Has(0x42, FLAG_NUL)
  {
  }

  lemma ArrivalReadable(m: Net)
    requires NetInv(m) && m.ba != [] && NoGap(m)
    ensures Unread(Arrived(m).a.rcv) == Unread(m.a.rcv) + if IsNext(m) then m.ba[0].data else []
  {
    hide NetInv, Arrived, Unread, NoGap;
    var m', h := Arrived(m), m.hb;
    ArrivalKeeps(m);
    ArrivalCounters(m);
    HeldNow(m);
    HeldNow(m');
    var k := m.a.rcv.CUR + ONE - h.base;
    if IsNext(m) {
      NextIsSent(m);
      assert h.segs[..k + 1] == h.segs[..k] + [h.segs[k]];
      FlatAppend(h.segs[..k], h.segs[k]);
      Cancel(h.rd, Unread(m.a.rcv), h.segs[k].data, Unread(m'.a.rcv));
    } else {
      assert Flat(h.segs[..k]) + [] == Flat(h.segs[..k]);
      Cancel(h.rd, Unread(m.a.rcv), [], Unread(m'.a.rcv));
    }
  }

  // What a has read and holds of what b sent.
  lemma HeldNow(m: Net)
    requires NetInv(m)
    ensures 0 <= m.a.rcv.CUR + ONE - m.hb.base <= |m.hb.segs|
    ensures m.hb.rd + Unread(m.a.rcv) == Flat(m.hb.segs[..m.a.rcv.CUR + ONE - m.hb.base])
  {
    hide MessageOk, ChannelsOk, SndOk, Window, SndHist, Unread;
    HeldBytes(m.a.rcv, m.hb);
  }

  lemma NextIsSent(m: Net)
    requires NetInv(m) && m.ba != [] && IsNext(m)
    ensures var k := m.a.rcv.CUR + ONE - m.hb.base; 0 <= k < |m.hb.segs| && m.hb.segs[k].data == m.ba[0].data
  {
    hide MessageOk, SndOk, RcvOk, SndHist, Window;
    assert DataOk(Back(m), Back(m).data[0]);
  }

  lemma Cancel(a: seq<Byte>, b: seq<Byte>, c: seq<Byte>, d: seq<Byte>)
    requires a + d == a + b + c
    ensures d == b + c
  {
    assert d == (a + d)[|a|..] && b + c == (a + b + c)[|a|..];
  }

  /* ---- What new segments tell ---- */

  // The segment tells what c has received, what its reader has consumed, and its oldest unacknowledged number.
  predicate Tells(g: Segment, c: Conn) {
    g.hdr.ACK == c.rcv.CUR && g.hdr.LCS == c.rcv.LCS && g.hdr.ACKNXT == c.snd.UNA
  }

  lemma {:induction false} SendBytesTells(c: Conn, stream: seq<Byte>, accept: nat)
    ensures var r := SendBytes(c, stream, accept);
            r.0.rcv == c.rcv && r.0.snd.UNA == c.snd.UNA && forall g :: g in r.1 ==> Tells(g, c)
    decreases |stream|
  {
    if stream != [] {
      var d := FirstPiece(stream);
      if !Waits(c.snd, |d|) && accept > 0 {
        SendBytesTells(Emit(c, d), stream[|d|..], accept - 1);
      }
    }
  }

  lemma SendTells(c: Conn, tx: seq<Byte>, total: U32)
    ensures var r := ArdpSpec.Send(c, tx, total, UDP_SEGMAX); forall g :: g in r.1 ==> Tells(g, r.0)
  {
    hide SendBytes;
    var c1 := c.(snd := LatchMessage(c.snd, total));
    SendBytesTells(c1, SendSlotOf(c.snd, c.snd.NXT).data + tx, UDP_SEGMAX);
  }

  lemma ResendTells(m: Net, late: bool, accept: nat)
    requires Inv(Forth(m)) && m.a.snd.pending != 0
    ensures var r := Resend(m.a, late, accept); forall g :: g in r.1 ==> Tells(g, r.0)
  {
    hide Inv, Resend, ResendCount;
    ResendFrame(m.a, late, accept);
    var r := Resend(m.a, late, accept);
    forall g | g in r.1
      ensures Tells(g, r.0)
    {
      var k :| 0 <= k < |r.1| && r.1[k] == g;
      ResentOk(m, late, accept, k);
    }
  }

  /**
   In every reachable state, every segment that an event puts on the channel, be it new data, a retransmission, a bare
   acknowledgement, a keepalive or the answer to one, tells the counters as they are after that event.
   */
  lemma SegmentsTell(m: Net, e: Event)
    requires Reachable(m) && EnabledA(m, e) && !e.Lose? && !e.Duplicate?
    ensures var m' := StepA(m, e); m.ab <= m'.ab && forall g :: g in m'.ab[|m.ab|..] ==> Tells(g, m'.a)
  {
    ReachableInv(m);
    hide Reachable, Inv, MessageOk, Send, Resend, Read, Tells, SendAsserts, ProperSubmit, Arrived, NoGap;
    match e
    case StartMessage =>
    case Submit(tx, total) => SendTells(m.a, tx, total);
    case Timer(late, accept) => if m.a.snd.pending != 0 { ResendTells(m, late, accept); }
    case Bare(nul) => BareTells(m.a, nul);
    case Arrival => if m.ba != [] { ArrivalTells(m); }
    case Consume(_) =>
  }

  lemma BareTells(c: Conn, nul: bool)
    ensures Tells(HeaderOnly(c, nul), c)
  {
  }

  lemma ArrivalTells(m: Net)
    requires NetInv(m) && m.ba != [] && NoGap(m)
    ensures m.ab <= Arrived(m).ab && forall g :: g in Arrived(m).ab[|m.ab|..] ==> Tells(g, Arrived(m).a)
  {
    hide NetInv, Arrived, NoGap;
    ArrivalCounters(m);
    ArrivalLCS(m);
    OldestMeans(m);
  }

  lemma ArrivalLCS(m: Net)
    requires m.ba != []
    ensures Arrived(m).a.rcv.LCS == m.a.rcv.LCS
  {
    hide OnAck, Validate, EncodeSegment;
  }
}
