/**
 Two ARDP endpoints of this code joined by two channels that lose and duplicate segments but keep their order.
 A run is any sequence of events at either endpoint: starting a message, ARDP_Send, a retransmission timeout, a
 bare ACK or keepalive, the arrival of the oldest segment, a read, a loss, a duplication. The theorems hold in
 every state of every run.
 */
module ArdpNetwork {
  import opened Seq32
  import opened ArdpWire
  import opened ArdpSpec
  import opened ArdpRing
  import opened ArdpDirection
  import opened ArdpMessage

  // `fault` records that an assertion of the source failed, or that a peer rejected or expired a segment.
  datatype Net = Net(a: Conn, b: Conn, ab: seq<Segment>, ba: seq<Segment>, ha: Hist, hb: Hist, fault: bool)

  datatype Event =
    | StartMessage
    | Submit(tx: seq<Byte>, total: U32)
    | Timer(late: bool, accept: nat)
    | Bare(nul: bool)
    | Arrival
    | Consume(n: nat)
    | Lose(i: nat)
    | Duplicate(i: nat)

  datatype Side = A | B

  // The link seen from the other end.
  function Swap(n: Net): Net { Net(n.b, n.a, n.ba, n.ab, n.hb, n.ha, n.fault) }

  function Forth(n: Net): Direction { Direction(n.a.snd, n.b.rcv, n.ab, n.ba, n.ha) }

  function Back(n: Net): Direction { Direction(n.b.snd, n.a.rcv, n.ba, n.ab, n.hb) }

  /* ---- Steps of endpoint a ---- */

  // The assertions that ARDP_Send makes.
  ghost predicate SendAsserts(c: Conn, tx: seq<Byte>, total: U32) {
    var c1 := c.(snd := LatchMessage(c.snd, total));
    var stream := SendSlotOf(c.snd, c.snd.NXT).data + tx;
    && c.snd.pending <= UDP_SEGMAX
    && (c.snd.pending < UDP_SEGMAX ==>
          && !SendSlotOf(c.snd, c.snd.NXT).inFlight
          && (|stream| <= LocalRoom(c1.snd) && |stream| <= RemoteRoom(c1.snd) ==>
                c1.snd.msgLenTotal > 0 && FragmentCount(c1.snd.msgLenTotal) > 0 && FillsFreeSlots(c1, stream)))
  }

  // The assertion that AddRcvBuffer makes.
  predicate StoreAsserts(rcv: Rcv, g: Segment) {
    !Has(g.hdr.flags, FLAG_NUL) && g.hdr.DLEN != 0 && SeqLet(Add32(rcv.CUR, 1), g.hdr.SEQ)
    ==> RecvSlotOf(rcv, g.hdr.SEQ).FCNT == 0
  }

  ghost function Submitted(n: Net, tx: seq<Byte>, total: U32): Net {
    var r := ArdpSpec.Send(n.a, tx, total, UDP_SEGMAX);
    var h := if r.2 == Ok then n.ha.(sub := n.ha.sub + tx, msg := n.ha.msg + tx) else n.ha;
    n.(a := r.0, ab := n.ab + r.1, ha := RecordedAll(h, r.1), fault := n.fault || !SendAsserts(n.a, tx, total))
  }

  // The oldest segment of ba arrives as bytes at a.
  function Arrived(n: Net): Net
    requires n.ba != []
  {
    match Validate(EncodeSegment(n.ba[0]), n.a.snd.NXT)
    case Accepted(g) =>
      var r := Machine(n.a, g);
      n.(a := r.0, ab := n.ab + r.1, ba := n.ba[1..], fault := n.fault || r.2 != Ok || !StoreAsserts(n.a.rcv, g))
    case _ => n.(ba := n.ba[1..], fault := true)
  }

  ghost function StepA(n: Net, e: Event): Net {
    match e
    case StartMessage =>
      n.(a := StartMsg(n.a), ha := n.ha.(msg := []), fault := n.fault || (n.a.snd.msgLenSent != 0 && n.a.snd.newMsg))
    case Submit(tx, total) => Submitted(n, tx, total)
    case Timer(late, accept) =>
      if n.a.snd.pending == 0 then n
      else var r := Resend(n.a, late, accept); n.(a := r.0, ab := n.ab + r.1)
    case Bare(nul) => n.(ab := n.ab + [HeaderOnly(n.a, nul)])
    case Arrival => if n.ba == [] then n else Arrived(n)
    case Consume(k) =>
      var r := Read(n.a.rcv, k); n.(a := n.a.(rcv := r.0), hb := n.hb.(rd := n.hb.rd + r.1))
    case Lose(i) => if i < |n.ab| then n.(ab := n.ab[..i] + n.ab[i + 1..]) else n
    case Duplicate(i) => if i < |n.ab| then n.(ab := n.ab[..i + 1] + n.ab[i..]) else n
  }

  ghost function Step(n: Net, side: Side, e: Event): Net {
    match side case A => StepA(n, e) case B => Swap(StepA(Swap(n), e))
  }

  /* ---- Hypotheses on a run ---- */

  // The arriving data segment is the next in sequence or a duplicate.
  predicate NoGap(n: Net) { n.ba == [] || n.ba[0].hdr.DLEN == 0 || n.ba[0].hdr.SEQ <= n.a.rcv.CUR + ONE }

  // What a caller hands over is part of a message that it started, and not more than its header announced.
  ghost predicate ProperSubmit(snd: Snd, tx: seq<Byte>, total: U32) {
    && tx != []
    && (if snd.newMsg then 0 < total <= MAX_MESSAGE && |tx| <= total
        else snd.msgLenSent as int + |Queued(snd)| + |tx| <= snd.msgLenTotal)
  }

  ghost predicate EnabledA(n: Net, e: Event) {
    match e
    case StartMessage => n.a.snd.newMsg || Complete(n.a.snd)
    case Submit(tx, total) => ProperSubmit(n.a.snd, tx, total) && n.a.snd.NXT + UDP_SEGMAX + UDP_SEGMAX <= TWO32
    case Arrival => NoGap(n)
    case _ => true
  }

  ghost predicate Enabled(n: Net, side: Side, e: Event) {
    match side case A => EnabledA(n, e) case B => EnabledA(Swap(n), e)
  }

  // Both ends OPEN, nothing sent, everything that came with the handshake consumed.
  ghost predicate FreshEnd(c: Conn, peer: Conn, h: Hist) {
    && 1 <= c.snd.NXT && c.snd.NXT + UDP_SEGMAX <= TWO32
    && c.snd == Snd(c.snd.NXT, c.snd.NXT, c.snd.NXT as int - 1, UDP_SEGMAX,
                    [EMPTY_SEND, EMPTY_SEND, EMPTY_SEND], 0, 0, 0, c.snd.NXT, false)
    && peer.rcv == Rcv(c.snd.NXT as int - 1, c.snd.NXT as int - 1, [EMPTY_RECV, EMPTY_RECV, EMPTY_RECV], Idle)
    && h == Hist(c.snd.NXT, [], [], [], [])
  }

  ghost predicate Init(n: Net) {
    FreshEnd(n.a, n.b, n.ha) && FreshEnd(n.b, n.a, n.hb) && n.ab == [] && n.ba == [] && !n.fault
  }

  // The state after a run, and whether every event of it was allowed.
  ghost function After(n: Net, run: seq<(Side, Event)>): Net
    decreases |run|
  {
    if run == [] then n else var k := |run| - 1; Step(After(n, run[..k]), run[k].0, run[k].1)
  }

  ghost predicate Proper(n: Net, run: seq<(Side, Event)>)
    decreases |run|
  {
    run == [] || (var k := |run| - 1; Proper(n, run[..k]) && Enabled(After(n, run[..k]), run[k].0, run[k].1))
  }

  /* ---- The invariant of the link ---- */

  ghost predicate NetInv(n: Net) {
    Inv(Forth(n)) && Inv(Back(n)) && MessageOk(n.a.snd, n.ha) && MessageOk(n.b.snd, n.hb) && !n.fault
  }

  lemma SwapInv(n: Net)
    ensures NetInv(Swap(n)) <==> NetInv(n)
  {
    hide Inv, MessageOk;
  }

  lemma FreshMessage(c: Conn, peer: Conn, h: Hist)
    requires FreshEnd(c, peer, h)
    ensures MessageOk(c.snd, h)
  {
  }

  lemma FreshDirection(c: Conn, peer: Conn, h: Hist)
    requires FreshEnd(c, peer, h)
    ensures Inv(Direction(c.snd, peer.rcv, [], [], h))
  {
    FreshRings(c, peer, h);
    hide SndOk, RcvOk;
    assert Flat([]) == [];
  }

  lemma FreshRings(c: Conn, peer: Conn, h: Hist)
    requires FreshEnd(c, peer, h)
    ensures SndOk(c.snd) && RcvOk(peer.rcv)
  {
  }

  lemma InitInv(n: Net)
    requires Init(n)
    ensures NetInv(n)
  {
    hide Inv, MessageOk;
    FreshDirection(n.a, n.b, n.ha);
    FreshDirection(n.b, n.a, n.hb);
    FreshMessage(n.a, n.b, n.ha);
    FreshMessage(n.b, n.a, n.hb);
  }

  /* ---- Segments put on a channel ---- */

  lemma {:induction false} AcksAppended(d: Direction, out: seq<Segment>)
    requires Inv(d) && forall g :: g in out ==> g.hdr.ACK == d.rcv.CUR && g.hdr.LCS == d.rcv.LCS
    ensures Inv(d.(acks := d.acks + out))
    decreases |out|
  {
    hide Inv;
    if out == [] {
      assert d.acks + out == d.acks;
    } else {
      AckAppended(d, out[0]);
      AcksAppended(d.(acks := d.acks + [out[0]]), out[1..]);
      assert d.acks + out == d.acks + [out[0]] + out[1..];
    }
  }

  lemma {:induction false} DatasAppended(d: Direction, out: seq<Segment>)
    requires Inv(d) && forall g :: g in out ==> DataOk(d, g) && g.hdr.ACKNXT == d.snd.UNA
    ensures Inv(d.(data := d.data + out))
    decreases |out|
  {
    hide Inv;
    if out == [] {
      assert d.data + out == d.data;
    } else {
      DataAppended(d, out[0]);
      DatasAppended(d.(data := d.data + [out[0]]), out[1..]);
      assert d.data + out == d.data + [out[0]] + out[1..];
    }
  }

  lemma {:induction false} SendBytesHeaders(c: Conn, stream: seq<Byte>, accept: nat)
    ensures var r := SendBytes(c, stream, accept);
            && r.0.rcv == c.rcv
            && forall g :: g in r.1 ==> g.hdr.ACK == c.rcv.CUR && g.hdr.LCS == c.rcv.LCS
    decreases |stream|
  {
    if stream != [] {
      var d := FirstPiece(stream);
      if !Waits(c.snd, |d|) && accept > 0 {
        SendBytesHeaders(Emit(c, d), stream[|d|..], accept - 1);
      }
    }
  }

  /* ---- Each event keeps the invariant ---- */

  // Only message bookkeeping changes.
  lemma RelabelKeeps(d: Direction, snd: Snd, h: Hist)
    requires Inv(d) && h == d.h.(sub := h.sub, msg := h.msg)
    requires snd == d.snd.(newMsg := snd.newMsg, msgLenSent := snd.msgLenSent,
                            msgLenTotal := snd.msgLenTotal, msgSOM := snd.msgSOM)
    ensures Inv(d.(snd := snd, h := h)) && Queued(snd) == Queued(d.snd)
  {
    forall s | snd.UNA <= s < snd.UNA + UDP_SEGMAX
      ensures SendSlotOk(snd, s)
    {
      assert SendSlotOk(d.snd, s);
    }
    MatchesSame(d.snd, snd, d.h);
    SenderKeepsHist(snd, d.h, h);
    SenderMoved(d, snd, h);
  }

  lemma StartMessageKeeps(n: Net)
    requires NetInv(n) && EnabledA(n, StartMessage)
    ensures NetInv(StepA(n, StartMessage))
  {
    hide Inv;
    var n' := StepA(n, StartMessage);
    RelabelKeeps(Forth(n), n'.a.snd, n'.ha);
    assert n.a.snd.newMsg || (n.ha.msg == Flat(MessageSegs(n.a.snd, n.ha)) + Queued(n.a.snd) && |Queued(n.a.snd)| == 0);
    assert Flat(n.ha.segs) + [] == Flat(n.ha.segs);
    assert Back(n') == Back(n);
  }

  lemma LatchCuts(snd: Snd, h: Hist, tx: seq<Byte>, total: U32)
    requires MessageOk(snd, h) && ProperSubmit(snd, tx, total)
    ensures MessageOk(LatchMessage(snd, total), h)
    ensures Cut(LatchMessage(snd, total), h.(sub := h.sub + tx, msg := h.msg + tx), Queued(snd) + tx)
    ensures 0 < LatchMessage(snd, total).msgLenTotal <= MAX_MESSAGE
  {
    var snd' := LatchMessage(snd, total);
    var segs := MessageSegs(snd', h);
    assert MessageSegs(snd', h.(sub := h.sub + tx, msg := h.msg + tx)) == segs;
    if snd.newMsg {
      assert segs == [];
    } else {
      Reassociate(Flat(segs), Queued(snd), tx);
      Reassociate(Flat(h.segs), Queued(snd), tx);
    }
    forall i | 0 <= i < |segs|
      ensures FragmentOk(snd', segs[i], i == |segs| - 1)
    {
      assert FragmentOk(snd, segs[i], i == |segs| - 1);
    }
  }

  lemma SubmitFits(snd: Snd, rcv: Rcv, h: Hist, n: nat)
    requires SndOk(snd) && Window(snd, rcv, h) && snd.pending < UDP_SEGMAX && snd.NXT + UDP_SEGMAX + UDP_SEGMAX <= TWO32
    requires n <= LocalRoom(snd) && n <= RemoteRoom(snd)
    ensures Fits(snd, n) && Ceil(n) <= UDP_SEGMAX
  {
    CeilFits(n, UDP_SEGMAX - snd.pending);
    RemoteRoomInWindow(snd, n);
  }

  // The three outcomes of ARDP_Send when the socket takes everything.
  lemma SubmitOutcome(c: Conn, tx: seq<Byte>, total: U32)
    requires SndOk(c.snd)
    ensures var r := ArdpSpec.Send(c, tx, total, UDP_SEGMAX);
            var c1 := c.(snd := LatchMessage(c.snd, total));
            if c.snd.pending == UDP_SEGMAX then r == (c, [], Backpressure)
            else if |Queued(c.snd) + tx| > LocalRoom(c1.snd) || |Queued(c.snd) + tx| > RemoteRoom(c1.snd)
            then r == (c1, [], Backpressure)
            else r == SendBytes(c1, Queued(c.snd) + tx, UDP_SEGMAX)
    ensures c.snd.pending < UDP_SEGMAX ==> !SendSlotOf(c.snd, c.snd.NXT).inFlight
  {
    if c.snd.pending < UDP_SEGMAX {
      assert SendSlotOk(c.snd, c.snd.NXT);
    }
  }

  // Backpressure: the message may be latched, nothing else happens.
  lemma SubmitRefused(n: Net, tx: seq<Byte>, total: U32, snd: Snd)
    requires NetInv(n) && ProperSubmit(n.a.snd, tx, total)
    requires ArdpSpec.Send(n.a, tx, total, UDP_SEGMAX) == (n.a.(snd := snd), [], Backpressure)
    requires SendAsserts(n.a, tx, total)
    requires snd == n.a.snd || snd == LatchMessage(n.a.snd, total)
    ensures NetInv(StepA(n, Submit(tx, total)))
  {
    hide Inv, MessageOk, SendAsserts, Send, Cut;
    LatchCuts(n.a.snd, n.ha, tx, total);
    RelabelKeeps(Forth(n), LatchMessage(n.a.snd, total), n.ha);
    var n' := StepA(n, Submit(tx, total));
    assert n'.ab == n.ab;
    assert Back(n') == Back(n);
  }

  lemma SubmitTaken(n: Net, tx: seq<Byte>, total: U32, c1: Conn, stream: seq<Byte>)
    requires NetInv(n) && EnabledA(n, Submit(tx, total))
    requires c1 == n.a.(snd := LatchMessage(n.a.snd, total)) && stream == Queued(n.a.snd) + tx
    requires n.a.snd.pending < UDP_SEGMAX && |stream| <= LocalRoom(c1.snd) && |stream| <= RemoteRoom(c1.snd)
    ensures var h := n.ha.(sub := n.ha.sub + tx, msg := n.ha.msg + tx);
            SentAll(Forth(n).(snd := c1.snd, h := h), c1, stream, UDP_SEGMAX)
    ensures FragmentCount(c1.snd.msgLenTotal) > 0 && c1.snd.msgLenTotal > 0
  {
    hide MessageOk, Cut, SentAll;
    var h := n.ha.(sub := n.ha.sub + tx, msg := n.ha.msg + tx);
    LatchCuts(n.a.snd, n.ha, tx, total);
    RelabelKeeps(Forth(n), c1.snd, h);
    SubmitFits(c1.snd, n.b.rcv, h, |stream|);
    FragmentCountIsCeil(c1.snd.msgLenTotal);
    SendLoopKeeps(Forth(n).(snd := c1.snd, h := h), c1, stream, UDP_SEGMAX);
  }

  lemma SubmitKeeps(n: Net, tx: seq<Byte>, total: U32)
    requires NetInv(n) && EnabledA(n, Submit(tx, total))
    ensures NetInv(StepA(n, Submit(tx, total)))
  {
    hide MessageOk, Cut, ChannelsOk, Window, SndHist, RcvHist, SendBytes, RcvOk;
    var c1 := n.a.(snd := LatchMessage(n.a.snd, total));
    var stream := Queued(n.a.snd) + tx;
    SubmitOutcome(n.a, tx, total);
    if n.a.snd.pending == UDP_SEGMAX {
      SubmitRefused(n, tx, total, n.a.snd);
    } else if |stream| > LocalRoom(c1.snd) || |stream| > RemoteRoom(c1.snd) {
      SubmitRefused(n, tx, total, c1.snd);
    } else {
      SubmitTaken(n, tx, total, c1, stream);
      SendBytesHeaders(c1, stream, UDP_SEGMAX);
      AcksAppended(Back(n), SendBytes(c1, stream, UDP_SEGMAX).1);
    }
  }

  // Each resent segment repeats the history and carries current acknowledgements.
  lemma ResentOk(n: Net, late: bool, accept: nat, k: nat)
    requires Inv(Forth(n)) && k < ResendCount(n.a, late, accept)
    ensures var g := Resend(n.a, late, accept).1[k];
            && DataOk(Forth(n), g) && g.hdr.ACKNXT == n.a.snd.UNA
            && g.hdr.ACK == n.a.rcv.CUR && g.hdr.LCS == n.a.rcv.LCS
  {
    hide ChannelsOk, RcvOk, Resend, ResendCount, ResentSlot;
    var c := n.a;
    ResendCountBound(c, late, accept);
    ResentAt(c, late, accept, k);
    var s := c.snd.UNA as int + k;
    assert SendSlotOk(c.snd, s) && SlotMatches(c.snd, n.ha, s) && SentOk(n.ha, s - n.ha.base);
  }

  lemma ResendKeepsDirection(n: Net, late: bool, accept: nat)
    requires Inv(Forth(n)) && n.a.snd.pending != 0
    ensures Inv(Forth(n).(snd := Resend(n.a, late, accept).0.snd))
    ensures Queued(Resend(n.a, late, accept).0.snd) == Queued(n.a.snd)
  {
    hide ChannelsOk, RcvOk, RcvHist, Window, Resend;
    var snd := Resend(n.a, late, accept).0.snd;
    ResendKeepsRing(n.a, late, accept);
    MatchesSame(n.a.snd, snd, n.ha);
    assert snd.LCS == n.a.snd.LCS && snd.SEGMAX == n.a.snd.SEGMAX by { ResendFrame(n.a, late, accept); }
    SenderMoved(Forth(n), snd, n.ha);
  }

  lemma ResendFrame(c: Conn, late: bool, accept: nat)
    ensures var r := Resend(c, late, accept);
            && r.0 == c.(snd := c.snd.(buf := r.0.snd.buf)) && |r.1| == ResendCount(c, late, accept)
  {
  }

  lemma TimerKeeps(n: Net, late: bool, accept: nat)
    requires NetInv(n)
    ensures NetInv(StepA(n, Timer(late, accept)))
  {
    hide Inv, Resend, ResendCount;
    if n.a.snd.pending != 0 {
      var r := Resend(n.a, late, accept);
      ResendFrame(n.a, late, accept);
      ResendKeepsDirection(n, late, accept);
      forall g | g in r.1
        ensures DataOk(Forth(n), g) && g.hdr.ACKNXT == n.a.snd.UNA && g.hdr.ACK == n.a.rcv.CUR
        ensures g.hdr.LCS == n.a.rcv.LCS
      {
        var k :| 0 <= k < |r.1| && r.1[k] == g;
        ResentOk(n, late, accept, k);
      }
      DatasAppended(Forth(n).(snd := r.0.snd), r.1);
      AcksAppended(Back(n), r.1);
      hide MessageOk, DataOk;
      ResendKeepsQueued(n, late, accept);
      MessageMoves(n.a.snd, r.0.snd, n.ha);
    }
  }

  lemma ResendKeepsQueued(n: Net, late: bool, accept: nat)
    requires Inv(Forth(n)) && n.a.snd.pending != 0
    ensures Queued(Resend(n.a, late, accept).0.snd) == Queued(n.a.snd)
  {
    ResendKeepsRing(n.a, late, accept);
  }

  lemma BareKeeps(n: Net, nul: bool)
    requires NetInv(n)
    ensures NetInv(n.(ab := n.ab + [HeaderOnly(n.a, nul)]))
  {
    var g := HeaderOnly(n.a, nul);
    assert DataOk(Forth(n), g);
    hide Inv, MessageOk;
    DataAppended(Forth(n), g);
    AckAppended(Back(n), g);
  }

  /** Every segment on its way passes all the checks of the endpoint it will reach, and parses to what was sent. */
  lemma SegmentsAccepted(n: Net, i: nat)
    requires Inv(Forth(n)) && Inv(Back(n)) && i < |n.ba|
    ensures Validate(EncodeSegment(n.ba[i]), n.a.snd.NXT) == Accepted(n.ba[i])
  {
    hide Validate, EncodeSegment, SndOk, SndHist, RcvHist, RcvOk;
    var g := n.ba[i];
    assert DataOk(Back(n), g) && AckOk(Forth(n), g);
    PlausibleNumbers(n, g);
    ValidateEncoded(g, n.a.snd.NXT);
  }

  lemma PlausibleNumbers(n: Net, g: Segment)
    requires EndsOk(Forth(n)) && EndsOk(Back(n)) && DataOk(Back(n), g) && AckOk(Forth(n), g)
    ensures Plausible(g.hdr, n.a.snd.NXT)
  {
    hide SeqLt, SeqLet;
    var h := g.hdr;
    NearOrder(n.a.snd.NXT, h.ACK);
    NearOrder(h.ACK, h.LCS);
    NearOrder(h.SEQ, h.ACKNXT);
    if h.DLEN != 0 {
      assert SentOk(n.hb, h.SEQ - n.hb.base);
      assert Sub32(h.SEQ, h.ACKNXT) == h.SEQ as int - h.ACKNXT && Sub32(h.SEQ, h.SOM) == h.SEQ as int - h.SOM;
    }
  }

  // Taking the oldest segment off ba, with its acknowledgement processed.
  function Acknowledged(n: Net): Net
    requires n.ba != []
  { n.(a := n.a.(snd := OnAck(n.a.snd, n.ba[0].hdr)), ba := n.ba[1..]) }

  lemma AcknowledgedInv(n: Net)
    requires NetInv(n) && n.ba != []
    ensures NetInv(Acknowledged(n))
    ensures forall i :: 0 <= i < |n.ba[1..]| ==> DataBefore(n.ba[0], n.ba[1..][i])
    ensures DataOk(Back(Acknowledged(n)), n.ba[0])
  {
    hide MessageOk, Inv, SndOk, OnAck, DataOk;
    AckKeeps(Forth(n));
    PopData(Back(n));
    OldestSegment(n);
    OnAckKeepsRing(n.a.snd, n.ba[0].hdr);
    MessageIgnoresAck(n.a.snd, n.ba[0].hdr, n.ha);
  }

  lemma OldestSegment(n: Net)
    requires Inv(Forth(n)) && Inv(Back(n)) && n.ba != []
    ensures SndOk(n.a.snd) && n.a.snd.UNA as int - 1 <= n.ba[0].hdr.ACK < n.a.snd.NXT
    ensures forall i :: 0 <= i < |n.ba[1..]| ==> DataBefore(n.ba[0], n.ba[1..][i])
    ensures DataOk(Back(Acknowledged(n)), n.ba[0])
  {
    hide SndOk, RcvOk, OnAck, Flat, ReadPartOf;
    assert AckOk(Forth(n), Forth(n).acks[0]) && DataOk(Back(n), Back(n).data[0]);
    assert forall i :: 0 <= i < |n.ba[1..]| ==> n.ba[1..][i] == n.ba[i + 1];
  }

  lemma MessageIgnoresAck(snd: Snd, g: Header, h: Hist)
    requires MessageOk(snd, h) && Queued(OnAck(snd, g)) == Queued(snd)
    ensures MessageOk(OnAck(snd, g), h)
  {
    MessageMoves(snd, OnAck(snd, g), h);
  }

  // The message depends on the counters and the queued bytes only.
  lemma MessageMoves(snd: Snd, r: Snd, h: Hist)
    requires MessageOk(snd, h) && Queued(r) == Queued(snd)
    requires r.NXT == snd.NXT && r.msgSOM == snd.msgSOM && r.newMsg == snd.newMsg
    requires r.msgLenSent == snd.msgLenSent && r.msgLenTotal == snd.msgLenTotal
    ensures MessageOk(r, h)
  {
    hide Queued, Ceil, Capacity;
    assert MessageSegs(r, h) == MessageSegs(snd, h);
    assert forall g, last :: FragmentOk(snd, g, last) ==> FragmentOk(r, g, last);
  }

  // Flush is not reached, and data arrives in a free slot.
  lemma ArrivalOrder(n: Net, g: Segment)
    requires EndsOk(Back(n)) && DataOk(Back(n), g)
    ensures !SeqLt(Add32(n.a.rcv.CUR, 1), g.hdr.ACKNXT)
    ensures g.hdr.DLEN != 0 ==> (SeqLet(Add32(n.a.rcv.CUR, 1), g.hdr.SEQ) <==> n.a.rcv.CUR + ONE <= g.hdr.SEQ)
  {
    NearOrder(Add32(n.a.rcv.CUR, 1), g.hdr.ACKNXT);
    NearOrder(Add32(n.a.rcv.CUR, 1), g.hdr.SEQ);
  }

  lemma ArrivalKeeps(n: Net)
    requires NetInv(n) && n.ba != [] && NoGap(n)
    ensures NetInv(Arrived(n))
  {
    hide Inv, MessageOk, OnAck, OnData, DataOk, Validate, EncodeSegment, AckOk, DataBefore;
    var g, n1 := n.ba[0], Acknowledged(n);
    SegmentsAccepted(n, 0);
    AcknowledgedInv(n);
    ArrivalFlags(n1, g);
    if Has(g.hdr.flags, FLAG_NUL) {
      BareKeeps(n1, false);
    } else if g.hdr.DLEN != 0 {
      StoredKeeps(n1, g);
    } else {
      assert n1.ab + [] == n1.ab;
    }
  }

  lemma ArrivalFlags(n: Net, g: Segment)
    requires Inv(Back(n)) && DataOk(Back(n), g)
    ensures Has(g.hdr.flags, FLAG_NUL) ==> g.hdr.DLEN == 0
    ensures !SeqLt(Add32(n.a.rcv.CUR, 1), g.hdr.ACKNXT)
  {
    ArrivalOrder(n, g);
  }

  // Data that is next in sequence is stored, a duplicate is dropped.
  lemma StoredKeeps(n: Net, g: Segment)
    requires NetInv(n) && DataOk(Back(n), g) && g.hdr.DLEN != 0 && g.hdr.SEQ <= n.a.rcv.CUR + ONE
    requires forall i :: 0 <= i < |n.ba| ==> DataBefore(g, n.ba[i])
    ensures NetInv(n.(a := n.a.(rcv := OnData(n.a.rcv, g)), ab := n.ab + [])) && StoreAsserts(n.a.rcv, g)
  {
    ArrivalOrder(n, g);
    hide Inv, MessageOk, OnData, DataOk;
    assert n.ab + [] == n.ab;
    if g.hdr.SEQ as int == n.a.rcv.CUR + ONE {
      InSequenceKeeps(Back(n), g);
    } else {
      DuplicateIgnored(Back(n), g);
    }
  }

  lemma ConsumeKeeps(n: Net, k: nat)
    requires NetInv(n)
    ensures NetInv(StepA(n, Consume(k)))
  {
    hide Inv, MessageOk, Read;
    ReadKeeps(Back(n), k);
    MessageIgnoresReads(n.b.snd, n.hb, n.hb.rd + Read(n.a.rcv, k).1);
  }

  lemma MessageIgnoresReads(snd: Snd, h: Hist, rd: seq<Byte>)
    requires MessageOk(snd, h)
    ensures MessageOk(snd, h.(rd := rd))
  {
    assert MessageSegs(snd, h.(rd := rd)) == MessageSegs(snd, h);
  }

  lemma LossKeeps(n: Net, i: nat)
    requires NetInv(n) && i < |n.ab|
    ensures NetInv(n.(ab := n.ab[..i] + n.ab[i + 1..]))
    ensures NetInv(n.(ab := n.ab[..i + 1] + n.ab[i..]))
  {
    hide Inv, MessageOk;
    var lost, doubled := n.ab[..i] + n.ab[i + 1..], n.ab[..i + 1] + n.ab[i..];
    var from := seq(|n.ab| - 1, k => if k < i then k else k + 1);
    var from2 := seq(|n.ab| + 1, k => if k <= i then k else k - 1);
    DataInOrder(Forth(n), lost, from);
    AcksInOrder(Back(n), lost, from);
    DataInOrder(Forth(n), doubled, from2);
    AcksInOrder(Back(n), doubled, from2);
  }

  lemma StepAKeeps(n: Net, e: Event)
    requires NetInv(n) && EnabledA(n, e)
    ensures NetInv(StepA(n, e))
  {
    hide NetInv, Submitted, Arrived, Read, Resend, ProperSubmit, HeaderOnly;
    match e
    case StartMessage => StartMessageKeeps(n);
    case Submit(tx, total) => SubmitKeeps(n, tx, total);
    case Timer(late, accept) => TimerKeeps(n, late, accept);
    case Bare(nul) => BareKeeps(n, nul);
    case Arrival => if n.ba != [] { ArrivalKeeps(n); }
    case Consume(k) => ConsumeKeeps(n, k);
    case Lose(i) => if i < |n.ab| { LossKeeps(n, i); }
    case Duplicate(i) => if i < |n.ab| { LossKeeps(n, i); }
  }

  lemma StepKeeps(n: Net, side: Side, e: Event)
    requires NetInv(n) && Enabled(n, side, e)
    ensures NetInv(Step(n, side, e))
  {
    hide NetInv, StepA, EnabledA;
    match side
    case A => StepAKeeps(n, e);
    case B =>
      SwapInv(n);
      StepAKeeps(Swap(n), e);
      SwapInv(StepA(Swap(n), e));
  }

  /** Every state of every proper run satisfies the invariant; in particular no fault ever occurs. */
  lemma {:induction false} RunKeeps(n: Net, run: seq<(Side, Event)>)
    requires Init(n) && Proper(n, run)
    ensures NetInv(After(n, run))
    decreases |run|
  {
    hide NetInv, Init, StepA, EnabledA;
    if run == [] {
      InitInv(n);
    } else {
      var k := |run| - 1;
      var m, e := After(n, run[..k]), run[k].1;
      RunKeeps(n, run[..k]);
      StepKeeps(m, run[k].0, e);
    }
  }

  /* ---- What the invariant means ---- */

  // Reading and holding, in terms of the history: everything up to CUR, and nothing else.
  lemma HeldBytes(rcv: Rcv, h: Hist)
    requires RcvOk(rcv) && RcvHist(rcv, h)
    ensures h.rd + Unread(rcv) == Flat(h.segs[..rcv.CUR + ONE - h.base])
    ensures h.rd <= Flat(h.segs)
  {
    FlatPrefix(h.segs, rcv.CUR + ONE - h.base);
    if rcv.LCS < rcv.CUR {
      HeldWhileReading(rcv, h);
    } else {
      assert h.rd + [] == h.rd;
    }
  }

  lemma HeldWhileReading(rcv: Rcv, h: Hist)
    requires RcvOk(rcv) && RcvHist(rcv, h) && rcv.LCS < rcv.CUR
    ensures h.rd + Unread(rcv) == Flat(h.segs[..rcv.CUR + ONE - h.base])
  {
    var next := rcv.LCS + ONE + ONE;
    StoredIsSent(rcv, h);
    FlatStep(h.segs, rcv.LCS + ONE - h.base, rcv.ctx.off);
    StoredIsFlat(rcv, h, next);
    hide RcvOk, RcvHist, CtxBytes, StoredFrom;
    Reassociate(h.rd, CtxBytes(rcv), StoredFrom(rcv, next));
  }

  lemma {:induction false} StoredIsFlat(rcv: Rcv, h: Hist, s: int)
    requires RcvHist(rcv, h) && rcv.LCS < s <= rcv.CUR + ONE
    ensures Flat(h.segs[..s - h.base]) + StoredFrom(rcv, s) == Flat(h.segs[..rcv.CUR + ONE - h.base])
    decreases rcv.CUR + ONE - s
  {
    hide Flat;
    if s > rcv.CUR {
      assert Flat(h.segs[..s - h.base]) + [] == Flat(h.segs[..s - h.base]);
    } else {
      var k := s - h.base;
      assert RecvSlotOf(rcv, s).data == h.segs[k].data;
      assert h.segs[..k + 1] == h.segs[..k] + [h.segs[k]];
      FlatAppend(h.segs[..k], h.segs[k]);
      StoredIsFlat(rcv, h, s + 1);
      Reassociate(Flat(h.segs[..k]), h.segs[k].data, StoredFrom(rcv, s + 1));
    }
  }

  // What b has read and holds of what a submitted.
  ghost predicate Delivered(m: Net) {
    && m.ha.base - 1 <= m.b.rcv.CUR < m.ha.base + |m.ha.segs|
    && m.ha.rd <= m.ha.sub
    && m.ha.rd + Unread(m.b.rcv) == Flat(m.ha.segs[..m.b.rcv.CUR + ONE - m.ha.base])
    && m.ha.sub == Flat(m.ha.segs) + Queued(m.a.snd)
  }

  /**
   Reliable delivery. In every state of every proper run, each reader has a prefix of what the other side submitted.
   What is read together with what the receive ring holds is the segments up to CUR; what is submitted is the segments
   sent and the bytes queued.
   */
  lemma ReaderGetsPrefix(n: Net, run: seq<(Side, Event)>)
    requires Init(n) && Proper(n, run)
    ensures Delivered(After(n, run)) && Delivered(Swap(After(n, run)))
  {
    hide Init, Proper, After, Delivered, NetInv;
    var m := After(n, run);
    RunKeeps(n, run);
    SwapInv(m);
    DeliveredInv(m);
    DeliveredInv(Swap(m));
  }

  lemma DeliveredInv(m: Net)
    requires NetInv(m)
    ensures Delivered(m)
  {
    hide SndOk, SndHist, ChannelsOk, Window, Unread;
    HeldBytes(m.b.rcv, m.ha);
    assert Flat(m.ha.segs) + [] == Flat(m.ha.segs);
  }

  // The windows of direction a to b, and the segments on their way to a.
  ghost predicate Windowed(m: Net) {
    && SndOk(m.a.snd) && RcvOk(m.b.rcv)
    && m.a.snd.UNA <= m.b.rcv.CUR + ONE <= m.a.snd.NXT
    && m.a.snd.LCS <= m.b.rcv.LCS <= m.b.rcv.CUR
    && m.a.snd.NXT as int - 1 - m.a.snd.LCS <= UDP_SEGMAX
    && m.b.rcv.CUR as int - m.b.rcv.LCS <= UDP_SEGMAX
    && (forall i :: 0 <= i < |m.ba| ==>
          m.ba[i].hdr.ACK < m.a.snd.NXT && Validate(EncodeSegment(m.ba[i]), m.a.snd.NXT) == Accepted(m.ba[i]))
  }

  /**
   Windows. A send buffer is freed only once the peer holds its segment, no acknowledgement names an unsent segment,
   at most SEGMAX segments are beyond the consumption the sender was told of, and the receiver never holds more than
   SEGMAX. Every segment on its way will pass all the checks of the receiving end. No assertion of the source fails
   and nothing is ever rejected or expired.
   */
  lemma WindowsHold(n: Net, run: seq<(Side, Event)>)
    requires Init(n) && Proper(n, run)
    ensures Windowed(After(n, run)) && Windowed(Swap(After(n, run))) && !After(n, run).fault
  {
    hide Init, Proper, After, Windowed, Inv, MessageOk;
    var m := After(n, run);
    RunKeeps(n, run);
    WindowedInv(m);
    WindowedInv(Swap(m));
  }

  lemma WindowedInv(m: Net)
    requires Inv(Forth(m)) && Inv(Back(m))
    ensures Windowed(m)
  {
    hide Validate, EncodeSegment;
    forall i | 0 <= i < |m.ba|
      ensures m.ba[i].hdr.ACK < m.a.snd.NXT && Validate(EncodeSegment(m.ba[i]), m.a.snd.NXT) == Accepted(m.ba[i])
    {
      assert AckOk(Forth(m), Forth(m).acks[i]);
      SegmentsAccepted(m, i);
    }
  }

  // Segment i of the n that a complete message was cut into.
  ghost predicate FragmentExactly(snd: Snd, g: Sent, i: nat, n: nat) {
    g.FCNT as int == n && g.SOM == snd.msgSOM && (i < n - 1 ==> |g.data| == ARDP_MAX_DLEN)
  }

  // If the last message of a is complete, how it was cut.
  ghost predicate CutExactly(m: Net) {
    Complete(m.a.snd) ==>
      && m.ha.msg == Flat(MessageSegs(m.a.snd, m.ha)) && |m.ha.msg| == m.a.snd.msgLenTotal
      && forall i :: 0 <= i < |MessageSegs(m.a.snd, m.ha)| ==>
           FragmentExactly(m.a.snd, MessageSegs(m.a.snd, m.ha)[i], i, |MessageSegs(m.a.snd, m.ha)|)
  }

  /** A completed message went out in exactly FCNT segments, however it was handed over and acknowledged. */
  lemma MessagesAreCut(n: Net, run: seq<(Side, Event)>)
    requires Init(n) && Proper(n, run)
    ensures CutExactly(After(n, run)) && CutExactly(Swap(After(n, run)))
  {
    hide Init, Proper, After, Inv, MessageOk;
    var m := After(n, run);
    RunKeeps(n, run);
    if Complete(m.a.snd) {
      CompleteMessageIsCut(m.a.snd, m.ha);
    }
    if Complete(m.b.snd) {
      CompleteMessageIsCut(m.b.snd, m.hb);
    }
  }

  /* ---- The gap hypothesis is exact ---- */

  // A segment beyond the next in sequence is stored too, and the number it skips is lost.
  lemma GapLeavesHole(n: Net, g: Segment)
    requires EndsOk(Back(n)) && DataOk(Back(n), g) && g.hdr.DLEN != 0 && g.hdr.SEQ > n.a.rcv.CUR + ONE
    ensures !RcvOk(OnData(n.a.rcv, g))
  {
    var rcv, s := n.a.rcv, n.a.rcv.CUR + ONE;
    ArrivalOrder(n, g);
    assert RecvSlotOk(rcv, s);
    StoredSlotOf(rcv, g, s);
    assert !RecvSlotOk(OnData(rcv, g), s);
  }

  /**
   The receiver accepts any sequence number past CUR, so a gap is not detected. From a good state, the arrival of the
   oldest segment leaves a good state exactly when that segment leaves no gap.
   */
  lemma ArrivalKeepsExactly(n: Net)
    requires NetInv(n) && n.ba != []
    ensures NetInv(Arrived(n)) <==> NoGap(n)
  {
    hide MessageOk, OnAck, OnData, Validate, EncodeSegment, ChannelsOk, SndOk, SndHist, RcvHist, Window, RcvOk;
    if NoGap(n) {
      ArrivalKeeps(n);
    } else {
      var g, n1 := n.ba[0], Acknowledged(n);
      SegmentsAccepted(n, 0);
      AcknowledgedInv(n);
      ArrivalFlags(n1, g);
      GapLeavesHole(n1, g);
    }
  }

  // A fresh link, and a run in which the first of two segments is lost: every event but the arrival of the second
  // segment is proper.
  ghost function FreshConn(): Conn {
    Conn(1, 1,
         Snd(1, 1, 0, 3, [EMPTY_SEND, EMPTY_SEND, EMPTY_SEND], 0, 0, 0, 1, false),
         Rcv(0, 0, [EMPTY_RECV, EMPTY_RECV, EMPTY_RECV], Idle))
  }

  ghost function FreshNet(): Net {
    Net(FreshConn(), FreshConn(), [], [], Hist(1, [], [], [], []), Hist(1, [], [], [], []), false)
  }

  ghost function AfterLoss(n: Net, p: seq<Byte>, q: seq<Byte>): Net {
    StepA(StepA(StepA(n, StartMessage), Submit(p + q, 2856)), Lose(0))
  }

  ghost function AfterGap(m: Net): Net { StepA(StepA(m, Arrival), Consume(1428)) }

  function SecondSegment(q: seq<Byte>): Segment { Segment(Header(DATA_FLAGS, 1, 1, 1428, 2, 0, 0, 0, 1, 1, 2), q) }

  // Both segments are emitted.
  lemma TwoSegmentsOut(c: Conn, p: seq<Byte>, q: seq<Byte>)
    requires c == StartMsg(FreshConn()) && |p| == |q| == 1428
    ensures var r := ArdpSpec.Send(c, p + q, 2856, UDP_SEGMAX);
            r.2 == Ok && |r.1| == 2 && r.1[1] == SecondSegment(q) && r.0.rcv == c.rcv
  {
    var c1 := c.(snd := LatchMessage(c.snd, 2856));
    var stream := p + q;
    assert SendSlotOf(c.snd, c.snd.NXT).data == [];
    assert [] + stream == stream;
    assert FirstPiece(stream) == p && stream[|p|..] == q;
    assert !Waits(c1.snd, 1428);
    var c2 := Emit(c1, p);
    assert FirstPiece(q) == q && q[|q|..] == [];
    assert !Waits(c2.snd, 1428);
    assert SendBytes(c2, q, 2).1 == [DataSegment(c2, q)] + SendBytes(Emit(c2, q), [], 1).1;
    assert SendBytes(c1, stream, 3).1 == [DataSegment(c1, p)] + SendBytes(c2, q, 2).1;
  }

  lemma OneSegmentLeft(p: seq<Byte>, q: seq<Byte>)
    requires |p| == |q| == 1428
    ensures var m := AfterLoss(FreshNet(), p, q);
            && m.ab == [SecondSegment(q)] && m.ba == []
            && m.b == FreshConn() && m.ha.sub == p + q && m.ha.rd == []
  {
    var n := StepA(FreshNet(), StartMessage);
    TwoSegmentsOut(n.a, p, q);
    hide Send, SendBytes, SendAsserts;
    var r := ArdpSpec.Send(n.a, p + q, 2856, UDP_SEGMAX);
    RecordedKeepsBytes(n.ha.(sub := n.ha.sub + (p + q), msg := n.ha.msg + (p + q)), r.1);
    assert [] + (p + q) == p + q;
    var m := StepA(n, Submit(p + q, 2856));
    assert m.ab == r.1;
    assert m.ab[..0] + m.ab[1..] == [m.ab[1]];
  }

  lemma {:induction false} RecordedKeepsBytes(h: Hist, out: seq<Segment>)
    ensures RecordedAll(h, out).sub == h.sub && RecordedAll(h, out).rd == h.rd
    decreases |out|
  {
    if out != [] {
      RecordedKeepsBytes(Recorded(h, out[0]), out[1..]);
    }
  }

  /**
   Loss of the first of two segments p and q: the second one is accepted at once, and the reader is handed q as if it
   were the beginning of the stream. Unless the two payloads happen to be equal, the bytes read are not a prefix of the
   bytes submitted.
   */
  lemma LossBreaksDelivery(p: seq<Byte>, q: seq<Byte>)
    requires |p| == |q| == 1428
    ensures Init(FreshNet())
    ensures var m := Swap(AfterLoss(FreshNet(), p, q));
            !NoGap(m) && AfterGap(m).hb.rd == q && AfterGap(m).hb.sub == p + q
    ensures q <= p + q <==> p == q
  {
    OneSegmentLeft(p, q);
    hide AfterLoss;
    var m := Swap(AfterLoss(FreshNet(), p, q));
    GapAccepted(m, q);
    GapRead(StepA(m, Arrival), q);
    assert q <= p + q <==> p == (p + q)[..1428] == q;
  }

  function HoldingSecond(q: seq<Byte>): Rcv {
    Rcv(2, 0, [EMPTY_RECV, EMPTY_RECV, RecvSlot(2, q, 1, 2)], Reading(2, 0, 1428))
  }

  lemma GapAccepted(m: Net, q: seq<Byte>)
    requires |q| == 1428 && m.a == FreshConn() && m.ba == [SecondSegment(q)]
    ensures StepA(m, Arrival).a.rcv == HoldingSecond(q) && StepA(m, Arrival).hb == m.hb
  {
    hide Validate, EncodeSegment, OnAck, OnData, Plausible, SeqLt;
    SecondPlausible(q);
    SecondStored(q);
    ValidateEncoded(m.ba[0], m.a.snd.NXT);
  }

  lemma SecondPlausible(q: seq<Byte>)
    ensures Plausible(SecondSegment(q).hdr, 1) && !SeqLt(Add32(0, 1), 1)
  {
  }

  lemma SecondStored(q: seq<Byte>)
    requires |q| == 1428
    ensures OnData(FreshConn().rcv, SecondSegment(q)) == HoldingSecond(q)
  {
  }

  lemma GapRead(m: Net, q: seq<Byte>)
    requires |q| == 1428 && m.a.rcv == HoldingSecond(q) && m.hb.rd == []
    ensures StepA(m, Consume(1428)).hb == m.hb.(rd := q)
  {
    assert CtxBytes(m.a.rcv) == q;
    assert Read(m.a.rcv, 1428).1 == q + Read(FinishSlot(m.a.rcv), 0).1;
    assert [] + q == q;
  }
}
