/**
 What one ARDP connection in the OPEN state does, as functions on values: acknowledgement processing,
 sending, retransmission, receiving and reading. `ArdpConnection` proves that the ring-buffer code with
 its loops computes these functions; `ArdpNetwork` reasons about two connections that take such steps.
 */
module ArdpSpec {
  import opened Seq32
  import opened ArdpWire

  const UDP_MIN_DATA_RETRIES: nat := 5

  datatype Status = Ok | Backpressure | Timeout | WriteFailed | RecvExpired

  datatype SendSlot = SendSlot(hdr: Header, data: seq<Byte>, inFlight: bool, retry: nat, retransmits: nat)
  datatype RecvSlot = RecvSlot(SEQ: U32, data: seq<Byte>, SOM: U32, FCNT: U16)

  const NO_HEADER: Header := Header(0, 0, 0, 0, 0, 0, 0, 0, 0, 0, 0)
  const EMPTY_SEND: SendSlot := SendSlot(NO_HEADER, [], false, 0, 0)
  const EMPTY_RECV: RecvSlot := RecvSlot(0, [], 0, 0)

  type SendRing = b: seq<SendSlot> | |b| == UDP_SEGMAX witness [EMPTY_SEND, EMPTY_SEND, EMPTY_SEND]
  type RecvRing = b: seq<RecvSlot> | |b| == UDP_SEGMAX witness [EMPTY_RECV, EMPTY_RECV, EMPTY_RECV]

  // UDP_Recv_State: the slot being read, how much of it has been read and how much is left.
  datatype RxContext = Idle | Reading(slot: nat, off: nat, left: nat)

  datatype Snd = Snd(
    NXT: U32, UNA: U32, LCS: U32, SEGMAX: U32, buf: SendRing, pending: nat,
    msgLenTotal: U32, msgLenSent: U32, msgSOM: U32, newMsg: bool)

  datatype Rcv = Rcv(CUR: U32, LCS: U32, buf: RecvRing, ctx: RxContext)

  datatype Conn = Conn(local: U16, foreign: U16, snd: Snd, rcv: Rcv)

  function SendSlotOf(snd: Snd, s: int): SendSlot { snd.buf[RingIndex(s)] }

  function RecvSlotOf(rcv: Rcv, s: int): RecvSlot { rcv.buf[RingIndex(s)] }

  /* ---- Ring invariants ---- */

  // The slot of each sequence number in [UNA, UNA + SEGMAX): in flight below NXT, filling at NXT, empty above.
  ghost predicate SendSlotOk(snd: Snd, s: int) {
    var slot := SendSlotOf(snd, s);
    && slot.inFlight == (s < snd.NXT)
    && (slot.retry != 0 <==> slot.inFlight)
    && (slot.inFlight ==> slot.hdr.SEQ == s && slot.hdr.DLEN == |slot.data| && 0 < |slot.data| <= ARDP_MAX_DLEN)
    && (s == snd.NXT ==> |slot.data| < ARDP_MAX_DLEN)
    && (s > snd.NXT ==> slot.data == [])
    && (!slot.inFlight ==> slot.retransmits == 0)
  }

  ghost predicate SndOk(snd: Snd) {
    && snd.UNA <= snd.NXT <= snd.UNA + UDP_SEGMAX
    && snd.NXT + UDP_SEGMAX <= TWO32
    && snd.pending == snd.NXT as int - snd.UNA
    && forall s :: snd.UNA <= s < snd.UNA + UDP_SEGMAX ==> SendSlotOk(snd, s)
  }

  ghost predicate RecvSlotOk(rcv: Rcv, s: int) {
    var slot := RecvSlotOf(rcv, s);
    if s <= rcv.CUR then slot.SEQ == s && slot.data != [] && slot.FCNT != 0 else slot.data == [] && slot.FCNT == 0
  }

  ghost predicate CtxOk(rcv: Rcv) {
    if rcv.LCS == rcv.CUR then rcv.ctx == Idle
    else
      && rcv.ctx.Reading? && rcv.ctx.slot == RingIndex(rcv.LCS + ONE)
      && 0 < rcv.ctx.left && rcv.ctx.off + rcv.ctx.left == |RecvSlotOf(rcv, rcv.LCS + ONE).data|
  }

  const ONE: int := 1

  ghost predicate RcvOk(rcv: Rcv) {
    && rcv.LCS <= rcv.CUR <= rcv.LCS + UDP_SEGMAX
    && rcv.CUR + UDP_SEGMAX < TWO32
    && (forall s :: rcv.LCS < s <= rcv.LCS + UDP_SEGMAX ==> RecvSlotOk(rcv, s))
    && CtxOk(rcv)
  }

  // Bytes accepted from the application but not yet in a segment.
  function Queued(snd: Snd): seq<Byte> {
    if snd.pending == UDP_SEGMAX then [] else SendSlotOf(snd, snd.NXT).data
  }

  /* ---- Acknowledgements ---- */

  function AckSlot(slot: SendSlot, ack: U32): SendSlot {
    if slot.inFlight && SeqLet(slot.hdr.SEQ, ack)
    then slot.(data := [], inFlight := false, retry := 0, retransmits := 0)
    else slot
  }

  function AckRing(buf: SendRing, ack: U32): SendRing {
    [AckSlot(buf[0], ack), AckSlot(buf[1], ack), AckSlot(buf[2], ack)]
  }

  function One(b: bool): nat { if b then 1 else 0 }

  function InFlight(buf: SendRing): nat { One(buf[0].inFlight) + One(buf[1].inFlight) + One(buf[2].inFlight) }

  // The acknowledgement is taken for a measurement of the round trip.
  predicate Measures(snd: Snd, ack: U32) {
    snd.pending != 0 && SendSlotOf(snd, ack).retransmits == 0 && SendSlotOf(snd, ack).retry != 0
  }

  // The ACK and LCS part of ArdpMachine.
  function OnAck(snd: Snd, h: Header): Snd {
    var acked :=
      if InRange(snd.UNA, Add32(Sub32(snd.NXT, snd.UNA), 1), h.ACK) then
        var buf := AckRing(snd.buf, h.ACK);
        snd.(UNA := Add32(h.ACK, 1), buf := buf, pending := InFlight(buf))
      else snd;
    acked.(LCS := h.LCS)
  }

  /* ---- Sending ---- */

  function MakeHeader(c: Conn, flags: Byte, dlen: U16, som: U32, fcnt: U16): Header {
    Header(flags, c.local, c.foreign, dlen, c.snd.NXT, c.rcv.CUR, 0, c.rcv.LCS, c.snd.UNA, som, fcnt)
  }

  const DATA_FLAGS: Byte := 0x42
  const NUL_FLAGS: Byte := 0x52

  // SendHeader: a segment without data.
  function HeaderOnly(c: Conn, nul: bool): Segment {
    Segment(MakeHeader(c, if nul then NUL_FLAGS else DATA_FLAGS, 0, 0, 0), [])
  }

  // Bytes that k segments can carry, and segments that n bytes fill when n already includes the round-up.
  function Capacity(k: int): int { k * 1428 }

  function Segments(n: nat): nat { n / 1428 }

  function FragmentCount(total: U32): U16 { Wrap16(Segments(Wrap32(total + (ARDP_MAX_DLEN - 1)))) }

  function DataSegment(c: Conn, data: seq<Byte>): Segment {
    Segment(MakeHeader(c, DATA_FLAGS, Wrap16(|data|), c.snd.msgSOM, FragmentCount(c.snd.msgLenTotal)), data)
  }

  function WithSlot(snd: Snd, slot: SendSlot): Snd {
    snd.(buf := snd.buf[RingIndex(snd.NXT) := slot])
  }

  function SlotWith(c: Conn, data: seq<Byte>, retry: nat): SendSlot {
    SendSlot(DataSegment(c, data).hdr, data, true, retry, SendSlotOf(c.snd, c.snd.NXT).retransmits)
  }

  // A slot filled and marked in flight whose datagram the socket refused.
  function Marked(c: Conn, data: seq<Byte>): Conn {
    var slot := SlotWith(c, data, SendSlotOf(c.snd, c.snd.NXT).retry);
    c.(snd := WithSlot(c.snd, slot).(msgLenSent := Wrap32(c.snd.msgLenSent + |data|)))
  }

  // The slot filled, sent and its retransmission timer started.
  function Emit(c: Conn, data: seq<Byte>): Conn {
    c.(snd := WithSlot(c.snd, SlotWith(c, data, 1)).(
         NXT := Add32(c.snd.NXT, 1), pending := c.snd.pending + 1, msgLenSent := Wrap32(c.snd.msgLenSent + |data|)))
  }

  function Enqueue(c: Conn, data: seq<Byte>): Conn {
    c.(snd := WithSlot(c.snd, SendSlotOf(c.snd, c.snd.NXT).(data := data)))
  }

  // Whether the segment being filled must wait for more of the message.
  predicate Waits(snd: Snd, n: nat) { n < ARDP_MAX_DLEN && n != Sub32(snd.msgLenTotal, snd.msgLenSent) }

  function FirstPiece(stream: seq<Byte>): (d: seq<Byte>)
    requires stream != []
    ensures 0 < |d| <= |stream| && |d| <= ARDP_MAX_DLEN
  { if |stream| <= ARDP_MAX_DLEN then stream else stream[..ARDP_MAX_DLEN] }

  /**
   The do/while loop of ARDP_Send over the queued bytes followed by the new ones. The socket takes
   `accept` more datagrams and then fails.
   */
  function SendBytes(c: Conn, stream: seq<Byte>, accept: nat): (Conn, seq<Segment>, Status)
    decreases |stream|
  {
    if stream == [] then (c, [], Ok)
    else
      var d := FirstPiece(stream);
      if Waits(c.snd, |d|) then (Enqueue(c, d), [], Ok)
      else if accept == 0 then (Marked(c, d), [], WriteFailed)
      else
        var r := SendBytes(Emit(c, d), stream[|d|..], accept - 1);
        (r.0, [DataSegment(c, d)] + r.1, r.2)
  }

  // Bytes the peer can still take, in the 16- and 32-bit arithmetic of the source.
  function RemoteRoom(snd: Snd): U32 {
    var pending := Wrap16(Wrap32(snd.NXT as int - snd.LCS - 1));
    Wrap32(Capacity(Wrap32(snd.SEGMAX as int - pending)))
  }

  function LocalRoom(snd: Snd): int { Capacity(UDP_SEGMAX - snd.pending) }

  // A new message latches its total length and its first sequence number, even when backpressure follows.
  function LatchMessage(snd: Snd, total: U32): Snd {
    if snd.newMsg then snd.(msgLenTotal := total, newMsg := false, msgSOM := snd.NXT) else snd
  }

  /** ARDP_Send after its timer check; `total` is the message length that the message header announces. */
  function Send(c: Conn, tx: seq<Byte>, total: U32, accept: nat): (Conn, seq<Segment>, Status) {
    if c.snd.pending == UDP_SEGMAX then (c, [], Backpressure)
    else
      var c1 := c.(snd := LatchMessage(c.snd, total));
      var stream := SendSlotOf(c.snd, c.snd.NXT).data + tx;
      if |stream| > LocalRoom(c1.snd) || |stream| > RemoteRoom(c1.snd) then (c1, [], Backpressure)
      else SendBytes(c1, stream, accept)
  }

  function StartMsg(c: Conn): Conn { c.(snd := c.snd.(newMsg := true, msgLenSent := 0)) }

  /* ---- Retransmission ---- */

  function Refreshed(c: Conn, slot: SendSlot): SendSlot {
    slot.(hdr := slot.hdr.(ACK := c.rcv.CUR, LCS := c.rcv.LCS, ACKNXT := c.snd.UNA))
  }

  function ResentSegment(c: Conn, k: int): Segment {
    var slot := SendSlotOf(c.snd, c.snd.UNA + k);
    Segment(Refreshed(c, slot).hdr, slot.data)
  }

  // How many of the in-flight segments DataTimerHandler resends before it stops.
  function ResendCount(c: Conn, late: bool, accept: nat): nat {
    var inFlight := Sub32(c.snd.NXT, c.snd.UNA);
    var retry := SendSlotOf(c.snd, c.snd.UNA).retry;
    var budget := if retry > UDP_MIN_DATA_RETRIES then 0 else UDP_MIN_DATA_RETRIES + 1 - retry;
    var n := if accept < inFlight then accept else inFlight;
    if late && budget < n then budget else n
  }

  function ResendStatus(c: Conn, late: bool, accept: nat): Status {
    var n := ResendCount(c, late, accept);
    if n == Sub32(c.snd.NXT, c.snd.UNA) then Ok
    else if late && SendSlotOf(c.snd, c.snd.UNA).retry + n > UDP_MIN_DATA_RETRIES then Timeout
    else WriteFailed
  }

  // One more retransmission, in 8 bits.
  function Counted(retransmits: nat): nat { (retransmits + 1) % 0x100 }

  // Slot s once k segments have been resent and the headers of the first `touched` have been patched. The retries
  // of all of them are counted on the slot of UNA.
  function Resending(c: Conn, s: int, k: nat, touched: nat): SendSlot {
    var slot := SendSlotOf(c.snd, s);
    var patched := if c.snd.UNA <= s < c.snd.UNA + touched then Refreshed(c, slot) else slot;
    if s == c.snd.UNA then patched.(retry := patched.retry + k, retransmits := Counted(patched.retransmits))
    else patched
  }

  // The slot of sequence number s after the handler ran.
  function ResentSlot(c: Conn, s: int, late: bool, accept: nat): SendSlot {
    var n := ResendCount(c, late, accept);
    Resending(c, s, n, n + One(ResendStatus(c, late, accept) == WriteFailed))
  }

  // The sequence number of the window [UNA, UNA + SEGMAX) that ring index i stands for.
  function NumberOf(snd: Snd, i: int): int { snd.UNA + RingIndex(i - snd.UNA) }

  /**
   DataTimerHandler on the slot of UNA. `late` says that the segment is older than the total retry timeout.
   */
  function Resend(c: Conn, late: bool, accept: nat): (Conn, seq<Segment>, Status) {
    (c.(snd := c.snd.(buf := [ResentSlot(c, NumberOf(c.snd, 0), late, accept),
                              ResentSlot(c, NumberOf(c.snd, 1), late, accept),
                              ResentSlot(c, NumberOf(c.snd, 2), late, accept)])),
     seq(ResendCount(c, late, accept), k => ResentSegment(c, k)),
     ResendStatus(c, late, accept))
  }

  /* ---- Receiving ---- */

  function AddRcvBuffer(rcv: Rcv, g: Segment): Rcv {
    var i := RingIndex(g.hdr.SEQ);
    var slot := RecvSlot(g.hdr.SEQ, g.data, g.hdr.SOM, g.hdr.FCNT);
    rcv.(buf := rcv.buf[i := slot], ctx := if rcv.ctx == Idle then Reading(i, 0, |g.data|) else rcv.ctx)
  }

  // Data at or after CUR + 1 is stored, anything older is a duplicate.
  function OnData(rcv: Rcv, g: Segment): Rcv {
    if SeqLet(Add32(rcv.CUR, 1), g.hdr.SEQ) then AddRcvBuffer(rcv, g).(CUR := g.hdr.SEQ) else rcv
  }

  /**
   ArdpMachine in the OPEN state on an accepted segment that carries the ACK flag. Where the source flushes
   expired messages this function only reports RecvExpired.
   */
  function Machine(c: Conn, g: Segment): (Conn, seq<Segment>, Status) {
    var c1 := c.(snd := OnAck(c.snd, g.hdr));
    if SeqLt(Add32(c.rcv.CUR, 1), g.hdr.ACKNXT) then (c1, [], RecvExpired)
    else if Has(g.hdr.flags, FLAG_NUL) then (c1, [HeaderOnly(c1, false)], Ok)
    else if g.hdr.DLEN != 0 then (c1.(rcv := OnData(c1.rcv, g)), [], Ok)
    else (c1, [], Ok)
  }

  /* ---- Reading ---- */

  // RecvReady on the slot being read, then on to the next slot if that holds data.
  function FinishSlot(rcv: Rcv): Rcv
    requires rcv.ctx.Reading? && rcv.ctx.slot < UDP_SEGMAX
  {
    var i := rcv.ctx.slot;
    var next := NextSlot(i, UDP_SEGMAX);
    var buf := rcv.buf[i := rcv.buf[i].(data := [], FCNT := 0)];
    rcv.(LCS := rcv.buf[i].SEQ, buf := buf,
         ctx := if buf[next].data != [] then Reading(next, 0, |buf[next].data|) else Idle)
  }

  function CtxBytes(rcv: Rcv): seq<Byte> {
    if rcv.ctx.Reading? && rcv.ctx.slot < UDP_SEGMAX && rcv.ctx.off + rcv.ctx.left <= |rcv.buf[rcv.ctx.slot].data| then
      rcv.buf[rcv.ctx.slot].data[rcv.ctx.off..rcv.ctx.off + rcv.ctx.left]
    else []
  }

  // UpdateReadBuffer for n bytes, the smaller of what is wanted and the space to put it.
  function Read(rcv: Rcv, n: nat): (Rcv, seq<Byte>)
    decreases n
  {
    var avail := CtxBytes(rcv);
    if avail == [] || n == 0 then (rcv, [])
    else if n < |avail| then
      (rcv.(ctx := rcv.ctx.(off := rcv.ctx.off + n, left := rcv.ctx.left - n)), avail[..n])
    else
      var r := Read(FinishSlot(rcv), n - |avail|);
      (r.0, avail + r.1)
  }

  // The receive ring as a byte stream: what is left of each stored segment from sequence number s on.
  ghost function StoredFrom(rcv: Rcv, s: int): seq<Byte>
    decreases rcv.CUR + ONE - s
  {
    if s > rcv.CUR then [] else RecvSlotOf(rcv, s).data + StoredFrom(rcv, s + 1)
  }

  ghost function Unread(rcv: Rcv): seq<Byte> {
    if rcv.ctx.Idle? then [] else CtxBytes(rcv) + StoredFrom(rcv, rcv.LCS + ONE + ONE)
  }
}
