/**
 One direction of an ARDP link: the send half of one endpoint, the receive half of the other, the channel that
 carries the data and the channel that carries the acknowledgements back. The history records every segment
 sent, every byte submitted and every byte read. This module states the invariant of a direction and proves
 that each half-step of an endpoint keeps it.
 */
module ArdpDirection {
  import opened Seq32
  import opened ArdpWire
  import opened ArdpSpec
  import opened ArdpRing

  datatype Sent = Sent(SOM: U32, FCNT: U16, data: seq<Byte>)

  // base is the sequence number of segs[0]; msg holds the bytes submitted for the current message.
  datatype Hist = Hist(base: int, segs: seq<Sent>, sub: seq<Byte>, rd: seq<Byte>, msg: seq<Byte>)

  datatype Direction = Direction(snd: Snd, rcv: Rcv, data: seq<Segment>, acks: seq<Segment>, h: Hist)

  ghost function Flat(segs: seq<Sent>): seq<Byte> {
    if segs == [] then [] else Flat(segs[..|segs| - 1]) + segs[|segs| - 1].data
  }

  lemma FlatAppend(segs: seq<Sent>, x: Sent)
    ensures Flat(segs + [x]) == Flat(segs) + x.data
  {
    assert (segs + [x])[..|segs|] == segs;
  }

  lemma {:induction false} FlatPrefix(segs: seq<Sent>, k: nat)
    requires k <= |segs|
    ensures Flat(segs[..k]) <= Flat(segs)
    decreases |segs|
  {
    if k == |segs| {
      assert segs[..k] == segs;
    } else {
      var front := segs[..|segs| - 1];
      FlatPrefix(front, k);
      assert front[..k] == segs[..k];
    }
  }

  /* ---- The invariant ---- */

  // What the header of in-flight segment s repeats of the history.
  ghost predicate SlotMatches(snd: Snd, h: Hist, s: int)
    requires h.base <= s < h.base + |h.segs|
  {
    var slot := SendSlotOf(snd, s);
    && slot.data == h.segs[s - h.base].data
    && slot.hdr.SOM == h.segs[s - h.base].SOM
    && slot.hdr.FCNT == h.segs[s - h.base].FCNT
    && slot.hdr.flags == DATA_FLAGS
  }

  ghost predicate SentOk(h: Hist, k: int)
    requires 0 <= k < |h.segs|
  {
    && 0 < |h.segs[k].data| <= ARDP_MAX_DLEN
    && h.segs[k].FCNT != 0
    && h.segs[k].SOM <= h.base + k < h.segs[k].SOM as int + h.segs[k].FCNT
  }

  ghost predicate SndHist(snd: Snd, h: Hist) {
    && 1 <= h.base <= snd.UNA && snd.NXT as int == h.base + |h.segs|
    && (forall s :: snd.UNA <= s < snd.NXT ==> SlotMatches(snd, h, s))
    && (forall k :: 0 <= k < |h.segs| ==> SentOk(h, k))
  }

  // The part of the segment being read that the reader already has.
  ghost function ReadPartOf(rcv: Rcv, h: Hist): seq<Byte>
    requires h.base as int - 1 <= rcv.LCS && rcv.CUR < h.base + |h.segs|
  {
    if rcv.LCS < rcv.CUR && rcv.ctx.Reading? && rcv.ctx.off <= |h.segs[rcv.LCS + ONE - h.base].data|
    then h.segs[rcv.LCS + ONE - h.base].data[..rcv.ctx.off] else []
  }

  ghost predicate RcvHist(rcv: Rcv, h: Hist) {
    && h.base - 1 <= rcv.LCS && rcv.CUR < h.base + |h.segs| && rcv.LCS <= rcv.CUR
    && (forall s :: rcv.LCS < s <= rcv.CUR ==> RecvSlotOf(rcv, s).data == h.segs[s - h.base].data)
    && h.rd == Flat(h.segs[..rcv.LCS + ONE - h.base]) + ReadPartOf(rcv, h)
  }

  // Nothing is forgotten by the sender before the receiver holds it, and no more than SEGMAX segments are
  // outstanding beyond the consumption that the sender was told of.
  ghost predicate Window(snd: Snd, rcv: Rcv, h: Hist) {
    && snd.UNA <= rcv.CUR + ONE
    && h.base - 1 <= snd.LCS <= rcv.LCS && snd.LCS < snd.UNA
    && snd.NXT as int - 1 - snd.LCS <= UDP_SEGMAX && snd.SEGMAX == UDP_SEGMAX
  }

  // A segment on its way to the receiver.
  ghost predicate DataOk(d: Direction, g: Segment) {
    var h := g.hdr;
    && h.ACKNXT <= d.snd.UNA && d.rcv.CUR + ONE <= h.ACKNXT + UDP_SEGMAX
    && h.ACKNXT <= h.SEQ <= h.ACKNXT + UDP_SEGMAX && d.h.base <= h.SEQ <= d.snd.NXT
    && h.DLEN == |g.data|
    && (h.DLEN == 0 ==> h.flags == DATA_FLAGS || h.flags == NUL_FLAGS)
    && (h.DLEN != 0 ==>
          && h.flags == DATA_FLAGS && h.SEQ < d.h.base + |d.h.segs| && h.SEQ < h.ACKNXT + UDP_SEGMAX
          && d.h.segs[h.SEQ - d.h.base] == Sent(h.SOM, h.FCNT, g.data))
  }

  // A segment on its way back to the sender.
  ghost predicate AckOk(d: Direction, g: Segment) {
    var h := g.hdr;
    && d.snd.UNA <= h.ACK + ONE && h.ACK <= d.rcv.CUR
    && d.snd.LCS <= h.LCS <= d.rcv.LCS
    && h.LCS <= h.ACK <= h.LCS + UDP_SEGMAX
  }

  // First in, first out: f was sent no later than g.
  ghost predicate DataBefore(f: Segment, g: Segment) { f.hdr.DLEN != 0 ==> f.hdr.SEQ < g.hdr.ACKNXT + UDP_SEGMAX }

  ghost predicate AckBefore(f: Segment, g: Segment) { f.hdr.ACK <= g.hdr.ACK && f.hdr.LCS <= g.hdr.LCS }

  ghost predicate ChannelsOk(d: Direction) {
    && (forall i :: 0 <= i < |d.data| ==> DataOk(d, d.data[i]))
    && (forall i :: 0 <= i < |d.acks| ==> AckOk(d, d.acks[i]))
    && (forall i, j :: 0 <= i <= j < |d.data| ==> DataBefore(d.data[i], d.data[j]))
    && (forall i, j :: 0 <= i <= j < |d.acks| ==> AckBefore(d.acks[i], d.acks[j]))
  }

  ghost predicate EndsOk(d: Direction) {
    SndOk(d.snd) && RcvOk(d.rcv) && SndHist(d.snd, d.h) && RcvHist(d.rcv, d.h) && Window(d.snd, d.rcv, d.h)
  }

  ghost predicate Inv(d: Direction) { EndsOk(d) && ChannelsOk(d) }

  /* ---- Channels ---- */

  lemma DataAppended(d: Direction, g: Segment)
    requires Inv(d) && DataOk(d, g) && g.hdr.ACKNXT == d.snd.UNA
    ensures Inv(d.(data := d.data + [g]))
  {
    var e := d.(data := d.data + [g]);
    forall i | 0 <= i < |e.data|
      ensures DataOk(e, e.data[i]) && DataBefore(e.data[i], g)
    {
      if i < |d.data| {
        assert DataOk(d, d.data[i]);
      }
    }
    forall i | 0 <= i < |e.acks|
      ensures AckOk(e, e.acks[i])
    {
      assert AckOk(d, d.acks[i]);
    }
  }

  lemma AckAppended(d: Direction, g: Segment)
    requires Inv(d) && g.hdr.ACK == d.rcv.CUR && g.hdr.LCS == d.rcv.LCS
    ensures Inv(d.(acks := d.acks + [g]))
  {
    var e := d.(acks := d.acks + [g]);
    forall i | 0 <= i < |e.acks|
      ensures AckOk(e, e.acks[i]) && AckBefore(e.acks[i], g)
    {
      if i < |d.acks| {
        assert AckOk(d, d.acks[i]);
      }
    }
    forall i | 0 <= i < |e.data|
      ensures DataOk(e, e.data[i])
    {
      assert DataOk(d, d.data[i]);
    }
  }

  // c' keeps the order of c: it was obtained by losing or duplicating segments in place.
  ghost predicate InOrder(c': seq<Segment>, c: seq<Segment>, from: seq<int>) {
    && |from| == |c'|
    && (forall k :: 0 <= k < |from| ==> 0 <= from[k] < |c| && c'[k] == c[from[k]])
    && (forall j, k :: 0 <= j <= k < |from| ==> from[j] <= from[k])
  }

  lemma DataInOrder(d: Direction, c': seq<Segment>, from: seq<int>)
    requires Inv(d) && InOrder(c', d.data, from)
    ensures Inv(d.(data := c'))
  {
    var e := d.(data := c');
    forall k | 0 <= k < |c'|
      ensures DataOk(e, c'[k])
    {
      assert DataOk(d, d.data[from[k]]);
    }
    forall i | 0 <= i < |e.acks|
      ensures AckOk(e, e.acks[i])
    {
      assert AckOk(d, d.acks[i]);
    }
    forall j, k | 0 <= j <= k < |c'|
      ensures DataBefore(c'[j], c'[k])
    {
      assert DataBefore(d.data[from[j]], d.data[from[k]]);
    }
  }

  lemma AcksInOrder(d: Direction, c': seq<Segment>, from: seq<int>)
    requires Inv(d) && InOrder(c', d.acks, from)
    ensures Inv(d.(acks := c'))
  {
    var e := d.(acks := c');
    forall k | 0 <= k < |c'|
      ensures AckOk(e, c'[k])
    {
      assert AckOk(d, d.acks[from[k]]);
    }
    forall i | 0 <= i < |e.data|
      ensures DataOk(e, e.data[i])
    {
      assert DataOk(d, d.data[i]);
    }
    forall j, k | 0 <= j <= k < |c'|
      ensures AckBefore(c'[j], c'[k])
    {
      assert AckBefore(d.acks[from[j]], d.acks[from[k]]);
    }
  }

  /* ---- Sender half-steps ---- */

  // Changes of the sender that leave its window, its told LCS and the history alone.
  lemma SenderMoved(d: Direction, snd: Snd, h: Hist)
    requires Inv(d) && SndOk(snd) && SndHist(snd, h) && h == d.h.(sub := h.sub, msg := h.msg)
    requires snd.UNA == d.snd.UNA && snd.NXT == d.snd.NXT && snd.LCS == d.snd.LCS && snd.SEGMAX == d.snd.SEGMAX
    ensures Inv(d.(snd := snd, h := h))
  {
    hide SndOk, RcvOk, SndHist, Flat;
    var e := d.(snd := snd, h := h);
    forall i | 0 <= i < |e.data|
      ensures DataOk(e, e.data[i])
    {
      assert DataOk(d, d.data[i]);
    }
    forall i | 0 <= i < |e.acks|
      ensures AckOk(e, e.acks[i])
    {
      assert AckOk(d, d.acks[i]);
    }
  }

  // The same slots match the same history.
  lemma MatchesSame(a: Snd, b: Snd, h: Hist)
    requires SndHist(a, h) && b.UNA as int >= a.UNA && b.NXT == a.NXT
    requires forall s :: b.UNA <= s < b.NXT ==>
               && SendSlotOf(b, s).data == SendSlotOf(a, s).data && SendSlotOf(b, s).hdr.SOM == SendSlotOf(a, s).hdr.SOM
               && SendSlotOf(b, s).hdr.FCNT == SendSlotOf(a, s).hdr.FCNT
               && SendSlotOf(b, s).hdr.flags == SendSlotOf(a, s).hdr.flags
    ensures SndHist(b, h)
  {
    forall s | b.UNA <= s < b.NXT
      ensures SlotMatches(b, h, s)
    {
      assert SlotMatches(a, h, s);
    }
  }

  // The history after one more segment.
  function Recorded(h: Hist, g: Segment): Hist { h.(segs := h.segs + [Sent(g.hdr.SOM, g.hdr.FCNT, g.data)]) }

  lemma RecordedKeepsReceiver(rcv: Rcv, h: Hist, g: Segment)
    requires RcvHist(rcv, h)
    ensures RcvHist(rcv, Recorded(h, g))
  {
    var k := rcv.LCS + ONE - h.base;
    assert Recorded(h, g).segs[..k] == h.segs[..k];
  }

  lemma EmitMatches(c: Conn, b: seq<Byte>, h: Hist)
    requires CanEmit(c.snd) && SndHist(c.snd, h) && 0 < |b| <= ARDP_MAX_DLEN
    requires var g := DataSegment(c, b).hdr; g.FCNT != 0 && g.SOM <= c.snd.NXT < g.SOM as int + g.FCNT
    ensures SndHist(Emit(c, b).snd, Recorded(h, DataSegment(c, b)))
  {
    var snd, h' := Emit(c, b).snd, Recorded(h, DataSegment(c, b));
    EmitKeepsRing(c, b);
    forall s | snd.UNA <= s < snd.NXT
      ensures SlotMatches(snd, h', s)
    {
      if s < c.snd.NXT {
        assert SlotMatches(c.snd, h, s);
      }
    }
    forall k | 0 <= k < |h'.segs|
      ensures SentOk(h', k)
    {
      if k < |h.segs| {
        assert SentOk(h, k);
      }
    }
  }

  /** Sending the next segment keeps the direction, provided it fits the window the sender was told of. */
  lemma EmitKeeps(d: Direction, c: Conn, b: seq<Byte>)
    requires Inv(d) && c.snd == d.snd && CanEmit(c.snd) && 0 < |b| <= ARDP_MAX_DLEN
    requires c.snd.NXT as int - c.snd.LCS <= UDP_SEGMAX
    requires var g := DataSegment(c, b).hdr; g.FCNT != 0 && g.SOM <= c.snd.NXT < g.SOM as int + g.FCNT
    ensures Inv(d.(snd := Emit(c, b).snd, data := d.data + [DataSegment(c, b)], h := Recorded(d.h, DataSegment(c, b))))
  {
    hide RcvOk;
    var g := DataSegment(c, b);
    var e := d.(snd := Emit(c, b).snd, h := Recorded(d.h, g));
    EmitKeepsRing(c, b);
    EmitMatches(c, b, d.h);
    RecordedKeepsReceiver(d.rcv, d.h, g);
    forall i | 0 <= i < |e.data|
      ensures DataOk(e, e.data[i])
    {
      assert DataOk(d, d.data[i]);
    }
    forall i | 0 <= i < |e.acks|
      ensures AckOk(e, e.acks[i])
    {
      assert AckOk(d, d.acks[i]);
    }
    assert Inv(e);
    DataAppended(e, g);
  }

  /** Delivering the oldest acknowledgement to the sender. */
  lemma AckKeeps(d: Direction)
    requires Inv(d) && d.acks != []
    ensures Inv(d.(snd := OnAck(d.snd, d.acks[0].hdr), acks := d.acks[1..]))
    ensures d.acks[0].hdr.ACK < d.snd.NXT && d.snd.UNA <= d.acks[0].hdr.ACK + ONE
  {
    var g := d.acks[0];
    assert AckOk(d, g);
    var e := d.(snd := OnAck(d.snd, g.hdr), acks := d.acks[1..]);
    OnAckKeepsRing(d.snd, g.hdr);
    MatchesSame(d.snd, e.snd, d.h);
    forall i | 0 <= i < |e.data|
      ensures DataOk(e, e.data[i])
    {
      assert DataOk(d, d.data[i]);
    }
    forall i | 0 <= i < |e.acks|
      ensures AckOk(e, e.acks[i])
    {
      assert AckOk(d, d.acks[i + 1]);
      assert AckBefore(d.acks[0], d.acks[i + 1]);
    }
    forall i, j | 0 <= i <= j < |e.acks|
      ensures AckBefore(e.acks[i], e.acks[j])
    {
      assert AckBefore(d.acks[i + 1], d.acks[j + 1]);
    }
  }

  /* ---- Receiver half-steps ---- */

  lemma SenderKeepsHist(snd: Snd, h: Hist, h': Hist)
    requires SndHist(snd, h) && h'.segs == h.segs && h'.base == h.base
    ensures SndHist(snd, h')
  {
    forall s | snd.UNA <= s < snd.NXT
      ensures SlotMatches(snd, h', s)
    {
      assert SlotMatches(snd, h, s);
    }
    forall k | 0 <= k < |h'.segs|
      ensures SentOk(h', k)
    {
      assert SentOk(h, k);
    }
  }

  // Changes of the receiver that only let it consume more.
  lemma ReceiverMoved(d: Direction, rcv: Rcv, h: Hist)
    requires Inv(d) && RcvOk(rcv) && RcvHist(rcv, h) && h == d.h.(rd := h.rd)
    requires rcv.CUR == d.rcv.CUR && rcv.LCS >= d.rcv.LCS
    ensures Inv(d.(rcv := rcv, h := h))
  {
    var e := d.(rcv := rcv, h := h);
    SenderKeepsHist(d.snd, d.h, h);
    forall i | 0 <= i < |e.data|
      ensures DataOk(e, e.data[i])
    {
      assert DataOk(d, d.data[i]);
    }
    forall i | 0 <= i < |e.acks|
      ensures AckOk(e, e.acks[i])
    {
      assert AckOk(d, d.acks[i]);
    }
  }

  lemma PopData(d: Direction)
    requires Inv(d) && d.data != []
    ensures Inv(d.(data := d.data[1..])) && DataOk(d, d.data[0])
    ensures forall i :: 0 <= i < |d.data[1..]| ==> DataBefore(d.data[0], d.data[1..][i])
  {
    DataInOrder(d, d.data[1..], seq(|d.data| - 1, k => k + 1));
    assert DataOk(d, d.data[0]);
    forall i | 0 <= i < |d.data[1..]|
      ensures DataBefore(d.data[0], d.data[1..][i])
    {
      assert DataBefore(d.data[0], d.data[i + 1]);
    }
  }

  lemma InSequenceHist(rcv: Rcv, h: Hist, g: Segment)
    requires RcvOk(rcv) && RcvHist(rcv, h) && g.hdr.SEQ as int == rcv.CUR + ONE < h.base + |h.segs|
    requires rcv.CUR < rcv.LCS + UDP_SEGMAX && rcv.CUR + UDP_SEGMAX + ONE < TWO32
    requires h.segs[g.hdr.SEQ - h.base].data == g.data != [] && g.hdr.FCNT != 0
    ensures RcvHist(OnData(rcv, g), h)
  {
    var r := OnData(rcv, g);
    OnDataKeepsRing(rcv, g);
    forall s | r.LCS < s <= r.CUR
      ensures RecvSlotOf(r, s).data == h.segs[s - h.base].data
    {
      if s <= rcv.CUR {
        assert RecvSlotOf(rcv, s).data == h.segs[s - h.base].data;
      }
    }
    assert ReadPartOf(r, h) == ReadPartOf(rcv, h);
  }

  // The oldest data segment, when it is the next in sequence, enlarges what the receiver holds.
  lemma InSequenceKeeps(d: Direction, g: Segment)
    requires Inv(d) && DataOk(d, g) && g.hdr.DLEN != 0 && g.hdr.SEQ as int == d.rcv.CUR + ONE
    requires forall i :: 0 <= i < |d.data| ==> DataBefore(g, d.data[i])
    ensures Inv(d.(rcv := OnData(d.rcv, g)))
    ensures RecvSlotOf(d.rcv, g.hdr.SEQ).FCNT == 0
  {
    var e := d.(rcv := OnData(d.rcv, g));
    assert SentOk(d.h, g.hdr.SEQ - d.h.base);
    OnDataKeepsRing(d.rcv, g);
    InSequenceHist(d.rcv, d.h, g);
    forall i | 0 <= i < |e.data|
      ensures DataOk(e, e.data[i])
    {
      assert DataOk(d, d.data[i]) && DataBefore(g, d.data[i]);
    }
    forall i | 0 <= i < |e.acks|
      ensures AckOk(e, e.acks[i])
    {
      assert AckOk(d, d.acks[i]);
    }
  }

  // A segment at or before CUR is a duplicate and changes nothing.
  lemma DuplicateIgnored(d: Direction, g: Segment)
    requires Inv(d) && DataOk(d, g) && g.hdr.DLEN != 0 && g.hdr.SEQ <= d.rcv.CUR
    ensures OnData(d.rcv, g) == d.rcv
  {
    NearOrder(Add32(d.rcv.CUR, 1), g.hdr.SEQ);
  }

  /* ---- Reading ---- */

  // Bytes of segment k up to `off` and from there on, after all the segments before it.
  lemma FlatStep(segs: seq<Sent>, k: nat, off: nat)
    requires k < |segs| && off <= |segs[k].data|
    ensures Flat(segs[..k]) + segs[k].data[..off] + segs[k].data[off..] == Flat(segs[..k + 1]) + []
  {
    var d := segs[k].data;
    assert segs[..k + 1] == segs[..k] + [segs[k]];
    FlatAppend(segs[..k], segs[k]);
    Reassociate(Flat(segs[..k]), d[..off], d[off..]);
    assert d == d[..off] + d[off..];
  }

  lemma StoredIsSent(rcv: Rcv, h: Hist)
    requires RcvOk(rcv) && RcvHist(rcv, h) && rcv.LCS < rcv.CUR
    ensures var d := h.segs[rcv.LCS + ONE - h.base].data;
            && rcv.ctx.off <= |d| && CtxBytes(rcv) == d[rcv.ctx.off..] && ReadPartOf(rcv, h) == d[..rcv.ctx.off]
  {
    CtxIsRestOfSlot(rcv);
    assert RecvSlotOf(rcv, rcv.LCS + ONE).data == h.segs[rcv.LCS + ONE - h.base].data;
  }

  lemma FinishSlotHist(rcv: Rcv, h: Hist)
    requires RcvOk(rcv) && RcvHist(rcv, h) && rcv.LCS < rcv.CUR
    ensures RcvHist(FinishSlot(rcv), h.(rd := h.rd + CtxBytes(rcv)))
  {
    StoredIsSent(rcv, h);
    FlatStep(h.segs, rcv.LCS + ONE - h.base, rcv.ctx.off);
    FinishSlotKeepsRing(rcv);
  }

  lemma TakeMore(d: seq<Byte>, i: nat, n: nat)
    requires i + n <= |d|
    ensures d[..i + n] == d[..i] + d[i..][..n]
  {
  }

  lemma PartialReadHist(rcv: Rcv, h: Hist, n: nat, r: Rcv)
    requires RcvOk(rcv) && RcvHist(rcv, h) && 0 < n < |CtxBytes(rcv)|
    requires r == rcv.(ctx := rcv.ctx.(off := rcv.ctx.off + n, left := rcv.ctx.left - n))
    ensures RcvHist(r, h.(rd := h.rd + CtxBytes(rcv)[..n]))
  {
    CtxIsRestOfSlot(rcv);
    StoredIsSent(rcv, h);
    hide RcvOk, CtxBytes, Flat;
    var k := rcv.LCS + ONE - h.base;
    var d := h.segs[k].data;
    TakeMore(d, rcv.ctx.off, n);
    Reassociate(Flat(h.segs[..k]), d[..rcv.ctx.off], d[rcv.ctx.off..][..n]);
    forall s | r.LCS < s <= r.CUR
      ensures RecvSlotOf(r, s).data == h.segs[s - h.base].data
    {
      assert RecvSlotOf(rcv, s).data == h.segs[s - h.base].data;
    }
  }

  /** Whatever is read next continues what has been read, segment by segment of the history. */
  lemma {:induction false} ReadHist(rcv: Rcv, h: Hist, n: nat)
    requires RcvOk(rcv) && RcvHist(rcv, h)
    ensures RcvHist(Read(rcv, n).0, h.(rd := h.rd + Read(rcv, n).1))
    decreases n
  {
    hide RcvHist, CtxBytes;
    var r := Read(rcv, n);
    var avail := CtxBytes(rcv);
    CtxIsRestOfSlot(rcv);
    if avail == [] || n == 0 {
      assert h.rd + [] == h.rd;
    } else if n < |avail| {
      PartialReadHist(rcv, h, n, r.0);
    } else {
      FinishSlotKeepsRing(rcv);
      FinishSlotHist(rcv, h);
      ReadHist(FinishSlot(rcv), h.(rd := h.rd + avail), n - |avail|);
      Reassociate(h.rd, avail, Read(FinishSlot(rcv), n - |avail|).1);
    }
  }

  lemma ReadKeeps(d: Direction, n: nat)
    requires Inv(d)
    ensures Inv(d.(rcv := Read(d.rcv, n).0, h := d.h.(rd := d.h.rd + Read(d.rcv, n).1)))
  {
    ReadIsPrefix(d.rcv, n);
    ReadHist(d.rcv, d.h, n);
    ReceiverMoved(d, Read(d.rcv, n).0, d.h.(rd := d.h.rd + Read(d.rcv, n).1));
  }
}
