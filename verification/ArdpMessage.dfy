/**
 How ARDP_Send cuts a message into segments. The message may be handed over in any number of calls, with
 acknowledgements and backpressure in between; the invariant here ties the segments emitted so far and the
 queued bytes to the bytes submitted.
 */
module ArdpMessage {
  import opened Seq32
  import opened ArdpWire
  import opened ArdpSpec
  import opened ArdpRing
  import opened ArdpDirection

  // The longest message whose fragment count fits the 16-bit FCNT field.
  const MAX_MESSAGE: int := 0xFFFF * 1428

  // Index in the history of the first segment of the current message.
  function First(snd: Snd, h: Hist): int { snd.msgSOM - h.base }

  ghost function MessageSegs(snd: Snd, h: Hist): seq<Sent> {
    if 0 <= First(snd, h) <= |h.segs| then h.segs[First(snd, h)..] else []
  }

  // Segment i of the n emitted for the current message.
  ghost predicate FragmentOk(snd: Snd, g: Sent, last: bool) {
    && g.SOM == snd.msgSOM && g.FCNT as int == Ceil(snd.msgLenTotal)
    && (|g.data| == ARDP_MAX_DLEN || (last && snd.msgLenSent == snd.msgLenTotal))
  }

  // `stream` is what has been submitted of the message and is not yet in a segment.
  ghost predicate Cut(snd: Snd, h: Hist, stream: seq<Byte>) {
    var segs := MessageSegs(snd, h);
    && snd.NXT as int == h.base + |h.segs| && 0 <= First(snd, h) <= |h.segs|
    && h.sub == Flat(h.segs) + stream && h.msg == Flat(segs) + stream
    && |Flat(segs)| == snd.msgLenSent && |h.msg| <= snd.msgLenTotal <= MAX_MESSAGE
    && |segs| == Ceil(snd.msgLenSent)
    && (snd.msgLenSent < snd.msgLenTotal ==> snd.msgLenSent == Capacity(|segs|))
    && forall i :: 0 <= i < |segs| ==> FragmentOk(snd, segs[i], i == |segs| - 1)
  }

  ghost predicate MessageOk(snd: Snd, h: Hist) {
    if snd.newMsg then
      && snd.msgLenSent == 0 && Queued(snd) == [] && h.msg == [] && h.sub == Flat(h.segs)
      && snd.NXT as int == h.base + |h.segs|
    else Cut(snd, h, Queued(snd)) && HeldBack(snd)
  }

  // Nothing waits except less than a segment of a message that is not yet handed over completely.
  ghost predicate HeldBack(snd: Snd) {
    Queued(snd) != [] ==> |Queued(snd)| < ARDP_MAX_DLEN && snd.msgLenSent as int + |Queued(snd)| < snd.msgLenTotal
  }

  ghost predicate Complete(snd: Snd) { !snd.newMsg && snd.msgLenSent == snd.msgLenTotal }

  /**
   A message that has gone out completely was cut into exactly FCNT segments with one common SOM, all but the last
   of maximal length, whose payloads concatenate to the bytes submitted, as many as its header announced.
   */
  lemma CompleteMessageIsCut(snd: Snd, h: Hist)
    requires MessageOk(snd, h) && Complete(snd)
    ensures var segs := MessageSegs(snd, h);
            && h.msg == Flat(segs) && |h.msg| == snd.msgLenTotal
            && forall i :: 0 <= i < |segs| ==>
                 && segs[i].FCNT as int == |segs| && segs[i].SOM == snd.msgSOM
                 && (i < |segs| - 1 ==> |segs[i].data| == ARDP_MAX_DLEN)
  {
    var segs := MessageSegs(snd, h);
    assert |Queued(snd)| == 0;
    assert h.msg == Flat(segs);
    forall i | 0 <= i < |segs|
      ensures segs[i].FCNT as int == |segs| && segs[i].SOM == snd.msgSOM
      ensures (i < |segs| - 1 ==> |segs[i].data| == ARDP_MAX_DLEN)
    {
      assert FragmentOk(snd, segs[i], i == |segs| - 1);
    }
  }

  lemma FragmentCountIsCeil(total: U32)
    requires total <= MAX_MESSAGE
    ensures FragmentCount(total) == Ceil(total)
  {
    assert Wrap32(total + (ARDP_MAX_DLEN - 1)) == total as int + 1427;
    assert Segments(total as int + 1427) <= 0xFFFF;
  }

  lemma CeilNext(k: nat, n: nat)
    requires 0 < n <= ARDP_MAX_DLEN
    ensures Ceil(Capacity(k)) == k && Ceil(Capacity(k) + n) == k + 1
  {
  }

  lemma CeilGrows(n: nat, m: nat)
    requires n < m
    ensures n == Capacity(Ceil(n)) ==> Ceil(n) < Ceil(m)
  {
  }

  // The numbers of the segment about to be emitted are those a receiver accepts.
  lemma NextFragment(c: Conn, h: Hist, stream: seq<Byte>, d: seq<Byte>)
    requires Cut(c.snd, h, stream) && stream != [] && d == FirstPiece(stream)
    ensures var g := DataSegment(c, d).hdr;
            && g.FCNT as int == Ceil(c.snd.msgLenTotal) && g.FCNT != 0
            && g.SOM == c.snd.msgSOM && g.SOM <= c.snd.NXT < g.SOM as int + g.FCNT
    ensures c.snd.msgLenSent < c.snd.msgLenTotal
  {
    assert |h.msg| == c.snd.msgLenSent as int + |stream|;
    FragmentCountIsCeil(c.snd.msgLenTotal);
    CeilGrows(c.snd.msgLenSent, c.snd.msgLenTotal);
  }

  lemma MessageSegsGrow(c: Conn, h: Hist, d: seq<Byte>)
    requires 0 <= First(c.snd, h) <= |h.segs|
    ensures var g := DataSegment(c, d);
            MessageSegs(Emit(c, d).snd, Recorded(h, g)) == MessageSegs(c.snd, h) + [Sent(g.hdr.SOM, g.hdr.FCNT, d)]
  {
  }

  lemma EmitLengths(c: Conn, h: Hist, stream: seq<Byte>, d: seq<Byte>)
    requires Cut(c.snd, h, stream) && stream != [] && d == FirstPiece(stream) && !Waits(c.snd, |d|)
    ensures var snd := Emit(c, d).snd;
            && snd.msgLenSent as int == c.snd.msgLenSent + |d| <= snd.msgLenTotal as int == c.snd.msgLenTotal
            && Ceil(snd.msgLenSent) == Ceil(c.snd.msgLenSent) + 1
            && (|d| == ARDP_MAX_DLEN || snd.msgLenSent == snd.msgLenTotal)
            && (snd.msgLenSent < snd.msgLenTotal ==> snd.msgLenSent == Capacity(Ceil(snd.msgLenSent)))
  {
    CutLengths(c.snd, h, stream);
    hide Cut, Ceil, Capacity;
    PieceFits(c.snd.msgLenSent, c.snd.msgLenTotal, |d|);
    NoWrapSent(c.snd.msgLenSent, c.snd.msgLenTotal, |d|);
  }

  // While something is pending, what has been sent fills its segments.
  lemma CutLengths(snd: Snd, h: Hist, stream: seq<Byte>)
    requires Cut(snd, h, stream) && stream != []
    ensures snd.msgLenSent as int + |stream| <= snd.msgLenTotal && snd.msgLenSent == Capacity(Ceil(snd.msgLenSent))
  {
    hide FragmentOk, Flat, Ceil, Capacity;
    assert |h.msg| == snd.msgLenSent as int + |stream|;
  }

  // A full piece, or the last one, behind full ones.
  lemma PieceFits(sent: nat, total: nat, n: nat)
    requires sent == Capacity(Ceil(sent)) && 0 < n <= ARDP_MAX_DLEN && sent + n <= total
    ensures Ceil(sent + n) == Ceil(sent) + 1
    ensures n == ARDP_MAX_DLEN ==> sent + n == Capacity(Ceil(sent + n))
  {
    CeilNext(Ceil(sent), n);
  }

  lemma NoWrapSent(sent: U32, total: U32, n: nat)
    requires sent as int + n <= total
    ensures Wrap32(sent + n) == sent as int + n && Sub32(total, sent) == total as int - sent
  {
  }

  lemma SegmentCarries(c: Conn, d: seq<Byte>)
    ensures DataSegment(c, d).data == d
  {
  }

  lemma SplitAt(stream: seq<Byte>, d: seq<Byte>)
    requires d <= stream
    ensures stream == d + stream[|d|..]
  {
  }

  // The bytes of the segments and of the message once a piece has been emitted.
  lemma EmitBytes(c: Conn, h: Hist, stream: seq<Byte>, d: seq<Byte>)
    requires 0 <= First(c.snd, h) <= |h.segs| && d <= stream
    requires h.sub == Flat(h.segs) + stream && h.msg == Flat(MessageSegs(c.snd, h)) + stream
    ensures var h' := Recorded(h, DataSegment(c, d));
            var segs' := MessageSegs(Emit(c, d).snd, h');
            && h'.sub == Flat(h'.segs) + stream[|d|..] && h'.msg == Flat(segs') + stream[|d|..]
            && |segs'| == |MessageSegs(c.snd, h)| + 1 && |Flat(segs')| == |Flat(MessageSegs(c.snd, h))| + |d|
  {
    hide Flat, Emit, MessageSegs, First;
    var segs := MessageSegs(c.snd, h);
    var g := Sent(DataSegment(c, d).hdr.SOM, DataSegment(c, d).hdr.FCNT, d);
    MessageSegsGrow(c, h, d);
    SegmentCarries(c, d);
    hide DataSegment;
    FlatAppend(segs, g);
    FlatAppend(h.segs, g);
    SplitAt(stream, d);
    Reassociate(Flat(segs), d, stream[|d|..]);
    Reassociate(Flat(h.segs), d, stream[|d|..]);
  }

  // The segments of the message are fragments as they should be, the new one included.
  lemma EmitFragments(c: Conn, h: Hist, stream: seq<Byte>, d: seq<Byte>)
    requires Cut(c.snd, h, stream) && stream != [] && d == FirstPiece(stream) && !Waits(c.snd, |d|)
    ensures var snd := Emit(c, d).snd;
            var segs' := MessageSegs(snd, Recorded(h, DataSegment(c, d)));
            forall i :: 0 <= i < |segs'| ==> FragmentOk(snd, segs'[i], i == |segs'| - 1)
  {
    var snd, h' := Emit(c, d).snd, Recorded(h, DataSegment(c, d));
    var segs, segs' := MessageSegs(c.snd, h), MessageSegs(snd, h');
    NextFragment(c, h, stream, d);
    EmitLengths(c, h, stream, d);
    MessageSegsGrow(c, h, d);
    hide Flat, Waits, FirstPiece, Ceil, Capacity, MessageSegs, Recorded;
    forall i | 0 <= i < |segs'|
      ensures FragmentOk(snd, segs'[i], i == |segs'| - 1)
    {
      if i < |segs| {
        assert FragmentOk(c.snd, segs[i], i == |segs| - 1);
      }
    }
  }

  lemma EmitNumbers(c: Conn, d: seq<Byte>)
    requires c.snd.NXT + UDP_SEGMAX < TWO32
    ensures Emit(c, d).snd.NXT as int == c.snd.NXT + ONE && Emit(c, d).snd.msgSOM == c.snd.msgSOM
  {
    hide SlotWith, RingIndex, Add32;
    NextNumber(c.snd.NXT);
  }

  lemma NextNumber(s: U32)
    requires s + UDP_SEGMAX < TWO32
    ensures Add32(s, 1) == s as int + ONE
  {
  }

  /** Emitting a piece moves it from the pending stream to the segments, and nothing else changes. */
  lemma EmitCuts(c: Conn, h: Hist, stream: seq<Byte>, d: seq<Byte>)
    requires Cut(c.snd, h, stream) && stream != [] && d == FirstPiece(stream) && !Waits(c.snd, |d|)
    requires c.snd.NXT + UDP_SEGMAX < TWO32
    ensures Cut(Emit(c, d).snd, Recorded(h, DataSegment(c, d)), stream[|d|..])
  {
    EmitBytes(c, h, stream, d);
    EmitFragments(c, h, stream, d);
    EmitLengths(c, h, stream, d);
    EmitNumbers(c, d);
    hide Flat, Waits, FirstPiece, Ceil, Capacity, MessageSegs, FragmentOk, Emit, DataSegment;
  }

  function RecordedAll(h: Hist, out: seq<Segment>): Hist
    decreases |out|
  {
    if out == [] then h else RecordedAll(Recorded(h, out[0]), out[1..])
  }

  // The assertion inside the loop of ARDP_Send: every slot that is filled is free.
  ghost predicate FillsFreeSlots(c: Conn, stream: seq<Byte>)
    decreases |stream|
  {
    stream == [] ||
    (&& !SendSlotOf(c.snd, c.snd.NXT).inFlight
     && var d := FirstPiece(stream);
        !Waits(c.snd, |d|) ==> FillsFreeSlots(Emit(c, d), stream[|d|..]))
  }

  // Everything in flight and everything queued still fits, here and at the peer.
  ghost predicate Fits(snd: Snd, n: nat) {
    && snd.pending + Ceil(n) <= UDP_SEGMAX
    && snd.NXT as int - 1 + Ceil(n) <= snd.LCS + UDP_SEGMAX
    && snd.NXT + UDP_SEGMAX + Ceil(n) <= TWO32
  }

  // What the loop of ARDP_Send leaves of a direction and its message.
  ghost predicate SentAll(d: Direction, c: Conn, stream: seq<Byte>, accept: nat) {
    var r := SendBytes(c, stream, accept);
    var h := RecordedAll(d.h, r.1);
    && r.2 == Ok && Inv(d.(snd := r.0.snd, data := d.data + r.1, h := h))
    && !r.0.snd.newMsg && MessageOk(r.0.snd, h)
    && FillsFreeSlots(c, stream)
  }

  ghost predicate LoopReady(d: Direction, c: Conn, stream: seq<Byte>) {
    && Inv(d) && c.snd == d.snd && !c.snd.newMsg && Cut(c.snd, d.h, stream) && Fits(c.snd, |stream|)
    && (stream == [] ==> Queued(c.snd) == [])
  }

  // The message with the rest of the stream queued.
  lemma QueuedMessage(c: Conn, h: Hist, stream: seq<Byte>)
    requires Cut(c.snd, h, stream) && !c.snd.newMsg && stream != [] && Waits(c.snd, |FirstPiece(stream)|)
    requires Queued(Enqueue(c, stream).snd) == stream
    ensures |stream| < ARDP_MAX_DLEN && MessageOk(Enqueue(c, stream).snd, h)
  {
    hide Flat, Ceil, Capacity, Queued;
    var snd := Enqueue(c, stream).snd;
    assert |h.msg| == c.snd.msgLenSent as int + |stream|;
    NoWrapSent(c.snd.msgLenSent, c.snd.msgLenTotal, |stream|);
    assert MessageSegs(snd, h) == MessageSegs(c.snd, h);
    var segs := MessageSegs(snd, h);
    forall i | 0 <= i < |segs|
      ensures FragmentOk(snd, segs[i], i == |segs| - 1)
    {
      assert FragmentOk(c.snd, segs[i], i == |segs| - 1);
    }
  }

  lemma QueueRest(d: Direction, c: Conn, stream: seq<Byte>, accept: nat)
    requires LoopReady(d, c, stream)
    requires stream != [] && Waits(c.snd, |FirstPiece(stream)|)
    ensures SentAll(d, c, stream, accept)
  {
    hide Cut, MessageOk;
    CeilStep(|stream|);
    EnqueueKeepsRing(c, stream);
    var snd := Enqueue(c, stream).snd;
    QueuedMessage(c, d.h, stream);
    MatchesSame(c.snd, snd, d.h);
    SenderMoved(d, snd, d.h);
    assert d.data + [] == d.data;
    assert SendSlotOk(c.snd, c.snd.NXT);
  }

  function AfterEmit(d: Direction, c: Conn, b: seq<Byte>): Direction {
    d.(snd := Emit(c, b).snd, data := d.data + [DataSegment(c, b)], h := Recorded(d.h, DataSegment(c, b)))
  }

  lemma EmitFirst(d: Direction, c: Conn, stream: seq<Byte>, b: seq<Byte>)
    requires LoopReady(d, c, stream)
    requires stream != [] && b == FirstPiece(stream) && !Waits(c.snd, |b|)
    ensures LoopReady(AfterEmit(d, c, b), Emit(c, b), stream[|b|..])
    ensures Ceil(|stream|) == 1 + Ceil(|stream[|b|..]|) && !SendSlotOf(c.snd, c.snd.NXT).inFlight
  {
    CeilStep(|stream|);
    NextFragment(c, d.h, stream, b);
    EmitKeeps(d, c, b);
    EmitCuts(c, d.h, stream, b);
    EmitKeepsRing(c, b);
    assert SendSlotOk(c.snd, c.snd.NXT);
  }

  lemma EmitThenRest(d: Direction, c: Conn, stream: seq<Byte>, b: seq<Byte>, accept: nat)
    requires stream != [] && b == FirstPiece(stream) && !Waits(c.snd, |b|) && accept > 0
    requires !SendSlotOf(c.snd, c.snd.NXT).inFlight
    requires SentAll(AfterEmit(d, c, b), Emit(c, b), stream[|b|..], accept - 1)
    ensures SentAll(d, c, stream, accept)
  {
    hide Inv, MessageOk, Emit, DataSegment, Recorded, Waits, FirstPiece;
    var g := DataSegment(c, b);
    var r := SendBytes(Emit(c, b), stream[|b|..], accept - 1);
    assert SendBytes(c, stream, accept) == (r.0, [g] + r.1, r.2);
    assert d.data + ([g] + r.1) == d.data + [g] + r.1;
    assert ([g] + r.1)[1..] == r.1;
    assert RecordedAll(d.h, [g] + r.1) == RecordedAll(Recorded(d.h, g), r.1);
  }

  lemma NothingLeft(d: Direction, c: Conn, accept: nat)
    requires LoopReady(d, c, [])
    ensures SentAll(d, c, [], accept)
  {
    assert d.data + [] == d.data;
  }

  /** The whole loop: every segment it emits keeps the direction and the cut of the message. */
  lemma {:induction false} SendLoopKeeps(d: Direction, c: Conn, stream: seq<Byte>, accept: nat)
    requires LoopReady(d, c, stream) && Ceil(|stream|) <= accept
    ensures SentAll(d, c, stream, accept)
    decreases |stream|, 1
  {
    if stream == [] {
      NothingLeft(d, c, accept);
    } else if Waits(c.snd, |FirstPiece(stream)|) {
      QueueRest(d, c, stream, accept);
    } else {
      var b := FirstPiece(stream);
      SendRestKeeps(d, c, stream, b, accept);
      EmitThenRest(d, c, stream, b, accept);
    }
  }

  lemma {:induction false} SendRestKeeps(d: Direction, c: Conn, stream: seq<Byte>, b: seq<Byte>, accept: nat)
    requires LoopReady(d, c, stream) && Ceil(|stream|) <= accept
    requires stream != [] && b == FirstPiece(stream) && !Waits(c.snd, |b|)
    ensures accept > 0 && SentAll(AfterEmit(d, c, b), Emit(c, b), stream[|b|..], accept - 1)
    ensures !SendSlotOf(c.snd, c.snd.NXT).inFlight
    decreases |stream|, 0
  {
    hide Inv, LoopReady, SentAll;
    EmitFirst(d, c, stream, b);
    SendLoopKeeps(AfterEmit(d, c, b), Emit(c, b), stream[|b|..], accept - 1);
  }
}
