/**
 What a gap costs. The receiver stores any segment from CUR + 1 on and acknowledges it cumulatively; the number that was
 skipped counts as received, the sender forgets it, and whatever happens afterwards it is never stored.
 */
module ArdpGap {
  import opened Seq32
  import opened ArdpWire
  import opened ArdpSpec
  import opened ArdpRing
  import opened ArdpDirection
  import opened ArdpMessage
  import opened ArdpNetwork

  /* ---- The life of a receiver ---- */

  datatype Event = Arrives(g: Segment) | Takes(n: nat)

  // ArdpMachine stores the segment.
  predicate Stores(rcv: Rcv, g: Segment) {
    && !SeqLt(Add32(rcv.CUR, 1), g.hdr.ACKNXT) && !Has(g.hdr.flags, FLAG_NUL) && g.hdr.DLEN != 0
    && SeqLet(Add32(rcv.CUR, 1), g.hdr.SEQ)
  }

  function Next(rcv: Rcv, e: Event): Rcv {
    match e
    case Arrives(g) => if Stores(rcv, g) then OnData(rcv, g) else rcv
    case Takes(n) => Read(rcv, n).0
  }

  function Life(rcv: Rcv, events: seq<Event>): Rcv
    decreases |events|
  { if events == [] then rcv else var k := |events| - 1; Next(Life(rcv, events[..k]), events[k]) }

  lemma MachineStores(c: Conn, g: Segment)
    ensures Machine(c, g).0.rcv == Next(c.rcv, Arrives(g))
  {
    hide OnAck, Has;
  }

  // Sequence numbers that arrive are less than half the range away from the next one expected.
  predicate Near(rcv: Rcv, e: Event) {
    e.Arrives? ==> rcv.CUR + ONE < TWO32 && -TWO31 <= rcv.CUR + ONE - e.g.hdr.SEQ < TWO31
  }

  ghost predicate AlwaysNear(rcv: Rcv, events: seq<Event>)
    decreases |events|
  {
    events == [] ||
    (var k := |events| - 1; AlwaysNear(rcv, events[..k]) && Near(Life(rcv, events[..k]), events[k]))
  }

  predicate StoredBy(rcv: Rcv, e: Event, s: int) { e.Arrives? && e.g.hdr.SEQ == s && Stores(rcv, e.g) }

  // At some point of the life, a segment with number s is stored.
  ghost predicate StoredIn(rcv: Rcv, events: seq<Event>, s: int)
    decreases |events|
  {
    events != [] &&
    (var k := |events| - 1; StoredIn(rcv, events[..k], s) || StoredBy(Life(rcv, events[..k]), events[k], s))
  }

  lemma {:induction false} ReadKeepsCur(rcv: Rcv, n: nat)
    ensures Read(rcv, n).0.CUR == rcv.CUR
    decreases n
  {
    var avail := CtxBytes(rcv);
    if avail != [] && n >= |avail| && n > 0 {
      ReadKeepsCur(FinishSlot(rcv), n - |avail|);
    }
  }

  lemma CurGrows(rcv: Rcv, e: Event)
    requires Near(rcv, e)
    ensures Next(rcv, e).CUR >= rcv.CUR
    ensures e.Arrives? && Stores(rcv, e.g) ==> e.g.hdr.SEQ > rcv.CUR
  {
    match e
    case Takes(n) => ReadKeepsCur(rcv, n);
    case Arrives(g) => NearOrder(Add32(rcv.CUR, 1), g.hdr.SEQ);
  }

  lemma NotStored(rcv: Rcv, e: Event, s: int)
    requires Near(rcv, e) && s <= rcv.CUR
    ensures !StoredBy(rcv, e, s)
  {
    CurGrows(rcv, e);
  }

  /** CUR never goes back, and no number up to it is stored again, whatever arrives. */
  lemma {:induction false} NeverStored(rcv: Rcv, events: seq<Event>, s: int)
    requires s <= rcv.CUR && AlwaysNear(rcv, events)
    ensures Life(rcv, events).CUR >= rcv.CUR && !StoredIn(rcv, events, s)
    decreases |events|
  {
    hide StoredBy, Stores, Next, Near;
    if events != [] {
      var last := |events| - 1;
      var front := events[..last];
      NeverStored(rcv, front, s);
      CurGrows(Life(rcv, front), events[last]);
      NotStored(Life(rcv, front), events[last], s);
    }
  }

  /* ---- A gap on a good link ---- */

  /**
   From every good state: if the oldest segment leaves a gap, the skipped number is acknowledged by whatever a sends
   next, the sender forgets it as soon as that arrives, and it is never stored in any later life of the receiver.
   */
  lemma GapLosesSegment(n: Net, nul: bool, events: seq<Event>)
    requires NetInv(n) && n.ba != [] && !NoGap(n)
    requires AlwaysNear(Arrived(n).a.rcv, events)
    ensures var skipped, m := n.a.rcv.CUR + ONE, Arrived(n);
            var ack := HeaderOnly(m.a, nul).hdr;
            && m.b.snd == n.b.snd && m.b.snd.UNA <= skipped < m.b.snd.NXT
            && skipped <= ack.ACK && SndOk(OnAck(m.b.snd, ack)) && skipped < OnAck(m.b.snd, ack).UNA
            && !StoredIn(m.a.rcv, events, skipped)
  {
    var m, skipped := Arrived(n), n.a.rcv.CUR + ONE;
    GapArrives(n);
    NeverStored(m.a.rcv, events, skipped);
    hide Arrived, OnAck, NetInv, SndOk, StoredIn, Life, AlwaysNear, NoGap;
    OnAckKeepsRing(m.b.snd, HeaderOnly(m.a, nul).hdr);
  }

  lemma GapArrives(n: Net)
    requires NetInv(n) && n.ba != [] && !NoGap(n)
    ensures var m, g := Arrived(n), n.ba[0];
            && m.b == n.b && SndOk(m.b.snd)
            && m.b.snd.UNA <= n.a.rcv.CUR + ONE < g.hdr.SEQ == m.a.rcv.CUR < m.b.snd.NXT
  {
    hide MessageOk, OnAck, Validate, EncodeSegment, SndOk, RcvOk;
    var g := n.ba[0];
    SegmentsAccepted(n, 0);
    assert DataOk(Back(n), Back(n).data[0]);
    ArrivalFlags(n, g);
    ArrivalOrder(n, g);
  }
}
