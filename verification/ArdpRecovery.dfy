/**
 Go-back-N recovers: from every good state of the link, whatever is still in the channels may be lost, and one
 retransmission, one read and one acknowledgement later the reader has every byte that was ever sent in a segment,
 all send buffers are free and the peer's window is fully open.
 */
module ArdpRecovery {
  import opened Seq32
  import opened ArdpWire
  import opened ArdpSpec
  import opened ArdpRing
  import opened ArdpDirection
  import opened ArdpMessage
  import opened ArdpNetwork

  // m is a good state that a proper run leads to from n.
  ghost predicate Reaches(n: Net, m: Net) {
    NetInv(m) && exists run :: Proper(n, run) && After(n, run) == m
  }

  lemma ReachesSelf(n: Net)
    requires NetInv(n)
    ensures Reaches(n, n)
  {
    hide NetInv, Step;
    assert Proper(n, []) && After(n, []) == n;
  }

  lemma Advance(n: Net, m: Net, side: Side, e: Event)
    requires Reaches(n, m) && Enabled(m, side, e)
    ensures Reaches(n, Step(m, side, e))
  {
    hide NetInv, Step, Enabled;
    StepKeeps(m, side, e);
    var run :| Proper(n, run) && After(n, run) == m;
    var run' := run + [(side, e)];
    assert run'[..|run|] == run;
    assert Proper(n, run') && After(n, run') == Step(m, side, e);
  }

  // All segments in both channels can be lost.
  lemma {:induction false} LoseForth(n: Net, m: Net)
    requires Reaches(n, m)
    ensures Reaches(n, m.(ab := []))
    decreases |m.ab|
  {
    hide Reaches, Submitted, Arrived, Read, Resend;
    if m.ab == [] {
      assert m == m.(ab := []);
    } else {
      Advance(n, m, A, Lose(0));
      assert m.ab[..0] + m.ab[1..] == m.ab[1..];
      LoseForth(n, m.(ab := m.ab[1..]));
    }
  }

  lemma {:induction false} LoseBack(n: Net, m: Net)
    requires Reaches(n, m)
    ensures Reaches(n, m.(ba := []))
    decreases |m.ba|
  {
    hide Reaches, Submitted, Arrived, Read, Resend;
    if m.ba == [] {
      assert m == m.(ba := []);
    } else {
      Advance(n, m, B, Lose(0));
      assert m.ba[..0] + m.ba[1..] == m.ba[1..];
      LoseBack(n, m.(ba := m.ba[1..]));
    }
  }

  // ab holds exactly the segments s, s + 1, ..., NXT - 1.
  ghost predicate Consecutive(m: Net, s: int) {
    && |m.ab| == m.a.snd.NXT as int - s
    && forall i :: 0 <= i < |m.ab| ==>
         m.ab[i].hdr.SEQ as int == s + i && m.ab[i].hdr.DLEN != 0 && !Has(m.ab[i].hdr.flags, FLAG_NUL)
  }

  lemma FullResend(c: Conn)
    requires SndOk(c.snd)
    ensures ResendCount(c, false, UDP_SEGMAX) == c.snd.NXT as int - c.snd.UNA
  {
  }

  // Segment k of a retransmission is a data segment with the k-th number of the window.
  lemma ResentNumber(snd: Snd, h: Hist, c: Conn, k: nat)
    requires SndOk(snd) && SndHist(snd, h) && c.snd == snd && k < ResendCount(c, false, UDP_SEGMAX)
    ensures var g := Resend(c, false, UDP_SEGMAX).1[k].hdr;
            g.SEQ as int == snd.UNA + k && g.DLEN != 0 && !Has(g.flags, FLAG_NUL)
  {
    FullResend(c);
    ResentAt(c, false, UDP_SEGMAX, k);
    hide Resend, ResendCount;
    assert SendSlotOk(snd, snd.UNA + k) && SlotMatches(snd, h, snd.UNA + k);
  }

  lemma ResendAll(m: Net)
    requires Inv(Forth(m)) && m.ab == []
    ensures var m' := Step(m, A, Timer(false, UDP_SEGMAX));
            && Consecutive(m', m.a.snd.UNA) && m' == m.(a := m'.a, ab := m'.ab)
            && m'.a == m.a.(snd := m.a.snd.(buf := m'.a.snd.buf))
  {
    hide SndHist, RcvHist, RcvOk, Window, ChannelsOk, Resend;
    var c := m.a;
    FullResend(c);
    hide ResendCount, SndOk;
    assert SndOk(c.snd);
    if c.snd.pending != 0 {
      var r := Resend(c, false, UDP_SEGMAX);
      ResendFrame(c, false, UDP_SEGMAX);
      assert [] + r.1 == r.1;
      forall i | 0 <= i < |r.1|
        ensures r.1[i].hdr.SEQ as int == c.snd.UNA + i && r.1[i].hdr.DLEN != 0 && !Has(r.1[i].hdr.flags, FLAG_NUL)
      {
        ResentNumber(c.snd, m.ha, c, i);
      }
    } else {
      assert c.snd.UNA == c.snd.NXT by { NothingPending(c.snd); }
    }
  }

  lemma NothingPending(snd: Snd)
    requires SndOk(snd)
    ensures snd.pending == 0 <==> snd.UNA == snd.NXT
  {
  }

  // The arrival of the next of the retransmitted segments at b.
  lemma ArriveOne(m: Net, s: int)
    requires NetInv(m) && m.ab != [] && Consecutive(m, s) && s <= m.b.rcv.CUR + ONE
    ensures Enabled(m, B, Arrival)
    ensures var m' := Step(m, B, Arrival);
            && m' == m.(b := m'.b, ab := m.ab[1..])
            && m'.b.rcv.CUR >= s && m'.b.rcv.CUR >= m.b.rcv.CUR
  {
    hide MessageOk, OnAck, Validate, EncodeSegment, SndOk, SndHist, RcvHist, Unread;
    var w := Swap(m);
    var g := w.ba[0];
    assert g.hdr.SEQ as int == s;
    SegmentsAccepted(w, 0);
    assert DataOk(Back(w), g);
    ArrivalOrder(w, g);
    assert w.ab + [] == w.ab;
    ArrivalKeeps(w);
  }

  lemma {:induction false} ArriveAll(n: Net, m: Net, s: int) returns (m': Net)
    requires Reaches(n, m) && Consecutive(m, s) && s <= m.b.rcv.CUR + ONE
    ensures Reaches(n, m') && m'.ab == []
    ensures m' == m.(b := m'.b, ab := []) && m'.b.rcv.CUR + ONE >= m.a.snd.NXT
    decreases |m.ab|
  {
    hide Reaches, NetInv, Step, Enabled;
    if m.ab == [] {
      m' := m;
    } else {
      ReachesInv(n, m);
      ArriveOne(m, s);
      Advance(n, m, B, Arrival);
      var m1 := Step(m, B, Arrival);
      assert Consecutive(m1, s + 1);
      m' := ArriveAll(n, m1, s + 1);
    }
  }

  lemma ReachesInv(n: Net, m: Net)
    requires Reaches(n, m)
    ensures NetInv(m)
  {
    hide NetInv;
  }

  // b reads everything it holds: then it has every byte up to CUR.
  lemma ReadAll(m: Net, k: nat)
    requires NetInv(m) && k == |Unread(m.b.rcv)| && m.b.rcv.CUR + ONE >= m.a.snd.NXT
    ensures var m' := Step(m, B, Consume(k));
            && m' == m.(b := m.b.(rcv := m'.b.rcv), ha := m.ha.(rd := Flat(m.ha.segs)))
            && m'.b.rcv.CUR == m'.b.rcv.LCS == m.b.rcv.CUR
  {
    hide MessageOk, SndOk, ChannelsOk, Read, Unread;
    var r := Read(m.b.rcv, k);
    ReadIsPrefix(m.b.rcv, k);
    AllRead(r.0);
    HeldBytes(m.b.rcv, m.ha);
    assert r.1 == Unread(m.b.rcv);
    assert m.ha.segs[..m.b.rcv.CUR + ONE - m.ha.base] == m.ha.segs;
  }

  lemma AllRead(rcv: Rcv)
    requires RcvOk(rcv)
    ensures Unread(rcv) == [] <==> rcv.LCS == rcv.CUR
  {
    CtxIsRestOfSlot(rcv);
  }

  // The acknowledgement of everything, on its way to a.
  lemma AckArrives(m: Net)
    requires NetInv(m) && m.ba == [HeaderOnly(m.b, false)] && m.b.rcv.CUR + ONE >= m.a.snd.NXT
    requires m.b.rcv.LCS == m.b.rcv.CUR
    ensures Enabled(m, A, Arrival)
    ensures var m' := Step(m, A, Arrival);
            && m' == m.(a := m.a.(snd := m'.a.snd), ba := [])
            && m'.a.snd.UNA == m'.a.snd.NXT == m.a.snd.NXT && m'.a.snd.LCS as int == m.a.snd.NXT as int - 1
            && SndOk(m'.a.snd) && m'.a.snd.SEGMAX == UDP_SEGMAX && Queued(m'.a.snd) == Queued(m.a.snd)
  {
    hide MessageOk, Validate, EncodeSegment, RcvOk, OnAck;
    var g := m.ba[0];
    SegmentsAccepted(m, 0);
    assert AckOk(Forth(m), Forth(m).acks[0]);
    assert DataOk(Back(m), Back(m).data[0]);
    ArrivalOrder(m, g);
    OnAckKeepsRing(m.a.snd, g.hdr);
    assert OnAck(m.a.snd, g.hdr).SEGMAX == m.a.snd.SEGMAX by { AckFrame(m.a.snd, g.hdr); }
    assert m.ab + [] == m.ab;
    assert m.ba[1..] == [];
  }

  lemma AckFrame(snd: Snd, h: Header)
    ensures OnAck(snd, h).SEGMAX == snd.SEGMAX
  {
  }

  // The reader has everything that was sent, and the sender may send a full window again.
  ghost predicate Recovered(n: Net, m: Net) {
    && m.ha == n.ha.(rd := Flat(n.ha.segs))
    && SndOk(m.a.snd) && m.a.snd.NXT == n.a.snd.NXT && m.a.snd.pending == 0 && Queued(m.a.snd) == Queued(n.a.snd)
    && LocalRoom(m.a.snd) == RemoteRoom(m.a.snd) == Capacity(UDP_SEGMAX)
  }

  /**
   From every good state there is a proper run, beginning with the loss of everything in the channels, after which
   the other side has read every segment ever sent and a full window can be sent.
   */
  lemma RecoveryIsPossible(n: Net) returns (m: Net)
    requires NetInv(n)
    ensures Reaches(n, m) && Recovered(n, m)
  {
    hide Reaches, NetInv, Step, Enabled, Unread, HeaderOnly;
    ReachesSelf(n);
    LoseForth(n, n);
    LoseBack(n, n.(ab := []));
    var m1 := n.(ab := [], ba := []);
    var m2 := Retransmitted(n, m1);
    ReachesInv(n, m2);
    m := ArriveAll(n, m2, n.a.snd.UNA);
    m := ReadAndAck(n, m);
  }

  lemma Retransmitted(n: Net, m: Net) returns (m': Net)
    requires Reaches(n, m) && m.ab == []
    ensures Reaches(n, m') && Consecutive(m', m.a.snd.UNA) && m.a.snd.UNA <= m.b.rcv.CUR + ONE
    ensures m' == m.(a := m'.a, ab := m'.ab) && m'.a == m.a.(snd := m.a.snd.(buf := m'.a.snd.buf))
    ensures Queued(m'.a.snd) == Queued(m.a.snd)
  {
    hide Reaches, Step, Enabled, MessageOk, SndHist, RcvHist, RcvOk, ChannelsOk, SndOk, Resend;
    ReachesInv(n, m);
    ResendAll(m);
    assert Enabled(m, A, Timer(false, UDP_SEGMAX)) by { TimerEnabled(m); }
    Advance(n, m, A, Timer(false, UDP_SEGMAX));
    m' := Step(m, A, Timer(false, UDP_SEGMAX));
    assert Queued(m'.a.snd) == Queued(m.a.snd) by { TimerQueue(m); }
  }

  lemma TimerEnabled(m: Net)
    ensures Enabled(m, A, Timer(false, UDP_SEGMAX))
  {
  }

  lemma TimerQueue(m: Net)
    requires NetInv(m)
    ensures Queued(Step(m, A, Timer(false, UDP_SEGMAX)).a.snd) == Queued(m.a.snd)
  {
    hide Resend, Inv, MessageOk;
    if m.a.snd.pending != 0 {
      ResendKeepsDirection(m, false, UDP_SEGMAX);
    }
  }

  lemma ReadAndAck(n: Net, m: Net) returns (m': Net)
    requires Reaches(n, m) && m.ba == [] && m.ab == [] && m.b.rcv.CUR + ONE >= m.a.snd.NXT
    ensures Reaches(n, m') && m'.ha == m.ha.(rd := Flat(m.ha.segs)) && m'.a.snd.NXT == m.a.snd.NXT
    ensures Recovered(m, m')
  {
    hide Reaches, NetInv, Unread, SndOk, Queued, Step, Enabled;
    var k := |Unread(m.b.rcv)|;
    ReachesInv(n, m);
    ReadAll(m, k);
    BareAck(m, k);
    Advance(n, m, B, Consume(k));
    var m1 := Step(m, B, Consume(k));
    BareAck(m1, k);
    Advance(n, m1, B, Bare(false));
    var m2 := Step(m1, B, Bare(false));
    ReachesInv(n, m2);
    AckArrives(m2);
    Advance(n, m2, A, Arrival);
    m' := Step(m2, A, Arrival);
    NothingPending(m'.a.snd);
  }

  lemma BareAck(m: Net, k: nat)
    ensures Enabled(m, B, Consume(k)) && Enabled(m, B, Bare(false))
    ensures m.ba == [] ==> Step(m, B, Bare(false)) == m.(ba := [HeaderOnly(m.b, false)])
  {
  }
}
