/**
 The ARDP segment on the wire: the 36-byte header that MarshalHeader lays out, the three fields that a
 retransmission patches in place, and the checks that RecvValidateSegment makes on an arriving datagram.
 */
module ArdpWire {
  import opened Seq32

  const ARDP_HEADER_SIZE: int := 36
  const ARDP_SYN_HEADER_SIZE: int := 28
  // Largest payload of a segment: UDP_SEGBMAX - (UDP_HEADER_SIZE + ARDP_HEADER_SIZE) = 1472 - (8 + 36).
  const ARDP_MAX_DLEN: int := 1428

  const FLAG_SYN: Byte := 0x01
  const FLAG_ACK: Byte := 0x02
  const FLAG_RST: Byte := 0x08
  const FLAG_NUL: Byte := 0x10
  const FLAG_VER: Byte := 0x40

  const FLAGS_OFFSET: nat := 0
  const HLEN_OFFSET: nat := 1
  const SRC_OFFSET: nat := 2
  const DST_OFFSET: nat := 4
  const DLEN_OFFSET: nat := 6
  const SEQ_OFFSET: nat := 8
  const ACK_OFFSET: nat := 12
  const TTL_OFFSET: nat := 16
  const LCS_OFFSET: nat := 20
  const ACKNXT_OFFSET: nat := 24
  const SOM_OFFSET: nat := 28
  const FCNT_OFFSET: nat := 32
  const RSRV_OFFSET: nat := 34

  datatype Header = Header(
    flags: Byte, src: U16, dst: U16, DLEN: U16, SEQ: U32, ACK: U32, TTL: U32,
    LCS: U32, ACKNXT: U32, SOM: U32, FCNT: U16)

  datatype Segment = Segment(hdr: Header, data: seq<Byte>)

  // Outcome of RecvValidateSegment.
  datatype Verdict =
    | RemoteReset
    | Invalid
    | Syn(flags: Byte, DLEN: U16, SEQ: U32, ACK: U32)
    | Accepted(seg: Segment)

  // (flags & bit) != 0 for a single-bit mask.
  predicate Has(flags: Byte, bit: Byte)
    requires bit != 0
  { flags / bit % 2 == 1 }

  // Network byte order.
  function Be16(x: U16): seq<Byte> { [x / 0x100, x % 0x100] }

  function Be32(x: U32): seq<Byte> { [x / 0x100_0000, x / 0x1_0000 % 0x100, x / 0x100 % 0x100, x % 0x100] }

  function U16At(b: seq<Byte>, at: nat): U16
    requires at + 2 <= |b|
  { b[at] as int * 0x100 + b[at + 1] }

  function U32At(b: seq<Byte>, at: nat): U32
    requires at + 4 <= |b|
  { b[at] as int * 0x100_0000 + b[at + 1] as int * 0x1_0000 + b[at + 2] as int * 0x100 + b[at + 3] }

  function EncodeHeader(h: Header): (b: seq<Byte>)
    ensures |b| == ARDP_HEADER_SIZE
  {
    [h.flags, ARDP_HEADER_SIZE / 2] + Be16(h.src) + Be16(h.dst) + Be16(h.DLEN) + Be32(h.SEQ) + Be32(h.ACK)
    + Be32(h.TTL) + Be32(h.LCS) + Be32(h.ACKNXT) + Be32(h.SOM) + Be16(h.FCNT) + [0, 0]
  }

  function DecodeHeader(b: seq<Byte>): Header
    requires ARDP_HEADER_SIZE <= |b|
  {
    Header(b[FLAGS_OFFSET], U16At(b, SRC_OFFSET), U16At(b, DST_OFFSET), U16At(b, DLEN_OFFSET), U32At(b, SEQ_OFFSET),
           U32At(b, ACK_OFFSET), U32At(b, TTL_OFFSET), U32At(b, LCS_OFFSET), U32At(b, ACKNXT_OFFSET),
           U32At(b, SOM_OFFSET), U16At(b, FCNT_OFFSET))
  }

  function EncodeSegment(g: Segment): seq<Byte> { EncodeHeader(g.hdr) + g.data }

  lemma BytesOf32(x: U32)
    ensures Be32(x)[0] as int * 0x100_0000 + Be32(x)[1] as int * 0x1_0000 + Be32(x)[2] as int * 0x100 + Be32(x)[3] == x
  {
    var hi, lo := x / 0x1_0000, x % 0x1_0000;
    assert x / 0x100_0000 == hi / 0x100;
    assert x / 0x100 == hi * 0x100 + lo / 0x100;
    assert x % 0x100 == lo % 0x100;
  }

  lemma Be32RoundTrip(x: U32, b: seq<Byte>, at: nat)
    requires at + 4 <= |b| && b[at..at + 4] == Be32(x)
    ensures U32At(b, at) == x
  {
    var w := b[at..at + 4];
    BytesOf32(x);
    assert w[0] == b[at] && w[1] == b[at + 1] && w[2] == b[at + 2] && w[3] == b[at + 3];
  }

  lemma Be16RoundTrip(x: U16, b: seq<Byte>, at: nat)
    requires at + 2 <= |b| && b[at..at + 2] == Be16(x)
    ensures U16At(b, at) == x
  {
    assert b[at] == b[at..at + 2][0] && b[at + 1] == b[at..at + 2][1];
  }

  // Where each field of an encoded header lies.
  lemma HeaderFields(h: Header, rest: seq<Byte>)
    ensures var b := EncodeHeader(h) + rest;
            && b[FLAGS_OFFSET] == h.flags && b[HLEN_OFFSET] == ARDP_HEADER_SIZE / 2
            && b[SRC_OFFSET..SRC_OFFSET + 2] == Be16(h.src)
            && b[DST_OFFSET..DST_OFFSET + 2] == Be16(h.dst)
            && b[DLEN_OFFSET..DLEN_OFFSET + 2] == Be16(h.DLEN)
            && b[SEQ_OFFSET..SEQ_OFFSET + 4] == Be32(h.SEQ)
            && b[ACK_OFFSET..ACK_OFFSET + 4] == Be32(h.ACK)
            && b[TTL_OFFSET..TTL_OFFSET + 4] == Be32(h.TTL)
            && b[LCS_OFFSET..LCS_OFFSET + 4] == Be32(h.LCS)
            && b[ACKNXT_OFFSET..ACKNXT_OFFSET + 4] == Be32(h.ACKNXT)
            && b[SOM_OFFSET..SOM_OFFSET + 4] == Be32(h.SOM)
            && b[FCNT_OFFSET..FCNT_OFFSET + 2] == Be16(h.FCNT)
  {
  }

  /** Every header parses back field for field, whatever payload follows it. */
  lemma DecodeEncoded(h: Header, rest: seq<Byte>)
    ensures DecodeHeader(EncodeHeader(h) + rest) == h
  {
    var b := EncodeHeader(h) + rest;
    HeaderFields(h, rest);
    Be16RoundTrip(h.src, b, SRC_OFFSET);
    Be16RoundTrip(h.dst, b, DST_OFFSET);
    Be16RoundTrip(h.DLEN, b, DLEN_OFFSET);
    Be16RoundTrip(h.FCNT, b, FCNT_OFFSET);
    Be32RoundTrip(h.SEQ, b, SEQ_OFFSET);
    Be32RoundTrip(h.ACK, b, ACK_OFFSET);
    Be32RoundTrip(h.TTL, b, TTL_OFFSET);
    Be32RoundTrip(h.LCS, b, LCS_OFFSET);
    Be32RoundTrip(h.ACKNXT, b, ACKNXT_OFFSET);
    Be32RoundTrip(h.SOM, b, SOM_OFFSET);
  }

  lemma Be32OfBytes(b: seq<Byte>, at: nat)
    requires at + 4 <= |b|
    ensures Be32(U32At(b, at)) == b[at..at + 4]
  {
    var hi: int, lo: int := U16At(b, at), U16At(b, at + 2);
    var x := U32At(b, at);
    assert x == hi * 0x1_0000 + lo;
    assert x / 0x1_0000 == hi && x % 0x1_0000 == lo;
    assert x / 0x100_0000 == hi / 0x100 == b[at] as int;
    assert x / 0x100 == hi * 0x100 + lo / 0x100;
    assert x / 0x100 % 0x100 == lo / 0x100 == b[at + 2] as int;
    assert x % 0x100 == lo % 0x100 == b[at + 3] as int;
  }

  lemma Be16OfBytes(b: seq<Byte>, at: nat)
    requires at + 2 <= |b|
    ensures Be16(U16At(b, at)) == b[at..at + 2]
  {
  }

  /** The other direction: 36 bytes with the usual header length and zero reserved bytes re-encode to themselves. */
  lemma EncodeDecoded(b: seq<Byte>)
    requires |b| == ARDP_HEADER_SIZE
    ensures EncodeHeader(DecodeHeader(b)) == b
            <==> b[HLEN_OFFSET] == ARDP_HEADER_SIZE / 2 && b[RSRV_OFFSET] == 0 && b[RSRV_OFFSET + 1] == 0
  {
    HeaderOfBytes(b);
    assert b == [b[0], b[1]] + b[2..34] + [b[34], b[35]];
  }

  lemma HeaderOfBytes(b: seq<Byte>)
    requires |b| == ARDP_HEADER_SIZE
    ensures EncodeHeader(DecodeHeader(b)) == [b[0], 18] + b[2..34] + [0, 0]
  {
    Be16OfBytes(b, SRC_OFFSET);
    Be16OfBytes(b, DST_OFFSET);
    Be16OfBytes(b, DLEN_OFFSET);
    Be16OfBytes(b, FCNT_OFFSET);
    Be32OfBytes(b, SEQ_OFFSET);
    Be32OfBytes(b, ACK_OFFSET);
    Be32OfBytes(b, TTL_OFFSET);
    Be32OfBytes(b, LCS_OFFSET);
    Be32OfBytes(b, ACKNXT_OFFSET);
    Be32OfBytes(b, SOM_OFFSET);
    assert EncodeHeader(DecodeHeader(b))
        == [b[0], 18] + b[2..4] + b[4..6] + b[6..8] + b[8..12] + b[12..16] + b[16..20] + b[20..24] + b[24..28]
           + b[28..32] + b[32..34] + [0, 0];
    Pieces(b);
  }

  lemma Pieces(b: seq<Byte>)
    requires |b| == ARDP_HEADER_SIZE
    ensures [b[0], 18] + b[2..4] + b[4..6] + b[6..8] + b[8..12] + b[12..16] + b[16..20] + b[20..24] + b[24..28]
            + b[28..32] + b[32..34] + [0, 0] == [b[0], 18] + b[2..34] + [0, 0]
  {
  }

  // The bytes of b with a 32-bit field overwritten.
  function Patch32(b: seq<Byte>, at: nat, x: U32): seq<Byte>
    requires at + 4 <= |b|
  { b[..at] + Be32(x) + b[at + 4..] }

  lemma PatchAck(h: Header, rest: seq<Byte>, x: U32)
    ensures Patch32(EncodeHeader(h) + rest, ACK_OFFSET, x) == EncodeHeader(h.(ACK := x)) + rest
  {
  }

  lemma PatchLcs(h: Header, rest: seq<Byte>, x: U32)
    ensures Patch32(EncodeHeader(h) + rest, LCS_OFFSET, x) == EncodeHeader(h.(LCS := x)) + rest
  {
  }

  lemma PatchAcknxt(h: Header, rest: seq<Byte>, x: U32)
    ensures Patch32(EncodeHeader(h) + rest, ACKNXT_OFFSET, x) == EncodeHeader(h.(ACKNXT := x)) + rest
  {
  }

  method Put16(buf: array<Byte>, at: nat, x: U16)
    requires at + 2 <= buf.Length
    modifies buf
    ensures buf[..] == old(buf[..at]) + Be16(x) + old(buf[at + 2..])
  {
    buf[at], buf[at + 1] := x / 0x100, x % 0x100;
  }

  method Put32(buf: array<Byte>, at: nat, x: U32)
    requires at + 4 <= buf.Length
    modifies buf
    ensures buf[..] == Patch32(old(buf[..]), at, x)
  {
    buf[at], buf[at + 1] := x / 0x100_0000, x / 0x1_0000 % 0x100;
    buf[at + 2], buf[at + 3] := x / 0x100 % 0x100, x % 0x100;
  }

  // Put16 and Put32 at the end of a prefix that has already been written.
  method Append16(buf: array<Byte>, at: nat, x: U16, ghost pre: seq<Byte>, ghost b0: seq<Byte>)
    returns (ghost pre': seq<Byte>)
    requires at + 2 <= buf.Length == |b0| && |pre| == at && buf[..] == pre + b0[at..]
    modifies buf
    ensures pre' == pre + Be16(x) && buf[..] == pre' + b0[at + 2..]
  {
    pre' := pre + Be16(x);
    Put16(buf, at, x);
  }

  method Append32(buf: array<Byte>, at: nat, x: U32, ghost pre: seq<Byte>, ghost b0: seq<Byte>)
    returns (ghost pre': seq<Byte>)
    requires at + 4 <= buf.Length == |b0| && |pre| == at && buf[..] == pre + b0[at..]
    modifies buf
    ensures pre' == pre + Be32(x) && buf[..] == pre' + b0[at + 4..]
  {
    pre' := pre + Be32(x);
    Put32(buf, at, x);
  }

  /** MarshalHeader writes the header field by field into the front of a buffer and leaves the payload alone. */
  method MarshalHeader(buf: array<Byte>, h: Header)
    requires ARDP_HEADER_SIZE <= buf.Length
    modifies buf
    ensures buf[..] == EncodeHeader(h) + old(buf[ARDP_HEADER_SIZE..])
  {
    ghost var b0 := buf[..];
    buf[FLAGS_OFFSET], buf[HLEN_OFFSET] := h.flags, ARDP_HEADER_SIZE / 2;
    ghost var pre := [h.flags, ARDP_HEADER_SIZE / 2];
    pre := Append16(buf, SRC_OFFSET, h.src, pre, b0);
    pre := Append16(buf, DST_OFFSET, h.dst, pre, b0);
    pre := Append16(buf, DLEN_OFFSET, h.DLEN, pre, b0);
    pre := Append32(buf, SEQ_OFFSET, h.SEQ, pre, b0);
    pre := Append32(buf, ACK_OFFSET, h.ACK, pre, b0);
    pre := Append32(buf, TTL_OFFSET, h.TTL, pre, b0);
    pre := Append32(buf, LCS_OFFSET, h.LCS, pre, b0);
    pre := Append32(buf, ACKNXT_OFFSET, h.ACKNXT, pre, b0);
    pre := Append32(buf, SOM_OFFSET, h.SOM, pre, b0);
    pre := Append16(buf, FCNT_OFFSET, h.FCNT, pre, b0);
    pre := Append16(buf, RSRV_OFFSET, 0, pre, b0);
  }

  /** A retransmission patches ACK, LCS and ACKNXT in the stored bytes: that is the encoding of the updated header. */
  method RefreshHeader(buf: array<Byte>, ghost h: Header, ack: U32, lcs: U32, acknxt: U32)
    requires ARDP_HEADER_SIZE <= buf.Length
    requires buf[..ARDP_HEADER_SIZE] == EncodeHeader(h)
    modifies buf
    ensures buf[..] == EncodeHeader(h.(ACK := ack, LCS := lcs, ACKNXT := acknxt)) + old(buf[ARDP_HEADER_SIZE..])
  {
    ghost var rest := buf[ARDP_HEADER_SIZE..];
    assert buf[..] == EncodeHeader(h) + rest;
    PatchAck(h, rest, ack);
    PatchLcs(h.(ACK := ack), rest, lcs);
    PatchAcknxt(h.(ACK := ack, LCS := lcs), rest, acknxt);
    Put32(buf, ACK_OFFSET, ack);
    Put32(buf, LCS_OFFSET, lcs);
    Put32(buf, ACKNXT_OFFSET, acknxt);
  }

  // The sequence-number and fragment checks on an OPEN connection whose next send number is nxt.
  predicate Plausible(h: Header, nxt: U32) {
    && !SeqLt(nxt, h.ACK)
    && !SeqLt(h.ACK, h.LCS)
    && !SeqLt(h.SEQ, h.ACKNXT)
    && (h.DLEN != 0 ==>
          && Sub32(h.SEQ, h.ACKNXT) < UDP_SEGMAX
          && h.FCNT != 0 && Sub32(h.SEQ, h.SOM) < h.FCNT)
  }

  // RecvValidateSegment on a datagram. The payload of an accepted segment always starts at offset 36.
  function Validate(rx: seq<Byte>, nxt: U32): Verdict {
    if |rx| == 0 then Invalid
    else if Has(rx[FLAGS_OFFSET], FLAG_RST) then RemoteReset
    else
      var syn := Has(rx[FLAGS_OFFSET], FLAG_SYN);
      var hdrSz := if syn then ARDP_SYN_HEADER_SIZE else ARDP_HEADER_SIZE;
      if |rx| < hdrSz || rx[HLEN_OFFSET] as int * 2 < hdrSz
         || U16At(rx, DLEN_OFFSET) + rx[HLEN_OFFSET] as int * 2 != |rx| then Invalid
      else if syn then Syn(rx[FLAGS_OFFSET], U16At(rx, DLEN_OFFSET), U32At(rx, SEQ_OFFSET), U32At(rx, ACK_OFFSET))
      else
        var h := DecodeHeader(rx);
        if Plausible(h, nxt) then Accepted(Segment(h, rx[ARDP_HEADER_SIZE..ARDP_HEADER_SIZE + h.DLEN])) else Invalid
  }

  /** A well-formed segment is accepted unchanged exactly when its numbers are plausible, and rejected otherwise. */
  lemma ValidateEncoded(g: Segment, nxt: U32)
    requires g.hdr.DLEN == |g.data|
    requires !Has(g.hdr.flags, FLAG_RST) && !Has(g.hdr.flags, FLAG_SYN)
    ensures Validate(EncodeSegment(g), nxt) == if Plausible(g.hdr, nxt) then Accepted(g) else Invalid
  {
    var rx := EncodeSegment(g);
    DecodeEncoded(g.hdr, g.data);
    HeaderFields(g.hdr, g.data);
    assert rx[ARDP_HEADER_SIZE..] == g.data;
    assert rx[ARDP_HEADER_SIZE..ARDP_HEADER_SIZE + |g.data|] == g.data;
  }

  /* ---- The layout and the checks, byte by byte ---- */

  // The number that bytes in network order stand for.
  function Value(b: seq<Byte>): nat { if b == [] then 0 else Value(b[..|b| - 1]) * 0x100 + b[|b| - 1] as int }

  lemma ValueStep(b: seq<Byte>, at: nat, n: nat)
    requires 0 < n && at + n <= |b|
    ensures Value(b[at..at + n]) == Value(b[at..at + n - 1]) * 0x100 + b[at + n - 1] as int
  {
    var w := b[at..at + n];
    assert w[..n - 1] == b[at..at + n - 1] && w[n - 1] == b[at + n - 1];
  }

  lemma Value16(b: seq<Byte>, at: nat)
    requires at + 2 <= |b|
    ensures U16At(b, at) == Value(b[at..at + 2])
  {
    ValueStep(b, at, 2);
    ValueStep(b, at, 1);
    assert b[at..at + 0] == [] && Value([]) == 0;
    hide Value;
  }

  lemma Value32(b: seq<Byte>, at: nat)
    requires at + 4 <= |b|
    ensures U32At(b, at) == Value(b[at..at + 4])
  {
    hide Value;
    ValueStep(b, at, 4);
    ValueStep(b, at, 3);
    Value16(b, at);
  }

  // The fields of a header in the first 36 bytes of a datagram.
  predicate FieldsOf(b: seq<Byte>, h: Header) {
    && 36 <= |b| && b[0] == h.flags
    && Value(b[2..4]) == h.src && Value(b[4..6]) == h.dst && Value(b[6..8]) == h.DLEN
    && Value(b[8..12]) == h.SEQ && Value(b[12..16]) == h.ACK && Value(b[16..20]) == h.TTL && Value(b[20..24]) == h.LCS
    && Value(b[24..28]) == h.ACKNXT && Value(b[28..32]) == h.SOM && Value(b[32..34]) == h.FCNT
  }

  lemma DecodedFields(b: seq<Byte>)
    requires 36 <= |b|
    ensures FieldsOf(b, DecodeHeader(b))
  {
    hide Value, U16At, U32At;
    Value16(b, 2);
    Value16(b, 4);
    Value16(b, 6);
    Value32(b, 8);
    Value32(b, 12);
    Value32(b, 16);
    Value32(b, 20);
    Value32(b, 24);
    Value32(b, 28);
    Value16(b, 32);
  }

  /** Where the fields of an encoded header lie, and what the length byte and the reserved bytes are. */
  lemma EncodedFields(h: Header, rest: seq<Byte>)
    ensures var b := EncodeHeader(h) + rest; FieldsOf(b, h) && b[1] == 18 && b[34] == b[35] == 0
  {
    var b := EncodeHeader(h) + rest;
    DecodeEncoded(h, rest);
    hide FieldsOf, DecodeHeader;
    DecodedFields(b);
  }

  // The distance from one number back to another, around the circle of 2^32.
  function Behind(from: int, to: int): nat { (from - to) % 0x1_0000_0000 }

  // Lengths that add up, an acknowledgement and a consumed segment that are not ahead, and data inside the window and
  // inside its message.
  predicate Acceptable(rx: seq<Byte>, nxt: U32) {
    && 36 <= |rx| && rx[0] / 8 % 2 == 0 && rx[0] % 2 == 0 && 18 <= rx[1]
    && Value(rx[6..8]) + 2 * rx[1] as int == |rx|
    && Behind(nxt, Value(rx[12..16])) < 0x8000_0000
    && Behind(Value(rx[12..16]), Value(rx[20..24])) < 0x8000_0000
    && Behind(Value(rx[8..12]), Value(rx[24..28])) < 0x8000_0000
    && (Value(rx[6..8]) != 0 ==>
          && Behind(Value(rx[8..12]), Value(rx[24..28])) < 3
          && Behind(Value(rx[8..12]), Value(rx[28..32])) < Value(rx[32..34]))
  }

  lemma PlausibleMeans(h: Header, nxt: U32)
    ensures Plausible(h, nxt) <==>
              && Behind(nxt, h.ACK) < 0x8000_0000 && Behind(h.ACK, h.LCS) < 0x8000_0000
              && Behind(h.SEQ, h.ACKNXT) < 0x8000_0000
              && (h.DLEN != 0 ==> Behind(h.SEQ, h.ACKNXT) < 3 && Behind(h.SEQ, h.SOM) < h.FCNT as int)
  {
  }

  /**
   RecvValidateSegment on every datagram: a reset is recognised by its flag alone; apart from that and SYN, a datagram
   is accepted exactly when lengths and numbers are acceptable, and is taken apart at the offsets of the layout. The
   payload is taken from offset 36 even if the length byte claims a longer header.
   */
  lemma ValidateMeans(rx: seq<Byte>, nxt: U32)
    ensures Validate(rx, nxt) == RemoteReset <==> rx != [] && rx[0] / 8 % 2 == 1
    ensures Validate(rx, nxt).Accepted? <==> Acceptable(rx, nxt)
    ensures Validate(rx, nxt).Accepted? ==>
              var g := Validate(rx, nxt).seg; FieldsOf(rx, g.hdr) && g.data == rx[36..36 + g.hdr.DLEN]
    ensures Validate(rx, nxt).Syn? <==>
              28 <= |rx| && rx[0] / 8 % 2 == 0 && rx[0] % 2 == 1 && 14 <= rx[1]
              && Value(rx[6..8]) + 2 * rx[1] as int == |rx|
  {
    if |rx| >= 28 {
      Value16(rx, 6);
    }
    if |rx| >= 36 {
      DecodedFields(rx);
      PlausibleMeans(DecodeHeader(rx), nxt);
    }
    hide Value, U16At, U32At, Plausible, Behind;
  }

  // The bytes behind the header that the length byte claims are the ones taken for the payload.
  predicate PayloadBehindHeader(rx: seq<Byte>)
    requires 36 <= |rx| && 36 <= 2 * rx[1] as int <= |rx|
  { rx[36..|rx| - (2 * rx[1] as int - 36)] == rx[2 * rx[1] as int..] }

  // An acceptable datagram with a longer header than usual, filled with ones, and a payload of zeros.
  function LongHeader(hl: Byte, n: U16): seq<Byte>
    requires 18 <= hl
  {
    EncodeHeader(Header(0x42, 0, 0, n, 0, 0, 0, 0, 0, 0, 1))[1 := hl] + seq(2 * hl as int - 36, _ => 1) + seq(n, _ => 0)
  }

  lemma LongHeaderAccepted(hl: Byte, n: U16)
    requires 18 <= hl
    ensures var rx := LongHeader(hl, n); Acceptable(rx, 0) && rx[1] == hl && Value(rx[6..8]) == n as int
    ensures hl > 18 && n > 0 ==> !PayloadBehindHeader(LongHeader(hl, n))
  {
    var h := Header(0x42, 0, 0, n, 0, 0, 0, 0, 0, 0, 1);
    var rx, b := LongHeader(hl, n), EncodeHeader(h);
    EncodedFields(h, []);
    assert b + [] == b;
    hide EncodeHeader, Value;
    assert rx[6..8] == b[6..8] && rx[8..12] == b[8..12] && rx[12..16] == b[12..16] && rx[20..24] == b[20..24];
    assert rx[24..28] == b[24..28] && rx[28..32] == b[28..32] && rx[32..34] == b[32..34] && rx[0] == b[0];
    if hl > 18 && n > 0 {
      assert rx[36..|rx| - (2 * hl as int - 36)][0] == rx[36] == 1;
      assert rx[2 * hl as int..][0] == rx[2 * hl as int] == 0;
    }
  }

  /**
   For which header lengths the payload of every acceptable datagram is what follows its header: exactly the usual one,
   or any if there is no payload.
   */
  lemma PayloadExactly(hl: Byte, n: U16)
    requires 18 <= hl
    ensures (forall rx, nxt :: Acceptable(rx, nxt) && rx[1] == hl && Value(rx[6..8]) == n as int ==>
               PayloadBehindHeader(rx))
       <==> hl == 18 || n == 0
  {
    hide Value, LongHeader;
    LongHeaderAccepted(hl, n);
  }
}
