/**
 DER decoding: a cursor over a buffer that is advanced past one tag-length-value element after the other. Every element
 that decodes is a slice of the buffer behind its header, and decoding what section 8.1.3 of ITU-T X.690 encodes gives
 back the contents. `word` is the size of size_t in bytes.
 */
module Der {
  import opened Seq32

  type Bytes = seq<Byte>

  function Min(a: nat, b: nat): nat { if a < b then a else b }

  function Pow256(n: nat): (r: nat)
    ensures r > 0
  { if n == 0 then 1 else 0x100 * Pow256(n - 1) }

  function BigEndian(s: Bytes): (n: nat) {
    if s == [] then 0 else BigEndian(s[..|s| - 1]) * 0x100 + s[|s| - 1] as int
  }

  /* ---- Decoding, as functions of what is left of the buffer ---- */

  // How many bytes the length takes. A long form that runs into the end of the buffer is cut short.
  function LengthSize(s: Bytes, word: nat): (n: nat)
    requires s != []
    ensures 0 < n <= |s|
  { if s[0] < 0x80 || s[0] as int - 0x80 > word then 1 else 1 + Min(s[0] as int - 0x80, |s| - 1) }

  function LengthValue(s: Bytes, word: nat): nat
    requires s != []
  { if s[0] < 0x80 then s[0] as int else BigEndian(s[1..LengthSize(s, word)]) }

  predicate LengthOk(s: Bytes, word: nat) {
    && s != [] && (s[0] < 0x80 || s[0] as int - 0x80 <= word)
    && LengthValue(s, word) <= |s| - LengthSize(s, word)
  }

  // The tag without the bit that tells constructed from primitive.
  function TagNumber(b: Byte): Byte { if b / 0x20 % 2 == 1 then b as int - 0x20 else b }

  predicate ElementOk(s: Bytes, tag: Byte, word: nat) { s != [] && TagNumber(s[0]) == tag && LengthOk(s[1..], word) }

  function HeaderSize(s: Bytes, word: nat): nat
    requires |s| > 1
  { 1 + LengthSize(s[1..], word) }

  function Payload(s: Bytes, tag: Byte, word: nat): Bytes
    requires ElementOk(s, tag, word)
  { s[HeaderSize(s, word)..HeaderSize(s, word) + LengthValue(s[1..], word)] }

  function Remainder(s: Bytes, tag: Byte, word: nat): (r: Bytes)
    requires ElementOk(s, tag, word)
    ensures |r| < |s|
  { s[HeaderSize(s, word) + LengthValue(s[1..], word)..] }

  predicate AllOk(s: Bytes, tags: seq<Byte>, word: nat)
    decreases |tags|
  { tags == [] || (ElementOk(s, tags[0], word) && AllOk(Remainder(s, tags[0], word), tags[1..], word)) }

  function Payloads(s: Bytes, tags: seq<Byte>, word: nat): seq<Bytes>
    requires AllOk(s, tags, word)
    decreases |tags|
  { if tags == [] then [] else [Payload(s, tags[0], word)] + Payloads(Remainder(s, tags[0], word), tags[1..], word) }

  function Left(s: Bytes, tags: seq<Byte>, word: nat): Bytes
    requires AllOk(s, tags, word)
    decreases |tags|
  { if tags == [] then s else Left(Remainder(s, tags[0], word), tags[1..], word) }

  /** A length that is accepted has no more octets than a word, so that its value fits one. */
  lemma LengthFits(s: Bytes, word: nat)
    requires 0 < word && LengthOk(s, word)
    ensures s[0] < 0x80 || s[0] as int <= 0x80 + word
    ensures LengthValue(s, word) < Pow256(word)
  {
    if s[0] < 0x80 {
      Pow256Grows(1, word);
      assert Pow256(1) == 0x100 * Pow256(0);
    } else {
      BigEndianBound(s[1..LengthSize(s, word)]);
      Pow256Grows(LengthSize(s, word) - 1, word);
    }
  }

  lemma {:induction false} BigEndianBound(s: Bytes)
    ensures BigEndian(s) < Pow256(|s|)
    decreases |s|
  {
    if s != [] {
      BigEndianBound(s[..|s| - 1]);
    }
  }

  /* ---- The decoders ---- */

  // An element: where it starts in the buffer, and its size.
  datatype Slice = Slice(at: nat, size: nat)

  // What an element is expected to be: a tag, or a context-specific one with its number.
  datatype Expected = Tagged(tag: Byte) | Context(number: U32)

  // ASN_CONTEXT_SPECIFIC or-ed to the number, in 8 bits.
  function TagFor(e: Expected): Byte {
    match e
    case Tagged(tag) => tag
    case Context(number) => if number % 0x100 < 0x80 then number % 0x100 + 0x80 else number % 0x100
  }

  function TagsFor(es: seq<Expected>): (tags: seq<Byte>)
    ensures |tags| == |es| && forall k :: 0 <= k < |es| ==> tags[k] == TagFor(es[k])
  { seq(|es|, k requires 0 <= k < |es| => TagFor(es[k])) }

  class Cursor {
    const buf: Bytes
    var at: nat
    var size: nat

    ghost predicate Valid()
      reads this
    { at + size <= |buf| }

    ghost function View(): Bytes
      requires Valid()
      reads this
    { buf[at..at + size] }

    constructor (buf: Bytes)
      ensures Valid() && this.buf == buf && View() == buf
    {
      this.buf, at, size := buf, 0, |buf|;
    }

    method DecodeLength(word: nat) returns (ok: bool, out: Slice)
      requires Valid() && 0 < word
      modifies this
      ensures Valid() && at + size == old(at + size)
      ensures at == old(at) + if old(size) == 0 then 0 else LengthSize(old(View()), word)
      ensures ok <==> LengthOk(old(View()), word)
      ensures ok ==> out == Slice(at, LengthValue(old(View()), word)) && out.size <= size
    {
      hide BigEndian, Pow256;
      out := Slice(0, 0);
      if size == 0 {
        return false, out;
      }
      ghost var s := View();
      var len: nat := buf[at];
      at, size := at + 1, size - 1;
      if len >= 0x80 {
        var n := len - 0x80;
        if n > word {
          return false, out;
        }
        len := 0;
        ghost var k := 0;
        NoOctets(s);
        while n > 0 && size > 0
          invariant k <= word && n == s[0] as int - 0x80 - k && at == old(at) + 1 + k && size == |s| - 1 - k
          invariant len == BigEndian(s[1..1 + k]) && len < Pow256(k)
        {
          BigEndianStep(s, k);
          ShiftFits(len, k, word);
          len := (len * 0x100) % Pow256(word) + buf[at] as int;
          at, size, n, k := at + 1, size - 1, n - 1, k + 1;
        }
        assert LengthSize(s, word) == 1 + k;
      }
      if len > size {
        return false, out;
      }
      return true, Slice(at, len);
    }

    /** AJ_ASN1DecodeElement: on success, header, contents and what is left make up what there was. */
    method DecodeElement(tag: Byte, word: nat) returns (ok: bool, out: Slice)
      requires Valid() && 0 < word
      modifies this
      ensures Valid() && at + size == old(at + size) && old(at) <= at
      ensures ok <==> ElementOk(old(View()), tag, word)
      ensures ok ==>
                out.at + out.size == at && buf[out.at..at] == Payload(old(View()), tag, word)
                && View() == Remainder(old(View()), tag, word)
      ensures ok ==> old(at) + HeaderSize(old(View()), word) == out.at
    {
      hide LengthSize, LengthValue, LengthOk;
      out := Slice(0, 0);
      if size == 0 {
        return false, out;
      }
      var tmp := TagNumber(buf[at]);
      ghost var s := View();
      at, size := at + 1, size - 1;
      assert View() == s[1..];
      if tmp != tag {
        return false, out;
      }
      ok, out := DecodeLength(word);
      if ok {
        LengthIsInside(s[1..], word);
        var from := at;
        at, size := at + out.size, size - out.size;
        SliceOfSlice(buf, old(at), at + size, from - old(at), at - old(at));
      }
    }

    /** AJ_ASN1DecodeElements: it succeeds if and only if every tag finds its element, and returns them in order. */
    method DecodeElements(expected: seq<Expected>, word: nat) returns (ok: bool, outs: seq<Slice>)
      requires Valid() && 0 < word
      modifies this
      ensures Valid() && at + size == old(at + size)
      ensures ok <==> AllOk(old(View()), TagsFor(expected), word)
      ensures ok ==> Found(buf, outs) && Contents(buf, outs) == Payloads(old(View()), TagsFor(expected), word)
      ensures ok ==> View() == Left(old(View()), TagsFor(expected), word)
    {
      hide ElementOk, Payload, Remainder, AllOk, Payloads, Left, TagFor;
      ok, outs := true, [];
      ghost var s, tags := View(), TagsFor(expected);
      var k := 0;
      while ok && k < |expected| && size > 0
        invariant 0 <= k <= |tags| && Valid() && at + size == old(at + size)
        invariant AllOk(s, tags, word) <==> ok && AllOk(View(), tags[k..], word)
        invariant ok ==> k == |outs| && Found(buf, outs)
        invariant AllOk(s, tags, word) ==>
                    Payloads(s, tags, word) == Contents(buf, outs) + Payloads(View(), tags[k..], word)
                                           && Left(s, tags, word) == Left(View(), tags[k..], word)
        decreases |tags| - k
      {
        var out;
        AllUnfolds(View(), tags[k..], word);
        assert tags[k..][1..] == tags[k + 1..];
        ok, out := DecodeElement(TagFor(expected[k]), word);
        k := k + 1;
        if ok {
          ContentsStep(buf, outs, out);
          outs := outs + [out];
        }
      }
      if ok {
        AllUnfolds(View(), tags[k..], word);
        if k < |expected| {
          ok := false;
        }
      }
    }
  }

  lemma AllUnfolds(s: Bytes, tags: seq<Byte>, word: nat)
    ensures tags == [] ==> AllOk(s, tags, word) && Payloads(s, tags, word) == [] && Left(s, tags, word) == s
    ensures tags != [] ==>
              (AllOk(s, tags, word) <==>
                 ElementOk(s, tags[0], word) && AllOk(Remainder(s, tags[0], word), tags[1..], word))
    ensures tags != [] && s == [] ==> !AllOk(s, tags, word)
    ensures tags != [] && AllOk(s, tags, word) ==>
              && Payloads(s, tags, word)
                 == [Payload(s, tags[0], word)] + Payloads(Remainder(s, tags[0], word), tags[1..], word)
              && Left(s, tags, word) == Left(Remainder(s, tags[0], word), tags[1..], word)
  {
  }

  predicate Found(buf: Bytes, outs: seq<Slice>) { forall k :: 0 <= k < |outs| ==> outs[k].at + outs[k].size <= |buf| }

  function Contents(buf: Bytes, outs: seq<Slice>): (r: seq<Bytes>)
    requires Found(buf, outs)
    ensures |r| == |outs| && forall k :: 0 <= k < |r| ==> r[k] == buf[outs[k].at..outs[k].at + outs[k].size]
  { seq(|outs|, k requires 0 <= k < |outs| => buf[outs[k].at..outs[k].at + outs[k].size]) }

  lemma ContentsStep(buf: Bytes, outs: seq<Slice>, out: Slice)
    requires Found(buf, outs) && out.at + out.size <= |buf|
    ensures Found(buf, outs + [out])
    ensures Contents(buf, outs + [out]) == Contents(buf, outs) + [buf[out.at..out.at + out.size]]
  {
  }

  lemma SliceOfSlice(buf: Bytes, a: nat, e: nat, i: nat, j: nat)
    requires i <= j && a + j <= e <= |buf|
    ensures buf[a..e][i..j] == buf[a + i..a + j] && buf[a..e][j..] == buf[a + j..e]
  {
    var s := buf[a..e];
    assert forall k :: 0 <= k < |s| ==> s[k] == buf[a + k];
    var x, y := s[i..j], buf[a + i..a + j];
    assert |x| == |y| && forall k :: 0 <= k < |x| ==> x[k] == s[i + k] == buf[a + i + k] == y[k];
  }

  lemma LengthIsInside(s: Bytes, word: nat)
    requires LengthOk(s, word)
    ensures s != [] && LengthSize(s, word) + LengthValue(s, word) <= |s|
  {
  }

  lemma NoOctets(s: Bytes)
    requires |s| > 0
    ensures BigEndian(s[1..1]) == 0 && Pow256(0) == 1
  {
  }

  lemma BigEndianStep(s: Bytes, k: nat)
    requires k + 1 < |s|
    ensures BigEndian(s[1..1 + (k + 1)]) == BigEndian(s[1..1 + k]) * 0x100 + s[1 + k] as int
  {
    var t := s[1..1 + (k + 1)];
    assert t[..|t| - 1] == s[1..1 + k] && t[|t| - 1] == s[1 + k];
  }

  lemma {:induction false} Pow256Grows(a: nat, b: nat)
    requires a <= b
    ensures 0 < Pow256(a) <= Pow256(b)
    decreases b
  {
    if a > 0 {
      Pow256Grows(a - 1, b - 1);
    } else if b > 0 {
      Pow256Grows(a, b - 1);
    }
  }

  // The shift in size_t loses nothing as long as there is room for the byte.
  lemma ShiftFits(len: nat, k: nat, word: nat)
    requires len < Pow256(k) && k < word
    ensures (len * 0x100) % Pow256(word) == len * 0x100 && len * 0x100 + 0xFF < Pow256(k + 1)
  {
    Pow256Grows(k + 1, word);
    assert Pow256(k + 1) == 0x100 * Pow256(k);
    SmallMod(len * 0x100, Pow256(word));
  }

  lemma SmallMod(x: nat, m: nat)
    requires x < m
    ensures x % m == x
  {
  }

  /* ---- Encoding ---- */

  // The octets of a number, most significant first.
  function Octets(n: nat): Bytes { if n == 0 then [] else Octets(n / 0x100) + [n % 0x100] }

  // Section 8.1.3: the short form below 128, the long form with the fewest octets from there on.
  function EncodeLength(n: nat): Bytes
    requires |Octets(n)| < 0x80
  { if n < 0x80 then [n] else [0x80 + |Octets(n)|] + Octets(n) }

  function Encode(tag: Byte, payload: Bytes): Bytes
    requires |Octets(|payload|)| < 0x80
  { [tag] + EncodeLength(|payload|) + payload }

  datatype Tlv = Tlv(tag: Byte, payload: Bytes)

  predicate Encodable(t: Tlv, word: nat) { |t.payload| < Pow256(word) }

  lemma {:induction false} OctetsBack(n: nat)
    ensures BigEndian(Octets(n)) == n
  {
    if n != 0 {
      OctetsBack(n / 0x100);
      assert Octets(n)[..|Octets(n)| - 1] == Octets(n / 0x100);
    }
  }

  lemma {:induction false} OctetsFit(n: nat, word: nat)
    requires n < Pow256(word)
    ensures |Octets(n)| <= word
    decreases word
  {
    if n != 0 {
      assert word > 0 && Pow256(word) == 0x100 * Pow256(word - 1);
      OctetsFit(n / 0x100, word - 1);
    }
  }

  function EncodeAll(ts: seq<Tlv>, word: nat): Bytes
    requires word < 0x80 && forall t :: t in ts ==> Encodable(t, word)
  {
    if ts == [] then []
    else
      assert ts[0] in ts && Encodable(ts[0], word);
      assert |Octets(|ts[0].payload|)| < 0x80 by {
        OctetsFit(|ts[0].payload|, word);
      }
      Encode(ts[0].tag, ts[0].payload) + EncodeAll(ts[1..], word)
  }

  lemma LengthBack(n: nat, rest: Bytes, word: nat)
    requires n < Pow256(word) && word < 0x80 && n <= |rest|
    requires |Octets(n)| < 0x80
    ensures var s := EncodeLength(n) + rest;
            LengthOk(s, word) && LengthValue(s, word) == n && LengthSize(s, word) == |EncodeLength(n)|
  {
    hide Octets, BigEndian, Pow256;
    if n >= 0x80 {
      OctetsFit(n, word);
      OctetsBack(n);
      LongForm(Octets(n), rest, word);
    }
  }

  lemma LongForm(octets: Bytes, rest: Bytes, word: nat)
    requires |octets| <= word < 0x80
    ensures var s := [0x80 + |octets|] + octets + rest;
            LengthSize(s, word) == 1 + |octets| && LengthValue(s, word) == BigEndian(octets)
  {
    hide BigEndian;
    var s := [0x80 + |octets|] + octets + rest;
    assert s[1..1 + |octets|] == octets;
  }

  lemma ElementBack(tag: Byte, payload: Bytes, rest: Bytes, word: nat)
    requires |payload| < Pow256(word) && word < 0x80 && |Octets(|payload|)| < 0x80
    ensures var s := Encode(tag, payload) + rest;
            ElementOk(s, TagNumber(tag), word) && Payload(s, TagNumber(tag), word) == payload
            && Remainder(s, TagNumber(tag), word) == rest
  {
    var s, n := Encode(tag, payload) + rest, |payload|;
    hide LengthOk, LengthValue, LengthSize, EncodeLength, Pow256, TagNumber, Octets;
    Parts(tag, EncodeLength(n), payload, rest);
    LengthBack(n, payload + rest, word);
  }

  lemma Parts(tag: Byte, header: Bytes, payload: Bytes, rest: Bytes)
    ensures var s, h := [tag] + header + payload + rest, 1 + |header|;
            s[0] == tag && s[1..] == header + (payload + rest)
            && s[h..h + |payload|] == payload && s[h + |payload|..] == rest
  {
  }

  lemma EncodeAllStep(ts: seq<Tlv>, rest: Bytes, word: nat)
    requires word < 0x80 && ts != [] && forall t :: t in ts ==> Encodable(t, word)
    requires |Octets(|ts[0].payload|)| < 0x80
    ensures EncodeAll(ts, word) + rest == Encode(ts[0].tag, ts[0].payload) + (EncodeAll(ts[1..], word) + rest)
  {
    hide Encode, Encodable, Octets;
  }

  // The class and the number of an identifier octet, bits 8 and 7 and bits 5 to 1 of section 8.1.2 of X.690.
  function ClassAndNumber(b: Byte): Byte { b as int / 0x40 * 0x40 + b as int % 0x20 }

  lemma TagNumberIs(b: Byte)
    ensures TagNumber(b) == ClassAndNumber(b)
  {
  }

  function TagsOf(ts: seq<Tlv>): seq<Byte> { if ts == [] then [] else [ClassAndNumber(ts[0].tag)] + TagsOf(ts[1..]) }

  function PayloadsOf(ts: seq<Tlv>): seq<Bytes> { if ts == [] then [] else [ts[0].payload] + PayloadsOf(ts[1..]) }

  /** Decoding a concatenation of encoded elements gives their contents and leaves what follows them. */
  lemma {:induction false} DecodeEncoded(ts: seq<Tlv>, rest: Bytes, word: nat)
    requires word < 0x80 && forall t :: t in ts ==> Encodable(t, word)
    ensures var s := EncodeAll(ts, word) + rest;
            AllOk(s, TagsOf(ts), word) && Payloads(s, TagsOf(ts), word) == PayloadsOf(ts)
            && Left(s, TagsOf(ts), word) == rest
    decreases |ts|
  {
    if ts == [] {
      assert EncodeAll(ts, word) + rest == rest;
    } else {
      var t, more := ts[0], EncodeAll(ts[1..], word) + rest;
      assert t in ts && Encodable(t, word);
      OctetsFit(|t.payload|, word);
      TagNumberIs(t.tag);
      ElementBack(t.tag, t.payload, more, word);
      DecodeEncoded(ts[1..], rest, word);
      EncodeAllStep(ts, rest, word);
      hide Encode, EncodeAll, ElementOk, Payload, Remainder, Encodable, TagNumber, ClassAndNumber, Octets;
      assert TagsOf(ts)[1..] == TagsOf(ts[1..]);
    }
  }

  // The identifier octets that are taken for an expected element: its tag, or 0x80 with the context number, primitive
  // or constructed. A tag that itself has the constructed bit is never found.
  predicate Identifies(e: Expected, b: Byte) {
    match e
    case Tagged(tag) => tag / 0x20 % 2 == 0 && (b == tag || b as int == tag as int + 0x20)
    case Context(number) =>
      var low := number as int % 0x100;
      low / 0x20 % 2 == 0 && (b as int == 0x80 + low % 0x80 || b as int == 0xA0 + low % 0x80)
  }

  lemma IdentifiesExactly(e: Expected, b: Byte)
    ensures TagNumber(b) == TagFor(e) <==> Identifies(e, b)
  {
    match e
    case Tagged(tag) => StrippedIs(b, tag);
    case Context(number) =>
      ByteBits(number as int % 0x100);
      StrippedIs(b, TagFor(e));
      hide TagNumber;
  }

  lemma StrippedIs(b: Byte, tag: Byte)
    ensures TagNumber(b) == tag <==> tag / 0x20 % 2 == 0 && (b == tag || b as int == tag as int + 0x20)
  {
    Without(b);
    Without(tag);
  }

  lemma Without(b: Byte)
    ensures b / 0x20 % 2 == 1 ==> b >= 0x20 && (b - 0x20) / 0x20 % 2 == 0
  {
  }

  lemma ByteBits(x: int)
    requires 0 <= x < 0x100
    ensures if x < 0x80 then x % 0x80 == x && (x + 0x80) / 0x20 % 2 == x / 0x20 % 2 else x % 0x80 == x - 0x80
  {
  }

  /**
   Decoding a concatenation of elements as what they are, universal ones by their tag and context-specific ones by their
   number, gives their contents and leaves what follows them.
   */
  lemma ExpectedDecoded(es: seq<Expected>, ts: seq<Tlv>, rest: Bytes, word: nat)
    requires word < 0x80 && forall t :: t in ts ==> Encodable(t, word)
    requires |es| == |ts| && forall k :: 0 <= k < |es| ==> Identifies(es[k], ts[k].tag)
    ensures var s, tags := EncodeAll(ts, word) + rest, TagsFor(es);
            AllOk(s, tags, word) && Payloads(s, tags, word) == PayloadsOf(ts) && Left(s, tags, word) == rest
  {
    DecodeEncoded(ts, rest, word);
    hide Identifies, TagNumber, TagFor, ClassAndNumber, EncodeAll, AllOk, Payloads, Left;
    TagsOfAt(ts);
    forall k | 0 <= k < |es|
      ensures TagsFor(es)[k] == TagsOf(ts)[k]
    {
      IdentifiesExactly(es[k], ts[k].tag);
      TagNumberIs(ts[k].tag);
    }
    assert TagsFor(es) == TagsOf(ts);
  }

  lemma {:induction false} TagsOfAt(ts: seq<Tlv>)
    ensures |TagsOf(ts)| == |ts| && forall k :: 0 <= k < |ts| ==> TagsOf(ts)[k] == ClassAndNumber(ts[k].tag)
    decreases |ts|
  {
    if ts != [] {
      TagsOfAt(ts[1..]);
    }
  }

  /** An element with any other identifier octet is refused. */
  lemma OthersRefused(s: Bytes, e: Expected, word: nat)
    requires s != [] && !Identifies(e, s[0])
    ensures !ElementOk(s, TagFor(e), word)
  {
    IdentifiesExactly(e, s[0]);
  }

  // The octets that the length byte announces, none for the short form.
  function LengthOctets(s: Bytes): nat
    requires |s| > 1
  { if s[1] < 0x80 then 0 else s[1] as int - 0x80 }

  // The buffer ends inside the length of its first element.
  predicate LengthCut(s: Bytes, word: nat) { |s| > 1 && LengthOctets(s) <= word && |s| - 2 < LengthOctets(s) }

  /** An element that decodes has a complete header exactly when the buffer does not end inside its length. */
  lemma HeaderComplete(s: Bytes, tag: Byte, word: nat)
    requires ElementOk(s, tag, word)
    ensures HeaderSize(s, word) == 2 + LengthOctets(s) <==> !LengthCut(s, word)
  {
  }

  /**
   A length that is cut short is not detected as such. The element decodes exactly when all the octets that are there
   are zero; it is then empty, and so is the remainder.
   */
  lemma CutLengthExactly(s: Bytes, tag: Byte, word: nat)
    requires LengthCut(s, word)
    ensures ElementOk(s, tag, word) <==> TagNumber(s[0]) == tag && forall k :: 2 <= k < |s| ==> s[k] == 0
    ensures ElementOk(s, tag, word) ==> Payload(s, tag, word) == [] && Remainder(s, tag, word) == []
  {
    hide TagNumber, BigEndian;
    var octets := s[1..][1..];
    ZeroOctets(octets);
    assert s[1..][1..LengthSize(s[1..], word)] == octets;
    assert forall k :: 2 <= k < |s| ==> s[k] == octets[k - 2];
    assert forall k :: 0 <= k < |octets| ==> octets[k] == s[k + 2];
  }

  lemma {:induction false} ZeroOctets(s: Bytes)
    ensures BigEndian(s) == 0 <==> forall k :: 0 <= k < |s| ==> s[k] == 0
  {
    if s != [] {
      var front := s[..|s| - 1];
      ZeroOctets(front);
      assert forall k :: 0 <= k < |front| ==> front[k] == s[k];
    }
  }

  // Such an element: one of two length octets is missing.
  lemma CutLengthAccepted()
    ensures LengthCut([0x04, 0x82, 0x00], 4) && ElementOk([0x04, 0x82, 0x00], 0x04, 4)
  {
    CutLengthExactly([0x04, 0x82, 0x00], 0x04, 4);
  }
}
