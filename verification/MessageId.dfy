/**
 Message identifiers. A message id packs the positions of an object list, an object, an interface and a member into
 four bytes. A sender builds the header of a call or signal from an id; a receiver searches its tables for the entry
 that matches a header. The search is proved to return the first matching entry, and sending followed by searching to
 give back the same id under exactly stated conditions on the tables.
 */
module MessageId {
  import opened Seq32
  import opened Signature

  const AJ_MAX_OBJECT_LISTS := 9
  const MAX_SIGNATURE := 64

  datatype Kind = MethodCall | SignalMsg

  datatype Message = Message(kind: Kind, path: string, iface: string, member: string, signature: string)

  datatype Object = Object(path: string, disabled: bool, interfaces: seq<Interface>)

  // The registered object lists; an absent list is empty.
  type Tables = s: seq<seq<Object>> | |s| == 9 witness [[], [], [], [], [], [], [], [], []]

  // The position of an entry.
  datatype Ref = Ref(list: nat, obj: nat, ifc: nat, mem: nat)

  /* ---- Entries ---- */

  // METHOD and SIGNAL
  function TypeOf(kind: Kind): int { if kind.MethodCall? then 1 else 0 }

  function DirectionOf(kind: Kind): char { if kind.MethodCall? then IN_ARG else OUT_ARG }

  // A member string without the type character and the mark of a sessionless signal.
  function MemberName(s: string): string {
    if s == "" then "" else if MemberType(s[0]) == 0 && |s| > 1 && s[1] == '&' then s[2..] else s[1..]
  }

  predicate MatchPath(path: string, msg: Message) {
    || (path != "" && path[0] == '?' && msg.kind.MethodCall?)
    || (path != "" && path[0] == '!' && msg.kind.SignalMsg?)
    || path == msg.path
  }

  // The member name of the message is the member's name in the table.
  predicate MemberMatches(s: string, msg: Message) {
    && s != "" && MemberType(s[0]) == TypeOf(msg.kind) && msg.member <= MemberName(s)
    && (|msg.member| == |MemberName(s)| || MemberName(s)[|msg.member|] == ' ')
  }

  // The first interface of that name.
  predicate Named(interfaces: seq<Interface>, i: nat, name: string) {
    && i < |interfaces| && InterfaceName(interfaces[i][0]) == name
    && forall j :: 0 <= j < i ==> InterfaceName(interfaces[j][0]) != name
  }

  predicate InObject(o: Object, i: nat, m: nat) { i < |o.interfaces| && m + 1 < |o.interfaces[i]| }

  predicate InTable(tables: Tables, e: Ref) {
    e.list < |tables| && e.obj < |tables[e.list]| && InObject(tables[e.list][e.obj], e.ifc, e.mem)
  }

  function ObjectOf(tables: Tables, e: Ref): Object
    requires InTable(tables, e)
  { tables[e.list][e.obj] }

  function MemberOf(tables: Tables, e: Ref): string
    requires InTable(tables, e)
  { tables[e.list][e.obj].interfaces[e.ifc][e.mem + 1] }

  predicate MatchesIn(o: Object, i: nat, m: nat, msg: Message) {
    && !o.disabled && MatchPath(o.path, msg)
    && InObject(o, i, m) && Named(o.interfaces, i, msg.iface) && MemberMatches(o.interfaces[i][m + 1], msg)
  }

  // The entry that the search takes for a match.
  predicate Entry(tables: Tables, e: Ref, msg: Message) {
    InTable(tables, e) && MatchesIn(tables[e.list][e.obj], e.ifc, e.mem, msg)
  }

  // The order of the search.
  predicate Earlier(e: Ref, f: Ref) {
    || e.list < f.list
    || (e.list == f.list && e.obj < f.obj)
    || (e.list == f.list && e.obj == f.obj && e.ifc < f.ifc)
    || (e.list == f.list && e.obj == f.obj && e.ifc == f.ifc && e.mem < f.mem)
  }

  ghost predicate First(tables: Tables, e: Ref, msg: Message) {
    Entry(tables, e, msg) && forall f :: Entry(tables, f, msg) ==> !Earlier(f, e)
  }

  // The four positions, each cut to a byte.
  function Pack(e: Ref): U32 { PackIndices(e.list % 0x100, e.obj % 0x100, e.ifc % 0x100, e.mem % 0x100) }

  function PackIndices(oIndex: Byte, pIndex: Byte, iIndex: Byte, mIndex: Byte): U32 {
    oIndex as int * 0x100_0000 + pIndex as int * 0x1_0000 + iIndex as int * 0x100 + mIndex as int
  }

  /* ---- Receiving ---- */

  method MatchMember(s: string, msg: Message) returns (b: bool)
    ensures b <==> MemberMatches(s, msg)
  {
    if s == "" || MemberType(s[0]) != TypeOf(msg.kind) {
      return false;
    }
    var at: nat := 1;
    if msg.kind.SignalMsg? && |s| > 1 && s[1] == '&' {
      at := 2;
    }
    ghost var name := s[at..];
    assert name == MemberName(s);
    var k := 0;
    while k < |msg.member|
      invariant 0 <= k <= |msg.member| && k <= |name| && name[..k] == msg.member[..k]
    {
      if at + k >= |s| || s[at + k] != msg.member[k] {
        assert at + k < |s| ==> name[k] == s[at + k];
        return false;
      }
      assert name[k] == s[at + k] && name[..k + 1] == name[..k] + [name[k]];
      k := k + 1;
    }
    assert msg.member == msg.member[..k] == name[..k];
    return at + k == |s| || s[at + k] == ' ';
  }

  method FindInterface(interfaces: seq<Interface>, name: string)
    returns (desc: Interface, found: bool, idx: Byte, ghost i: nat)
    ensures found ==> Named(interfaces, i, name) && idx == i % 0x100 && desc == interfaces[i]
    ensures !found ==> forall j :: !Named(interfaces, j, name)
  {
    desc, idx, i := [""], 0, 0;
    var at := 0;
    while at < |interfaces|
      invariant i == at <= |interfaces| && idx == i % 0x100
      invariant forall j :: 0 <= j < at ==> InterfaceName(interfaces[j][0]) != name
    {
      if InterfaceName(interfaces[at][0]) == name {
        return interfaces[at], true, idx, i;
      }
      idx, i, at := (idx as int + 1) % 0x100, i + 1, at + 1;
    }
    return desc, false, idx, i;
  }

  lemma NamedIsUnique(interfaces: seq<Interface>, i: nat, j: nat, name: string)
    requires Named(interfaces, i, name) && Named(interfaces, j, name)
    ensures i == j
  {
  }

  // The search inside one object: the first member that matches, with its position cut to bytes.
  method SearchObject(o: Object, msg: Message)
    returns (found: bool, iIndex: Byte, mIndex: Byte, ghost i: nat, ghost m: nat, member: string)
    ensures found ==> MatchesIn(o, i, m, msg) && forall m' :: MatchesIn(o, i, m', msg) ==> m <= m'
    ensures found ==> iIndex == i % 0x100 && mIndex == m % 0x100 && member == o.interfaces[i][m + 1]
    ensures !found ==> forall i', m' :: !MatchesIn(o, i', m', msg)
  {
    hide MemberMatches, MatchPath;
    iIndex, mIndex, i, m, member, found := 0, 0, 0, 0, "", false;
    if o.disabled || !MatchPath(o.path, msg) {
      return;
    }
    var desc;
    desc, found, iIndex, i := FindInterface(o.interfaces, msg.iface);
    if !found {
      return;
    }
    var at := 1;
    while at < |desc|
      invariant 1 <= at == m + 1 <= |desc| && mIndex == m % 0x100
      invariant forall k :: 1 <= k < at ==> !MemberMatches(desc[k], msg)
    {
      var b := MatchMember(desc[at], msg);
      if b {
        member := desc[at];
        return;
      }
      mIndex, m, at := (mIndex as int + 1) % 0x100, m + 1, at + 1;
    }
    forall i', m'
      ensures !MatchesIn(o, i', m', msg)
    {
      if Named(o.interfaces, i', msg.iface) {
        NamedIsUnique(o.interfaces, i, i', msg.iface);
      }
    }
    found := false;
  }

  // The search in one object list.
  method SearchList(objects: seq<Object>, msg: Message)
    returns (found: bool, pIndex: Byte, iIndex: Byte, mIndex: Byte, ghost p: nat, ghost i: nat, ghost m: nat,
             member: string)
    ensures found ==> p < |objects| && MatchesIn(objects[p], i, m, msg)
                      && (forall m' :: MatchesIn(objects[p], i, m', msg) ==> m <= m')
                      && (forall p', i', m' :: 0 <= p' < p ==> !MatchesIn(objects[p'], i', m', msg))
    ensures found ==>
              pIndex == p % 0x100 && iIndex == i % 0x100 && mIndex == m % 0x100
              && member == objects[p].interfaces[i][m + 1]
    ensures !found ==> forall p', i', m' :: 0 <= p' < |objects| ==> !MatchesIn(objects[p'], i', m', msg)
  {
    hide MatchesIn;
    found, pIndex, iIndex, mIndex, p, i, m, member := false, 0, 0, 0, 0, 0, 0, "";
    var at := 0;
    while at < |objects|
      invariant 0 <= at == p <= |objects| && pIndex == p % 0x100
      invariant forall p', i', m' :: 0 <= p' < p ==> !MatchesIn(objects[p'], i', m', msg)
    {
      found, iIndex, mIndex, i, m, member := SearchObject(objects[at], msg);
      if found {
        return;
      }
      pIndex, p, at := (pIndex as int + 1) % 0x100, p + 1, at + 1;
    }
    found := false;
  }

  // CheckSignature's verdict on the signature of a message.
  predicate SignatureOk(s: string, msg: Message) {
    (msg.signature != "" && msg.signature[0] == '*') || Accepts(s, msg.signature, DirectionOf(msg.kind))
  }

  /** AJ_LookupMessageId: the id of the first entry that matches, and whether the signature agrees with it. */
  method LookupMessageId(tables: Tables, msg: Message) returns (found: bool, id: U32, sigOk: bool, ghost e: Ref)
    ensures found ==> First(tables, e, msg) && id == Pack(e) && (sigOk <==> SignatureOk(MemberOf(tables, e), msg))
    ensures !found ==> forall f :: !Entry(tables, f, msg)
  {
    hide MatchesIn, SignatureOk, PackIndices;
    id, sigOk, e := 0, false, Ref(0, 0, 0, 0);
    var oIndex := 0;
    while oIndex < AJ_MAX_OBJECT_LISTS
      invariant 0 <= oIndex <= |tables| == AJ_MAX_OBJECT_LISTS
      invariant forall f: Ref :: f.list < oIndex ==> !Entry(tables, f, msg)
    {
      var pIndex, iIndex, mIndex, member;
      ghost var p, i, m;
      found, pIndex, iIndex, mIndex, p, i, m, member := SearchList(tables[oIndex], msg);
      if found {
        e := Ref(oIndex, p, i, m);
        id := PackIndices(oIndex, pIndex, iIndex, mIndex);
        FirstInList(tables, e, msg);
        sigOk := CheckSignature(member, msg.signature, DirectionOf(msg.kind));
        SignatureOkIs(member, msg);
        return;
      }
      oIndex := oIndex + 1;
    }
    found := false;
  }

  lemma SignatureOkIs(s: string, msg: Message)
    ensures SignatureOk(s, msg) <==>
              (msg.signature != "" && msg.signature[0] == '*') || Accepts(s, msg.signature, DirectionOf(msg.kind))
  {
  }

  lemma FirstInList(tables: Tables, e: Ref, msg: Message)
    requires e.list < |tables| && e.obj < |tables[e.list]|
    requires MatchesIn(tables[e.list][e.obj], e.ifc, e.mem, msg)
    requires forall m' :: MatchesIn(tables[e.list][e.obj], e.ifc, m', msg) ==> e.mem <= m'
    requires forall p', i', m' :: 0 <= p' < e.obj ==> !MatchesIn(tables[e.list][p'], i', m', msg)
    requires forall f: Ref :: f.list < e.list ==> !Entry(tables, f, msg)
    ensures First(tables, e, msg)
  {
    hide MemberMatches, MatchPath;
    forall f | Entry(tables, f, msg)
      ensures !Earlier(f, e)
    {
      if f.list == e.list && f.obj == e.obj {
        assert f.ifc == e.ifc;
      }
    }
  }

  /* ---- Sending ---- */

  datatype Built = Built(msg: Message) | InvalidId | BadPath | TooLong

  // UnpackMsgId, with the positions checked against the tables: object path, interface and member string.
  function Unpack(tables: Tables, id: U32): Position {
    var o, p, i, m := id / 0x100_0000, id / 0x1_0000 % 0x100, id / 0x100 % 0x100, (id % 0x100 + 1) % 0x100;
    if o >= |tables| || p >= |tables[o]| || i >= |tables[o][p].interfaces|
       || m >= |tables[o][p].interfaces[i]| || tables[o][p].disabled then
      Bad
    else
      Unpacked(tables[o][p].path, InterfaceName(tables[o][p].interfaces[i][0]),
               MemberName(tables[o][p].interfaces[i][m]))
  }

  datatype Position = Bad | Unpacked(path: string, iface: string, member: string)

  // AJ_InitMessageFromMsgId for calls and signals. The member goes out cut at its first space.
  function InitMessage(tables: Tables, id: U32, kind: Kind): Built {
    match Unpack(tables, id)
    case Bad => InvalidId
    case Unpacked(path, iface, member) =>
      var sig := Compose(member, DirectionOf(kind));
      if path == "" || (path[0] != '?' && path[0] != '/') then BadPath
      else if |sig| >= MAX_SIGNATURE then TooLong
      else Built(Message(kind, if path[0] == '?' then "/" else path, iface, Upto(member, ' '), sig))
  }

  // Member strings start with the character of their type, as the table format demands.
  ghost predicate WellFormed(tables: Tables) {
    forall e :: InTable(tables, e) ==> MemberOf(tables, e) != "" && MemberOf(tables, e)[0] in "!?@"
  }

  // All positions fit their byte.
  predicate Fits(e: Ref) { e.obj < 0x100 && e.ifc < 0x100 && e.mem < 0xFF }

  // The member is of that kind, and a path wildcard stands for calls only.
  predicate RightKind(tables: Tables, e: Ref, kind: Kind)
    requires InTable(tables, e)
  {
    && MemberOf(tables, e) != "" && MemberType(MemberOf(tables, e)[0]) == TypeOf(kind)
    && (ObjectOf(tables, e).path != "" && ObjectOf(tables, e).path[0] == '?' ==> kind.MethodCall?)
  }

  // No interface of the object in front of the entry's has the same name.
  predicate Unshadowed(tables: Tables, e: Ref)
    requires InTable(tables, e)
  { Named(ObjectOf(tables, e).interfaces, e.ifc, InterfaceName(ObjectOf(tables, e).interfaces[e.ifc][0])) }

  lemma UnpackPacked(tables: Tables, e: Ref)
    requires InTable(tables, e) && Fits(e)
    ensures Unpack(tables, Pack(e)) ==
            if ObjectOf(tables, e).disabled then Bad
            else Unpacked(ObjectOf(tables, e).path, InterfaceName(ObjectOf(tables, e).interfaces[e.ifc][0]),
                 MemberName(MemberOf(tables, e)))
  {
    PackBytes(e);
  }

  lemma PackBytes(e: Ref)
    requires e.list < 0x100 && Fits(e)
    ensures var id := Pack(e);
            id / 0x100_0000 == e.list && id / 0x1_0000 % 0x100 == e.obj && id / 0x100 % 0x100 == e.ifc
            && (id % 0x100 + 1) % 0x100 == e.mem + 1
  {
    hide Pack;
    var x := e.list * 0x100 + e.obj;
    var y := x * 0x100 + e.ifc;
    var z := y * 0x100 + e.mem;
    PackShifts(e);
    LowByte(e.list, e.obj);
    LowByte(x, e.ifc);
    LowByte(y, e.mem);
    Shifts(z);
  }

  // From the high byte down: object list, object, interface, member.
  lemma PackShifts(e: Ref)
    requires e.list < 0x100 && Fits(e)
    ensures Pack(e) == ((e.list * 0x100 + e.obj) * 0x100 + e.ifc) * 0x100 + e.mem
  {
  }

  lemma LowByte(x: nat, b: nat)
    requires b < 0x100
    ensures (x * 0x100 + b) / 0x100 == x && (x * 0x100 + b) % 0x100 == b
  {
  }

  lemma Shifts(z: nat)
    ensures z / 0x1_0000 == z / 0x100 / 0x100 && z / 0x100_0000 == z / 0x100 / 0x100 / 0x100
  {
  }

  /** The entry that a message was built from matches it if and only if it is of the right kind and unshadowed. */
  lemma BuiltMatchesExactly(tables: Tables, e: Ref, kind: Kind, msg: Message)
    requires InTable(tables, e) && Fits(e) && InitMessage(tables, Pack(e), kind) == Built.Built(msg)
    ensures Entry(tables, e, msg) <==> RightKind(tables, e, kind) && Unshadowed(tables, e)
  {
    UnpackPacked(tables, e);
    hide Unpack, Pack, Compose, Upto, MemberName, MemberType, InterfaceName, Named, MatchPath, MemberMatches;
    CutNameMatches(MemberOf(tables, e), msg);
    BuiltPathMatches(ObjectOf(tables, e).path, msg);
  }

  lemma CutNameMatches(s: string, msg: Message)
    requires msg.member == Upto(MemberName(s), ' ')
    ensures MemberMatches(s, msg) <==> s != "" && MemberType(s[0]) == TypeOf(msg.kind)
  {
  }

  lemma BuiltPathMatches(path: string, msg: Message)
    requires path != "" && (path[0] == '?' || path[0] == '/') && msg.path == if path[0] == '?' then "/" else path
    ensures MatchPath(path, msg) <==> (path[0] == '?' ==> msg.kind.MethodCall?)
  {
  }

  /** Its signature agrees. */
  lemma BuiltSignatureOk(tables: Tables, e: Ref, kind: Kind, msg: Message)
    requires WellFormed(tables) && InTable(tables, e) && Fits(e)
    requires InitMessage(tables, Pack(e), kind) == Built.Built(msg)
    ensures SignatureOk(MemberOf(tables, e), msg)
  {
    UnpackPacked(tables, e);
    assert MemberOf(tables, e)[0] in "!?@";
    hide Unpack, Pack, Compose, WellFormed, Upto;
    var s, d := MemberOf(tables, e), DirectionOf(kind);
    SameSignature(s, d);
    ComposedHasNoSpace(MemberName(s), d);
    AcceptsIffComposed(s, msg.signature, d);
  }

  // The type character and the sessionless mark do not change the signature.
  lemma SameSignature(s: string, d: char)
    requires s != "" && s[0] in "!?@" && (d == IN_ARG || d == OUT_ARG)
    ensures Compose(s, d) == Compose(MemberName(s), d)
  {
    hide Compose;
    var name := MemberName(s);
    if |name| == |s| - 1 {
      assert s == [s[0]] + name;
      ComposeSkips([s[0]], name, d);
    } else {
      assert s == [s[0], s[1]] + name;
      ComposeSkips([s[0], s[1]], name, d);
    }
  }

  /**
   A message built from an id and looked up in the same tables: the search gives back the id if and only if the entry is
   of the right kind and unshadowed and no entry in front of it matches the message too.
   */
  lemma LookupOfBuiltExactly(tables: Tables, e: Ref, kind: Kind, msg: Message, f: Ref)
    requires InTable(tables, e) && Fits(e) && InitMessage(tables, Pack(e), kind) == Built.Built(msg)
    requires First(tables, f, msg) && Fits(f)
    ensures Pack(f) == Pack(e) <==>
            RightKind(tables, e, kind) && Unshadowed(tables, e) && forall g :: Entry(tables, g, msg) ==> !Earlier(g, e)
  {
    BuiltMatchesExactly(tables, e, kind, msg);
    PackIsInjective(e, f);
    hide *;
    FirstExactly(tables, e, f, msg);
  }

  lemma FirstExactly(tables: Tables, e: Ref, f: Ref, msg: Message)
    requires First(tables, f, msg)
    ensures f == e <==> Entry(tables, e, msg) && forall g :: Entry(tables, g, msg) ==> !Earlier(g, e)
  {
    hide Entry;
  }

  lemma PackIsInjective(e: Ref, f: Ref)
    requires e.list < 0x100 && Fits(e) && f.list < 0x100 && Fits(f)
    ensures Pack(e) == Pack(f) <==> e == f
  {
    PackBytes(e);
    PackBytes(f);
    hide Pack;
  }

  // No two enabled entries match one message, whichever of several interfaces of one name they are in.
  ghost predicate Unambiguous(tables: Tables) {
    && (forall msg, e, f :: Candidate(tables, e, msg) && Candidate(tables, f, msg) ==> e == f)
    && (forall e :: InTable(tables, e) ==> Unshadowed(tables, e))
  }

  predicate Candidate(tables: Tables, e: Ref, msg: Message) {
    && InTable(tables, e) && !ObjectOf(tables, e).disabled && MatchPath(ObjectOf(tables, e).path, msg)
    && InterfaceName(ObjectOf(tables, e).interfaces[e.ifc][0]) == msg.iface && MemberMatches(MemberOf(tables, e), msg)
  }

  /**
   In tables without ambiguity, every call or signal that can be built from an id is found under that id, with a
   signature that agrees, provided its kind is the member's and a path wildcard is used for calls only.
   */
  lemma SentIsFound(tables: Tables, e: Ref, kind: Kind, msg: Message)
    requires WellFormed(tables) && Unambiguous(tables)
    requires InTable(tables, e) && Fits(e) && InitMessage(tables, Pack(e), kind) == Built.Built(msg)
    requires RightKind(tables, e, kind)
    ensures First(tables, e, msg) && SignatureOk(MemberOf(tables, e), msg)
  {
    assert Unshadowed(tables, e);
    hide *;
    BuiltMatchesExactly(tables, e, kind, msg);
    BuiltSignatureOk(tables, e, kind, msg);
    FirstOfOne(tables, e, msg);
  }

  lemma EntryIsCandidate(tables: Tables, e: Ref, msg: Message)
    requires Entry(tables, e, msg)
    ensures Candidate(tables, e, msg)
  {
    hide MemberMatches, MatchPath;
  }

  lemma FirstOfOne(tables: Tables, e: Ref, msg: Message)
    requires Unambiguous(tables) && Entry(tables, e, msg)
    ensures First(tables, e, msg)
  {
    hide Entry, Candidate, Named;
    EntryIsCandidate(tables, e, msg);
    forall f | Entry(tables, f, msg)
      ensures !Earlier(f, e)
    {
      EntryIsCandidate(tables, f, msg);
    }
  }

  // An earlier interface of the same name hides a member even though no other entry matches the message.
  lemma SameNameHides(o: Object, tables: Tables, msg: Message)
    requires o == Object("/o", false, [["i"], ["i", "?m"]]) && tables == [[o], [], [], [], [], [], [], [], []]
    requires msg == Message(MethodCall, "/o", "i", "m", "")
    ensures forall e :: Candidate(tables, e, msg) <==> e == Ref(0, 0, 1, 0)
    ensures forall e :: !Entry(tables, e, msg)
    ensures InitMessage(tables, Pack(Ref(0, 0, 1, 0)), MethodCall) == Built.Built(msg)
  {
    hide InitMessage, Pack;
    SameNameBuilds(o, tables, msg);
    assert o.interfaces[0][0] == o.interfaces[1][0] == InterfaceName("i") == "i" && MemberName("?m") == "m";
  }

  lemma PlainMember()
    ensures InterfaceName("i") == "i" && MemberName("?m") == "m" && Upto("m", ' ') == "m" && Compose("m", IN_ARG) == ""
  {
    assert After("m", IN_ARG) == "";
  }

  lemma SameNameBuilds(o: Object, tables: Tables, msg: Message)
    requires o == Object("/o", false, [["i"], ["i", "?m"]]) && tables == [[o], [], [], [], [], [], [], [], []]
    requires msg == Message(MethodCall, "/o", "i", "m", "")
    ensures InitMessage(tables, Pack(Ref(0, 0, 1, 0)), MethodCall) == Built.Built(msg)
  {
    PlainMember();
    hide Unpack, Pack, Compose, Upto, MemberName, InterfaceName;
    UnpackPacked(tables, Ref(0, 0, 1, 0));
    assert o.interfaces[1][0] == "i" && o.interfaces[1][1] == "?m";
  }

  /* ---- What an entry means ---- */

  // The interfaces of the entry's object are the strings of `ds`.
  ghost predicate Spells(tables: Tables, e: Ref, ds: seq<InterfaceDef>) {
    && InTable(tables, e) && ObjectOf(tables, e).interfaces == EncodeInterfaces(ds)
    && forall d :: d in ds ==> InterfaceOk(d)
  }

  lemma SpelledEntry(tables: Tables, e: Ref, ds: seq<InterfaceDef>)
    requires Spells(tables, e, ds)
    ensures e.ifc < |ds| && e.mem < |ds[e.ifc].members| && MemberOk(ds[e.ifc].members[e.mem])
    ensures MemberOf(tables, e) == EncodeMember(ds[e.ifc].members[e.mem])
    ensures |ObjectOf(tables, e).interfaces| == |ds|
    ensures forall j :: 0 <= j < |ds| ==> InterfaceName(ObjectOf(tables, e).interfaces[j][0]) == ds[j].name
  {
    hide MemberOk, EncodeMember, InterfaceName, SpelledName;
    EncodedInterfaceAt(ds, e.ifc);
    EncodedMemberAt(ds[e.ifc].members, e.mem);
    assert ds[e.ifc] in ds;
    forall j | 0 <= j < |ds|
      ensures InterfaceName(ObjectOf(tables, e).interfaces[j][0]) == ds[j].name
    {
      EncodedInterfaceAt(ds, j);
      assert ds[j] in ds;
      NameOfSpelled(ds[j]);
    }
  }

  // A call of that method, or that signal.
  predicate Concerns(msg: Message, d: MemberDef) {
    match d
    case MethodDef(name, _) => msg.kind == MethodCall && msg.member == name
    case SignalDef(name, _, _) => msg.kind == SignalMsg && msg.member == name
    case PropertyDef(_, _, _) => false
  }

  lemma MemberMeans(d: MemberDef, msg: Message)
    requires MemberOk(d) && ' ' !in msg.member
    ensures MemberMatches(EncodeMember(d), msg) <==> Concerns(msg, d)
  {
    var s, n := EncodeMember(d), |msg.member|;
    if !d.PropertyDef? {
      var name := d.name + EncodeArgs(d.args);
      assert MemberName(s) == name && MemberType(s[0]) == if d.MethodDef? then 1 else 0;
      ArgsStartWithSpace(d.args);
      assert n > |d.name| ==> msg.member[|d.name|] in msg.member;
      assert |name| > |d.name| ==> name[|d.name|] == ' ';
      if n < |d.name| {
        assert name[n] == d.name[n] && d.name[n] in d.name;
      }
      assert name[..|d.name|] == d.name;
      if msg.member <= name && n == |d.name| {
        assert msg.member == name[..n];
      }
    }
  }

  lemma ArgsStartWithSpace(args: seq<Arg>)
    ensures EncodeArgs(args) == "" || EncodeArgs(args)[0] == ' '
  {
  }

  /**
   Which entry the search takes for a match, in terms of the descriptions that the strings spell: an enabled object at
   that path (a path that starts with a question mark stands for every call, one with an exclamation mark for every
   signal), the first interface of that name, and in it the method or signal of that name.
   */
  lemma EntryMeans(tables: Tables, e: Ref, ds: seq<InterfaceDef>, msg: Message)
    requires Spells(tables, e, ds) && ' ' !in msg.member
    ensures e.ifc < |ds| && e.mem < |ds[e.ifc].members|
    ensures var o := ObjectOf(tables, e);
            Entry(tables, e, msg) <==>
              && !o.disabled
              && (|| o.path == msg.path
                  || (o.path != "" && o.path[0] == '?' && msg.kind == MethodCall)
                  || (o.path != "" && o.path[0] == '!' && msg.kind == SignalMsg))
              && ds[e.ifc].name == msg.iface && (forall j :: 0 <= j < e.ifc ==> ds[j].name != msg.iface)
              && Concerns(msg, ds[e.ifc].members[e.mem])
  {
    hide EncodeMember, InterfaceName, MemberMatches, Concerns, MemberOk, EncodeInterfaces;
    SpelledEntry(tables, e, ds);
    MemberMeans(ds[e.ifc].members[e.mem], msg);
  }

  // The arguments whose types make up the signature of a message: those that go in with a call, or out with a signal.
  function Carried(msg: Kind, args: seq<Arg>): string { Types(args, if msg.MethodCall? then '<' else '>') }

  /** What is built from the id of a method or signal, header field by header field, or why nothing is. */
  lemma BuiltMeans(tables: Tables, e: Ref, ds: seq<InterfaceDef>, kind: Kind)
    requires Spells(tables, e, ds) && Fits(e)
    ensures e.ifc < |ds| && e.mem < |ds[e.ifc].members|
    ensures var o, d := ObjectOf(tables, e), ds[e.ifc].members[e.mem];
            !d.PropertyDef? ==>
              InitMessage(tables, Pack(e), kind) ==
              if o.disabled then InvalidId
              else if o.path == "" || o.path[0] !in "?/" then BadPath
              else if |Carried(kind, d.args)| >= 64 then TooLong
              else Built.Built(Message(kind, if o.path[0] == '?' then "/" else o.path, ds[e.ifc].name, d.name,
                                       Carried(kind, d.args)))
  {
    UnpackPacked(tables, e);
    SpelledEntry(tables, e, ds);
    var d := ds[e.ifc].members[e.mem];
    hide Unpack, Pack, EncodeMember, InterfaceName, EncodeInterfaces, Compose, Upto, MemberName, Types;
    if !d.PropertyDef? {
      CallMeans(d, kind);
    }
  }

  // The name and the signature of a method or signal.
  lemma CallMeans(d: MemberDef, kind: Kind)
    requires MemberOk(d) && !d.PropertyDef?
    ensures var s := MemberName(EncodeMember(d));
            Upto(s, ' ') == d.name && Compose(s, DirectionOf(kind)) == Carried(kind, d.args)
  {
    var s := MemberName(EncodeMember(d));
    assert s == d.name + EncodeArgs(d.args);
    ArgsStartWithSpace(d.args);
    hide Compose, Upto, MemberName, EncodeMember, EncodeArgs;
    UptoPlain(d.name, EncodeArgs(d.args), ' ');
    ComposeSelectsTypes(d.name, d.args, DirectionOf(kind));
  }

  /** A signature without spaces passes the check of a method or signal exactly when it is the one a sender builds. */
  lemma SignatureMeans(d: MemberDef, msg: Message)
    requires MemberOk(d) && !d.PropertyDef? && ' ' !in msg.signature
    requires msg.signature == "" || msg.signature[0] != '*'
    ensures SignatureOk(EncodeMember(d), msg) <==> msg.signature == Carried(msg.kind, d.args)
  {
    var s, dir := EncodeMember(d), DirectionOf(msg.kind);
    assert s[0] in "!?@";
    hide Compose, EncodeMember, Accepts, Types, MemberName;
    CallMeans(d, msg.kind);
    SameSignature(s, dir);
    AcceptsIffComposed(s, msg.signature, dir);
  }

  function AllTypes(args: seq<Arg>): string { if args == [] then "" else args[0].kind + AllTypes(args[1..]) }

  /**
   The direction of a signal's arguments is documented not to matter. The signature of a signal holds the types of all
   its arguments exactly when every one of them is marked as going out.
   */
  lemma SignalDirectionExactly(args: seq<Arg>)
    requires forall a :: a in args ==> ArgDefOk(a)
    ensures Carried(SignalMsg, args) == AllTypes(args) <==> forall a :: a in args ==> a.direction == '>'
  {
    OutTypes(args);
  }

  lemma {:induction false} OutTypes(args: seq<Arg>)
    requires forall a :: a in args ==> ArgDefOk(a)
    ensures |Types(args, '>')| <= |AllTypes(args)|
    ensures |Types(args, '>')| == |AllTypes(args)| ==> forall a :: a in args ==> a.direction == '>'
    ensures (forall a :: a in args ==> a.direction == '>') ==> Types(args, '>') == AllTypes(args)
    decreases |args|
  {
    if args != [] {
      assert args[0] in args && ArgDefOk(args[0]);
      assert forall a :: a in args <==> a == args[0] || a in args[1..];
      OutTypes(args[1..]);
    }
  }
}
