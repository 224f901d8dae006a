/**
 The credential store: credentials serialised into NVRAM data sets, looked up by linear search, with the master secrets
 that expire first evicted when there is no slot or no space. The slots are proved to refine a finite map from
 (type, id) to (expiration, data). NVRAM is modelled by its documented contract; how much space it has left and whether
 a data set can be created are arbitrary functions of its contents.
 */
module CredentialStore {
  import opened Options
  import opened Seq32

  const AJ_CREDS_NV_ID_BEGIN: nat := 2
  const AJ_CREDS_NV_ID_END: nat := 42
  const AJ_CRED_TYPE_GENERIC: U16 := 1

  datatype Credential = Credential(kind: U16, id: seq<Byte>, expiration: U32, data: seq<Byte>)

  datatype Status = Ok | Failure | Unknown

  /* ---- Serialisation ---- */

  function Le16(x: U16): seq<Byte> { [x % 0x100, x / 0x100] }

  function Le32(x: U32): seq<Byte> { Le16(x % 0x1_0000) + Le16(x / 0x1_0000) }

  function Get16(b: seq<Byte>, at: nat): Option<U16> {
    if at + 2 <= |b| then Some(b[at] as int + b[at + 1] as int * 0x100) else None
  }

  function Get32(b: seq<Byte>, at: nat): Option<U32> {
    if at + 4 <= |b| then Some(Get16(b, at).value as int + Get16(b, at + 2).value as int * 0x1_0000) else None
  }

  // CredFieldRead: a 16-bit length and that many bytes.
  function GetField(b: seq<Byte>, at: nat): Option<seq<Byte>> {
    var n := Get16(b, at);
    if n.Some? && at + 2 + n.value as int <= |b| then Some(b[at + 2..at + 2 + n.value as int]) else None
  }

  predicate Storable(c: Credential) { |c.id| < 0x1_0000 && |c.data| < 0x1_0000 }

  // The serialised credential, rounded up to a word, is shorter than 64 KiB, as the 16-bit sizes presume.
  predicate Fits(c: Credential) { 10 + |c.id| + |c.data| <= 0xFFFC }

  // The bytes that CredentialWrite puts into a data set.
  function Encode(c: Credential): seq<Byte>
    requires Storable(c)
  { Le16(c.kind) + (Le16(|c.id|) + c.id) + Le32(c.expiration) + (Le16(|c.data|) + c.data) }

  // A data set may be longer than what was written to it.
  function Parse(b: seq<Byte>): Option<Credential> {
    var kind, id := Get16(b, 0), GetField(b, 2);
    if kind.None? || id.None? then None
    else
      var at := 4 + |id.value|;
      var expiration, data := Get32(b, at), GetField(b, at + 4);
      if expiration.None? || data.None? then None
      else Some(Credential(kind.value, id.value, expiration.value, data.value))
  }

  // CredentialSize, in 16-bit arithmetic.
  function CredentialSize(c: Credential): U16 { Wrap16(10 + |c.id| + |c.data|) }

  // WORD_ALIGN
  function Align(x: nat): nat { if x % 4 != 0 then (x / 4 + 1) * 4 else x }

  lemma Get16Written(b: seq<Byte>, at: nat, x: U16)
    requires at + 2 <= |b| && b[at..at + 2] == Le16(x)
    ensures Get16(b, at) == Some(x)
  {
    assert b[at] == b[at..at + 2][0] && b[at + 1] == b[at..at + 2][1];
  }

  lemma Get32Written(b: seq<Byte>, at: nat, x: U32)
    requires at + 4 <= |b| && b[at..at + 4] == Le32(x)
    ensures Get32(b, at) == Some(x)
  {
    assert b[at..at + 2] == b[at..at + 4][..2] == Le16(x % 0x1_0000);
    assert b[at + 2..at + 4] == b[at..at + 4][2..] == Le16(x / 0x1_0000);
    Get16Written(b, at, x % 0x1_0000);
    Get16Written(b, at + 2, x / 0x1_0000);
  }

  lemma GetFieldWritten(b: seq<Byte>, at: nat, f: seq<Byte>)
    requires |f| < 0x1_0000 && at + 2 + |f| <= |b| && b[at..at + 2 + |f|] == Le16(|f|) + f
    ensures GetField(b, at) == Some(f)
  {
    assert b[at..at + 2] == b[at..at + 2 + |f|][..2] == Le16(|f|);
    Get16Written(b, at, |f|);
    assert b[at + 2..at + 2 + |f|] == b[at..at + 2 + |f|][2..] == f;
  }

  /** What was written parses back, whatever follows it; and the size computed beforehand is the size written. */
  lemma ParseEncoded(c: Credential, pad: seq<Byte>)
    requires Storable(c)
    ensures Parse(Encode(c) + pad) == Some(c)
  {
    hide Le16, Le32, Get16, Get32, GetField;
    var b := Encode(c) + pad;
    var at := 4 + |c.id|;
    Lengths(c.kind, c.expiration);
    Lengths(|c.id|, c.expiration);
    Lengths(|c.data|, c.expiration);
    assert b[0..2] == Le16(c.kind);
    assert b[2..2 + 2 + |c.id|] == Le16(|c.id|) + c.id;
    assert b[at..at + 4] == Le32(c.expiration);
    assert b[at + 4..at + 4 + 2 + |c.data|] == Le16(|c.data|) + c.data;
    Get16Written(b, 0, c.kind);
    GetFieldWritten(b, 2, c.id);
    Get32Written(b, at, c.expiration);
    GetFieldWritten(b, at + 4, c.data);
  }

  lemma Lengths(x: U16, y: U32)
    ensures |Le16(x)| == 2 && |Le32(y)| == 4
  {
  }

  lemma SizeIsExact(c: Credential)
    requires Storable(c)
    ensures |Encode(c)| <= Wrap16(Align(CredentialSize(c))) <==> Fits(c)
    ensures |Encode(c)| == 10 + |c.id| + |c.data|
  {
  }

  /* ---- The slots as a map ---- */

  type Nv = map<nat, seq<Byte>>
  type Key = (U16, seq<Byte>)

  predicate IsSlot(s: nat) { AJ_CREDS_NV_ID_BEGIN <= s < AJ_CREDS_NV_ID_END }

  predicate Occupied(nv: Nv, s: nat) { IsSlot(s) && s in nv && Parse(nv[s]).Some? }

  function CredAt(nv: Nv, s: nat): Credential
    requires Occupied(nv, s)
  { Parse(nv[s]).value }

  function KeyAt(nv: Nv, s: nat): Key
    requires Occupied(nv, s)
  { (CredAt(nv, s).kind, CredAt(nv, s).id) }

  ghost predicate Valid(nv: Nv) {
    && (forall s: nat :: IsSlot(s) && s in nv ==> Occupied(nv, s))
    && (forall s: nat, t: nat :: Occupied(nv, s) && Occupied(nv, t) && KeyAt(nv, s) == KeyAt(nv, t) ==> s == t)
  }

  // The finite map that the slots stand for.
  ghost function Contents(nv: Nv): map<Key, (U32, seq<Byte>)>
    requires Valid(nv)
  {
    map s | AJ_CREDS_NV_ID_BEGIN <= s < AJ_CREDS_NV_ID_END && Occupied(nv, s) ::
      KeyAt(nv, s) := (CredAt(nv, s).expiration, CredAt(nv, s).data)
  }

  // The credential matches what is searched for; without an id the first of the type matches.
  predicate Wanted(c: Credential, kind: U16, id: Option<seq<Byte>>) {
    c.kind == kind && (id.Some? ==> c.id == id.value)
  }

  // The type and, where an id is asked for, the id of the slot can be read and are the ones searched for.
  predicate Matches(nv: Nv, s: nat, kind: U16, id: Option<seq<Byte>>) {
    IsSlot(s) && s in nv && Get16(nv[s], 0) == Some(kind) && (id.Some? ==> GetField(nv[s], 2) == id)
  }

  // The search gives up at this slot.
  predicate Unreadable(nv: Nv, s: nat, kind: U16, id: Option<seq<Byte>>) {
    && IsSlot(s) && s in nv
    && (Get16(nv[s], 0).None? || (Get16(nv[s], 0) == Some(kind) && id.Some? && GetField(nv[s], 2).None?))
  }

  // What the search returns: the first match, or 0 when there is none or when an unreadable slot comes first.
  ghost predicate FoundAt(nv: Nv, kind: U16, id: Option<seq<Byte>>, slot: nat) {
    if slot == 0 then
      forall s: nat :: Matches(nv, s, kind, id) ==> exists t: nat :: t < s && Unreadable(nv, t, kind, id)
    else
      && Matches(nv, slot, kind, id)
      && forall t: nat :: t < slot ==> !Unreadable(nv, t, kind, id) && !Matches(nv, t, kind, id)
  }

  lemma ValidIsReadable(nv: Nv, kind: U16, id: Option<seq<Byte>>)
    requires Valid(nv)
    ensures forall s: nat :: !Unreadable(nv, s, kind, id)
    ensures forall s: nat :: Matches(nv, s, kind, id) <==> Occupied(nv, s) && Wanted(CredAt(nv, s), kind, id)
  {
    forall s: nat | IsSlot(s) && s in nv
      ensures !Unreadable(nv, s, kind, id) && (Matches(nv, s, kind, id) <==> Wanted(CredAt(nv, s), kind, id))
    {
      assert Occupied(nv, s);
    }
  }

  /**
   A record that is cut inside its type, or inside the length of its id when the type is the one searched for, ends the
   search: nothing in that slot or behind it is found.
   */
  lemma CutRecordHides(nv: Nv, s: nat, kind: U16, id: seq<Byte>, slot: nat)
    requires 2 <= s < 42 && s in nv && FoundAt(nv, kind, Some(id), slot)
    requires |nv[s]| < 2 || (|nv[s]| < 4 && nv[s][0] as int + 0x100 * nv[s][1] as int == kind)
    ensures slot < s
  {
    assert Unreadable(nv, s, kind, Some(id));
  }

  // In a valid store the search finds exactly the slot of the key.
  lemma FoundInValid(nv: Nv, kind: U16, id: seq<Byte>, slot: nat)
    requires Valid(nv) && FoundAt(nv, kind, Some(id), slot)
    ensures slot == 0 <==> forall s: nat :: Occupied(nv, s) ==> KeyAt(nv, s) != (kind, id)
    ensures slot != 0 ==> Occupied(nv, slot) && KeyAt(nv, slot) == (kind, id)
    ensures slot == 0 <==> (kind, id) !in Contents(nv)
  {
    ValidIsReadable(nv, kind, Some(id));
    KeyIffSlot(nv, (kind, id));
    hide Parse, Contents, Matches, Unreadable, Valid;
  }

  // A master secret that DeleteOldestCredential can read, and when it expires.
  predicate Evictable(nv: Nv, s: nat) {
    && IsSlot(s) && s in nv && Get16(nv[s], 0) == Some(AJ_CRED_TYPE_GENERIC)
    && GetField(nv[s], 2).Some? && Get32(nv[s], 4 + |GetField(nv[s], 2).value|).Some?
  }

  function Expires(nv: Nv, s: nat): U32
    requires Evictable(nv, s)
  { Get32(nv[s], 4 + |GetField(nv[s], 2).value|).value }

  lemma EvictableInValid(nv: Nv, s: nat)
    requires Valid(nv)
    ensures Evictable(nv, s) <==> Occupied(nv, s) && CredAt(nv, s).kind == 1
    ensures Evictable(nv, s) ==> Expires(nv, s) == CredAt(nv, s).expiration
  {
    if IsSlot(s) && s in nv {
      assert Occupied(nv, s);
    }
  }

  class Store {
    var nv: Nv
    // AJ_NVRAM_GetSizeRemaining, and whether AJ_NVRAM_Open can create a data set of a capacity.
    const remaining: Nv -> nat
    const opens: (Nv, nat, nat) -> bool

    constructor (nv: Nv, remaining: Nv -> nat, opens: (Nv, nat, nat) -> bool)
      ensures this.nv == nv && this.remaining == remaining && this.opens == opens
    {
      this.nv, this.remaining, this.opens := nv, remaining, opens;
    }

    method FindCredsEmptySlot() returns (slot: nat)
      ensures slot == 0 <==> forall s: nat :: IsSlot(s) ==> s in nv
      ensures slot != 0 ==> IsSlot(slot) && slot !in nv && forall s: nat :: IsSlot(s) && s < slot ==> s in nv
    {
      slot := AJ_CREDS_NV_ID_BEGIN;
      while slot < AJ_CREDS_NV_ID_END
        invariant AJ_CREDS_NV_ID_BEGIN <= slot <= AJ_CREDS_NV_ID_END
        invariant forall s: nat :: AJ_CREDS_NV_ID_BEGIN <= s < slot ==> s in nv
      {
        if slot !in nv {
          return;
        }
        slot := slot + 1;
      }
      return 0;
    }

    /** CredentialFind without output fields. */
    method CredentialFind(kind: U16, id: Option<seq<Byte>>) returns (slot: nat)
      ensures FoundAt(nv, kind, id, slot)
    {
      slot := AJ_CREDS_NV_ID_BEGIN;
      while slot < AJ_CREDS_NV_ID_END
        invariant AJ_CREDS_NV_ID_BEGIN <= slot <= AJ_CREDS_NV_ID_END
        invariant forall t: nat :: t < slot ==> !Unreadable(nv, t, kind, id) && !Matches(nv, t, kind, id)
      {
        if slot in nv {
          var value := Get16(nv[slot], 0);
          if value.None? {
            assert Unreadable(nv, slot, kind, id);
            return 0;
          }
          if value.value == kind {
            if id.None? {
              return;
            }
            var field := GetField(nv[slot], 2);
            if field.None? {
              assert Unreadable(nv, slot, kind, id);
              return 0;
            }
            if field.value == id.value {
              return;
            }
          }
        }
        slot := slot + 1;
      }
      return 0;
    }

    /** AJ_CredentialGet into a buffer of `room` bytes: the fields of the slot that is found. */
    method CredentialGet(kind: U16, id: seq<Byte>, room: nat)
      returns (status: Status, expiration: U32, data: seq<Byte>, ghost slot: nat)
      ensures FoundAt(nv, kind, Some(id), slot)
      ensures status == Ok <==> slot != 0 && Get32(nv[slot], 4 + |id|).Some? && GetField(nv[slot], 8 + |id|).Some?
                                && |GetField(nv[slot], 8 + |id|).value| <= room
      ensures status == Ok ==>
                Get32(nv[slot], 4 + |id|) == Some(expiration) && GetField(nv[slot], 8 + |id|) == Some(data)
      ensures Valid(nv) ==> (status == Ok <==> (kind, id) in Contents(nv) && |Contents(nv)[(kind, id)].1| <= room)
      ensures Valid(nv) && status == Ok ==> Contents(nv)[(kind, id)] == (expiration, data)
    {
      hide Valid, Contents, FoundAt;
      expiration, data := 0, [];
      var found := CredentialFind(kind, Some(id));
      slot := found;
      if Valid(nv) {
        FoundInValid(nv, kind, id, slot);
      }
      if found == 0 {
        return Unknown, 0, [], slot;
      }
      assert found in nv by {
        FoundExists(nv, kind, Some(id), found);
      }
      if Valid(nv) {
        HoldsSlot(nv, slot);
      }
      var at := 4 + |id|;
      var exp := Get32(nv[found], at);
      if exp.None? {
        return Unknown, 0, [], slot;
      }
      expiration := exp.value;
      var field := GetField(nv[found], at + 4);
      if field.None? || |field.value| > room {
        return Unknown, expiration, [], slot;
      }
      return Ok, expiration, field.value, slot;
    }

    /** DeleteOldestCredential: of the master secrets that can be read, one that expires first goes. */
    method DeleteOldestCredential() returns (status: Status, deleted: nat)
      modifies this`nv
      ensures status == Ok || status == Unknown
      ensures status == Unknown <==> forall s: nat :: !Evictable(old(nv), s)
      ensures status == Unknown ==> nv == old(nv)
      ensures status == Ok ==> nv == old(nv) - {deleted} && Evictable(old(nv), deleted)
      ensures status == Ok ==>
                forall s: nat :: Evictable(old(nv), s) ==> Expires(old(nv), deleted) <= Expires(old(nv), s)
    {
      var slot: nat, oldestslot: nat := AJ_CREDS_NV_ID_BEGIN, 0;
      var oldestexp: U32 := 0xFFFF_FFFF;
      while slot < AJ_CREDS_NV_ID_END
        invariant AJ_CREDS_NV_ID_BEGIN <= slot <= AJ_CREDS_NV_ID_END && nv == old(nv)
        invariant oldestslot == 0 ==> oldestexp == 0xFFFF_FFFF && forall s: nat :: Evictable(nv, s) ==> s >= slot
        invariant oldestslot != 0 ==> Evictable(nv, oldestslot) && oldestexp == Expires(nv, oldestslot)
                                      && forall s: nat :: Evictable(nv, s) && s < slot ==> oldestexp <= Expires(nv, s)
      {
        if slot in nv && Get16(nv[slot], 0) == Some(AJ_CRED_TYPE_GENERIC) {
          var id := GetField(nv[slot], 2);
          if id.Some? {
            var expiration := Get32(nv[slot], 4 + |id.value|);
            if expiration.Some? {
              assert Evictable(nv, slot) && Expires(nv, slot) == expiration.value;
              if expiration.value <= oldestexp {
                oldestexp, oldestslot := expiration.value, slot;
              }
            }
          }
        }
        slot := slot + 1;
      }
      if oldestslot != 0 {
        nv := nv - {oldestslot};
        return Ok, oldestslot;
      }
      return Unknown, 0;
    }

    /**
     CredentialWrite: the old data set is discarded, and writing stops when the new one is full. AJ_NVRAM_Open refuses
     a capacity of 0 before it discards anything, and rounds the capacity up to a word in 16 bits.
     */
    method CredentialWrite(c: Credential, slot: nat) returns (status: Status)
      requires Storable(c)
      modifies this`nv
      ensures status == Ok <==> Fits(c) && old(opens(nv, slot, CredentialSize(c)))
      ensures status == Ok ==> nv == old(nv)[slot := Encode(c)]
      ensures nv - {slot} == old(nv) - {slot}
      ensures CredentialSize(c) == 0 ==> nv == old(nv)
      ensures CredentialSize(c) != 0 && !old(opens(nv, slot, CredentialSize(c))) ==> nv == old(nv) - {slot}
      ensures CredentialSize(c) != 0 && old(opens(nv, slot, CredentialSize(c))) && !Fits(c) ==>
                slot in nv && nv[slot] < Encode(c)
    {
      SizeIsExact(c);
      var size := CredentialSize(c);
      if size == 0 {
        return Failure;
      }
      if !opens(nv, slot, size) {
        nv := nv - {slot};
        return Failure;
      }
      var bytes, capacity := Encode(c), Wrap16(Align(size));
      if |bytes| <= capacity {
        nv := nv[slot := bytes];
        return Ok;
      }
      nv := nv[slot := bytes[..capacity]];
      return Failure;
    }

    /**
     AJ_CredentialSet. `at` is the slot written, 0 for none, and `evicted` the slots given up for it: only master
     secrets, none of which expires later than a master secret that stays, never more than needed, and for a new key as
     many as it takes to have room.
     */
    method CredentialSet(c: Credential) returns (status: Status, ghost at: nat, ghost evicted: set<nat>)
      requires Storable(c)
      modifies this`nv
      ensures Evicts(old(nv), evicted) && nv - {at} == old(nv) - evicted - {at}
      ensures evicted != {} ==> LastNeeded(old(nv), evicted, Align(CredentialSize(c)), remaining)
      ensures at == 0 ==>
                status == Failure && nv == old(nv) && forall s: nat :: IsSlot(s) ==> s in nv && !Evictable(nv, s)
      ensures at != 0 ==> Places(old(nv), evicted, c, at)
      ensures at != 0 && FoundAt(old(nv), c.kind, Some(c.id), 0) ==>
                RoomMade(old(nv) - evicted, Align(CredentialSize(c)), remaining)
                && if evicted == {} then forall s: nat :: IsSlot(s) && s < at ==> s in old(nv) else at in evicted
      ensures at != 0 ==> (status == Ok <==> opens(old(nv) - evicted, at, CredentialSize(c)) && Fits(c))
      ensures status == Ok ==> nv == (old(nv) - evicted)[at := Encode(c)]
      ensures Valid(old(nv)) ==>
                (Valid(nv) <==>
                   at == 0 || CredentialSize(c) == 0 || !opens(old(nv) - evicted, at, CredentialSize(c)) || Fits(c))
      ensures Valid(old(nv)) && status == Ok ==>
                Contents(nv) == (Contents(old(nv)) - KeysAt(old(nv), evicted))[(c.kind, c.id) := (c.expiration, c.data)]
      ensures Valid(old(nv)) && status != Ok && Valid(nv) ==>
                Contents(nv) == Contents(old(nv)) - KeysAt(old(nv), evicted)
                  - if CredentialSize(c) == 0 then {} else {(c.kind, c.id)}
    {
      hide Parse, Encode, Evicts, LastNeeded, Valid, Contents, KeysAt, Places, Fits, CredentialSize, FoundAt, RoomMade;
      evicted := {};
      status := Ok;
      var slot := CredentialFind(c.kind, Some(c.id));
      FoundPlaces(nv, c, slot);
      if slot == 0 {
        slot := FindCredsEmptySlot();
        slot, status, evicted := MakeRoom(c, slot);
      }
      at := slot;
      if slot != 0 {
        status := CredentialWrite(c, slot);
        if Valid(old(nv)) {
          WrittenRefines(old(nv), evicted, c, at, status == Ok, nv);
        }
      } else {
        if Valid(nv) {
          NoneLost(nv, c);
        }
        status := Failure;
      }
    }

    // The eviction loop of AJ_CredentialSet, given a free slot or 0.
    method MakeRoom(c: Credential, empty: nat) returns (slot: nat, status: Status, ghost evicted: set<nat>)
      requires Storable(c) && FoundAt(nv, c.kind, Some(c.id), 0)
      requires if empty == 0 then forall s: nat :: IsSlot(s) ==> s in nv else IsSlot(empty) && empty !in nv
      modifies this`nv
      ensures nv == old(nv) - evicted && Evicts(old(nv), evicted)
      ensures evicted != {} ==> LastNeeded(old(nv), evicted, Align(CredentialSize(c)), remaining)
      ensures if slot == 0 then empty == 0 && evicted == {} && forall s: nat :: !Evictable(nv, s)
              else Places(old(nv), evicted, c, slot) && RoomMade(nv, Align(CredentialSize(c)), remaining)
      ensures if evicted == {} then slot == empty else slot in evicted
    {
      hide CredentialSize, Align, Evicts, LastNeeded, Evictable, FoundAt;
      var size := Align(CredentialSize(c));
      slot, status, evicted := empty, Ok, {};
      NoneEvicted(nv);
      while status == Ok && (slot == 0 || size >= remaining(nv))
        invariant nv == old(nv) - evicted && Evicts(old(nv), evicted)
        invariant if slot == 0 then empty == 0 && evicted == {}
                  else IsSlot(slot) && (slot !in old(nv) || slot in evicted)
        invariant if evicted == {} then slot == empty else slot in evicted
        invariant empty == 0 ==> forall s: nat :: IsSlot(s) ==> s in old(nv)
        invariant status != Ok ==> forall s: nat :: !Evictable(nv, s)
        invariant evicted != {} ==> LastNeeded(old(nv), evicted, size, remaining)
        decreases |nv|, status == Ok
      {
        status, slot, evicted := EvictOne(old(nv), evicted, size, slot);
      }
    }

    // One round of that loop.
    method EvictOne(ghost start: Nv, ghost before: set<nat>, size: nat, slot: nat)
      returns (status: Status, slot': nat, ghost evicted: set<nat>)
      requires nv == start - before && Evicts(start, before)
      requires size >= remaining(nv) || (slot == 0 && before == {} && forall s: nat :: IsSlot(s) ==> s in start)
      modifies this`nv
      ensures nv == start - evicted && Evicts(start, evicted)
      ensures status == Ok ==>
                slot' in evicted && IsSlot(slot') && |nv| < |old(nv)| && LastNeeded(start, evicted, size, remaining)
      ensures status != Ok ==> slot' == slot && evicted == before && nv == old(nv) && forall s: nat :: !Evictable(nv, s)
    {
      hide Evicts, Expires, Evictable;
      slot', evicted := slot, before;
      var deleted;
      status, deleted := DeleteOldestCredential();
      if status == Ok {
        slot' := deleted;
        EvictedOneMore(start, before, deleted);
        evicted := before + {deleted};
        OneLess(start, before, deleted);
      }
    }

    /** AJ_CredentialDelete: the slot that is found goes, in a valid store exactly the key. */
    method CredentialDelete(kind: U16, id: seq<Byte>) returns (status: Status, ghost slot: nat)
      modifies this`nv
      ensures FoundAt(old(nv), kind, Some(id), slot) && (status == Ok <==> slot != 0)
      ensures nv == old(nv) - if slot != 0 then {slot} else {}
      ensures Valid(old(nv)) ==> Valid(nv) && Contents(nv) == Contents(old(nv)) - {(kind, id)}
      ensures Valid(old(nv)) ==> (status == Ok <==> (kind, id) in Contents(old(nv)))
    {
      hide FoundAt, Valid, Contents;
      var found := CredentialFind(kind, Some(id));
      slot := found;
      if Valid(nv) {
        FoundInValid(nv, kind, id, slot);
        DeletedRefines(nv, kind, id, slot);
      }
      if found == 0 {
        assert nv == nv - {};
        return Failure, slot;
      }
      nv := nv - {found};
      return Ok, slot;
    }

    /** AJ_ClearCredentials: every slot that reads as the type, or all of them for type 0. */
    method ClearCredentials(kind: U16)
      modifies this`nv
      ensures nv == old(nv) - Cleared(old(nv), kind)
      ensures kind == 0 ==> Valid(nv) && Contents(nv) == map[]
      ensures Valid(old(nv)) ==> Valid(nv)
      ensures Valid(old(nv)) ==>
                Contents(nv) == map k | k in Contents(old(nv)) && kind != 0 && k.0 != kind :: Contents(old(nv))[k]
    {
      hide Contents, Valid, Parse;
      ghost var gone: set<nat> := {};
      var slot: nat := AJ_CREDS_NV_ID_BEGIN;
      assert nv == nv - {};
      while slot < AJ_CREDS_NV_ID_END
        invariant AJ_CREDS_NV_ID_BEGIN <= slot <= AJ_CREDS_NV_ID_END && nv == old(nv) - gone
        invariant forall s: nat :: s in gone <==> s in Cleared(old(nv), kind) && s < slot
      {
        if slot in nv && (kind == 0 || Get16(nv[slot], 0) == Some(kind)) {
          nv := nv - {slot};
          gone := gone + {slot};
        }
        slot := slot + 1;
      }
      assert gone == Cleared(old(nv), kind);
      if Valid(old(nv)) {
        ClearedRefines(old(nv), kind);
      }
      if kind == 0 {
        ClearedAll(old(nv));
      }
    }
  }

  ghost function Cleared(nv: Nv, kind: U16): set<nat> {
    set s | s in nv && IsSlot(s) && (kind == 0 || Get16(nv[s], 0) == Some(kind))
  }

  // Only master secrets are given up, and none expires later than one that stays.
  ghost predicate Evicts(nv: Nv, evicted: set<nat>) {
    && (forall s: nat :: s in evicted ==> Evictable(nv, s))
    && (forall s: nat, t: nat :: s in evicted && Evictable(nv, t) && t !in evicted ==> Expires(nv, s) <= Expires(nv, t))
  }

  ghost function KeysAt(nv: Nv, slots: set<nat>): set<Key> { set s | s in slots && Occupied(nv, s) :: KeyAt(nv, s) }

  // The search finds slot `at`, or it finds nothing and the slot is free once `evicted` is gone.
  ghost predicate Places(nv: Nv, evicted: set<nat>, c: Credential, at: nat) {
    && IsSlot(at)
    && if evicted == {} && at in nv then FoundAt(nv, c.kind, Some(c.id), at)
       else (at !in nv || at in evicted) && FoundAt(nv, c.kind, Some(c.id), 0)
  }

  ghost predicate AllTaken(nv: Nv) { forall s: nat :: IsSlot(s) ==> s in nv }

  // Without the last of the evictions there was no free slot, or not more space than the size.
  ghost predicate LastNeeded(nv: Nv, evicted: set<nat>, size: nat, remaining: Nv -> nat) {
    exists d :: d in evicted && (size >= remaining(nv - (evicted - {d})) || (evicted == {d} && AllTaken(nv)))
  }

  // There is more space than the size, or no master secret is left to give up.
  ghost predicate RoomMade(nv: Nv, size: nat, remaining: Nv -> nat) {
    size < remaining(nv) || forall s: nat :: !Evictable(nv, s)
  }

  lemma OneLess(nv: Nv, before: set<nat>, d: nat)
    requires Evictable(nv - before, d)
    ensures IsSlot(d) && before + {d} - {d} == before
    ensures nv - before - {d} == nv - (before + {d}) && |nv - (before + {d})| < |nv - before|
  {
    var less := nv - before;
    assert less.Keys == (less - {d}).Keys + {d};
    assert less - {d} == nv - (before + {d});
  }

  lemma FoundExists(nv: Nv, kind: U16, id: Option<seq<Byte>>, slot: nat)
    requires FoundAt(nv, kind, id, slot) && slot != 0
    ensures IsSlot(slot) && slot in nv
  {
  }

  lemma NoneEvicted(nv: Nv)
    ensures nv == nv - {} && Evicts(nv, {})
  {
  }

  lemma FoundPlaces(nv: Nv, c: Credential, slot: nat)
    requires FoundAt(nv, c.kind, Some(c.id), slot)
    ensures nv == nv - {} && Evicts(nv, {}) && (slot != 0 ==> Places(nv, {}, c, slot))
    ensures slot != 0 ==> !FoundAt(nv, c.kind, Some(c.id), 0)
  {
  }

  lemma NoneLost(nv: Nv, c: Credential)
    requires Valid(nv) && FoundAt(nv, c.kind, Some(c.id), 0)
    ensures Contents(nv) == Contents(nv) - KeysAt(nv, {}) == Contents(nv) - KeysAt(nv, {}) - {(c.kind, c.id)}
  {
    hide Parse, Contents, FoundAt;
    FoundInValid(nv, c.kind, c.id, 0);
  }

  lemma EvictedOneMore(nv: Nv, evicted: set<nat>, s: nat)
    requires Evicts(nv, evicted) && Evictable(nv - evicted, s)
    requires forall t: nat :: Evictable(nv - evicted, t) ==> Expires(nv - evicted, s) <= Expires(nv - evicted, t)
    ensures Evicts(nv, evicted + {s})
  {
    forall t: nat
      ensures Evictable(nv - evicted, t) <==> Evictable(nv, t) && t !in evicted
      ensures Evictable(nv - evicted, t) ==> Expires(nv - evicted, t) == Expires(nv, t)
    {
    }
    hide Evictable, Expires;
  }

  // In a valid store: the evicted slots are credentials, and the slot written is the key's own or a free one.
  lemma PlacesInValid(nv: Nv, evicted: set<nat>, c: Credential, at: nat)
    requires Valid(nv) && Evicts(nv, evicted) && Places(nv, evicted, c, at)
    ensures IsSlot(at) && forall s: nat :: s in evicted ==> Occupied(nv, s)
    ensures if evicted == {} && Occupied(nv, at) then KeyAt(nv, at) == (c.kind, c.id)
            else (at !in nv || at in evicted) && forall s: nat :: Occupied(nv, s) ==> KeyAt(nv, s) != (c.kind, c.id)
  {
    hide Parse, FoundAt, Evictable;
    forall s: nat | s in evicted
      ensures Occupied(nv, s)
    {
      EvictableInValid(nv, s);
    }
    if evicted == {} && at in nv {
      FoundInValid(nv, c.kind, c.id, at);
    } else {
      FoundInValid(nv, c.kind, c.id, 0);
    }
  }

  // What AJ_CredentialSet leaves of a valid store, by outcome.
  lemma WrittenRefines(nv: Nv, evicted: set<nat>, c: Credential, at: nat, ok: bool, nv': Nv)
    requires Valid(nv) && Storable(c) && Evicts(nv, evicted) && Places(nv, evicted, c, at) && (ok ==> Fits(c))
    requires if ok then nv' == (nv - evicted)[at := Encode(c)]
             else if CredentialSize(c) == 0 then nv' == nv - evicted
             else nv' == nv - evicted - {at} || (nv' - {at} == nv - evicted - {at} && at in nv' && nv'[at] < Encode(c))
    ensures Valid(nv') <==> ok || CredentialSize(c) == 0 || nv' == nv - evicted - {at}
    ensures ok ==> Contents(nv') == (Contents(nv) - KeysAt(nv, evicted))[(c.kind, c.id) := (c.expiration, c.data)]
    ensures !ok && Valid(nv') ==>
              Contents(nv') == Contents(nv) - KeysAt(nv, evicted)
                - if CredentialSize(c) == 0 then {} else {(c.kind, c.id)}
  {
    hide Encode, Valid, Contents, KeysAt, Fits, CredentialSize, Evicts, Places, Occupied;
    if ok {
      SetRefinesUpdate(nv, evicted, c, at);
    } else if CredentialSize(c) == 0 {
      EvictionRefines(nv, evicted);
    } else {
      FailedSetRefines(nv, evicted, c, at, nv');
    }
  }

  lemma RemovalKeepsSlots(nv: Nv, gone: set<nat>)
    ensures forall s: nat :: Occupied(nv - gone, s) <==> Occupied(nv, s) && s !in gone
    ensures forall s: nat :: Occupied(nv - gone, s) ==> CredAt(nv - gone, s) == CredAt(nv, s)
  {
    hide Parse;
  }

  lemma ValidShrinks(nv: Nv, gone: set<nat>)
    requires Valid(nv)
    ensures Valid(nv - gone)
  {
    hide Parse;
    RemovalKeepsSlots(nv, gone);
  }

  lemma RemovalRefines(nv: Nv, gone: set<nat>)
    requires Valid(nv) && forall s: nat :: s in gone ==> Occupied(nv, s)
    ensures Valid(nv - gone)
    ensures Contents(nv - gone) == Contents(nv) - KeysAt(nv, gone)
  {
    hide Parse, Contents;
    var less, keys := nv - gone, KeysAt(nv, gone);
    ValidShrinks(nv, gone);
    RemovalKeepsSlots(nv, gone);
    forall k | k in Contents(less)
      ensures k in Contents(nv) && k !in keys && Contents(less)[k] == Contents(nv)[k]
    {
      var s := SlotOf(less, k);
      HoldsSlot(nv, s);
    }
    forall k | k in Contents(nv) && k !in keys
      ensures k in Contents(less)
    {
      var s := SlotOf(nv, k);
      HoldsSlot(less, s);
    }
  }

  /**
   A successful AJ_CredentialSet is the map update, after the evicted master secrets have been removed: the new entry is
   there, every other entry that was not evicted is unchanged, and keys stay unique.
   */
  lemma SetRefinesUpdate(nv: Nv, evicted: set<nat>, c: Credential, at: nat)
    requires Valid(nv) && Storable(c) && Evicts(nv, evicted) && Places(nv, evicted, c, at)
    ensures var nv' := (nv - evicted)[at := Encode(c)];
            && Valid(nv')
            && Contents(nv') == (Contents(nv) - KeysAt(nv, evicted))[(c.kind, c.id) := (c.expiration, c.data)]
  {
    hide Parse, Encode, Contents, Valid, Evicts, Places;
    PlacesInValid(nv, evicted, c, at);
    RemovalRefines(nv, evicted);
    RemovalKeepsSlots(nv, evicted);
    PlacedRefines(nv - evicted, c, at);
  }

  lemma EvictionRefines(nv: Nv, evicted: set<nat>)
    requires Valid(nv) && Evicts(nv, evicted)
    ensures Valid(nv - evicted) && Contents(nv - evicted) == Contents(nv) - KeysAt(nv, evicted)
  {
    hide Parse, Evictable, Contents, Valid;
    forall s: nat | s in evicted
      ensures Occupied(nv, s)
    {
      EvictableInValid(nv, s);
    }
    RemovalRefines(nv, evicted);
  }

  // A set that fails for want of space loses the old value; one that is too long leaves a slot that cannot be read.
  lemma FailedSetRefines(nv: Nv, evicted: set<nat>, c: Credential, at: nat, nv': Nv)
    requires Valid(nv) && Storable(c) && Evicts(nv, evicted) && Places(nv, evicted, c, at)
    requires nv' == nv - evicted - {at} || (nv' - {at} == nv - evicted - {at} && at in nv' && nv'[at] < Encode(c))
    ensures Valid(nv') <==> nv' == nv - evicted - {at}
    ensures Valid(nv') ==> Contents(nv') == Contents(nv) - KeysAt(nv, evicted) - {(c.kind, c.id)}
  {
    hide Parse, Encode, Contents, Evicts, Places;
    PlacesInValid(nv, evicted, c, at);
    if at in nv' {
      PrefixUnreadable(c, nv'[at]);
    } else {
      var gone := evicted + if Occupied(nv, at) then {at} else {};
      assert nv' == nv - gone;
      RemovalRefines(nv, gone);
      KeyIffSlot(nv, (c.kind, c.id));
      var own := if Occupied(nv, at) && at !in evicted then {KeyAt(nv, at)} else {};
      assert KeysAt(nv, gone) == KeysAt(nv, evicted) + own;
    }
  }

  lemma PrefixUnreadable(c: Credential, b: seq<Byte>)
    requires Storable(c) && b < Encode(c)
    ensures Parse(b).None?
  {
    var full := Encode(c);
    ParseEncoded(c, []);
    assert full + [] == full;
    SizeIsExact(c);
    if Parse(b).Some? {
      hide Encode, Parse;
      PrefixReads(b, full);
    }
  }

  // What can be read of a prefix reads the same in the whole, and lies inside the prefix.
  lemma PrefixReads(b: seq<Byte>, full: seq<Byte>)
    requires b <= full && Parse(b).Some?
    ensures Parse(full) == Parse(b) && 10 + |Parse(b).value.id| + |Parse(b).value.data| <= |b|
  {
    var id := GetField(b, 2);
    FieldReads(b, full, 2);
    FieldReads(b, full, 8 + |id.value|);
  }

  lemma FieldReads(b: seq<Byte>, full: seq<Byte>, at: nat)
    requires b <= full && GetField(b, at).Some?
    ensures GetField(full, at) == GetField(b, at) && at + 2 + |GetField(b, at).value| <= |b|
  {
    var n := Get16(b, at).value as int;
    assert full[at + 2..at + 2 + n] == b[at + 2..at + 2 + n];
  }

  lemma PlacedRefines(nv: Nv, c: Credential, at: nat)
    requires Valid(nv) && Storable(c) && IsSlot(at)
    requires if Occupied(nv, at) then KeyAt(nv, at) == (c.kind, c.id)
             else at !in nv && forall s: nat :: Occupied(nv, s) ==> KeyAt(nv, s) != (c.kind, c.id)
    ensures var nv' := nv[at := Encode(c)];
            Valid(nv') && Contents(nv') == Contents(nv)[(c.kind, c.id) := (c.expiration, c.data)]
  {
    hide Parse, Encode, Contents;
    var nv' := nv[at := Encode(c)];
    PlacedSlots(nv, c, at);
    var before, after := Contents(nv), Contents(nv');
    HoldsSlot(nv', at);
    forall k | k in after
      ensures k == (c.kind, c.id) || k in before
      ensures after[k] == if k == (c.kind, c.id) then (c.expiration, c.data) else before[k]
    {
      var s := SlotOf(nv', k);
      if s != at {
        HoldsSlot(nv, s);
      }
    }
    forall k | k in before
      ensures k in after
    {
      var s := SlotOf(nv, k);
      HoldsSlot(nv', s);
    }
  }

  lemma KeyIffSlot(nv: Nv, k: Key)
    requires Valid(nv)
    ensures k in Contents(nv) <==> exists s: nat :: Occupied(nv, s) && KeyAt(nv, s) == k
  {
    hide Parse;
    if k in Contents(nv) {
      var s := SlotOf(nv, k);
    }
  }

  lemma DeletedRefines(nv: Nv, kind: U16, id: seq<Byte>, slot: nat)
    requires Valid(nv)
    requires slot != 0 ==> Occupied(nv, slot) && KeyAt(nv, slot) == (kind, id)
    requires slot == 0 ==> (kind, id) !in Contents(nv)
    ensures var nv' := nv - if slot != 0 then {slot} else {};
            Valid(nv') && Contents(nv') == Contents(nv) - {(kind, id)}
  {
    hide Parse, Contents;
    if slot == 0 {
      assert nv - {} == nv;
    } else {
      RemovalRefines(nv, {slot});
      assert KeysAt(nv, {slot}) == {(kind, id)};
    }
  }

  lemma ClearedRefines(nv: Nv, kind: U16)
    requires Valid(nv)
    ensures var nv' := nv - Cleared(nv, kind);
            && Valid(nv')
            && Contents(nv') == map k | k in Contents(nv) && kind != 0 && k.0 != kind :: Contents(nv)[k]
  {
    var gone := Cleared(nv, kind);
    ClearedKinds(nv, kind);
    hide Parse, Contents, Cleared, KeysAt, Valid;
    RemovalRefines(nv, gone);
    forall k | k in Contents(nv)
      ensures k in KeysAt(nv, gone) <==> (kind == 0 || k.0 == kind)
    {
      var s := SlotOf(nv, k);
      InKeysAt(nv, gone, s);
    }
    Without(Contents(nv), KeysAt(nv, gone), kind);
  }

  lemma Without(m: map<Key, (U32, seq<Byte>)>, gone: set<Key>, kind: U16)
    requires forall k :: k in m ==> (k in gone <==> (kind == 0 || k.0 == kind))
    ensures m - gone == map k | k in m && kind != 0 && k.0 != kind :: m[k]
  {
  }

  lemma InKeysAt(nv: Nv, slots: set<nat>, s: nat)
    requires Valid(nv) && Occupied(nv, s)
    ensures KeyAt(nv, s) in KeysAt(nv, slots) <==> s in slots
  {
    hide Parse;
  }

  lemma ClearedKinds(nv: Nv, kind: U16)
    requires Valid(nv)
    ensures forall s: nat :: s in Cleared(nv, kind) <==> Occupied(nv, s) && (kind == 0 || CredAt(nv, s).kind == kind)
  {
    forall s: nat | IsSlot(s) && s in nv
      ensures s in Cleared(nv, kind) <==> kind == 0 || CredAt(nv, s).kind == kind
    {
      assert Occupied(nv, s);
    }
  }

  // Whatever the slots held.
  lemma ClearedAll(nv: Nv)
    ensures Valid(nv - Cleared(nv, 0)) && Contents(nv - Cleared(nv, 0)) == map[]
  {
    hide Parse;
    var nv' := nv - Cleared(nv, 0);
    assert forall s: nat :: !Occupied(nv', s);
  }

  lemma HoldsSlot(nv: Nv, s: nat)
    requires Valid(nv) && Occupied(nv, s)
    ensures KeyAt(nv, s) in Contents(nv) && Contents(nv)[KeyAt(nv, s)] == (CredAt(nv, s).expiration, CredAt(nv, s).data)
  {
    hide Parse;
  }

  lemma SlotOf(nv: Nv, k: Key) returns (s: nat)
    requires Valid(nv) && k in Contents(nv)
    ensures Occupied(nv, s) && KeyAt(nv, s) == k && Contents(nv)[k] == (CredAt(nv, s).expiration, CredAt(nv, s).data)
  {
    hide Parse;
    s :| Occupied(nv, s) && KeyAt(nv, s) == k;
    HoldsSlot(nv, s);
  }

  lemma PlacedSlots(nv: Nv, c: Credential, at: nat)
    requires Storable(c) && IsSlot(at)
    ensures var nv' := nv[at := Encode(c)];
            && (forall s: nat :: Occupied(nv', s) <==> Occupied(nv, s) || s == at)
            && (forall s: nat :: Occupied(nv', s) ==> CredAt(nv', s) == if s == at then c else CredAt(nv, s))
  {
    ParseEncoded(c, []);
    assert Encode(c) + [] == Encode(c);
    hide Parse, Encode;
  }

  /* ---- Repair ---- */

  /**
   A set that was too long leaves a prefix of the credential in its slot, and the store is not valid. A later search for
   the key finds that slot exactly when the prefix still holds the id; setting the key again then makes the store
   valid, and it stands for the map update. Otherwise the search gives up, and the slot stays as it is.
   */
  lemma RepairExactly(nv: Nv, c: Credential, at: nat, cut: nat, again: Credential)
    requires Valid(nv) && Storable(c) && IsSlot(at) && cut < |Encode(c)|
    requires at in nv ==> KeyAt(nv, at) == (c.kind, c.id)
    requires forall s: nat :: Occupied(nv, s) && s != at ==> KeyAt(nv, s) != (c.kind, c.id)
    requires Storable(again) && again.kind == c.kind && again.id == c.id
    ensures var broken := nv[at := Encode(c)[..cut]];
            && !Valid(broken)
            && (FoundAt(broken, c.kind, Some(c.id), at) <==> 4 + |c.id| <= cut)
            && (FoundAt(broken, c.kind, Some(c.id), 0) <==> cut < 4 + |c.id|)
            && Valid(broken[at := Encode(again)])
            && Contents(broken[at := Encode(again)]) == Contents(nv)[(c.kind, c.id) := (again.expiration, again.data)]
  {
    var broken := nv[at := Encode(c)[..cut]];
    PrefixUnreadable(c, Encode(c)[..cut]);
    CutFields(c, cut);
    OthersDiffer(nv, c, at);
    assert broken[at := Encode(again)] == nv[at := Encode(again)];
    PlacedRefines(nv, again, at);
    hide Parse, Encode, Valid, Contents, Get16, GetField;
    BrokenSlot(nv, c, at, Encode(c)[..cut], 4 + |c.id| <= cut);
    assert !Occupied(broken, at);
    assert !Valid(broken) by {
      NotValid(broken, at);
    }
  }

  lemma NotValid(nv: Nv, at: nat)
    requires IsSlot(at) && at in nv && !Occupied(nv, at)
    ensures !Valid(nv)
  {
  }

  // The other slots can be read and have other keys.
  lemma OthersDiffer(nv: Nv, c: Credential, at: nat)
    requires Valid(nv) && forall s: nat :: Occupied(nv, s) && s != at ==> KeyAt(nv, s) != (c.kind, c.id)
    ensures forall s: nat :: s != at ==> !Unreadable(nv, s, c.kind, Some(c.id)) && !Matches(nv, s, c.kind, Some(c.id))
  {
    ValidIsReadable(nv, c.kind, Some(c.id));
    hide Parse;
  }

  // What can be read of a credential that was cut.
  lemma CutFields(c: Credential, cut: nat)
    requires Storable(c) && cut <= |Encode(c)|
    ensures var b := Encode(c)[..cut];
            && (cut >= 2 ==> Get16(b, 0) == Some(c.kind)) && (cut < 2 ==> Get16(b, 0).None?)
            && (4 + |c.id| <= cut ==> GetField(b, 2) == Some(c.id)) && (cut < 4 + |c.id| ==> GetField(b, 2).None?)
  {
    hide Le16, Le32, Get16, GetField;
    Lengths(c.kind, c.expiration);
    Lengths(|c.id|, c.expiration);
    Lengths(|c.data|, c.expiration);
    var full, b := Encode(c), Encode(c)[..cut];
    ShortReads(b, c.id);
    assert full[0..2] == Le16(c.kind) && full[2..4] == Le16(|c.id|) && full[2..4 + |c.id|] == Le16(|c.id|) + c.id;
    if cut >= 2 {
      assert b[0..2] == full[0..2];
      Get16Written(b, 0, c.kind);
    }
    if 4 <= cut {
      assert b[2..4] == full[2..4];
      Get16Written(b, 2, |c.id|);
    }
    if 4 + |c.id| <= cut {
      assert b[2..2 + 2 + |c.id|] == full[2..4 + |c.id|];
      GetFieldWritten(b, 2, c.id);
    }
  }

  lemma ShortReads(b: seq<Byte>, id: seq<Byte>)
    ensures |b| < 2 ==> Get16(b, 0).None?
    ensures |b| < 4 ==> GetField(b, 2).None?
    ensures |id| < 0x1_0000 && 4 <= |b| < 4 + |id| && Get16(b, 2) == Some(|id|) ==> GetField(b, 2).None?
  {
  }

  lemma BrokenSlot(nv: Nv, c: Credential, at: nat, b: seq<Byte>, whole: bool)
    requires IsSlot(at)
    requires forall s: nat :: s != at ==> !Unreadable(nv, s, c.kind, Some(c.id)) && !Matches(nv, s, c.kind, Some(c.id))
    requires if whole then Get16(b, 0) == Some(c.kind) && GetField(b, 2) == Some(c.id)
             else GetField(b, 2).None? && (Get16(b, 0).None? || Get16(b, 0) == Some(c.kind))
    ensures FoundAt(nv[at := b], c.kind, Some(c.id), at) <==> whole
    ensures FoundAt(nv[at := b], c.kind, Some(c.id), 0) <==> !whole
  {
    hide Get16, GetField;
    var broken := nv[at := b];
    var kind, id := c.kind, Some(c.id);
    assert forall s: nat :: s != at ==> (Unreadable(broken, s, kind, id) <==> Unreadable(nv, s, kind, id));
    assert forall s: nat :: s != at ==> (Matches(broken, s, kind, id) <==> Matches(nv, s, kind, id));
    assert Matches(broken, at, kind, id) <==> whole;
    assert Unreadable(broken, at, kind, id) <==> !whole;
  }
}
