/**
 The access control engine: policy ACLs and manifests are compiled into one mask byte and one deny flag per
 registered member and peer, and message checks are answered from the masks. The masks are proved to be an
 exact index of the declarative rule "some rule grants it and nothing denies it".
 */
module AccessControl {
  import Signature

  /* ---- Strings as the source walks them ---- */

  // Character i of a NUL-terminated string.
  function At(s: string, i: nat): char { if i < |s| then s[i] else '\0' }

  datatype Kind = Signal | Method | Property | NoKind

  // MEMBER_TYPE of the first character of a member encoding.
  function KindOf(c: char): Kind {
    var t := Signature.MemberType(c);
    if t == 0 then Signal else if t == 1 then Method else if t == 2 then Property else NoKind
  }

  // What may follow the name in a description.
  predicate NameEnds(c: char, kind: Kind) {
    if kind == Property then c == '<' || c == '=' || c == '>' else c == '\0' || c == ' '
  }

  // Length of `name` up to its first wildcard or its end.
  function Stem(name: string, i: nat): (k: nat)
    requires i <= |name|
    ensures i <= k <= |name| && (At(name, k) == '*' || At(name, k) == '\0')
    ensures forall j :: i <= j < k ==> At(name, j) != '*' && At(name, j) != '\0'
    decreases |name| - i
  { if At(name, i) == '\0' || At(name, i) == '*' then i else Stem(name, i + 1) }

  /** A name matches a description that agrees with it up to the wildcard, or has it as its whole name. */
  predicate Matches(name: string, desc: string, kind: Kind) {
    var k := Stem(name, 0);
    && (forall i :: 0 <= i < k ==> At(desc, i) == At(name, i))
    && (At(name, k) == '*' || NameEnds(At(desc, k), kind))
  }

  method CommonPath(name: string, desc: string, kind: Kind) returns (ok: bool)
    ensures ok == Matches(name, desc, kind)
  {
    var i := 0;
    while At(name, i) != '\0'
      invariant i <= Stem(name, 0)
      invariant forall j :: 0 <= j < i ==> At(desc, j) == At(name, j)
      decreases |name| - i
    {
      if At(name, i) == '*' {
        return true;
      }
      if At(name, i) != At(desc, i) {
        return false;
      }
      i := i + 1;
    }
    return NameEnds(At(desc, i), kind);
  }

  /* ---- Masks ---- */

  // Reading a property counts as calling it.
  datatype Right = CallIn | CallOut | SetIn | SetOut

  const PROVIDE: bv8 := 0x1
  const OBSERVE: bv8 := 0x2
  const MODIFY: bv8 := 0x4

  // Low half of the mask: granted by policy. High half: granted by a manifest.
  function Policy(r: Right): bv8 {
    match r case CallIn => 0x01 case CallOut => 0x02 case SetIn => 0x04 case SetOut => 0x08
  }

  function Manifest(r: Right): bv8 {
    match r case CallIn => 0x10 case CallOut => 0x20 case SetIn => 0x40 case SetOut => 0x80
  }

  predicate Has(mask: bv8, bits: bv8) { mask & bits != 0 }

  function Or(a: bv8, b: bv8): bv8 { a | b }

  function Up(a: bv8): bv8 { a << 4 }

  lemma HasOr(a: bv8, b: bv8, bits: bv8)
    ensures Has(Or(a, b), bits) <==> Has(a, bits) || Has(b, bits)
  {
    assert (a | b) & bits == (a & bits) | (b & bits);
  }

  // Moving a policy mask to the manifest half.
  lemma HasUp(a: bv8, r: Right)
    requires a <= 0xF
    ensures Has(Up(a), Manifest(r)) <==> Has(a, Policy(r))
    ensures !Has(Up(a), Policy(r)) && !Has(a, Manifest(r))
  {
  }

  // The rights that an action of a rule gives on a member of some kind, as a mask.
  function ActionMask(kind: Kind, action: bv8): bv8 {
    match kind
    case Signal => Or(if Has(OBSERVE, action) then 0x02 else 0, if Has(PROVIDE, action) then 0x01 else 0)
    case Method => Or(if Has(PROVIDE, action) then 0x02 else 0, if Has(MODIFY, action) then 0x01 else 0)
    case Property => Or(if Has(PROVIDE, action) then 0x0A else 0,
                        Or(if Has(MODIFY, action) then 0x04 else 0, if Has(OBSERVE, action) then 0x01 else 0))
    case NoKind => 0
  }

  /** The table of rights: what each action means for signals, methods and properties. */
  predicate ActionGrants(kind: Kind, action: bv8, r: Right) {
    match kind
    case Signal => (r == CallOut && Has(OBSERVE, action)) || (r == CallIn && Has(PROVIDE, action))
    case Method => (r == CallOut && Has(PROVIDE, action)) || (r == CallIn && Has(MODIFY, action))
    case Property =>
      || ((r == SetOut || r == CallOut) && Has(PROVIDE, action))
      || (r == SetIn && Has(MODIFY, action))
      || (r == CallIn && Has(OBSERVE, action))
    case NoKind => false
  }

  lemma ActionMaskIsTable(kind: Kind, action: bv8, r: Right)
    ensures Has(ActionMask(kind, action), Policy(r)) <==> ActionGrants(kind, action, r)
    ensures ActionMask(kind, action) <= 0xF
  {
  }

  /* ---- Rules ---- */

  const AJ_NAME_MAP_GUID_SIZE: nat := 4

  // A registered member: message id, object path, interface name and member encoding.
  datatype Member = Member(id: nat, obj: string, ifn: string, mbr: string)

  datatype PermissionMember = PermissionMember(mbr: string, kind: nat, action: bv8)
  datatype Rule = Rule(obj: string, ifn: string, members: seq<PermissionMember>)

  function Tail(s: string): string { if s == "" then s else s[1..] }

  // The interface name without its security annotation.
  function Interface(m: Member): string { Signature.InterfaceName(m.ifn) }

  function MemberKind(m: Member): Kind { KindOf(At(m.mbr, 0)) }

  // The member name and what follows it, without the type character and the sessionless annotation.
  function MemberName(m: Member): string {
    var name := Tail(m.mbr);
    if At(name, 0) == '&' then Tail(name) else name
  }

  // MemberType: 0 stands for any kind.
  predicate KindMatches(a: nat, b: Kind) {
    a == 0 || (a == 1 && b == Method) || (a == 2 && b == Signal) || (a == 3 && b == Property)
  }

  predicate RuleCovers(rule: Rule, m: Member) {
    Matches(rule.obj, m.obj, Signal) && Matches(rule.ifn, Interface(m), Signal)
  }

  predicate PartCovers(pm: PermissionMember, m: Member) {
    Matches(pm.mbr, MemberName(m), MemberKind(m)) && KindMatches(pm.kind, MemberKind(m))
  }

  // An explicit deny is a rule that is wild in all three names and gives no action.
  predicate WildDeny(rule: Rule, pm: PermissionMember) {
    At(rule.obj, 0) == '*' && At(rule.ifn, 0) == '*' && At(pm.mbr, 0) == '*' && pm.action == 0
  }

  ghost predicate Applies(rules: seq<Rule>, m: Member, rule: Rule, pm: PermissionMember) {
    rule in rules && pm in rule.members && RuleCovers(rule, m) && PartCovers(pm, m)
  }

  /** Some rule grants the right. */
  ghost predicate Grants(rules: seq<Rule>, m: Member, r: Right) {
    exists rule, pm :: Applies(rules, m, rule, pm) && ActionGrants(MemberKind(m), pm.action, r)
  }

  /** Some rule denies everything. */
  ghost predicate Denies(rules: seq<Rule>, m: Member) {
    exists rule, pm :: Applies(rules, m, rule, pm) && WildDeny(rule, pm)
  }

  // Access is the union of all rules.
  function PartMask(pms: seq<PermissionMember>, m: Member): bv8
    decreases |pms|
  {
    if pms == [] then 0
    else
      var rest, pm := PartMask(pms[..|pms| - 1], m), pms[|pms| - 1];
      if PartCovers(pm, m) then Or(rest, ActionMask(MemberKind(m), pm.action)) else rest
  }

  function RuleMask(rules: seq<Rule>, m: Member): bv8
    decreases |rules|
  {
    if rules == [] then 0
    else
      var rest, rule := RuleMask(rules[..|rules| - 1], m), rules[|rules| - 1];
      if RuleCovers(rule, m) then Or(rest, PartMask(rule.members, m)) else rest
  }

  lemma OrSmall(a: bv8, b: bv8)
    requires a <= 0xF && b <= 0xF
    ensures Or(a, b) <= 0xF
  {
  }

  lemma HasZero(bits: bv8)
    ensures !Has(0, bits)
  {
  }

  lemma {:induction false} PartMaskIsUnion(pms: seq<PermissionMember>, m: Member, r: Right)
    ensures Has(PartMask(pms, m), Policy(r)) <==>
              exists pm :: pm in pms && PartCovers(pm, m) && ActionGrants(MemberKind(m), pm.action, r)
    ensures PartMask(pms, m) <= 0xF
    decreases |pms|
  {
    hide Has, Or, ActionMask, ActionGrants, PartCovers;
    if pms == [] {
      HasZero(Policy(r));
    } else {
      var front, pm := pms[..|pms| - 1], pms[|pms| - 1];
      PartMaskIsUnion(front, m, r);
      HasOr(PartMask(front, m), ActionMask(MemberKind(m), pm.action), Policy(r));
      ActionMaskIsTable(MemberKind(m), pm.action, r);
      OrSmall(PartMask(front, m), ActionMask(MemberKind(m), pm.action));
      assert forall x :: x in pms <==> x in front || x == pm;
    }
  }

  /** The compiled mask has a policy bit exactly when some rule grants that right. */
  lemma {:induction false} RuleMaskIsUnion(rules: seq<Rule>, m: Member, r: Right)
    ensures Has(RuleMask(rules, m), Policy(r)) <==> Grants(rules, m, r)
    ensures RuleMask(rules, m) <= 0xF
    decreases |rules|
  {
    hide Has, Or, ActionGrants, PartCovers, RuleCovers;
    if rules == [] {
      HasZero(Policy(r));
    } else {
      var front, rule := rules[..|rules| - 1], rules[|rules| - 1];
      RuleMaskIsUnion(front, m, r);
      PartMaskIsUnion(rule.members, m, r);
      HasOr(RuleMask(front, m), PartMask(rule.members, m), Policy(r));
      OrSmall(RuleMask(front, m), PartMask(rule.members, m));
      assert forall x :: x in rules <==> x in front || x == rule;
      if Has(RuleMask(rules, m), Policy(r)) {
        GrantsMore(front, rules, m, r);
        if !Grants(front, m, r) {
          var pm :| pm in rule.members && PartCovers(pm, m) && ActionGrants(MemberKind(m), pm.action, r);
          assert Applies(rules, m, rule, pm);
        }
      }
      if Grants(rules, m, r) {
        var rl, pm :| Applies(rules, m, rl, pm) && ActionGrants(MemberKind(m), pm.action, r);
        assert rl in front ==> Applies(front, m, rl, pm);
      }
    }
  }

  lemma GrantsMore(a: seq<Rule>, b: seq<Rule>, m: Member, r: Right)
    requires forall x :: x in a ==> x in b
    ensures Grants(a, m, r) ==> Grants(b, m, r)
  {
    if Grants(a, m, r) {
      var rule, pm :| Applies(a, m, rule, pm) && ActionGrants(MemberKind(m), pm.action, r);
      assert Applies(b, m, rule, pm);
    }
  }

  /** PermissionRuleAccess: both nested walks, with the deny flag it may set on the way. */
  method PermissionRuleAccess(rules: seq<Rule>, m: Member, withPublicKey: bool) returns (acc: bv8, deny: bool)
    ensures acc == RuleMask(rules, m)
    ensures deny == (withPublicKey && Denies(rules, m))
  {
    hide Or, Matches, ActionMask, KindMatches, MemberKind, MemberName, Interface;
    acc, deny := 0, false;
    var i := 0;
    while i < |rules|
      invariant 0 <= i <= |rules| && acc == RuleMask(rules[..i], m)
      invariant deny == (withPublicKey && Denies(rules[..i], m))
    {
      var rule := rules[i];
      assert rules[..i + 1][..i] == rules[..i];
      var onObj := CommonPath(rule.obj, m.obj, Signal);
      var onIfn := CommonPath(rule.ifn, Interface(m), Signal);
      if onObj && onIfn {
        var parts, denied := PartAccess(rule, m, withPublicKey);
        acc, deny := Or(acc, parts), deny || denied;
      }
      DeniesNext(rules, i, m);
      i := i + 1;
    }
    assert rules[..i] == rules;
  }

  lemma DeniesNext(rules: seq<Rule>, i: nat, m: Member)
    requires i < |rules|
    ensures Denies(rules[..i + 1], m) <==>
              Denies(rules[..i], m) || (RuleCovers(rules[i], m) && PartDenies(rules[i], m, |rules[i].members|))
  {
    hide RuleCovers, PartCovers, WildDeny;
    var a, b := rules[..i], rules[..i + 1];
    assert forall x :: x in b <==> x in a || x == rules[i];
    if Denies(b, m) {
      var rule, pm :| Applies(b, m, rule, pm) && WildDeny(rule, pm);
      if rule in a {
        assert Applies(a, m, rule, pm);
      } else {
        var j :| 0 <= j < |rule.members| && rule.members[j] == pm;
      }
    }
    if Denies(a, m) {
      var rule, pm :| Applies(a, m, rule, pm) && WildDeny(rule, pm);
      assert Applies(b, m, rule, pm);
    }
    if RuleCovers(rules[i], m) && PartDenies(rules[i], m, |rules[i].members|) {
      var j :| 0 <= j < |rules[i].members| && PartCovers(rules[i].members[j], m)
          && WildDeny(rules[i], rules[i].members[j]);
      assert Applies(b, m, rules[i], rules[i].members[j]);
    }
  }

  // One of the first n parts of the rule denies.
  ghost predicate PartDenies(rule: Rule, m: Member, n: nat)
    requires n <= |rule.members|
  { exists j :: 0 <= j < n && PartCovers(rule.members[j], m) && WildDeny(rule, rule.members[j]) }

  method PartAccess(rule: Rule, m: Member, withPublicKey: bool) returns (acc: bv8, deny: bool)
    ensures acc == PartMask(rule.members, m)
    ensures deny == (withPublicKey && PartDenies(rule, m, |rule.members|))
  {
    hide Or, Matches, ActionMask, KindMatches, MemberKind, MemberName;
    var pms := rule.members;
    acc, deny := 0, false;
    var j := 0;
    while j < |pms|
      invariant 0 <= j <= |pms| && acc == PartMask(pms[..j], m)
      invariant deny == (withPublicKey && PartDenies(rule, m, j))
    {
      assert pms[..j + 1][..j] == pms[..j];
      var named := CommonPath(pms[j].mbr, MemberName(m), MemberKind(m));
      if named && KindMatches(pms[j].kind, MemberKind(m)) {
        acc := Or(acc, ActionMask(MemberKind(m), pms[j].action));
        if withPublicKey && At(rule.obj, 0) == '*' && At(rule.ifn, 0) == '*'
           && At(pms[j].mbr, 0) == '*' && pms[j].action == 0 {
          deny := true;
        }
      }
      j := j + 1;
    }
    assert pms[..j] == pms;
  }

  /* ---- What the rules mean ---- */

  // A pattern is a name, or the beginning of names followed by a star.
  ghost predicate Glob(p: string, n: string) {
    || ('*' !in p && p == n)
    || exists k :: 0 <= k < |p| && p[k] == '*' && '*' !in p[..k] && p[..k] <= n
  }

  // Walking over a description that consists of the name and what its end character starts.
  lemma MatchesMeans(p: string, n: string, tail: string, kind: Kind)
    requires '\0' !in p && '\0' !in n && forall c :: c in n ==> !NameEnds(c, kind)
    requires if tail == "" then kind != Property else NameEnds(tail[0], kind) && tail[0] !in p
    ensures Matches(p, n + tail, kind) <==> Glob(p, n)
  {
    var desc, k := n + tail, Stem(p, 0);
    assert forall i :: 0 <= i < |p| ==> p[i] in p && At(p, i) == p[i];
    assert forall i :: 0 <= i < |n| ==> n[i] in n && At(desc, i) == n[i];
    assert At(desc, |n|) == if tail == "" then '\0' else tail[0];
    assert k < |p| <==> At(p, k) == '*';
    assert forall i :: 0 <= i < |p| && p[i] == '*' ==> k <= i;
    if forall i :: 0 <= i < k ==> At(desc, i) == At(p, i) {
      StemWithin(p, n, desc, k);
    }
    if Glob(p, n) && k < |p| {
      var i :| 0 <= i < |p| && p[i] == '*' && '*' !in p[..i] && p[..i] <= n;
      assert forall j :: 0 <= j < i ==> p[..i][j] in p[..i] && p[..i][j] == p[j] == n[j];
    }
  }

  lemma StemWithin(p: string, n: string, desc: string, k: nat)
    requires k <= |p| && n <= desc && '\0' !in p && (|desc| > |n| ==> desc[|n|] !in p)
    requires forall i :: 0 <= i < k ==> At(desc, i) == At(p, i)
    ensures k <= |n| && p[..k] == n[..k]
  {
    assert forall i :: 0 <= i < k ==> p[i] in p && At(p, i) == p[i];
    assert At(desc, |n|) !in p;
  }

  // The member that definition d of interface i spells. Names hold no characters that end them.
  ghost predicate Spells(m: Member, i: Signature.InterfaceDef, d: Signature.MemberDef) {
    && m.ifn == Signature.SpelledName(i) && Signature.InterfaceOk(i)
    && m.mbr == Signature.EncodeMember(d) && Signature.MemberOk(d) && d.name[0] != '&'
    && '\0' !in m.obj && '\0' !in i.name && '\0' !in d.name && ' ' !in m.obj && ' ' !in i.name
  }

  ghost predicate PatternsOk(rule: Rule, pm: PermissionMember) {
    '\0' !in rule.obj && '\0' !in rule.ifn && '\0' !in pm.mbr && Signature.Plain(pm.mbr)
  }

  // The rule is about that object, interface and member; a member type of 1, 2 or 3 narrows it to one kind.
  ghost predicate Selects(rule: Rule, pm: PermissionMember, obj: string, ifn: string, d: Signature.MemberDef) {
    && Glob(rule.obj, obj) && Glob(rule.ifn, ifn) && Glob(pm.mbr, d.name)
    && (|| pm.kind == 0 || (pm.kind == 1 && d.MethodDef?) || (pm.kind == 2 && d.SignalDef?)
        || (pm.kind == 3 && d.PropertyDef?))
  }

  // The rights that an action gives: provide is bit 0, observe bit 1, modify bit 2.
  ghost predicate Gives(d: Signature.MemberDef, action: bv8, r: Right) {
    match d
    case SignalDef(_, _, _) => (r == CallIn && 0x1 & action != 0) || (r == CallOut && 0x2 & action != 0)
    case MethodDef(_, _) => (r == CallIn && 0x4 & action != 0) || (r == CallOut && 0x1 & action != 0)
    case PropertyDef(_, _, _) =>
      || (r == CallIn && 0x2 & action != 0) || (r == SetIn && 0x4 & action != 0)
      || ((r == CallOut || r == SetOut) && 0x1 & action != 0)
  }

  lemma KindMeans(m: Member, i: Signature.InterfaceDef, d: Signature.MemberDef, action: bv8, r: Right)
    requires Spells(m, i, d)
    ensures MemberKind(m) == if d.SignalDef? then Signal else if d.MethodDef? then Method else Property
    ensures ActionGrants(MemberKind(m), action, r) <==> Gives(d, action, r)
  {
    hide Signature.MemberOk, Signature.InterfaceOk, Signature.EncodeArgs;
    assert m.mbr[0] == if d.SignalDef? then '!' else if d.MethodDef? then '?' else '@';
  }

  lemma MemberNameMeans(m: Member, i: Signature.InterfaceDef, d: Signature.MemberDef) returns (tail: string)
    requires Spells(m, i, d)
    ensures MemberName(m) == d.name + tail
    ensures if d.PropertyDef? then tail != "" && tail[0] in "<=>" else tail == "" || tail[0] == ' '
  {
    tail := if d.PropertyDef? then [d.access] + d.kind else Signature.EncodeArgs(d.args);
    var name := d.name + tail;
    assert name[0] == d.name[0];
  }

  lemma RuleCoversMeans(rule: Rule, m: Member, i: Signature.InterfaceDef)
    requires m.ifn == Signature.SpelledName(i) && Signature.InterfaceOk(i) && ' ' !in m.obj && ' ' !in i.name
    requires '\0' !in m.obj && '\0' !in i.name && '\0' !in rule.obj && '\0' !in rule.ifn
    ensures RuleCovers(rule, m) <==> Glob(rule.obj, m.obj) && Glob(rule.ifn, i.name)
  {
    Signature.NameOfSpelled(i);
    assert m.obj + "" == m.obj && i.name + "" == i.name;
    hide Matches, Glob, Signature.InterfaceName, Signature.SpelledName, Signature.InterfaceOk;
    MatchesMeans(rule.obj, m.obj, "", Signal);
    MatchesMeans(rule.ifn, i.name, "", Signal);
  }

  lemma PartCoversMeans(pm: PermissionMember, m: Member, i: Signature.InterfaceDef, d: Signature.MemberDef)
    requires Spells(m, i, d) && '\0' !in pm.mbr && Signature.Plain(pm.mbr)
    ensures Matches(pm.mbr, MemberName(m), MemberKind(m)) <==> Glob(pm.mbr, d.name)
  {
    var tail := MemberNameMeans(m, i, d);
    KindMeans(m, i, d, 0, CallIn);
    assert Signature.Plain(d.name);
    hide Matches, Glob, MemberName, MemberKind, Signature.InterfaceOk, Signature.SpelledName, Signature.EncodeMember,
      Signature.MemberOk;
    MatchesMeans(pm.mbr, d.name, tail, MemberKind(m));
  }

  lemma CoversMeans(rule: Rule, pm: PermissionMember, m: Member, i: Signature.InterfaceDef, d: Signature.MemberDef)
    requires Spells(m, i, d) && PatternsOk(rule, pm)
    ensures RuleCovers(rule, m) && PartCovers(pm, m) <==> Selects(rule, pm, m.obj, i.name, d)
  {
    PartCoversMeans(pm, m, i, d);
    KindMeans(m, i, d, 0, CallIn);
    hide RuleCovers, Matches, Glob, MemberName, MemberKind, Signature.InterfaceOk, Signature.SpelledName,
      Signature.EncodeMember, Signature.MemberOk, Signature.Plain;
    RuleCoversMeans(rule, m, i);
  }

  /** Which rules grant a right on a member and which deny it, in terms of the definitions that its strings spell. */
  lemma RulesMean(rules: seq<Rule>, m: Member, i: Signature.InterfaceDef, d: Signature.MemberDef, r: Right)
    requires Spells(m, i, d)
    requires forall rule, pm :: rule in rules && pm in rule.members ==> PatternsOk(rule, pm)
    ensures Grants(rules, m, r) <==>
              exists rule, pm :: rule in rules && pm in rule.members && Selects(rule, pm, m.obj, i.name, d)
                                 && Gives(d, pm.action, r)
    ensures Denies(rules, m) <==>
              exists rule, pm :: rule in rules && pm in rule.members && Selects(rule, pm, m.obj, i.name, d)
                                 && rule.obj != "" && rule.obj[0] == '*' && rule.ifn != "" && rule.ifn[0] == '*'
                                 && pm.mbr != "" && pm.mbr[0] == '*' && pm.action == 0
  {
    hide Spells, PatternsOk, RuleCovers, PartCovers, Selects, Gives, ActionGrants, MemberKind;
    forall rule, pm | rule in rules && pm in rule.members
      ensures Applies(rules, m, rule, pm) <==> Selects(rule, pm, m.obj, i.name, d)
      ensures ActionGrants(MemberKind(m), pm.action, r) <==> Gives(d, pm.action, r)
    {
      CoversMeans(rule, pm, m, i, d);
      KindMeans(m, i, d, pm.action, r);
    }
  }

  /* ---- Peers and ACLs ---- */

  type Key = seq<bv8>

  datatype PeerType = All | AnyTrusted | FromCA | WithPublicKey | WithMembership
  datatype PeerEntry = PeerEntry(kind: PeerType, pub: Key, group: seq<bv8>)
  datatype Acl = Acl(peers: seq<PeerEntry>, rules: seq<Rule>)

  datatype Suite = EcdheNull | EcdhePsk | EcdheEcdsa

  // keys[0] is the subject key, the issuers follow.
  datatype Context = Context(suite: Suite, keys: seq<Key>)

  // PermissionPeerFind: keys count for a CA, a public key and a membership, groups for a membership only.
  method PermissionPeerFind(peers: seq<PeerEntry>, kind: PeerType, pub: Key, group: seq<bv8>) returns (found: bool)
    ensures kind == All || kind == AnyTrusted ==> (found <==> exists e :: e in peers && e.kind == kind)
    ensures kind == FromCA || kind == WithPublicKey ==>
              (found <==> exists e :: e in peers && e.kind == kind && e.pub == pub)
    ensures kind == WithMembership ==>
              (found <==> exists e :: e in peers && e.kind == kind && e.pub == pub && e.group == group)
  {
    var i := 0;
    while i < |peers|
      invariant 0 <= i <= |peers|
      invariant kind == All || kind == AnyTrusted ==> forall j :: 0 <= j < i ==> peers[j].kind != kind
      invariant kind == FromCA || kind == WithPublicKey ==>
                  forall j :: 0 <= j < i ==> peers[j].kind != kind || peers[j].pub != pub
      invariant kind == WithMembership ==>
                  forall j :: 0 <= j < i ==> peers[j].kind != kind || peers[j].pub != pub || peers[j].group != group
    {
      if kind == peers[i].kind {
        if kind == All || kind == AnyTrusted {
          return true;
        } else if pub == peers[i].pub {
          if kind == WithMembership {
            if group == peers[i].group {
              return true;
            }
          } else {
            return true;
          }
        }
      }
      i := i + 1;
    }
    return false;
  }

  // What a peer entry of a policy stands for: everyone, every authenticated peer, the peer with that key, or every peer
  // that this key certifies. Memberships are applied separately.
  predicate Concerns(e: PeerEntry, ctx: Context)
    requires ctx.suite == EcdheEcdsa ==> ctx.keys != []
  {
    match e.kind
    case All => true
    case AnyTrusted => ctx.suite != EcdheNull
    case WithPublicKey => ctx.suite == EcdheEcdsa && e.pub == ctx.keys[0]
    case FromCA => ctx.suite == EcdheEcdsa && e.pub in ctx.keys[1..]
    case WithMembership => false
  }

  /** The ACL concerns the peer. */
  ghost predicate AclMatches(acl: Acl, ctx: Context)
    requires ctx.suite == EcdheEcdsa ==> ctx.keys != []
  { exists e :: e in acl.peers && Concerns(e, ctx) }

  // The subject key of the peer is listed.
  ghost predicate ListsKey(acl: Acl, ctx: Context)
    requires ctx.suite == EcdheEcdsa ==> ctx.keys != []
  { ctx.suite == EcdheEcdsa && exists e :: e in acl.peers && e.kind == WithPublicKey && e.pub == ctx.keys[0] }

  /** The search of AJ_PolicyApply, which tries issuers only while nothing has been found. */
  method FindPeer(acl: Acl, ctx: Context) returns (found: bool, withPublicKey: bool)
    requires ctx.suite == EcdheEcdsa ==> ctx.keys != []
    ensures found == AclMatches(acl, ctx) && withPublicKey == ListsKey(acl, ctx)
  {
    found, withPublicKey := false, false;
    found := PermissionPeerFind(acl.peers, All, [], []);
    if ctx.suite != EcdheNull {
      var any := PermissionPeerFind(acl.peers, AnyTrusted, [], []);
      found := found || any;
    }
    if ctx.suite == EcdheEcdsa {
      withPublicKey := PermissionPeerFind(acl.peers, WithPublicKey, ctx.keys[0], []);
      found := found || withPublicKey;
      var i := 1;
      while i < |ctx.keys| && !found
        invariant 1 <= i <= |ctx.keys|
        invariant withPublicKey == ListsKey(acl, ctx)
        invariant found ==> AclMatches(acl, ctx)
        invariant !found ==> forall e :: e in acl.peers && Concerns(e, ctx) ==> e.kind == FromCA
        invariant !found ==> forall e, j :: e in acl.peers && e.kind == FromCA && 1 <= j < i ==> e.pub != ctx.keys[j]
      {
        found := PermissionPeerFind(acl.peers, FromCA, ctx.keys[i], []);
        assert ctx.keys[i] == ctx.keys[1..][i - 1];
        i := i + 1;
      }
    }
  }

  /* ---- The masks of one member and one peer ---- */

  datatype Cell = Cell(allow: bv8, deny: bool)

  // What changes a cell: AJ_AccessControlReset, AJ_PolicyApply with a loaded policy, AJ_ManifestApply.
  datatype Change = Reset | ApplyPolicy(acls: seq<Acl>, ctx: Context) | ApplyManifest(rules: seq<Rule>)

  ghost predicate Sound(c: Change) {
    c.ApplyPolicy? && c.ctx.suite == EcdheEcdsa ==> c.ctx.keys != []
  }

  ghost function ApplyAcl(cell: Cell, m: Member, acl: Acl, ctx: Context): Cell
    requires ctx.suite == EcdheEcdsa ==> ctx.keys != []
  {
    if !AclMatches(acl, ctx) then cell
    else
      var acc := RuleMask(acl.rules, m);
      var both := if ctx.suite != EcdheEcdsa then Or(acc, Up(acc)) else acc;
      Cell(Or(cell.allow, both), cell.deny || (ListsKey(acl, ctx) && Denies(acl.rules, m)))
  }

  ghost function ApplyAcls(cell: Cell, m: Member, acls: seq<Acl>, ctx: Context): Cell
    requires ctx.suite == EcdheEcdsa ==> ctx.keys != []
    decreases |acls|
  {
    if acls == [] then cell else ApplyAcl(ApplyAcls(cell, m, acls[..|acls| - 1], ctx), m, acls[|acls| - 1], ctx)
  }

  ghost function Applied(cell: Cell, m: Member, c: Change): Cell
    requires Sound(c)
  {
    match c
    case Reset => Cell(0, false)
    case ApplyPolicy(acls, ctx) => ApplyAcls(cell, m, acls, ctx)
    case ApplyManifest(rules) => Cell(Or(cell.allow, Up(RuleMask(rules, m))), cell.deny)
  }

  ghost function AppliedAll(cell: Cell, m: Member, cs: seq<Change>): Cell
    requires forall c :: c in cs ==> Sound(c)
    decreases |cs|
  {
    if cs == [] then cell else Applied(AppliedAll(cell, m, cs[..|cs| - 1]), m, cs[|cs| - 1])
  }

  // The check of a right: both halves of the mask, unless denied.
  predicate Allowed(cell: Cell, r: Right) { !cell.deny && Has(cell.allow, Policy(r)) && Has(cell.allow, Manifest(r)) }

  /* ---- What the cell means ---- */

  // The policy grants the right by an ACL that concerns the peer.
  ghost predicate PolicyGrants(acls: seq<Acl>, ctx: Context, m: Member, r: Right)
    requires ctx.suite == EcdheEcdsa ==> ctx.keys != []
  { exists acl :: acl in acls && AclMatches(acl, ctx) && Grants(acl.rules, m, r) }

  // An ACL that lists the peer's own key denies everything.
  ghost predicate PolicyDenies(acls: seq<Acl>, ctx: Context, m: Member)
    requires ctx.suite == EcdheEcdsa ==> ctx.keys != []
  { exists acl :: acl in acls && ListsKey(acl, ctx) && Denies(acl.rules, m) }

  // What a change adds to the policy half, to the manifest half and to the deny flag.
  ghost predicate AddsPolicy(c: Change, m: Member, r: Right)
    requires Sound(c)
  { c.ApplyPolicy? && PolicyGrants(c.acls, c.ctx, m, r) }

  ghost predicate AddsManifest(c: Change, m: Member, r: Right)
    requires Sound(c)
  {
    || (c.ApplyPolicy? && c.ctx.suite != EcdheEcdsa && PolicyGrants(c.acls, c.ctx, m, r))
    || (c.ApplyManifest? && Grants(c.rules, m, r))
  }

  ghost predicate AddsDeny(c: Change, m: Member)
    requires Sound(c)
  { c.ApplyPolicy? && PolicyDenies(c.acls, c.ctx, m) }

  lemma ApplyAclMeans(cell: Cell, m: Member, acl: Acl, ctx: Context, r: Right)
    requires ctx.suite == EcdheEcdsa ==> ctx.keys != []
    ensures var e := ApplyAcl(cell, m, acl, ctx);
            var g := AclMatches(acl, ctx) && Grants(acl.rules, m, r);
            && (Has(e.allow, Policy(r)) <==> Has(cell.allow, Policy(r)) || g)
            && (Has(e.allow, Manifest(r)) <==> Has(cell.allow, Manifest(r)) || (ctx.suite != EcdheEcdsa && g))
            && (e.deny <==> cell.deny || (ListsKey(acl, ctx) && Denies(acl.rules, m)))
  {
    hide Has, Or, Up, Policy, Manifest, Grants, Denies, RuleMask;
    var acc := RuleMask(acl.rules, m);
    RuleMaskIsUnion(acl.rules, m, r);
    HasUp(acc, r);
    var both := if ctx.suite != EcdheEcdsa then Or(acc, Up(acc)) else acc;
    HasOr(acc, Up(acc), Policy(r));
    HasOr(acc, Up(acc), Manifest(r));
    HasOr(cell.allow, both, Policy(r));
    HasOr(cell.allow, both, Manifest(r));
  }

  lemma {:induction false} ApplyAclsMeans(cell: Cell, m: Member, acls: seq<Acl>, ctx: Context, r: Right)
    requires ctx.suite == EcdheEcdsa ==> ctx.keys != []
    ensures var e := ApplyAcls(cell, m, acls, ctx);
            && (Has(e.allow, Policy(r)) <==> Has(cell.allow, Policy(r)) || PolicyGrants(acls, ctx, m, r))
            && (Has(e.allow, Manifest(r))
                <==> Has(cell.allow, Manifest(r)) || (ctx.suite != EcdheEcdsa && PolicyGrants(acls, ctx, m, r)))
            && (e.deny <==> cell.deny || PolicyDenies(acls, ctx, m))
    decreases |acls|
  {
    hide Has, AclMatches, ListsKey, Grants, Denies, ApplyAcl;
    if acls != [] {
      var front, acl := acls[..|acls| - 1], acls[|acls| - 1];
      ApplyAclsMeans(cell, m, front, ctx, r);
      ApplyAclMeans(ApplyAcls(cell, m, front, ctx), m, acl, ctx, r);
      assert forall x :: x in acls <==> x in front || x == acl;
    }
  }

  lemma AppliedMeans(cell: Cell, m: Member, c: Change, r: Right)
    requires Sound(c) && c != Reset
    ensures var e := Applied(cell, m, c);
            && (Has(e.allow, Policy(r)) <==> Has(cell.allow, Policy(r)) || AddsPolicy(c, m, r))
            && (Has(e.allow, Manifest(r)) <==> Has(cell.allow, Manifest(r)) || AddsManifest(c, m, r))
            && (e.deny <==> cell.deny || AddsDeny(c, m))
  {
    hide Has, Or, Up, Policy, Manifest, Grants, PolicyGrants, PolicyDenies, RuleMask;
    match c
    case ApplyPolicy(acls, ctx) => ApplyAclsMeans(cell, m, acls, ctx, r);
    case ApplyManifest(rules) =>
      RuleMaskIsUnion(rules, m, r);
      HasUp(RuleMask(rules, m), r);
      HasOr(cell.allow, Up(RuleMask(rules, m)), Policy(r));
      HasOr(cell.allow, Up(RuleMask(rules, m)), Manifest(r));
  }

  // Changes since the peer was reset.
  ghost predicate SinceReset(cs: seq<Change>) { forall c :: c in cs ==> Sound(c) && c != Reset }

  lemma {:induction false} HistoryMeans(m: Member, cs: seq<Change>, r: Right)
    requires SinceReset(cs)
    ensures var e := AppliedAll(Cell(0, false), m, cs);
            && (Has(e.allow, Policy(r)) <==> exists c :: c in cs && AddsPolicy(c, m, r))
            && (Has(e.allow, Manifest(r)) <==> exists c :: c in cs && AddsManifest(c, m, r))
            && (e.deny <==> exists c :: c in cs && AddsDeny(c, m))
    decreases |cs|
  {
    hide Has, AddsPolicy, AddsManifest, AddsDeny, Applied;
    if cs == [] {
      HasZero(Policy(r));
      HasZero(Manifest(r));
    } else {
      var front, c := cs[..|cs| - 1], cs[|cs| - 1];
      assert forall x :: x in cs <==> x in front || x == c;
      HistoryMeans(m, front, r);
      AppliedMeans(AppliedAll(Cell(0, false), m, front), m, c, r);
    }
  }

  /**
   The index is exact. After a reset, any sequence of policy and manifest applications leaves a member allowed exactly
   when nothing denies it, the policy grants the right and a manifest (or, without ECDSA, the policy itself) grants it.
   */
  lemma AllowedIffGranted(m: Member, cs: seq<Change>, r: Right)
    requires SinceReset(cs)
    ensures Allowed(AppliedAll(Cell(0, false), m, cs), r)
       <==> && !(exists c :: c in cs && AddsDeny(c, m))
            && (exists c :: c in cs && AddsPolicy(c, m, r))
            && (exists c :: c in cs && AddsManifest(c, m, r))
  {
    hide Has, AddsPolicy, AddsManifest, AddsDeny;
    HistoryMeans(m, cs, r);
  }

  /* ---- Order and repetition ---- */

  // Equal up to order and repetition: permission members in a rule, rules, ACLs with their peers, changes.
  ghost predicate SameRule(a: Rule, b: Rule) {
    a.obj == b.obj && a.ifn == b.ifn && forall pm :: pm in a.members <==> pm in b.members
  }

  ghost predicate RulesWithin(a: seq<Rule>, b: seq<Rule>) {
    forall x :: x in a ==> exists y :: y in b && SameRule(x, y)
  }

  ghost predicate SameRules(a: seq<Rule>, b: seq<Rule>) { RulesWithin(a, b) && RulesWithin(b, a) }

  ghost predicate SameAcl(a: Acl, b: Acl) {
    (forall e :: e in a.peers <==> e in b.peers) && SameRules(a.rules, b.rules)
  }

  ghost predicate AclsWithin(a: seq<Acl>, b: seq<Acl>) { forall x :: x in a ==> exists y :: y in b && SameAcl(x, y) }

  ghost predicate SameChange(a: Change, b: Change) {
    match (a, b)
    case (Reset, Reset) => true
    case (ApplyPolicy(x, c), ApplyPolicy(y, d)) => c == d && AclsWithin(x, y) && AclsWithin(y, x)
    case (ApplyManifest(x), ApplyManifest(y)) => SameRules(x, y)
    case _ => false
  }

  ghost predicate ChangesWithin(a: seq<Change>, b: seq<Change>) {
    forall x :: x in a ==> exists y :: y in b && SameChange(x, y)
  }

  lemma RulesWithinGrant(a: seq<Rule>, b: seq<Rule>, m: Member, r: Right)
    requires RulesWithin(a, b)
    ensures Grants(a, m, r) ==> Grants(b, m, r)
    ensures Denies(a, m) ==> Denies(b, m)
  {
    hide RuleCovers, PartCovers, WildDeny, ActionGrants;
    forall x, pm | Applies(a, m, x, pm)
      ensures exists y :: Applies(b, m, y, pm) && SameRule(x, y)
    {
      var y :| y in b && SameRule(x, y);
      SameRuleCovers(x, y, m, pm);
      assert Applies(b, m, y, pm);
    }
    forall x, y, pm | SameRule(x, y)
      ensures WildDeny(x, pm) <==> WildDeny(y, pm)
    {
      SameRuleCovers(x, y, m, pm);
    }
  }

  lemma SameRuleCovers(x: Rule, y: Rule, m: Member, pm: PermissionMember)
    requires SameRule(x, y)
    ensures (RuleCovers(x, m) <==> RuleCovers(y, m)) && (WildDeny(x, pm) <==> WildDeny(y, pm))
  {
    hide Matches;
  }

  lemma SameAclMatches(a: Acl, b: Acl, ctx: Context)
    requires SameAcl(a, b) && (ctx.suite == EcdheEcdsa ==> ctx.keys != [])
    ensures (AclMatches(a, ctx) <==> AclMatches(b, ctx)) && (ListsKey(a, ctx) <==> ListsKey(b, ctx))
  {
    hide Concerns;
  }

  lemma AclsWithinGrant(a: seq<Acl>, b: seq<Acl>, ctx: Context, m: Member, r: Right)
    requires AclsWithin(a, b) && (ctx.suite == EcdheEcdsa ==> ctx.keys != [])
    ensures PolicyGrants(a, ctx, m, r) ==> PolicyGrants(b, ctx, m, r)
    ensures PolicyDenies(a, ctx, m) ==> PolicyDenies(b, ctx, m)
  {
    hide AclMatches, ListsKey, Grants, Denies, SameAcl, AclsWithin;
    forall x | x in a
      ensures AclMatches(x, ctx) && Grants(x.rules, m, r) ==> PolicyGrants(b, ctx, m, r)
      ensures ListsKey(x, ctx) && Denies(x.rules, m) ==> PolicyDenies(b, ctx, m)
    {
      var y := AclWithin(x, a, b);
      SameAclMatches(x, y, ctx);
      SameAclRules(x, y, m, r);
    }
  }

  lemma AclWithin(x: Acl, a: seq<Acl>, b: seq<Acl>) returns (y: Acl)
    requires AclsWithin(a, b) && x in a
    ensures y in b && SameAcl(x, y)
  {
    hide SameAcl;
    y :| y in b && SameAcl(x, y);
  }

  lemma SameAclRules(a: Acl, b: Acl, m: Member, r: Right)
    requires SameAcl(a, b)
    ensures Grants(a.rules, m, r) ==> Grants(b.rules, m, r)
    ensures Denies(a.rules, m) ==> Denies(b.rules, m)
  {
    hide Grants, Denies, RulesWithin;
    RulesWithinGrant(a.rules, b.rules, m, r);
  }

  lemma SameChangeAdds(a: Change, b: Change, m: Member, r: Right)
    requires Sound(a) && Sound(b) && SameChange(a, b)
    ensures AddsPolicy(a, m, r) ==> AddsPolicy(b, m, r)
    ensures AddsManifest(a, m, r) ==> AddsManifest(b, m, r)
    ensures AddsDeny(a, m) ==> AddsDeny(b, m)
  {
    hide PolicyGrants, PolicyDenies, Grants, AclsWithin, RulesWithin;
    match a
    case Reset =>
    case ApplyPolicy(acls, ctx) => AclsWithinGrant(acls, b.acls, ctx, m, r);
    case ApplyManifest(rules) => RulesWithinGrant(rules, b.rules, m, r);
  }

  lemma ChangesWithinAdd(a: seq<Change>, b: seq<Change>, m: Member, r: Right)
    requires SinceReset(a) && SinceReset(b) && ChangesWithin(a, b)
    ensures (exists c :: c in a && AddsPolicy(c, m, r)) ==> exists c :: c in b && AddsPolicy(c, m, r)
    ensures (exists c :: c in a && AddsManifest(c, m, r)) ==> exists c :: c in b && AddsManifest(c, m, r)
    ensures (exists c :: c in a && AddsDeny(c, m)) ==> exists c :: c in b && AddsDeny(c, m)
  {
    hide AddsPolicy, AddsManifest, AddsDeny, SameChange, Sound;
    forall x | x in a
      ensures exists y :: y in b && (AddsPolicy(x, m, r) ==> AddsPolicy(y, m, r))
                          && (AddsManifest(x, m, r) ==> AddsManifest(y, m, r)) && (AddsDeny(x, m) ==> AddsDeny(y, m))
    {
      var y :| y in b && SameChange(x, y);
      SameChangeAdds(x, y, m, r);
    }
  }

  /**
   Only what was applied matters. Two histories since the reset that differ in the order and repetition of the changes,
   of the ACLs in a policy, of the peers in an ACL, of the rules in an ACL or manifest, or of the members in a rule,
   compile to the same masks and the same deny flag.
   */
  lemma OrderIrrelevant(m: Member, a: seq<Change>, b: seq<Change>)
    requires SinceReset(a) && SinceReset(b) && ChangesWithin(a, b) && ChangesWithin(b, a)
    ensures AppliedAll(Cell(0, false), m, a) == AppliedAll(Cell(0, false), m, b)
  {
    var x, y := AppliedAll(Cell(0, false), m, a), AppliedAll(Cell(0, false), m, b);
    forall r
      ensures Has(x.allow, Policy(r)) == Has(y.allow, Policy(r))
      ensures Has(x.allow, Manifest(r)) == Has(y.allow, Manifest(r))
    {
      SameBits(m, a, b, r);
    }
    hide AppliedAll, ChangesWithin;
    assert x.deny == y.deny by {
      SameBits(m, a, b, CallIn);
    }
    MaskIsItsBits(x.allow, y.allow);
  }

  lemma SameBits(m: Member, a: seq<Change>, b: seq<Change>, r: Right)
    requires SinceReset(a) && SinceReset(b) && ChangesWithin(a, b) && ChangesWithin(b, a)
    ensures var x, y := AppliedAll(Cell(0, false), m, a), AppliedAll(Cell(0, false), m, b);
            && Has(x.allow, Policy(r)) == Has(y.allow, Policy(r))
            && Has(x.allow, Manifest(r)) == Has(y.allow, Manifest(r)) && x.deny == y.deny
  {
    hide Has, AddsPolicy, AddsManifest, AddsDeny, ChangesWithin, AppliedAll, Sound;
    HistoryMeans(m, a, r);
    HistoryMeans(m, b, r);
    ChangesWithinAdd(a, b, m, r);
    ChangesWithinAdd(b, a, m, r);
  }

  lemma MaskIsItsBits(x: bv8, y: bv8)
    requires forall r :: Has(x, Policy(r)) == Has(y, Policy(r)) && Has(x, Manifest(r)) == Has(y, Manifest(r))
    ensures x == y
  {
    assert Has(x, Policy(CallIn)) == Has(y, Policy(CallIn)) && Has(x, Policy(CallOut)) == Has(y, Policy(CallOut));
    assert Has(x, Policy(SetIn)) == Has(y, Policy(SetIn)) && Has(x, Policy(SetOut)) == Has(y, Policy(SetOut));
    assert Has(x, Manifest(CallIn)) == Has(y, Manifest(CallIn));
    assert Has(x, Manifest(CallOut)) == Has(y, Manifest(CallOut));
    assert Has(x, Manifest(SetIn)) == Has(y, Manifest(SetIn)) && Has(x, Manifest(SetOut)) == Has(y, Manifest(SetOut));
    Bits(x, y);
  }

  lemma Bits(x: bv8, y: bv8)
    requires (x & 0x01 != 0) == (y & 0x01 != 0) && (x & 0x02 != 0) == (y & 0x02 != 0)
    requires (x & 0x04 != 0) == (y & 0x04 != 0) && (x & 0x08 != 0) == (y & 0x08 != 0)
    requires (x & 0x10 != 0) == (y & 0x10 != 0) && (x & 0x20 != 0) == (y & 0x20 != 0)
    requires (x & 0x40 != 0) == (y & 0x40 != 0) && (x & 0x80 != 0) == (y & 0x80 != 0)
    ensures x == y
  {
  }

  // Every policy application since the reset was of this policy, for this authentication.
  ghost predicate OnePolicy(cs: seq<Change>, acls: seq<Acl>, ctx: Context) {
    ApplyPolicy(acls, ctx) in cs && forall c :: c in cs && c.ApplyPolicy? ==> c == ApplyPolicy(acls, ctx)
  }

  /**
   With one loaded policy: allowed exactly when the policy does not deny, some ACL that concerns the peer grants, and,
   for ECDSA, some manifest that was applied grants as well.
   */
  lemma AllowedUnderPolicy(m: Member, cs: seq<Change>, acls: seq<Acl>, ctx: Context, r: Right)
    requires SinceReset(cs) && OnePolicy(cs, acls, ctx)
    ensures ctx.suite == EcdheEcdsa ==> ctx.keys != []
    ensures Allowed(AppliedAll(Cell(0, false), m, cs), r)
       <==> && !PolicyDenies(acls, ctx, m)
            && PolicyGrants(acls, ctx, m, r)
            && (ctx.suite == EcdheEcdsa ==> exists c :: c in cs && c.ApplyManifest? && Grants(c.rules, m, r))
  {
    hide Allowed, PolicyGrants, PolicyDenies, Grants, AppliedAll;
    var p := ApplyPolicy(acls, ctx);
    assert Sound(p);
    AllowedIffGranted(m, cs, r);
    assert AddsPolicy(p, m, r) <==> PolicyGrants(acls, ctx, m, r);
    assert AddsDeny(p, m) <==> PolicyDenies(acls, ctx, m);
    assert ctx.suite != EcdheEcdsa ==> (AddsManifest(p, m, r) <==> PolicyGrants(acls, ctx, m, r));
    assert forall c :: c in cs && c.ApplyManifest? ==> (AddsManifest(c, m, r) <==> Grants(c.rules, m, r));
  }

  // The rule of AllowedUnderPolicy.
  ghost predicate DeclaredAllowed(m: Member, cs: seq<Change>, acls: seq<Acl>, ctx: Context, r: Right)
    requires ctx.suite == EcdheEcdsa ==> ctx.keys != []
  {
    && !PolicyDenies(acls, ctx, m)
    && PolicyGrants(acls, ctx, m, r)
    && (ctx.suite == EcdheEcdsa ==> exists c :: c in cs && c.ApplyManifest? && Grants(c.rules, m, r))
  }

  lemma DeclaredIs(m: Member, cs: seq<Change>, acls: seq<Acl>, ctx: Context, r: Right)
    requires SinceReset(cs) && OnePolicy(cs, acls, ctx) && (ctx.suite == EcdheEcdsa ==> ctx.keys != [])
    ensures Allowed(AppliedAll(Cell(0, false), m, cs), r) <==> DeclaredAllowed(m, cs, acls, ctx, r)
  {
    hide Allowed, PolicyGrants, PolicyDenies, Grants, AppliedAll;
    AllowedUnderPolicy(m, cs, acls, ctx, r);
  }

  lemma ResetClears()
    ensures forall cell, m :: Applied(cell, m, Reset) == Cell(0, false)
  {
  }

  /* ---- The table ---- */

  datatype Verdict = Access | NoAccess

  // What is asked of a property: reading one or all, or writing.
  datatype PropertyOp = PropGet | PropSet | PropGetAll

  // The masks of one member for all peers.
  datatype Row = Row(allow: seq<bv8>, deny: seq<bool>) {
    predicate Full() { |allow| == AJ_NAME_MAP_GUID_SIZE && |deny| == AJ_NAME_MAP_GUID_SIZE }

    function Get(peer: nat): Cell
      requires Full() && peer < AJ_NAME_MAP_GUID_SIZE
    { Cell(allow[peer], deny[peer]) }

    // The row with one peer's cell replaced; the other peers keep theirs.
    function With(peer: nat, cell: Cell): (r: Row)
      requires Full() && peer < AJ_NAME_MAP_GUID_SIZE
      ensures r.Full() && r.Get(peer) == cell
      ensures forall q :: 0 <= q < AJ_NAME_MAP_GUID_SIZE && q != peer ==> r.Get(q) == Get(q)
    { Row(allow[peer := cell.allow], deny[peer := cell.deny]) }
  }

  class Table {
    const members: seq<Member>
    const rows: array<Row>

    ghost predicate Valid()
      reads rows
    {
      rows.Length == |members| && forall i :: 0 <= i < rows.Length ==> rows[i].Full()
    }

    constructor (members: seq<Member>)
      ensures Valid() && this.members == members && fresh(rows)
      ensures forall i, p :: 0 <= i < |members| && 0 <= p < AJ_NAME_MAP_GUID_SIZE ==> rows[i].Get(p) == Cell(0, false)
    {
      this.members := members;
      rows := new Row[|members|](_ => Row([0, 0, 0, 0], [false, false, false, false]));
    }

    // Row i with change c applied for one peer.
    ghost function Changed(row: Row, i: nat, peer: nat, c: Change): Row
      requires i < |members| && row.Full() && peer < AJ_NAME_MAP_GUID_SIZE && Sound(c)
    { row.With(peer, Applied(row.Get(peer), members[i], c)) }

    method AccessControlReset(peer: nat)
      requires Valid() && peer < AJ_NAME_MAP_GUID_SIZE
      modifies rows
      ensures Valid() && forall i :: 0 <= i < |members| ==> rows[i] == Changed(old(rows[i]), i, peer, Reset)
    {
      for i := 0 to |members|
        invariant forall j :: i <= j < |members| ==> rows[j] == old(rows[j])
        invariant Valid() && forall j :: 0 <= j < i ==> rows[j] == Changed(old(rows[j]), j, peer, Reset)
      {
        rows[i] := rows[i].(allow := rows[i].allow[peer := 0]);
        rows[i] := rows[i].(deny := rows[i].deny[peer := false]);
      }
    }

    method ManifestApply(rules: seq<Rule>, peer: nat)
      requires Valid() && peer < AJ_NAME_MAP_GUID_SIZE
      modifies rows
      ensures Valid() && forall i :: 0 <= i < |members| ==>
                rows[i] == Changed(old(rows[i]), i, peer, ApplyManifest(rules))
    {
      hide Or, Up, RuleMask, Denies;
      for i := 0 to |members|
        invariant forall j :: i <= j < |members| ==> rows[j] == old(rows[j])
        invariant Valid() && forall j :: 0 <= j < i ==> rows[j] == Changed(old(rows[j]), j, peer, ApplyManifest(rules))
      {
        var acc, _ := PermissionRuleAccess(rules, members[i], false);
        rows[i] := rows[i].(allow := rows[i].allow[peer := Or(rows[i].allow[peer], Up(acc))]);
        assert rows[i] == Changed(old(rows[i]), i, peer, ApplyManifest(rules));
      }
    }

    // The inner walk of AJ_PolicyApply, for one ACL that concerns the peer.
    method ApplyRules(acl: Acl, ctx: Context, peer: nat, withPublicKey: bool)
      requires Valid() && peer < AJ_NAME_MAP_GUID_SIZE && (ctx.suite == EcdheEcdsa ==> ctx.keys != [])
      requires AclMatches(acl, ctx) && withPublicKey == ListsKey(acl, ctx)
      modifies rows
      ensures Valid() && forall i :: 0 <= i < |members| ==>
                rows[i] == old(rows[i]).With(peer, ApplyAcl(old(rows[i]).Get(peer), members[i], acl, ctx))
    {
      hide Or, Up, RuleMask, Denies, AclMatches, ListsKey;
      for i := 0 to |members|
        invariant forall j :: i <= j < |members| ==> rows[j] == old(rows[j])
        invariant Valid() && forall j :: 0 <= j < i ==>
                    rows[j] == old(rows[j]).With(peer, ApplyAcl(old(rows[j]).Get(peer), members[j], acl, ctx))
      {
        var acc, denied := PermissionRuleAccess(acl.rules, members[i], withPublicKey);
        if denied {
          rows[i] := rows[i].(deny := rows[i].deny[peer := true]);
        }
        if ctx.suite != EcdheEcdsa {
          acc := Or(acc, Up(acc));
        }
        rows[i] := rows[i].(allow := rows[i].allow[peer := Or(rows[i].allow[peer], acc)]);
        assert rows[i] == old(rows[i]).With(peer, ApplyAcl(old(rows[i]).Get(peer), members[i], acl, ctx));
      }
    }

    method PolicyApply(acls: seq<Acl>, ctx: Context, peer: nat)
      requires Valid() && peer < AJ_NAME_MAP_GUID_SIZE && (ctx.suite == EcdheEcdsa ==> ctx.keys != [])
      modifies rows
      ensures Valid() && forall i :: 0 <= i < |members| ==>
                rows[i] == Changed(old(rows[i]), i, peer, ApplyPolicy(acls, ctx))
    {
      hide AclMatches, ListsKey, RuleMask;
      for k := 0 to |acls|
        invariant Valid() && forall j :: 0 <= j < |members| ==>
                    rows[j] == old(rows[j]).With(peer, ApplyAcls(old(rows[j]).Get(peer), members[j], acls[..k], ctx))
      {
        var found, withPublicKey := FindPeer(acls[k], ctx);
        assert acls[..k + 1][..k] == acls[..k];
        if found {
          ApplyRules(acls[k], ctx, peer, withPublicKey);
        }
      }
      assert acls[..|acls|] == acls;
    }

    // Any sequence of resets and applications for one peer.
    method ApplyAll(cs: seq<Change>, peer: nat)
      requires Valid() && peer < AJ_NAME_MAP_GUID_SIZE && forall c :: c in cs ==> Sound(c)
      modifies rows
      ensures Valid() && forall i :: 0 <= i < |members| ==>
                rows[i] == old(rows[i]).With(peer, AppliedAll(old(rows[i]).Get(peer), members[i], cs))
    {
      hide Applied;
      for k := 0 to |cs|
        invariant Valid() && forall i :: 0 <= i < |members| ==>
                    rows[i] == old(rows[i]).With(peer, AppliedAll(old(rows[i]).Get(peer), members[i], cs[..k]))
      {
        assert cs[..k + 1][..k] == cs[..k] && Sound(cs[k]);
        match cs[k]
        case Reset => AccessControlReset(peer);
        case ApplyPolicy(acls, ctx) => PolicyApply(acls, ctx, peer);
        case ApplyManifest(rules) => ManifestApply(rules, peer);
      }
      assert cs[..|cs|] == cs;
    }

    // Entry i is the one that a message id stands for.
    predicate IsEntry(i: nat, id: nat) {
      i < |members| && members[i].id == id && forall j :: 0 <= j < i ==> members[j].id != id
    }

    /**
     The verdict on a message after a reset and any sequence of applications of one policy and of manifests: access
     exactly when the policy does not deny, some ACL that concerns the peer grants, and, for ECDSA, some manifest
     grants.
     */
    method CheckAfter(cs: seq<Change>, acls: seq<Acl>, ctx: Context, id: nat, peer: nat, incoming: bool)
      returns (v: Verdict)
      requires Valid() && peer < AJ_NAME_MAP_GUID_SIZE && SinceReset(cs) && OnePolicy(cs, acls, ctx)
      requires ctx.suite == EcdheEcdsa ==> ctx.keys != []
      modifies rows
      ensures var r := if incoming then CallIn else CallOut;
              v == Access <==> exists i: nat :: IsEntry(i, id) && DeclaredAllowed(members[i], cs, acls, ctx, r)
      ensures Valid() && forall i, q :: 0 <= i < |members| && 0 <= q < AJ_NAME_MAP_GUID_SIZE && q != peer ==>
                rows[i].Get(q) == old(rows[i]).Get(q)
    {
      hide Allowed, DeclaredAllowed, AppliedAll, OnePolicy, Applied;
      AccessControlReset(peer);
      label afterReset:
      assert forall i :: 0 <= i < |members| ==> rows[i].Get(peer) == Cell(0, false) by {
        ResetClears();
      }
      ApplyAll(cs, peer);
      v := CheckMessage(id, peer, incoming);
      ghost var r := if incoming then CallIn else CallOut;
      forall i | 0 <= i < |members|
        ensures Allowed(rows[i].Get(peer), r) <==> DeclaredAllowed(members[i], cs, acls, ctx, r)
      {
        assert rows[i].Get(peer) == AppliedAll(old@afterReset(rows[i]).Get(peer), members[i], cs);
        DeclaredIs(members[i], cs, acls, ctx, r);
      }
    }

    // FindAccessControlMember: the first entry with the id.
    method FindMember(id: nat) returns (i: nat)
      ensures i <= |members|
      ensures (forall j :: 0 <= j < i ==> members[j].id != id) && (i < |members| ==> members[i].id == id)
    {
      i := 0;
      while i < |members| && members[i].id != id
        invariant i <= |members| && forall j :: 0 <= j < i ==> members[j].id != id
      {
        i := i + 1;
      }
    }

    /** AJ_AccessControlCheckMessage for an interface that is neither Peer.Authentication nor Properties. */
    method CheckMessage(id: nat, peer: nat, incoming: bool) returns (v: Verdict)
      requires Valid()
      ensures v == Access <==>
        peer < AJ_NAME_MAP_GUID_SIZE &&
        exists i: nat :: IsEntry(i, id)
                    && Allowed(rows[i].Get(peer), if incoming then CallIn else CallOut)
    {
      hide Has;
      if peer >= AJ_NAME_MAP_GUID_SIZE {
        return NoAccess;
      }
      var i := FindMember(id);
      if i == |members| {
        return NoAccess;
      }
      var acc := if rows[i].deny[peer] then 0 else rows[i].allow[peer];
      HasZero(Policy(CallIn));
      HasZero(Policy(CallOut));
      v := if incoming then if Has(acc, 0x01) && Has(acc, 0x10) then Access else NoAccess
           else if Has(acc, 0x02) && Has(acc, 0x20) then Access else NoAccess;
    }

    /** AJ_AccessControlCheckProperty. */
    method CheckProperty(id: nat, peer: nat, op: PropertyOp, incoming: bool) returns (v: Verdict)
      requires Valid()
      ensures v == Access <==>
        peer < AJ_NAME_MAP_GUID_SIZE &&
        exists i: nat :: IsEntry(i, id)
                    && Allowed(rows[i].Get(peer), if op == PropSet then if incoming then SetIn else SetOut
                                                else if incoming then CallIn else CallOut)
    {
      hide Has;
      if peer >= AJ_NAME_MAP_GUID_SIZE {
        return NoAccess;
      }
      var i := FindMember(id);
      if i == |members| {
        return NoAccess;
      }
      var acc := if rows[i].deny[peer] then 0 else rows[i].allow[peer];
      var writes := op == PropSet;
      var low: bv8, high: bv8 := if incoming then if writes then 0x04 else 0x01 else if writes then 0x08 else 0x02,
                            if incoming then if writes then 0x40 else 0x10 else if writes then 0x80 else 0x20;
      HasZero(low);
      v := if Has(acc, low) && Has(acc, high) then Access else NoAccess;
    }
  }
}
