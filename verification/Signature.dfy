/**
 Signatures of members. An interface description spells a member and its arguments in one string; the signature of a
 call or of a signal is composed from it, and the signature of a message that arrives is checked against it by a second
 walk over the same string. Composing is proved to select the argument types of one direction, and the check to agree
 with it under exact conditions.
 */
module Signature {
  import opened Options

  // An interface description: the interface name with its security specifier, then one string per member.
  type Interface = s: seq<string> | |s| > 0 witness [""]

  // The interface name is marked as secure or as never secure.
  predicate Flagged(name: string) { name != "" && (name[0] == '$' || name[0] == '#') }

  // The interface name without its security specifier.
  function InterfaceName(name: string): string { if Flagged(name) then name[1..] else name }

  // MEMBER_TYPE of the first character of a member: 0 for '!', 1 for '?', 2 for '@'.
  function MemberType(c: char): int { c as int / 16 - 2 }

  const IN_ARG := '<'
  const OUT_ARG := '>'

  /* ---- The strings ---- */

  // What follows the first `c`, empty if there is none.
  function After(s: string, c: char): (r: string)
    ensures |r| <= |s| && (s != "" ==> |r| < |s|)
  { if s == "" then "" else if s[0] == c then s[1..] else After(s[1..], c) }

  // The part in front of the first `c`, everything if there is none.
  function Upto(s: string, c: char): (r: string)
    ensures r <= s && c !in r
    ensures |r| < |s| ==> s[|r|] == c
  { if s == "" || s[0] == c then "" else [s[0]] + Upto(s[1..], c) }

  // The rest, from the first `c` on.
  function From(s: string, c: char): string { s[|Upto(s, c)|..] }

  function Compose(encoding: string, direction: char): string
    decreases |encoding|
  {
    if encoding == "" then ""
    else
      var arg := After(encoding, direction);
      Upto(arg, ' ') + Compose(From(arg, ' '), direction)
  }

  function CommonLength(a: string, b: string): (n: nat)
    ensures n <= |a| && n <= |b| && a[..n] == b[..n]
    ensures n < |a| && n < |b| ==> a[n] != b[n]
  { if a == "" || b == "" || a[0] != b[0] then 0 else 1 + CommonLength(a[1..], b[1..]) }

  // The walk of CheckSignature: what is left of the signature is matched against one argument after the other.
  predicate Accepts(encoding: string, sig: string, direction: char)
    decreases |encoding|
  {
    if encoding == "" then sig == ""
    else
      var arg := After(encoding, direction);
      var n := CommonLength(arg, sig);
      (n < |arg| ==> arg[n] == ' ') && Accepts(arg[n..], sig[n..], direction)
  }

  method ComposeSignature(encoding: string, direction: char, len: nat) returns (ok: bool, sig: string)
    requires len > 0
    ensures ok <==> |Compose(encoding, direction)| < len
    ensures ok ==> sig == Compose(encoding, direction)
  {
    hide Compose, Upto, From;
    var e: nat := 0;
    ok, sig := true, "";
    while e < |encoding|
      invariant e <= |encoding| && |sig| < len
      invariant Compose(encoding, direction) == sig + Compose(encoding[e..], direction)
    {
      ComposeUnfolds(encoding[e..], direction);
      e := SkipTo(encoding, e, direction);
      ghost var arg := encoding[e..];
      ghost var start := sig;
      ok, e, sig := CopyArg(encoding, e, sig, len);
      if !ok {
        return;
      }
      Regroup(start, Upto(arg, ' '), Compose(From(arg, ' '), direction));
    }
    ComposeUnfolds(encoding[e..], direction);
  }

  // The loop that copies one argument; it fails when the buffer of `len` bytes has no room for it and a NUL.
  method CopyArg(encoding: string, at: nat, start: string, len: nat) returns (ok: bool, e: nat, sig: string)
    requires at <= |encoding| && |start| < len
    ensures at <= e <= |encoding|
    ensures ok <==> |start + Upto(encoding[at..], ' ')| < len
    ensures ok ==> sig == start + Upto(encoding[at..], ' ') && encoding[e..] == From(encoding[at..], ' ')
  {
    hide Upto;
    ghost var arg := encoding[at..];
    var left := len - |start|;
    e, sig := at, start;
    while e < |encoding| && encoding[e] != ' '
      invariant at <= e <= |encoding| && left == len - |sig| && left > 0 && sig == start + encoding[at..e]
      invariant forall k :: 0 <= k < e - at ==> arg[k] != ' '
    {
      left := left - 1;
      if left == 0 {
        UptoAtLeast(arg, e - at + 1, ' ');
        return false, e, sig;
      }
      sig := sig + [encoding[e]];
      e := e + 1;
    }
    UptoIs(arg, e - at, ' ');
    assert arg[..e - at] == encoding[at..e] && arg[e - at..] == encoding[e..];
    return true, e, sig;
  }

  lemma UptoAtLeast(s: string, n: nat, c: char)
    requires n <= |s| && forall k :: 0 <= k < n ==> s[k] != c
    ensures |Upto(s, c)| >= n
  {
  }

  lemma UptoIs(s: string, n: nat, c: char)
    requires n <= |s| && (forall k :: 0 <= k < n ==> s[k] != c) && (n < |s| ==> s[n] == c)
    ensures Upto(s, c) == s[..n]
  {
    hide Upto;
    UptoAtLeast(s, n, c);
    var r := Upto(s, c);
    assert forall k :: 0 <= k < |r| ==> r[k] == s[k] != c;
  }

  lemma Regroup(a: string, b: string, c: string)
    ensures a + (b + c) == (a + b) + c
  {
  }

  // The loop that skips past the next direction character, shared by both walks.
  method SkipTo(encoding: string, at: nat, direction: char) returns (e: nat)
    requires at < |encoding|
    ensures at < e <= |encoding| && encoding[e..] == After(encoding[at..], direction)
  {
    var found := false;
    e := at;
    while e < |encoding| && !found
      invariant at <= e <= |encoding| && (found ==> at < e)
      invariant After(encoding[at..], direction) == if found then encoding[e..] else After(encoding[e..], direction)
      decreases |encoding| - e
    {
      found := encoding[e] == direction;
      e := e + 1;
    }
  }

  method CheckSignature(encoding: string, sig: string, direction: char) returns (ok: bool)
    ensures ok <==> (sig != "" && sig[0] == '*') || Accepts(encoding, sig, direction)
  {
    hide CommonLength, Accepts, After;
    if sig != "" && sig[0] == '*' {
      return true;
    }
    var e: nat, s: nat := 0, 0;
    while e < |encoding|
      invariant e <= |encoding| && s <= |sig|
      invariant Accepts(encoding, sig, direction) == Accepts(encoding[e..], sig[s..], direction)
    {
      AcceptsUnfolds(encoding[e..], sig[s..], direction);
      e := SkipTo(encoding, e, direction);
      e, s := MatchArg(encoding, e, sig, s);
      if e < |encoding| && encoding[e] != ' ' {
        return false;
      }
    }
    AcceptsUnfolds(encoding[e..], sig[s..], direction);
    return s == |sig|;
  }

  // The loop that matches one argument against the signature.
  method MatchArg(encoding: string, e: nat, sig: string, s: nat) returns (e': nat, s': nat)
    requires e <= |encoding| && s <= |sig|
    ensures var n := CommonLength(encoding[e..], sig[s..]);
            e' == e + n && s' == s + n && encoding[e'..] == encoding[e..][n..] && sig[s'..] == sig[s..][n..]
  {
    hide CommonLength;
    ghost var n := 0;
    e', s' := e, s;
    while e' < |encoding| && s' < |sig| && sig[s'] == encoding[e']
      invariant e' == e + n <= |encoding| && s' == s + n <= |sig|
      invariant forall k :: 0 <= k < n ==> encoding[e..][k] == sig[s..][k]
    {
      e', s', n := e' + 1, s' + 1, n + 1;
    }
    CommonIs(encoding[e..], sig[s..], n);
  }

  lemma CommonIs(a: string, b: string, n: nat)
    requires n <= |a| && n <= |b| && forall k :: 0 <= k < n ==> a[k] == b[k]
    requires n < |a| && n < |b| ==> a[n] != b[n]
    ensures CommonLength(a, b) == n
  {
    hide CommonLength;
    var m := CommonLength(a, b);
    assert forall k :: 0 <= k < m ==> a[k] == a[..m][k] == b[k];
  }

  lemma AcceptsUnfolds(encoding: string, sig: string, direction: char)
    ensures Accepts(encoding, sig, direction) <==>
            if encoding == "" then sig == ""
            else
              var arg := After(encoding, direction);
              var n := CommonLength(arg, sig);
              (n < |arg| ==> arg[n] == ' ') && Accepts(arg[n..], sig[n..], direction)
  {
  }

  lemma ComposeUnfolds(s: string, d: char)
    ensures Compose(s, d) == if s == "" then "" else Upto(After(s, d), ' ') + Compose(From(After(s, d), ' '), d)
  {
  }

  /** The check accepts a signature without spaces if and only if it is the composed one. */
  lemma {:induction false} AcceptsIffComposed(encoding: string, sig: string, direction: char)
    requires ' ' !in sig
    ensures Accepts(encoding, sig, direction) <==> sig == Compose(encoding, direction)
    decreases |encoding|
  {
    if encoding != "" {
      var arg := After(encoding, direction);
      var n, head := CommonLength(arg, sig), Upto(arg, ' ');
      assert n <= |head| by {
        assert forall k :: 0 <= k < n ==> arg[k] == arg[..n][k] == sig[k];
      }
      if n == |head| {
        assert sig == head + sig[n..];
        AcceptsIffComposed(arg[n..], sig[n..], direction);
      } else if n < |head| && n < |sig| {
        assert arg[n] == head[n] != sig[n];
      }
    }
  }

  lemma {:induction false} ComposedHasNoSpace(s: string, d: char)
    ensures ' ' !in Compose(s, d)
    decreases |s|
  {
    if s != "" {
      ComposedHasNoSpace(From(After(s, d), ' '), d);
    }
  }

  /**
   On all signatures: the composed one is the only one that is accepted if and only if no argument follows the first one
   of that direction. Otherwise the rest of the member string, spaces included, is accepted as well.
   */
  lemma OnlyComposedAcceptedExactly(encoding: string, direction: char)
    ensures (forall sig :: Accepts(encoding, sig, direction) <==> sig == Compose(encoding, direction))
            <==> ' ' !in After(encoding, direction)
  {
    var arg := After(encoding, direction);
    if ' ' in arg {
      AcceptsRest(encoding, direction);
      ComposedHasNoSpace(encoding, direction);
      hide Accepts, Compose;
      assert Accepts(encoding, arg, direction) && arg != Compose(encoding, direction);
    } else {
      forall sig
        ensures Accepts(encoding, sig, direction) <==> sig == Compose(encoding, direction)
      {
        OneArgument(encoding, sig, direction);
      }
    }
  }

  lemma AcceptsRest(encoding: string, direction: char)
    ensures Accepts(encoding, After(encoding, direction), direction)
  {
    var arg := After(encoding, direction);
    hide After, CommonLength;
    CommonIs(arg, arg, |arg|);
    assert arg[|arg|..] == "";
  }

  lemma OneArgument(encoding: string, sig: string, direction: char)
    requires ' ' !in After(encoding, direction)
    ensures Accepts(encoding, sig, direction) <==> sig == Compose(encoding, direction)
  {
    var arg := After(encoding, direction);
    var n := CommonLength(arg, sig);
    UptoIs(arg, |arg|, ' ');
    AcceptsUnfolds(encoding, sig, direction);
    AcceptsUnfolds(arg[|arg|..], sig[n..], direction);
    hide Accepts, After, CommonLength, Upto;
    if encoding != "" {
      assert Compose(encoding, direction) == arg + "" == arg;
      if n == |arg| {
        assert sig == arg + sig[n..];
      }
    }
  }

  /** A method of the standard objects is affected: AJ_PropertiesIface's Get accepts its own spelling. */
  lemma AcceptsMoreWithSpaces()
    ensures Accepts("?Get <s <s >v", "s <s >v", IN_ARG) && Compose("?Get <s <s >v", IN_ARG) == "ss"
  {
    hide Accepts, Compose;
    GetComposes();
    assert "?Get <s <s >v" == "?Get " + "<s <s >v" && "<s <s >v"[1..] == "s <s >v";
    AfterPlain("?Get ", "<s <s >v", IN_ARG);
    AcceptsRest("?Get <s <s >v", IN_ARG);
  }

  lemma GetComposes()
    ensures Compose("?Get <s <s >v", IN_ARG) == "ss"
  {
    hide Compose;
    ComposeTakes("?Get ", "s", " <s >v", IN_ARG);
    assert "?Get <s <s >v" == "?Get " + "<" + "s" + " <s >v";
    RestComposes();
  }

  lemma RestComposes()
    ensures Compose(" <s >v", IN_ARG) == "s"
  {
    hide Compose;
    ComposeTakes(" ", "s", " >v", IN_ARG);
    assert " <s >v" == " " + "<" + "s" + " >v";
    ComposeSkips(" >v", "", IN_ARG);
    assert " >v" == " >v" + "";
    ComposeUnfolds("", IN_ARG);
  }

  lemma {:induction false} AfterPlain(p: string, s: string, c: char)
    requires c !in p
    ensures After(p + s, c) == After(s, c)
  {
    if p == "" {
      assert p + s == s;
    } else {
      AfterPlain(p[1..], s, c);
      assert (p + s)[1..] == p[1..] + s;
    }
  }

  lemma {:induction false} UptoPlain(p: string, s: string, c: char)
    requires c !in p && (s == "" || s[0] == c)
    ensures Upto(p + s, c) == p && From(p + s, c) == s
  {
    if p == "" {
      assert p + s == s;
    } else {
      UptoPlain(p[1..], s, c);
      assert (p + s)[1..] == p[1..] + s;
    }
  }

  /* ---- What the strings stand for ---- */

  datatype Arg = Arg(name: string, direction: char, kind: string)

  // No space and none of the characters that mark a direction or an access right.
  predicate Plain(s: string) { ' ' !in s && '<' !in s && '=' !in s && '>' !in s }

  predicate ArgOk(arg: Arg) {
    Plain(arg.name) && Plain(arg.kind) && (arg.direction == IN_ARG || arg.direction == OUT_ARG)
  }

  function EncodeArgs(args: seq<Arg>): string {
    if args == [] then "" else " " + args[0].name + [args[0].direction] + args[0].kind + EncodeArgs(args[1..])
  }

  // The types of the arguments of one direction, in order.
  function Types(args: seq<Arg>, direction: char): string {
    if args == [] then ""
    else (if args[0].direction == direction then args[0].kind else "") + Types(args[1..], direction)
  }

  /** The composed signature is the concatenation of the types of the arguments of that direction. */
  lemma {:induction false} ComposeSelectsTypes(name: string, args: seq<Arg>, direction: char)
    requires Plain(name) && (forall a :: a in args ==> ArgOk(a)) && (direction == IN_ARG || direction == OUT_ARG)
    ensures Compose(name + EncodeArgs(args), direction) == Types(args, direction)
    decreases |args|
  {
    var s := EncodeArgs(args);
    ComposeSkips(name, s, direction);
    if args != [] {
      hide Compose;
      var arg, rest := args[0], EncodeArgs(args[1..]);
      assert arg in args && ArgOk(arg);
      ComposeSelectsTypes("", args[1..], direction);
      assert "" + rest == rest;
      if arg.direction == direction {
        assert s == (" " + arg.name) + [direction] + arg.kind + rest;
        ComposeTakes(" " + arg.name, arg.kind, rest, direction);
      } else {
        var lead := " " + arg.name + [arg.direction] + arg.kind;
        assert s == lead + rest;
        ComposeSkips(lead, rest, direction);
      }
    }
  }

  lemma ComposeSkips(p: string, s: string, direction: char)
    requires direction !in p
    ensures Compose(p + s, direction) == Compose(s, direction)
  {
    AfterPlain(p, s, direction);
    if s == "" {
      assert p + s == p;
      assert From("", ' ') == "";
    }
  }

  lemma ComposeTakes(p: string, kind: string, s: string, direction: char)
    requires direction !in p && ' ' !in kind && (s == "" || s[0] == ' ')
    ensures Compose(p + [direction] + kind + s, direction) == kind + Compose(s, direction)
  {
    var rest := [direction] + (kind + s);
    assert p + [direction] + kind + s == p + rest && rest[1..] == kind + s;
    AfterPlain(p, rest, direction);
    UptoPlain(kind, s, ' ');
  }

  /* ---- Interface descriptions as data, and their strings ---- */

  datatype MemberDef =
    | MethodDef(name: string, args: seq<Arg>)
    | SignalDef(name: string, sessionless: bool, args: seq<Arg>)
    | PropertyDef(name: string, access: char, kind: string)

  // An interface, with its security specifier if it has one.
  datatype InterfaceDef = InterfaceDef(flag: Option<char>, name: string, members: seq<MemberDef>)

  predicate ArgDefOk(arg: Arg) { ArgOk(arg) && arg.kind != "" }

  predicate MemberOk(d: MemberDef) {
    && Plain(d.name) && d.name != ""
    && match d
       case MethodDef(_, args) => forall a :: a in args ==> ArgDefOk(a)
       case SignalDef(name, _, args) => name[0] != '&' && forall a :: a in args ==> ArgDefOk(a)
       case PropertyDef(_, access, kind) => access in "<=>" && Plain(kind) && kind != ""
  }

  predicate InterfaceOk(d: InterfaceDef) {
    && (if d.flag.Some? then d.flag.value in "$#" else d.name == "" || d.name[0] !in "$#")
    && forall m :: m in d.members ==> MemberOk(m)
  }

  function EncodeMember(d: MemberDef): string {
    match d
    case MethodDef(name, args) => "?" + (name + EncodeArgs(args))
    case SignalDef(name, sessionless, args) => (if sessionless then "!&" else "!") + (name + EncodeArgs(args))
    case PropertyDef(name, access, kind) => "@" + (name + ([access] + kind))
  }

  function EncodeMembers(ds: seq<MemberDef>): seq<string> {
    if ds == [] then [] else [EncodeMember(ds[0])] + EncodeMembers(ds[1..])
  }

  function SpelledName(d: InterfaceDef): string { if d.flag.Some? then [d.flag.value] + d.name else d.name }

  function EncodeInterface(d: InterfaceDef): Interface { [SpelledName(d)] + EncodeMembers(d.members) }

  function EncodeInterfaces(ds: seq<InterfaceDef>): seq<Interface> {
    if ds == [] then [] else [EncodeInterface(ds[0])] + EncodeInterfaces(ds[1..])
  }

  lemma {:induction false} EncodedMemberAt(ds: seq<MemberDef>, k: nat)
    ensures |EncodeMembers(ds)| == |ds| && (k < |ds| ==> EncodeMembers(ds)[k] == EncodeMember(ds[k]))
    decreases |ds|
  {
    if ds != [] {
      EncodedMemberAt(ds[1..], if k == 0 then 0 else k - 1);
    }
  }

  lemma {:induction false} EncodedInterfaceAt(ds: seq<InterfaceDef>, k: nat)
    ensures |EncodeInterfaces(ds)| == |ds| && (k < |ds| ==> EncodeInterfaces(ds)[k] == EncodeInterface(ds[k]))
    decreases |ds|
  {
    if ds != [] {
      EncodedInterfaceAt(ds[1..], if k == 0 then 0 else k - 1);
    }
  }

  lemma NameOfSpelled(d: InterfaceDef)
    requires InterfaceOk(d)
    ensures InterfaceName(SpelledName(d)) == d.name
  {
  }
}
