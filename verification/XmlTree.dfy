/**
 The meaning of the introspection text. Interface descriptions are written down as data, spelled as member strings, and
 also turned into a tree of XML elements. Expanding the strings is proved to give exactly the serialised tree, so that
 every tag that is opened is closed in its place; and a node lists each child below it once.
 */
module XmlTree {
  import opened Options
  import opened Signature
  import opened XmlSpec

  /* ---- Elements ---- */

  datatype Element =
    | Element(indent: nat, tag: string, attrs: seq<(string, string)>, children: seq<Element>, empty: bool)
    | Description(level: nat, lang: Option<string>, text: string)

  function Attrs(t: string, attrs: seq<(string, string)>): string
    decreases |attrs|
  {
    if attrs == [] then t else Attrs(t + Lead(attrs[0].0) + attrs[0].1 + "\"", attrs[1..])
  }

  // The text after an element has been appended: one without content is a single tag, any other has an end tag.
  function Serialise(t: string, e: Element): string
    decreases e
  {
    match e
    case Element(indent, tag, attrs, children, empty) =>
      var start := Attrs(t + Open(indent, tag), attrs);
      if empty then start + "/>\n" else SerialiseAll(start + ">\n", children) + Close(indent, tag)
    case Description(level, lang, text) => Described(t, level, Some(text), lang)
  }

  function SerialiseAll(t: string, es: seq<Element>): string
    decreases es
  {
    if es == [] then t else SerialiseAll(Serialise(t, es[0]), es[1..])
  }

  /* ---- Their elements ---- */

  function About(level: nat, description: Option<string>, lang: Option<string>): seq<Element> {
    if description.None? then [] else [Description(level, lang, description.value)]
  }

  function ArgTree(arg: Arg, isMethod: bool, description: Option<string>, lang: Option<string>): Element {
    var name := if arg.name == "" then [] else [("name", arg.name)];
    var direction := if isMethod then [("direction", if arg.direction == '<' then "in" else "out")] else [];
    Element(4, "arg", name + [("type", arg.kind)] + direction, About(2, description, lang), description.None?)
  }

  function ArgTrees(args: seq<Arg>, isMethod: bool, env: Env, i: nat, m: nat, a: nat): seq<Element> {
    if args == [] then []
    else [ArgTree(args[0], isMethod, env.lookup(i, m, (a + 1) % 0x100), env.lang)]
         + ArgTrees(args[1..], isMethod, env, i, m, a + 1)
  }

  function MemberTree(d: MemberDef, env: Env, i: nat, m: nat): Element {
    var description := env.lookup(i, m, 0);
    var about := About(1, description, env.lang);
    match d
    case MethodDef(name, args) => Element(2, "method", [("name", name)],
            ArgTrees(args, true, env, i, m, 0) + about, false)
    case SignalDef(name, sessionless, args) =>
      var mark := if env.lang.Some? then [("sessionless", if sessionless then "true" else "false")] else [];
      Element(2, "signal", [("name", name)] + mark, ArgTrees(args, false, env, i, m, 0) + about, false)
    case PropertyDef(name, access, kind) =>
      var right := if access == '<' then "write" else if access == '=' then "readwrite" else "read";
      Element(2, "property", [("name", name), ("type", kind), ("access", right)], about, description.None?)
  }

  function MemberTrees(ds: seq<MemberDef>, env: Env, i: nat, m: nat): seq<Element> {
    if ds == [] then [] else [MemberTree(ds[0], env, i, (m + 1) % 0x100)] + MemberTrees(ds[1..], env, i, m + 1)
  }

  function Annotation(value: string): Element {
    Element(2, "annotation", [("name", "org.alljoyn.Bus.Secure"), ("value", value)], [], true)
  }

  // The interfaces of the bus itself, which get no annotation.
  predicate Standard(d: InterfaceDef) {
    && d.flag == Some('#')
    && (|| d.name == "org.freedesktop.DBus.Introspectable" || d.name == "org.freedesktop.DBus.Properties"
        || d.name == "org.freedesktop.DBus.Peer" || d.name == "org.allseen.Introspectable")
  }

  lemma StandardMeans(d: InterfaceDef)
    requires d.flag.Some?
    ensures SpelledName(d) in STANDARD <==> Standard(d)
  {
    hide SpelledName;
    SpelledIs(d, "org.freedesktop.DBus.Introspectable");
    SpelledIs(d, "org.freedesktop.DBus.Properties");
    SpelledIs(d, "org.freedesktop.DBus.Peer");
    SpelledIs(d, "org.allseen.Introspectable");
  }

  lemma SpelledIs(d: InterfaceDef, name: string)
    requires d.flag.Some?
    ensures SpelledName(d) == "#" + name <==> d.flag == Some('#') && d.name == name
  {
    assert SpelledName(d)[0] == d.flag.value && SpelledName(d)[1..] == d.name && ("#" + name)[1..] == name;
  }

  function InterfaceTree(d: InterfaceDef, env: Env, i: nat): Element {
    var annotation :=
      if d.flag.None? || Standard(d) then []
      else [Annotation(if d.flag.value == '$' then "true" else "off")];
    Element(0, "interface", [("name", d.name)],
            annotation + About(0, env.lookup(i, 0, 0), env.lang) + MemberTrees(d.members, env, i, 0), false)
  }

  function InterfaceTrees(ds: seq<InterfaceDef>, env: Env, i: nat): seq<Element> {
    if ds == [] then [] else [InterfaceTree(ds[0], env, (i + 1) % 0x100)] + InterfaceTrees(ds[1..], env, i + 1)
  }

  /* ---- Expanding the strings writes the elements ---- */

  lemma WordOf(w: string, s: string)
    requires Plain(w) && (s == "" || IsDelimiter(s[0]))
    ensures Word(w + s) == w && Next(w + s) == (if s == "" then '\0' else s[0])
    ensures Rest(w + s) == (if s == "" then "" else s[1..])
  {
    hide Word;
    forall k | 0 <= k < |w|
      ensures !IsDelimiter((w + s)[k])
    {
      assert w[k] in w;
    }
    WordIs(w + s, |w|);
  }

  lemma {:induction false} AllOfConcat(t: string, a: seq<Element>, b: seq<Element>)
    ensures SerialiseAll(t, a + b) == SerialiseAll(SerialiseAll(t, a), b)
    decreases |a|
  {
    if a == [] {
      assert a + b == b;
    } else {
      AllOfConcat(Serialise(t, a[0]), a[1..], b);
      assert (a + b)[1..] == a[1..] + b;
    }
  }

  lemma AboutIs(t: string, level: nat, description: Option<string>, lang: Option<string>)
    ensures SerialiseAll(t, About(level, description, lang)) == Described(t, level, description, lang)
  {
    if description.Some? {
      assert SerialiseAll(Serialise(t, Description(level, lang, description.value)), [])
         == Serialise(t, Description(level, lang, description.value));
    }
  }

  lemma {:induction false} AttrsOfConcat(t: string, a: seq<(string, string)>, b: seq<(string, string)>)
    ensures Attrs(t, a + b) == Attrs(Attrs(t, a), b)
    decreases |a|
  {
    if a == [] {
      assert a + b == b;
    } else {
      AttrsOfConcat(t + Lead(a[0].0) + a[0].1 + "\"", a[1..], b);
      assert (a + b)[1..] == a[1..] + b;
    }
  }

  lemma OneAttr(t: string, name: string, value: string)
    ensures Attrs(t, [(name, value)]) == t + Lead(name) + value + "\""
  {
    hide Lead;
    var end := t + Lead(name) + value + "\"";
    assert Attrs(end, []) == end;
  }

  lemma AllStep(t: string, e: Element, es: seq<Element>)
    ensures SerialiseAll(t, [e] + es) == SerialiseAll(Serialise(t, e), es)
  {
    hide Serialise;
    assert ([e] + es)[1..] == es;
  }

  lemma OneElement(t: string, e: Element)
    ensures SerialiseAll(t, [e]) == Serialise(t, e)
  {
    hide Serialise;
    assert SerialiseAll(Serialise(t, e), []) == Serialise(t, e);
  }

  // The quote that ends the type is followed by the direction and the end of the tag.
  lemma DirectionIs(x: string, isMethod: bool, direction: char, described: bool)
    ensures x + DirectionText(if isMethod then 1 else 0, direction, described) ==
            Attrs(x + "\"", if isMethod then [("direction", if direction == '<' then "in" else "out")] else [])
            + if described then ">\n" else "/>\n"
  {
    var way, end := if direction == '<' then "in" else "out", if described then ">\n" else "/>\n";
    OneAttr(x + "\"", "direction", way);
    hide Lead;
    if isMethod {
      Regroup5(x, "\"", Lead("direction"), way, "\"", end);
    } else {
      Regroup(x, "\"", end);
    }
  }

  lemma Regroup5(x: string, a: string, b: string, c: string, d: string, e: string)
    ensures x + (a + b + c + d + e) == x + a + b + c + d + e
  {
    Regroup(x, a + b + c + d, e);
    Regroup(x, a + b + c, d);
    Regroup(x, a + b, c);
    Regroup(x, a, b);
  }

  // What is left behind the name or the last type: the delimiter and the arguments after it.
  function Delimiter(s: string): char { if s == "" then '\0' else s[0] }

  function Tail(s: string): string { if s == "" then "" else s[1..] }

  // One argument: its name if it has one, its type and its direction.
  lemma ArgIsTree(t: string, arg: Arg, isMethod: bool, description: Option<string>, lang: Option<string>)
    requires ArgDefOk(arg)
    ensures var open := t + Open(4, "arg");
            var named := if arg.name == "" then open else open + Lead("name") + arg.name + "\"";
            var done := named + Lead("type") + arg.kind
                + DirectionText(if isMethod then 1 else 0, arg.direction, description.Some?);
            Serialise(t, ArgTree(arg, isMethod, description, lang)) ==
            if description.Some? then Described(done, 2, description, lang) + Close(4, "arg") else done
  {
    hide Lead, Open, Close, DirectionText, Described;
    var open := t + Open(4, "arg");
    var name := if arg.name == "" then [] else [("name", arg.name)];
    var direction := if isMethod then [("direction", if arg.direction == '<' then "in" else "out")] else [];
    var named := Attrs(open, name);
    AttrsOfConcat(open, name + [("type", arg.kind)], direction);
    AttrsOfConcat(open, name, [("type", arg.kind)]);
    OneAttr(open, "name", arg.name);
    OneAttr(named, "type", arg.kind);
    DirectionIs(named + Lead("type") + arg.kind, isMethod, arg.direction, description.Some?);
    hide Attrs;
    AboutIs(Attrs(open, name + [("type", arg.kind)] + direction) + ">\n", 2, description, lang);
  }

  lemma {:induction false} ArgsAreTrees(t: string, args: seq<Arg>, isMethod: bool, env: Env, i: nat, m: nat, a: nat)
    requires forall g :: g in args ==> ArgDefOk(g)
    ensures var s := EncodeArgs(args);
            Args(t, Tail(s), Delimiter(s), if isMethod then 1 else 0, env, i, m, a) ==
            Out(SerialiseAll(t, ArgTrees(args, isMethod, env, i, m, a)), true)
    decreases |args|
  {
    if args != [] {
      hide Args, Serialise, ArgTree;
      var arg := args[0];
      assert arg in args && ArgDefOk(arg);
      var tree := ArgTree(arg, isMethod, env.lookup(i, m, (a + 1) % 0x100), env.lang);
      EncodedArg(args);
      ArgsStep(t, arg, EncodeArgs(args[1..]), isMethod, env, i, m, a);
      ArgsAreTrees(Serialise(t, tree), args[1..], isMethod, env, i, m, a + 1);
      AllStep(t, tree, ArgTrees(args[1..], isMethod, env, i, m, a + 1));
    }
  }

  lemma EncodedArg(args: seq<Arg>)
    requires args != []
    ensures var s, rest := EncodeArgs(args), EncodeArgs(args[1..]);
            && Delimiter(s) == ' ' && Tail(s) == args[0].name + ([args[0].direction] + (args[0].kind + rest))
            && (rest == "" || rest[0] == ' ')
  {
    var arg, rest := args[0], EncodeArgs(args[1..]);
    Regroup4(" ", arg.name, [arg.direction], arg.kind, rest);
  }

  lemma Regroup4(a: string, b: string, c: string, d: string, e: string)
    ensures a + b + c + d + e == a + (b + (c + (d + e)))
  {
    Regroup(c, d, e);
    Regroup(b, c + d, e);
    Regroup(b, c, d);
    Regroup(a, b + c + d, e);
    Regroup(a, b + c, d);
    Regroup(a, b, c);
  }

  // One round of the loop over the arguments.
  lemma ArgsStep(t: string, arg: Arg, rest: string, isMethod: bool, env: Env, i: nat, m: nat, a: nat)
    requires ArgDefOk(arg) && (rest == "" || rest[0] == ' ')
    ensures var kind := if isMethod then 1 else 0;
            var description := env.lookup(i, m, (a + 1) % 0x100);
            Args(t, arg.name + ([arg.direction] + (arg.kind + rest)), ' ', kind, env, i, m, a) ==
            Args(Serialise(t, ArgTree(arg, isMethod, description, env.lang)), Tail(rest), Delimiter(rest),
                 kind, env, i, m, a + 1)
  {
    hide OneArg, Serialise, ArgTree;
    OneArgIsTree(t, arg, rest, isMethod, env.lookup(i, m, (a + 1) % 0x100), env.lang);
  }

  lemma OneArgIsTree(t: string, arg: Arg, rest: string, isMethod: bool, description: Option<string>,
                     lang: Option<string>)
    requires ArgDefOk(arg) && (rest == "" || rest[0] == ' ')
    ensures OneArg(t, arg.name + ([arg.direction] + (arg.kind + rest)), if isMethod then 1 else 0, description, lang) ==
            ArgOut(Serialise(t, ArgTree(arg, isMethod, description, lang)), Tail(rest), Delimiter(rest), true)
  {
    hide Lead, Open, Close, DirectionText, Described, Serialise, ArgTree, Word;
    var behind := [arg.direction] + (arg.kind + rest);
    var s := arg.name + behind;
    ArgIsTree(t, arg, isMethod, description, lang);
    WordOf(arg.name, behind);
    WordOf(arg.kind, rest);
    assert behind[1..] == arg.kind + rest;
    if arg.name == "" {
      assert s == behind;
    }
  }

  // The member strings start with a character of their kind.
  lemma KindOfEncoded()
    ensures MemberType('!') == 0 && MemberType('?') == 1 && MemberType('@') == 2
  {
  }

  // The name of a method or signal, and where it leaves the arguments.
  lemma NameOfEncoded(name: string, args: seq<Arg>)
    requires Plain(name)
    ensures var s := EncodeArgs(args);
            Word(name + s) == name && Next(name + s) == Delimiter(s) && Rest(name + s) == Tail(s)
  {
    if args != [] {
      EncodedArg(args);
    }
    hide EncodeArgs, Word;
    WordOf(name, EncodeArgs(args));
  }

  // The common end of a method or signal: arguments, description, end tag.
  lemma BodyIsTrees(t: string, args: seq<Arg>, isMethod: bool, env: Env, i: nat, m: nat)
    requires forall g :: g in args ==> ArgDefOk(g)
    ensures var s, kind := EncodeArgs(args), if isMethod then 1 else 0;
            var out := Args(t, Tail(s), Delimiter(s), kind, env, i, m, 0);
            && out.ok
            && Closed(out.text, kind, env, i, m) ==
               SerialiseAll(t, ArgTrees(args, isMethod, env, i, m, 0) + About(1, env.lookup(i, m, 0), env.lang))
                 + Close(2, MemberTag(kind))
  {
    hide Args, Serialise, ArgTrees, About, Close;
    ArgsAreTrees(t, args, isMethod, env, i, m, 0);
    var trees, about := ArgTrees(args, isMethod, env, i, m, 0), About(1, env.lookup(i, m, 0), env.lang);
    AllOfConcat(t, trees, about);
    AboutIs(SerialiseAll(t, trees), 1, env.lookup(i, m, 0), env.lang);
  }

  lemma MethodIsTree(t: string, d: MemberDef, env: Env, i: nat, m: nat)
    requires d.MethodDef? && MemberOk(d)
    ensures Member(t, EncodeMember(d), env, i, m) == Out(Serialise(t, MemberTree(d, env, i, m)), true)
  {
    var s := d.name + EncodeArgs(d.args);
    assert EncodeMember(d)[0] == '?' && EncodeMember(d)[1..] == s;
    KindOfEncoded();
    NameOfEncoded(d.name, d.args);
    var open := t + Open(2, "method");
    var full := open + Lead("name") + d.name + "\"";
    OneAttr(open, "name", d.name);
    BodyIsTrees(full + ">\n", d.args, true, env, i, m);
    hide MemberType, Args, Closed, SerialiseAll, ArgTrees, EncodeArgs, EncodeMember;
    hide Open, Close, Lead, Word, Rest, Next, Attrs;
  }

  lemma SignalIsTree(t: string, d: MemberDef, env: Env, i: nat, m: nat)
    requires d.SignalDef? && MemberOk(d)
    ensures Member(t, EncodeMember(d), env, i, m) == Out(Serialise(t, MemberTree(d, env, i, m)), true)
  {
    var s, c := d.name + EncodeArgs(d.args), EncodeMember(d);
    assert c[0] == '!' && (d.sessionless <==> |c| > 1 && c[1] == '&');
    assert (if d.sessionless then c[2..] else c[1..]) == s;
    KindOfEncoded();
    NameOfEncoded(d.name, d.args);
    var open := t + Open(2, "signal");
    var named := open + Lead("name") + d.name + "\"";
    var value := if d.sessionless then "true" else "false";
    OneAttr(open, "name", d.name);
    OneAttr(named, "sessionless", value);
    AttrsOfConcat(open, [("name", d.name)], [("sessionless", value)]);
    AttrsOfConcat(open, [("name", d.name)], []);
    var full := if env.lang.Some? then named + Lead("sessionless") + value + "\"" else named;
    Regroup(named + Lead("sessionless"), value, "\"");
    assert value + "\"" == if d.sessionless then "true\"" else "false\"";
    BodyIsTrees(full + ">\n", d.args, false, env, i, m);
    assert Attrs(named, []) == named;
    hide MemberType, Args, Closed, SerialiseAll, ArgTrees, EncodeArgs, EncodeMember;
    hide Open, Close, Lead, Word, Rest, Next, Attrs;
  }

  lemma PropertyIsTree(t: string, d: MemberDef, env: Env, i: nat, m: nat)
    requires d.PropertyDef? && MemberOk(d)
    ensures Member(t, EncodeMember(d), env, i, m) == Out(Serialise(t, MemberTree(d, env, i, m)), true)
  {
    SpelledProperty(d);
    hide MemberType, EncodeMember, Word, Rest, Next, MemberOk, Closed, Serialise, MemberTree, Plain;
    hide Lead, Open, AccessText;
    var name := EncodeMember(d)[1..];
    assert Property(t + Open(2, "property") + Lead("name") + d.name + "\"", Rest(name), Next(name), env, i, m) ==
           Out(Closed(t + Open(2, "property") + Lead("name") + d.name + "\"" + Lead("type") + d.kind
                      + AccessText(d.access), 2, env, i, m), true);
    PropertyCloses(t, d, env, i, m);
  }

  // The words of a property's string.
  lemma SpelledProperty(d: MemberDef)
    requires d.PropertyDef? && MemberOk(d)
    ensures var c := EncodeMember(d);
            && c != "" && MemberType(c[0]) == 2 && Word(c[1..]) == d.name && Next(c[1..]) == d.access
            && Rest(c[1..]) == d.kind && Word(d.kind) == d.kind
    ensures IsDirection(d.access) && d.access != ' ' && d.name != "" && d.kind != ""
  {
    assert EncodeMember(d)[0] == '@' && EncodeMember(d)[1..] == d.name + ([d.access] + d.kind);
    KindOfEncoded();
    hide MemberType, EncodeMember, Word;
    WordOf(d.name, [d.access] + d.kind);
    assert ([d.access] + d.kind)[1..] == d.kind == d.kind + "";
    WordOf(d.kind, "");
  }

  lemma PropertyCloses(t: string, d: MemberDef, env: Env, i: nat, m: nat)
    requires d.PropertyDef?
    ensures var named := t + Open(2, "property") + Lead("name") + d.name + "\"";
            Closed(named + Lead("type") + d.kind + AccessText(d.access), 2, env, i, m)
            == Serialise(t, MemberTree(d, env, i, m))
  {
    var open := t + Open(2, "property");
    var typed := open + Lead("name") + d.name + "\"" + Lead("type") + d.kind;
    var right := if d.access == '<' then "write" else if d.access == '=' then "readwrite" else "read";
    PropertyAttrs(open, d.name, d.kind, right);
    AccessIs(typed, d.access);
    var full := typed + AccessText(d.access);
    hide Open, Close, Lead, Attrs, AccessText, Described;
    AboutIs(full + ">\n", 1, env.lookup(i, m, 0), env.lang);
  }

  lemma AccessIs(x: string, access: char)
    ensures x + AccessText(access) ==
            x + "\"" + Lead("access")
            + (if access == '<' then "write" else if access == '=' then "readwrite" else "read") + "\""
  {
    var right := if access == '<' then "write" else if access == '=' then "readwrite" else "read";
    hide Lead;
    Regroup(x, "\"" + Lead("access") + right, "\"");
    Regroup(x, "\"" + Lead("access"), right);
    Regroup(x, "\"", Lead("access"));
  }

  lemma PropertyAttrs(t: string, name: string, kind: string, right: string)
    ensures Attrs(t, [("name", name), ("type", kind), ("access", right)]) ==
            t + Lead("name") + name + "\"" + Lead("type") + kind + "\"" + Lead("access") + right + "\""
  {
    hide Lead;
    var attrs := [("name", name), ("type", kind), ("access", right)];
    assert attrs == [("name", name), ("type", kind)] + [("access", right)];
    assert [("name", name), ("type", kind)] == [("name", name)] + [("type", kind)];
    AttrsOfConcat(t, [("name", name), ("type", kind)], [("access", right)]);
    AttrsOfConcat(t, [("name", name)], [("type", kind)]);
    OneAttr(t, "name", name);
    var named := Attrs(t, [("name", name)]);
    OneAttr(named, "type", kind);
    OneAttr(Attrs(named, [("type", kind)]), "access", right);
  }

  lemma MemberIsTree(t: string, d: MemberDef, env: Env, i: nat, m: nat)
    requires MemberOk(d)
    ensures Member(t, EncodeMember(d), env, i, m) == Out(Serialise(t, MemberTree(d, env, i, m)), true)
  {
    hide *;
    match d
    case MethodDef(_, _) => MethodIsTree(t, d, env, i, m);
    case SignalDef(_, _, _) => SignalIsTree(t, d, env, i, m);
    case PropertyDef(_, _, _) => PropertyIsTree(t, d, env, i, m);
  }

  lemma {:induction false} MembersAreTrees(t: string, ds: seq<MemberDef>, env: Env, i: nat, m: nat)
    requires forall d :: d in ds ==> MemberOk(d)
    ensures Members(t, EncodeMembers(ds), env, i, m) == Out(SerialiseAll(t, MemberTrees(ds, env, i, m)), true)
    decreases |ds|
  {
    if ds == [] {
      assert MemberTrees(ds, env, i, m) == [];
    } else {
      hide MemberOk, Member, EncodeMember, MemberTree, Serialise, SerialiseAll;
      assert EncodeMembers(ds)[1..] == EncodeMembers(ds[1..]);
      var tree := MemberTree(ds[0], env, i, (m + 1) % 0x100);
      MemberIsTree(t, ds[0], env, i, (m + 1) % 0x100);
      MembersAreTrees(Serialise(t, tree), ds[1..], env, i, m + 1);
      AllStep(t, tree, MemberTrees(ds[1..], env, i, m + 1));
    }
  }

  lemma SecuredIs(t: string, value: string)
    ensures Secured(t, value) == Serialise(t, Annotation(value))
  {
    hide Lead, Open;
    var open, name := t + Open(2, "annotation"), "org.alljoyn.Bus.Secure";
    var named := open + Lead("name") + name + "\"";
    assert [("name", name), ("value", value)] == [("name", name)] + [("value", value)];
    AttrsOfConcat(open, [("name", name)], [("value", value)]);
    OneAttr(open, "name", name);
    OneAttr(named, "value", value);
    hide Attrs;
    Regroup5(t, Open(2, "annotation"), Lead("name"), name, "\"", Lead("value"));
    var lead := named + Lead("value");
    Regroup(lead, value + "\"", "/>\n");
    Regroup(lead, value, "\"");
  }

  lemma InterfaceOpens(t: string, d: InterfaceDef)
    requires InterfaceOk(d)
    ensures var open := t + Open(0, "interface") + Lead("name") + d.name + "\"" + ">\n";
            InterfaceOpen(t, SpelledName(d)) ==
            if d.flag.None? || Standard(d) then open
            else Serialise(open, Annotation(if d.flag.value == '$' then "true" else "off"))
  {
    hide Open, Lead, Secured, Serialise;
    var open := t + Open(0, "interface") + Lead("name") + d.name + "\"" + ">\n";
    SecuredIs(open, "true");
    SecuredIs(open, "off");
    if d.flag.Some? {
      assert ([d.flag.value] + d.name)[1..] == d.name;
      StandardMeans(d);
      hide Standard;
    } else {
      StandardIsFlagged(d.name);
    }
  }

  lemma StandardIsFlagged(name: string)
    ensures name in STANDARD ==> Flagged(name)
  {
  }

  lemma InterfaceIsTree(t: string, d: InterfaceDef, env: Env, i: nat)
    requires InterfaceOk(d)
    ensures var open := Described(InterfaceOpen(t, SpelledName(d)), 0, env.lookup(i, 0, 0), env.lang);
            var members := Members(open, EncodeMembers(d.members), env, i, 0);
            members.ok && members.text + Close(0, "interface") == Serialise(t, InterfaceTree(d, env, i))
  {
    InterfaceOpens(t, d);
    var start := t + Open(0, "interface");
    OneAttr(start, "name", d.name);
    var open := start + Lead("name") + d.name + "\"" + ">\n";
    var annotation :=
      if d.flag.None? || Standard(d) then []
      else [Annotation(if d.flag.value == '$' then "true" else "off")];
    var about, members := About(0, env.lookup(i, 0, 0), env.lang), MemberTrees(d.members, env, i, 0);
    hide InterfaceOpen, SpelledName, Annotation, Described, Members, EncodeMembers;
    hide MemberTrees, About, Attrs, Lead, Open, Close;
    var annotated := SerialiseAll(open, annotation);
    if annotation != [] {
      OneElement(open, annotation[0]);
      assert annotation == [annotation[0]];
    }
    AboutIs(annotated, 0, env.lookup(i, 0, 0), env.lang);
    AllOfConcat(open, annotation, about);
    AllOfConcat(open, annotation + about, members);
    MembersAreTrees(SerialiseAll(annotated, about), d.members, env, i, 0);
    hide MemberOk, SerialiseAll;
  }

  /** Expanding well-formed interface descriptions succeeds and writes their elements. */
  lemma {:induction false} InterfacesAreTrees(t: string, ds: seq<InterfaceDef>, env: Env, i: nat)
    requires forall d :: d in ds ==> InterfaceOk(d)
    ensures Interfaces(t, EncodeInterfaces(ds), env, i) == Out(SerialiseAll(t, InterfaceTrees(ds, env, i)), true)
    decreases |ds|
  {
    if ds != [] {
      hide InterfaceOk, Members, EncodeMembers, InterfaceTree, Serialise, Described, InterfaceOpen, SpelledName, Close;
      var d, index := ds[0], (i + 1) % 0x100;
      var enc := EncodeInterfaces(ds);
      assert enc[1..] == EncodeInterfaces(ds[1..]);
      assert enc[0] == EncodeInterface(d) && enc[0][0] == SpelledName(d) && enc[0][1..] == EncodeMembers(d.members);
      InterfaceIsTree(t, d, env, index);
      InterfacesAreTrees(Serialise(t, InterfaceTree(d, env, index)), ds[1..], env, i + 1);
      AllStep(t, InterfaceTree(d, env, index), InterfaceTrees(ds[1..], env, i + 1));
    }
  }

  /* ---- Child nodes ---- */

  // The names of the child nodes that are written, from object number k on.
  function ChildNames(parent: string, paths: seq<string>, k: nat): seq<string>
    requires k <= |paths|
    decreases |paths| - k
  {
    if k == |paths| then []
    else (if IsFirst(parent, paths, k) then [Child(parent, paths[k]).value] else []) + ChildNames(parent, paths, k + 1)
  }

  // The path leads through, or to, the child of that name.
  predicate Below(parent: string, path: string, name: string) {
    var p := if parent == "/" then "" else parent;
    name != "" && '/' !in name && (path == p + "/" + name || p + "/" + name + "/" <= path)
  }

  lemma UptoMeans(s: string, n: string)
    ensures Upto(s, '/') == n <==> '/' !in n && (s == n || n + "/" <= s)
  {
    hide Upto;
    if '/' !in n && (s == n || n + "/" <= s) {
      assert s[..|n|] == n by {
        assert n + "/" <= s ==> s[..|n|] == (n + "/")[..|n|];
      }
      assert forall k :: 0 <= k < |n| ==> s[k] == n[k] && n[k] in n;
      assert s != n ==> s[|n|] == (n + "/")[|n|];
      UptoIs(s, |n|, '/');
    }
  }

  lemma PrefixCut(l: string, x: string, s: string)
    ensures (l + x == l + s <==> x == s) && (l + x <= l + s <==> x <= s)
  {
    assert (l + x)[|l|..] == x && (l + s)[|l|..] == s;
    if l + x <= l + s {
      assert x == (l + s)[..|l + x|][|l|..] == s[..|x|];
    }
    if x <= s {
      assert (l + s)[..|l + x|] == l + s[..|x|];
    }
  }

  lemma ChildMeans(parent: string, path: string, name: string)
    ensures Child(parent, path) == Some(name) <==> Below(parent, path, name)
  {
    hide Upto;
    var p := if parent == "/" then "" else parent;
    var l := p + "/";
    assert l + name == p + "/" + name;
    Regroup(l, name, "/");
    if l <= path {
      var rest := path[|l|..];
      assert path == l + rest && path[|p|] == l[|p|] == '/' && path[..|p|] == l[..|p|] == p;
      UptoMeans(rest, name);
      PrefixCut(l, name, rest);
      PrefixCut(l, name + "/", rest);
    } else {
      StartsLower(l, name, path);
    }
  }

  lemma StartsLower(l: string, x: string, path: string)
    ensures path == l + x || l + x + "/" <= path ==> l <= path
  {
  }

  /** Each path element that occurs below the node is listed, nothing else is, and none is listed twice. */
  lemma ChildrenOnce(parent: string, paths: seq<string>)
    ensures forall name :: name in ChildNames(parent, paths, 0) <==>
              exists j :: 0 <= j < |paths| && Below(parent, paths[j], name)
    ensures forall x, y :: 0 <= x < y < |ChildNames(parent, paths, 0)| ==>
              ChildNames(parent, paths, 0)[x] != ChildNames(parent, paths, 0)[y]
  {
    ChildrenFrom(parent, paths, 0);
    hide Child, Below;
    var names := ChildNames(parent, paths, 0);
    forall name
      ensures name in names <==> exists j :: 0 <= j < |paths| && Below(parent, paths[j], name)
    {
      forall j | 0 <= j < |paths|
        ensures Child(parent, paths[j]) == Some(name) <==> Below(parent, paths[j], name)
      {
        ChildMeans(parent, paths[j], name);
      }
      if j :| 0 <= j < |paths| && Child(parent, paths[j]) == Some(name) {
        var first := FirstWith(parent, paths, j);
        assert Listed(parent, paths, 0, name);
      }
    }
  }

  lemma {:induction false} FirstWith(parent: string, paths: seq<string>, j: nat) returns (first: nat)
    requires j < |paths| && Child(parent, paths[j]).Some?
    ensures IsFirst(parent, paths, first) && Child(parent, paths[first]) == Child(parent, paths[j])
  {
    if IsFirst(parent, paths, j) {
      return j;
    }
    var earlier: nat :| earlier < j && Child(parent, paths[earlier]) == Child(parent, paths[j]);
    first := FirstWith(parent, paths, earlier);
  }

  ghost predicate Listed(parent: string, paths: seq<string>, k: nat, name: string) {
    exists j: nat :: k <= j && IsFirst(parent, paths, j) && Child(parent, paths[j]) == Some(name)
  }

  lemma ListedStep(parent: string, paths: seq<string>, k: nat, name: string)
    requires k < |paths|
    ensures Listed(parent, paths, k, name) <==>
            (IsFirst(parent, paths, k) && Child(parent, paths[k]) == Some(name)) || Listed(parent, paths, k + 1, name)
    ensures IsFirst(parent, paths, k) && Child(parent, paths[k]) == Some(name) ==> !Listed(parent, paths, k + 1, name)
  {
    hide Child;
  }

  lemma {:induction false} ChildrenFrom(parent: string, paths: seq<string>, k: nat)
    requires k <= |paths|
    ensures forall name :: name in ChildNames(parent, paths, k) <==> Listed(parent, paths, k, name)
    ensures forall x, y :: 0 <= x < y < |ChildNames(parent, paths, k)| ==>
              ChildNames(parent, paths, k)[x] != ChildNames(parent, paths, k)[y]
    decreases |paths| - k
  {
    if k < |paths| {
      hide Child, Listed;
      ChildrenFrom(parent, paths, k + 1);
      forall name
        ensures name in ChildNames(parent, paths, k) <==> Listed(parent, paths, k, name)
      {
        ListedStep(parent, paths, k, name);
      }
      if IsFirst(parent, paths, k) {
        ListedStep(parent, paths, k, Child(parent, paths[k]).value);
      }
    }
  }

  function ChildTree(name: string, description: Option<string>, lang: Option<string>): Element {
    Element(0, "node", [("name", name)], About(0, description, lang), description.None?)
  }

  function ChildTrees(parent: string, paths: seq<string>, k: nat, about: nat -> Option<string>,
                      lang: Option<string>): seq<Element>
    requires k <= |paths|
    decreases |paths| - k
  {
    if k == |paths| then []
    else (if IsFirst(parent, paths, k) then [ChildTree(Child(parent, paths[k]).value, about(k), lang)] else [])
         + ChildTrees(parent, paths, k + 1, about, lang)
  }

  predicate IsNode(e: Element) { e.Element? && e.tag == "node" }

  predicate NamesAre(trees: seq<Element>, names: seq<string>) {
    |trees| == |names| && forall x :: 0 <= x < |trees| ==> IsNode(trees[x]) && trees[x].attrs == [("name", names[x])]
  }

  lemma NamesAreStep(e: Element, trees: seq<Element>, name: string, names: seq<string>)
    requires NamesAre(trees, names) && IsNode(e) && e.attrs == [("name", name)]
    ensures NamesAre([e] + trees, [name] + names)
  {
  }

  /** The child elements carry those names. */
  lemma {:induction false} ChildTreesNamed(parent: string, paths: seq<string>, k: nat, about: nat -> Option<string>,
                                           lang: Option<string>)
    requires k <= |paths|
    ensures NamesAre(ChildTrees(parent, paths, k, about, lang), ChildNames(parent, paths, k))
    decreases |paths| - k
  {
    if k < |paths| {
      hide Child, NamesAre, About;
      var trees, names := ChildTrees(parent, paths, k + 1, about, lang), ChildNames(parent, paths, k + 1);
      ChildTreesNamed(parent, paths, k + 1, about, lang);
      if IsFirst(parent, paths, k) {
        var name := Child(parent, paths[k]).value;
        NamesAreStep(ChildTree(name, about(k), lang), trees, name, names);
      } else {
        assert [] + trees == trees && [] + names == names;
      }
    }
  }

  // The element is that of the child to which paths[j], as the first of the paths, leads, with its description.
  predicate ChildOf(e: Element, parent: string, paths: seq<string>, j: nat, about: nat -> Option<string>,
                    lang: Option<string>)
  {
    && j < |paths| && IsNode(e) && |e.attrs| == 1 && e.attrs[0].0 == "name" && Below(parent, paths[j], e.attrs[0].1)
    && (forall i :: 0 <= i < j ==> !Below(parent, paths[i], e.attrs[0].1))
    && e.children == About(0, about(j), lang)
  }

  lemma ChildOfFirst(parent: string, paths: seq<string>, k: nat, about: nat -> Option<string>, lang: Option<string>)
    requires IsFirst(parent, paths, k)
    ensures ChildOf(ChildTree(Child(parent, paths[k]).value, about(k), lang), parent, paths, k, about, lang)
  {
    var name := Child(parent, paths[k]).value;
    hide Child, Below, About;
    ChildMeans(parent, paths[k], name);
    forall i | 0 <= i < k
      ensures !Below(parent, paths[i], name)
    {
      ChildMeans(parent, paths[i], name);
    }
  }

  ghost predicate IsChild(e: Element, parent: string, paths: seq<string>, about: nat -> Option<string>,
                          lang: Option<string>)
  { exists j: nat :: ChildOf(e, parent, paths, j, about, lang) }

  /** Each child element carries the description of the first object that lies at or below it. */
  lemma {:induction false} ChildrenDescribed(parent: string, paths: seq<string>, k: nat, about: nat -> Option<string>,
                                             lang: Option<string>)
    requires k <= |paths|
    ensures forall e :: e in ChildTrees(parent, paths, k, about, lang) ==> IsChild(e, parent, paths, about, lang)
    decreases |paths| - k
  {
    hide Child, ChildOf, ChildTree;
    if k < |paths| {
      ChildrenDescribed(parent, paths, k + 1, about, lang);
      if IsFirst(parent, paths, k) {
        ChildOfFirst(parent, paths, k, about, lang);
        assert IsChild(ChildTree(Child(parent, paths[k]).value, about(k), lang), parent, paths, about, lang);
      }
    }
  }

  lemma ChildIsTree(t: string, name: string, description: Option<string>, lang: Option<string>)
    ensures ChildText(t, name, description, lang) == Serialise(t, ChildTree(name, description, lang))
  {
    var open := t + Open(0, "node");
    OneAttr(open, "name", name);
    hide Open, Close, Lead, Attrs;
    AboutIs(open + Lead("name") + name + "\"" + ">\n", 0, description, lang);
  }

  lemma {:induction false} ChildrenAreTrees(t: string, parent: string, paths: seq<string>, k: nat,
                                            about: nat -> Option<string>, lang: Option<string>)
    requires k <= |paths|
    ensures Children(t, parent, paths, k, about, lang) == SerialiseAll(t, ChildTrees(parent, paths, k, about, lang))
    decreases |paths| - k
  {
    hide IsFirst, Child, ChildText, ChildTree, Serialise;
    if k < |paths| {
      if IsFirst(parent, paths, k) {
        assert Child(parent, paths[k]).Some? by {
          FirstHasName(parent, paths, k);
        }
        var name := Child(parent, paths[k]).value;
        var tree := ChildTree(name, about(k), lang);
        ChildIsTree(t, name, about(k), lang);
        ChildrenAreTrees(Serialise(t, tree), parent, paths, k + 1, about, lang);
        AllStep(t, tree, ChildTrees(parent, paths, k + 1, about, lang));
      } else {
        ChildrenAreTrees(t, parent, paths, k + 1, about, lang);
        assert ChildTrees(parent, paths, k, about, lang) == ChildTrees(parent, paths, k + 1, about, lang);
      }
    }
  }

  lemma FirstHasName(parent: string, paths: seq<string>, k: nat)
    requires IsFirst(parent, paths, k)
    ensures Child(parent, paths[k]).Some?
  {
  }

  /* ---- The document ---- */

  function NodeTree(path: string, secure: bool, description: Option<string>, ds: seq<InterfaceDef>, env: Env,
                    paths: seq<string>, about: nat -> Option<string>): Element
  {
    var annotation := if secure then [Annotation("true")] else [];
    Element(0, "node", [("name", path)],
            annotation + About(0, description, env.lang) + InterfaceTrees(ds, env, 0)
            + ChildTrees(path, paths, 0, about, env.lang), false)
  }

  // Among the children of an element, exactly one node for each path element below the path.
  ghost predicate ListsChildren(children: seq<Element>, path: string, paths: seq<string>) {
    && (forall x, y :: 0 <= x < y < |children| && IsNode(children[x]) && IsNode(children[y]) ==>
          children[x].attrs != children[y].attrs)
    && (forall x :: 0 <= x < |children| && IsNode(children[x]) ==> exists name :: children[x].attrs == [("name", name)])
    && (forall name :: HasNode(children, name) <==> exists j :: 0 <= j < |paths| && Below(path, paths[j], name))
  }

  predicate HasNode(children: seq<Element>, name: string) {
    exists x :: 0 <= x < |children| && IsNode(children[x]) && children[x].attrs == [("name", name)]
  }

  lemma NodesListed(rest: seq<Element>, trees: seq<Element>, names: seq<string>, path: string, paths: seq<string>)
    requires (forall x :: 0 <= x < |rest| ==> !IsNode(rest[x])) && NamesAre(trees, names)
    requires forall x, y :: 0 <= x < y < |names| ==> names[x] != names[y]
    requires forall name :: name in names <==> exists j :: 0 <= j < |paths| && Below(path, paths[j], name)
    ensures ListsChildren(rest + trees, path, paths)
  {
    hide Below;
    var all := rest + trees;
    forall name
      ensures HasNode(all, name) <==> name in names
    {
      if name in names {
        var x :| 0 <= x < |names| && names[x] == name;
        assert all[|rest| + x] == trees[x];
      }
      if x :| 0 <= x < |all| && IsNode(all[x]) && all[x].attrs == [("name", name)] {
        assert all[x] == trees[x - |rest|] && names[x - |rest|] == name;
      }
    }
    forall x, y | 0 <= x < y < |all| && IsNode(all[x]) && IsNode(all[y])
      ensures all[x].attrs != all[y].attrs
    {
      assert all[x] == trees[x - |rest|] && all[y] == trees[y - |rest|];
      assert names[x - |rest|] != names[y - |rest|];
    }
  }

  lemma {:induction false} NoNodes(ds: seq<InterfaceDef>, env: Env, i: nat)
    ensures forall x :: 0 <= x < |InterfaceTrees(ds, env, i)| ==> !IsNode(InterfaceTrees(ds, env, i)[x])
    decreases |ds|
  {
    if ds != [] {
      hide MemberTrees, About;
      NoNodes(ds[1..], env, i + 1);
      assert "interface"[0] != "node"[0];
    }
  }

  /** The children of the document's element: each path element below the node is listed, nothing else, none twice. */
  lemma DocumentListsChildren(path: string, secure: bool, description: Option<string>, ds: seq<InterfaceDef>, env: Env,
                              paths: seq<string>, about: nat -> Option<string>)
    ensures ListsChildren(NodeTree(path, secure, description, ds, env, paths, about).children, path, paths)
  {
    var annotation := if secure then [Annotation("true")] else [];
    var note, ifaces := About(0, description, env.lang), InterfaceTrees(ds, env, 0);
    var trees, names := ChildTrees(path, paths, 0, about, env.lang), ChildNames(path, paths, 0);
    NoNodes(ds, env, 0);
    assert "annotation"[0] != "node"[0];
    ChildTreesNamed(path, paths, 0, about, env.lang);
    ChildrenOnce(path, paths);
    hide InterfaceTrees, ChildTrees, ChildNames, Below, ListsChildren, NamesAre;
    NodesListed(annotation + note + ifaces, trees, names, path, paths);
  }

  /** The whole document is one node element, with its annotation, interfaces and child nodes properly inside it. */
  lemma DocumentIsTree(t: string, path: string, secure: bool, description: Option<string>, ds: seq<InterfaceDef>,
                       env: Env,
                       paths: seq<string>, about: nat -> Option<string>)
    requires forall d :: d in ds ==> InterfaceOk(d)
    ensures Document(t, Node(path, secure, description, EncodeInterfaces(ds)), env, paths, about) ==
            Out(Serialise(t, NodeTree(path, secure, description, ds, env, paths, about)), true)
    ensures ListsChildren(NodeTree(path, secure, description, ds, env, paths, about).children, path, paths)
  {
    DocumentListsChildren(path, secure, description, ds, env, paths, about);
    hide ListsChildren;
    hide Attrs, Open, Close, Lead, Described, Interfaces, EncodeInterfaces;
    hide InterfaceTrees, Children, ChildTrees, About, Annotation, Secured, InterfaceOk;
    var start := t + Open(0, "node");
    OneAttr(start, "name", path);
    var open := start + Lead("name") + path + "\"" + ">\n";
    var annotation := if secure then [Annotation("true")] else [];
    var note, ifaces, children := About(0, description, env.lang), InterfaceTrees(ds, env, 0),
        ChildTrees(path, paths, 0, about, env.lang);
    var annotated := SerialiseAll(open, annotation);
    SecuredIs(open, "true");
    OneElement(open, Annotation("true"));
    AboutIs(annotated, 0, description, env.lang);
    AllOfConcat(open, annotation, note);
    AllOfConcat(open, annotation + note, ifaces);
    AllOfConcat(open, annotation + note + ifaces, children);
    var described := SerialiseAll(annotated, note);
    InterfacesAreTrees(described, ds, env, 0);
    ChildrenAreTrees(SerialiseAll(described, ifaces), path, paths, 0, about, env.lang);
  }
}
