/**
 What the introspection generator writes, as functions. Each takes the text written so far and gives the text after it,
 in the order of the calls to the writer; Out also says whether the description could be expanded. The constant strings
 of the source are put together from their parts here.
 */
module XmlSpec {
  import opened Options
  import opened Signature

  datatype Out = Out(text: string, ok: bool)

  // The language asked for, and the descriptions by interface, member and argument number; 0 stands for none.
  datatype Env = Env(lang: Option<string>, lookup: (nat, nat, nat) -> Option<string>)

  /* ---- The pieces ---- */

  function Spaces(n: nat): string { seq(n, _ => ' ') }

  function Open(indent: nat, tag: string): string { Spaces(indent) + "<" + tag }

  function Close(indent: nat, tag: string): string { Spaces(indent) + "</" + tag + ">\n" }

  function Lead(name: string): string { " " + name + "=\"" }

  function MemberTag(kind: nat): string { if kind == 0 then "signal" else if kind == 1 then "method" else "property" }

  // The quote that ends the type, the direction attribute, and the end of the tag.
  function DirectionText(kind: nat, direction: char, described: bool): string {
    var end := if described then ">\n" else "/>\n";
    if kind == 0 then "\"" + end else "\"" + Lead("direction") + (if direction == '<' then "in" else "out") + "\"" + end
  }

  function AccessText(access: char): string {
    "\"" + Lead("access") + (if access == '<' then "write" else if access == '=' then "readwrite" else "read") + "\""
  }

  function Secured(t: string, value: string): string { t + AnnotateSecure() + (value + "\"" + "/>\n") }

  function AnnotateSecure(): string {
    Open(2, "annotation") + Lead("name") + "org.alljoyn.Bus.Secure" + "\"" + Lead("value")
  }

  predicate IsDirection(c: char) { '<' <= c <= '>' }

  predicate IsDelimiter(c: char) { IsDirection(c) || c == ' ' }

  // The part in front of the first delimiter, the delimiter ('\0' for none), and the part behind it.
  function Word(s: string): (w: string)
    ensures w <= s && (forall c :: c in w ==> !IsDelimiter(c)) && (|w| < |s| ==> IsDelimiter(s[|w|]))
  { if s == "" || IsDelimiter(s[0]) then "" else [s[0]] + Word(s[1..]) }

  lemma WordIs(s: string, n: nat)
    requires n <= |s| && (forall k :: 0 <= k < n ==> !IsDelimiter(s[k])) && (n < |s| ==> IsDelimiter(s[n]))
    ensures Word(s) == s[..n]
  {
    hide Word, IsDelimiter;
    var w := Word(s);
    assert forall k :: 0 <= k < |w| ==> w[k] in w && w[k] == s[k];
  }

  function Next(s: string): char { if |Word(s)| < |s| then s[|Word(s)|] else '\0' }

  function Rest(s: string): string { if |Word(s)| < |s| then s[|Word(s)| + 1..] else "" }

  /* ---- The generator ---- */

  // ExpandAttribute. A length of 0 asks the writer for the whole string: an empty word writes all that is left.
  function Attribute(t: string, s: string, pre: string, post: string): string {
    t + pre + (if Word(s) == "" then s else Word(s)) + post
  }

  // XMLWriteTag with an attribute and a whole string as its value.
  function Tag(t: string, open: string, value: string, atom: bool): string {
    t + open + Lead("name") + value + "\"" + if atom then "/>\n" else ">\n"
  }

  function Indented(t: string, level: nat): string { if level == 0 then t else Indented(t, level - 1) + "    " }

  function Described(t: string, level: nat, description: Option<string>, lang: Option<string>): string {
    if description.None? then t
    else
      var open := Indented(t, level) + Open(0, "description");
      (if lang.Some? && lang.value != "" then open + Lead("language") + lang.value + "\"" else open)
      + ">" + description.value + Close(0, "description")
  }

  datatype ArgOut = ArgOut(text: string, rest: string, next: char, ok: bool)

  // One argument of a method (kind 1) or signal (kind 0).
  function OneArg(t: string, s: string, kind: nat, description: Option<string>, lang: Option<string>): (r: ArgOut)
    ensures r.ok ==> |r.rest| < |s|
  {
    var named := s == "" || !IsDirection(s[0]);
    var open := if named then Attribute(t + Open(4, "arg"), s, Lead("name"), "\"") else t + Open(4, "arg");
    var direction := if named then Next(s) else s[0];
    var rest := if named then Rest(s) else s[1..];
    if direction != '<' && direction != '>' then ArgOut(open, rest, direction, false)
    else
      var arg := Attribute(open, rest, Lead("type"), DirectionText(kind, direction, description.Some?));
      var done := if description.Some? then Described(arg, 2, description, lang) + Close(4, "arg") else arg;
      ArgOut(done, Rest(rest), Next(rest), true)
  }

  // The arguments; `attr` is the delimiter that was read last.
  function Args(t: string, s: string, attr: char, kind: nat, env: Env, i: nat, m: nat, a: nat): Out
    decreases |s|
  {
    if attr == '\0' then Out(t, true)
    else
      var one := OneArg(t, s, kind, env.lookup(i, m, (a + 1) % 0x100), env.lang);
      if one.ok then Args(one.text, one.rest, one.next, kind, env, i, m, a + 1) else Out(one.text, false)
  }

  // The end of a member's element.
  function Closed(t: string, kind: nat, env: Env, i: nat, m: nat): string {
    var description := env.lookup(i, m, 0);
    if description.None? then t + (if kind == 2 then "/>\n" else Close(2, MemberTag(kind)))
    else Described(if kind == 2 then t + ">\n" else t, 1, description, env.lang) + Close(2, MemberTag(kind))
  }

  function Property(t: string, s: string, attr: char, env: Env, i: nat, m: nat): Out {
    var access := if attr != ' ' then attr else if s != "" then s[0] else '\0';
    var rest := if attr == ' ' && s != "" then s[1..] else s;
    if !IsDirection(access) then Out(t, false)
    else Out(Closed(Attribute(t, rest, Lead("type"), AccessText(access)), 2, env, i, m), true)
  }

  function Member(t: string, s: string, env: Env, i: nat, m: nat): Out {
    if s == "" || MemberType(s[0]) < 0 || MemberType(s[0]) > 2 then Out(t, false)
    else
      var kind := MemberType(s[0]);
      var sessionless := kind == 0 && |s| > 1 && s[1] == '&';
      var name := if sessionless then s[2..] else s[1..];
      var open := Attribute(t + Open(2, MemberTag(kind)), name, Lead("name"), "\"");
      if kind == 2 then Property(open, Rest(name), Next(name), env, i, m)
      else
        var full := if env.lang.Some? && kind == 0
          then open + Lead("sessionless") + (if sessionless then "true\"" else "false\"") else open;
        var args := Args(full + ">\n", Rest(name), Next(name), kind, env, i, m, 0);
        if args.ok then Out(Closed(args.text, kind, env, i, m), true) else args
  }

  function Members(t: string, members: seq<string>, env: Env, i: nat, m: nat): Out
    decreases |members|
  {
    if members == [] then Out(t, true)
    else
      var one := Member(t, members[0], env, i, (m + 1) % 0x100);
      if one.ok then Members(one.text, members[1..], env, i, m + 1) else one
  }

  // The names of the standard interfaces that get no annotation.
  const STANDARD: set<string> := {"#" + "org.freedesktop.DBus.Introspectable", "#" + "org.freedesktop.DBus.Properties",
                                  "#" + "org.freedesktop.DBus.Peer", "#" + "org.allseen.Introspectable"}

  function InterfaceOpen(t: string, name: string): string {
    var open := Tag(t, Open(0, "interface"), InterfaceName(name), false);
    if !Flagged(name) || name in STANDARD then open else Secured(open, if name[0] == '$' then "true" else "off")
  }

  function Interfaces(t: string, ifaces: seq<Interface>, env: Env, i: nat): Out
    decreases |ifaces|
  {
    if ifaces == [] then Out(t, true)
    else
      var index := (i + 1) % 0x100;
      var open := Described(InterfaceOpen(t, ifaces[0][0]), 0, env.lookup(index, 0, 0), env.lang);
      var members := Members(open, ifaces[0][1..], env, index, 0);
      if members.ok then Interfaces(members.text + Close(0, "interface"), ifaces[1..], env, i + 1) else members
  }

  /* ---- Objects ---- */

  // ChildPath: the first path element of `path` below `parent`.
  function Child(parent: string, path: string): Option<string> {
    var p := if parent == "/" then "" else parent;
    if p < path && path[|p|] == '/' && Upto(path[|p| + 1..], '/') != "" then Some(Upto(path[|p| + 1..], '/')) else None
  }

  // The object is the first one below `parent` with its path element.
  predicate IsFirst(parent: string, paths: seq<string>, k: nat) {
    && k < |paths| && Child(parent, paths[k]).Some?
    && forall j :: 0 <= j < k ==> Child(parent, paths[j]) != Child(parent, paths[k])
  }

  // The element of one child node, with its description if it has one.
  function ChildText(t: string, name: string, description: Option<string>, lang: Option<string>): string {
    if description.None? then Tag(t, Open(0, "node"), name, true)
    else Described(Tag(t, Open(0, "node"), name, false), 0, description, lang) + Close(0, "node")
  }

  // The child nodes of the objects from number k on; `about` gives the description of an object.
  function Children(t: string, parent: string, paths: seq<string>, k: nat, about: nat -> Option<string>,
                    lang: Option<string>): string
    requires k <= |paths|
    decreases |paths| - k
  {
    if k == |paths| then t
    else if IsFirst(parent, paths, k) then
      Children(ChildText(t, Child(parent, paths[k]).value, about(k), lang), parent, paths, k + 1, about, lang)
    else Children(t, parent, paths, k + 1, about, lang)
  }

  datatype Node = Node(path: string, secure: bool, description: Option<string>, ifaces: seq<Interface>)

  // GenXML: the node, its interfaces, and its children among the objects at `paths`.
  function Document(t: string, node: Node, env: Env, paths: seq<string>, about: nat -> Option<string>): Out {
    var open := Tag(t, Open(0, "node"), node.path, false);
    var secured := if node.secure then Secured(open, "true") else open;
    var ifaces := Interfaces(Described(secured, 0, node.description, env.lang), node.ifaces, env, 0);
    if ifaces.ok then Out(Children(ifaces.text, node.path, paths, 0, about, env.lang) + Close(0, "node"), true)
    else ifaces
  }
}
