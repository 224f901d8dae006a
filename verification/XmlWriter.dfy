/**
 The introspection generator as it runs: loops that advance through the description strings and hand pieces of text to
 a writer, once to add up the size and once to marshal. Every method is proved to write the text that XmlSpec gives.
 */
module XmlWriter {
  import opened Options
  import opened Seq32
  import opened Signature
  import opened XmlSpec

  /** The writer function with its context: SizeXML adds lengths up in 32 bits, WriteXML marshals until a call fails. */
  class Writer {
    const sizing: bool
    // Whether the n-th marshalling call fails.
    const fails: nat -> bool
    var len: U32
    var out: string
    var ok: bool
    var calls: nat
    // All that was handed over.
    ghost var text: string

    ghost predicate Valid()
      reads this
    {
      && (sizing ==> len as int == |text| % 0x1_0000_0000)
      && (!sizing ==> out <= text && (ok ==> out == text))
    }

    constructor (sizing: bool, fails: nat -> bool)
      ensures Valid() && this.sizing == sizing && text == "" && ok
    {
      this.sizing, this.fails, len, out, ok, calls, text := sizing, fails, 0, "", true, 0, "";
    }

    // A length of 0 stands for the whole string.
    method Put(str: string, n: nat)
      requires Valid() && n <= |str|
      modifies this
      ensures Valid() && text == old(text) + if n == 0 then str else str[..n]
    {
      var piece := if n == 0 then str else str[..n];
      if sizing {
        len := (len as int + |piece|) % 0x1_0000_0000;
      } else if ok {
        calls := calls + 1;
        if fails(calls) {
          ok := false;
        } else {
          out := out + piece;
        }
      }
      text := text + piece;
    }
  }

  method ExpandAttribute(w: Writer, s: string, pre: string, post: string) returns (next: char, rest: string)
    requires w.Valid()
    modifies w
    ensures w.Valid() && w.text == Attribute(old(w.text), s, pre, post)
    ensures next == Next(s) && rest == Rest(s)
  {
    hide Word;
    w.Put(pre, 0);
    next := '\0';
    var len := 0;
    while len < |s| && !IsDelimiter(s[len])
      invariant 0 <= len <= |s| && forall k :: 0 <= k < len ==> !IsDelimiter(s[k])
    {
      len := len + 1;
    }
    WordIs(s, len);
    if len < |s| {
      next, rest := s[len], s[len + 1..];
    } else {
      rest := "";
    }
    w.Put(s, len);
    w.Put(post, 0);
  }

  // XMLWriteTag; the source writes the end of the tag with its own length.
  method WriteTag(w: Writer, open: string, value: string, valueLen: nat, atom: bool)
    requires w.Valid() && valueLen <= |value|
    modifies w
    ensures w.Valid() && w.text == Tag(old(w.text), open, if valueLen == 0 then value else value[..valueLen], atom)
  {
    hide Lead;
    w.Put(open, 0);
    w.Put(Lead("name"), 0);
    w.Put(value, valueLen);
    w.Put("\"", 0);
    if atom {
      w.Put("/>\n", 0);
    } else {
      w.Put(">\n", 0);
    }
  }

  method WriteDescription(w: Writer, level: nat, description: Option<string>, lang: Option<string>)
    requires w.Valid()
    modifies w
    ensures w.Valid() && w.text == Described(old(w.text), level, description, lang)
  {
    hide Open, Close, Lead;
    if description.Some? {
      var i := 0;
      while i < level
        invariant 0 <= i <= level && w.Valid() && w.text == Indented(old(w.text), i)
      {
        w.Put("    ", 0);
        i := i + 1;
      }
      w.Put(Open(0, "description"), 0);
      if lang.Some? && |lang.value| > 0 {
        w.Put(Lead("language"), 0);
        w.Put(lang.value, 0);
        w.Put("\"", 0);
      }
      w.Put(">", 0);
      w.Put(description.value, 0);
      w.Put(Close(0, "description"), 0);
    }
  }

  // One argument.
  method ExpandArg(w: Writer, s: string, kind: nat, description: Option<string>, lang: Option<string>)
    returns (ok: bool, next: char, rest: string)
    requires w.Valid()
    modifies w
    ensures w.Valid() && ArgOut(w.text, rest, next, ok) == OneArg(old(w.text), s, kind, description, lang)
  {
    hide Word, Next, Rest, Attribute, Described, Open, Close, Lead, DirectionText;
    w.Put(Open(4, "arg"), 0);
    if s != "" && IsDirection(s[0]) {
      next, rest := s[0], s[1..];
    } else {
      next, rest := ExpandAttribute(w, s, Lead("name"), "\"");
    }
    if next != '<' && next != '>' {
      return false, next, rest;
    }
    next, rest := ExpandAttribute(w, rest, Lead("type"), DirectionText(kind, next, description.Some?));
    if description.Some? {
      WriteDescription(w, 2, description, lang);
      w.Put(Close(4, "arg"), 0);
    }
    ok := true;
  }

  // The loop over the arguments of a method or signal.
  method ExpandArgs(w: Writer, start: string, first: char, kind: nat, env: Env, i: nat, m: nat) returns (ok: bool)
    requires w.Valid()
    modifies w
    ensures w.Valid() && Out(w.text, ok) == Args(old(w.text), start, first, kind, env, i, m, 0)
  {
    hide OneArg;
    var s, attr := start, first;
    ghost var a := 0;
    var argIndex: nat := 0;
    while attr != '\0'
      invariant w.Valid() && argIndex == a % 0x100
      invariant Args(old(w.text), start, first, kind, env, i, m, 0) == Args(w.text, s, attr, kind, env, i, m, a)
      decreases |s|
    {
      argIndex := (argIndex + 1) % 0x100;
      ok, attr, s := ExpandArg(w, s, kind, env.lookup(i, m, argIndex), env.lang);
      if !ok {
        return;
      }
      a := a + 1;
    }
    return true;
  }

  // The end of a member's element.
  method CloseMember(w: Writer, kind: nat, env: Env, i: nat, m: nat)
    requires w.Valid()
    modifies w
    ensures w.Valid() && w.text == Closed(old(w.text), kind, env, i, m)
  {
    hide Described, Close, MemberTag;
    var description := env.lookup(i, m, 0);
    if description.Some? {
      if kind == 2 {
        w.Put(">\n", 0);
      }
      WriteDescription(w, 1, description, env.lang);
    }
    w.Put(if description.None? && kind == 2 then "/>\n" else Close(2, MemberTag(kind)), 0);
  }

  method ExpandMember(w: Writer, s: string, env: Env, i: nat, m: nat) returns (ok: bool)
    requires w.Valid()
    modifies w
    ensures w.Valid() && Out(w.text, ok) == Member(old(w.text), s, env, i, m)
  {
    hide Word, Next, Rest, Attribute, Open, Lead, MemberTag, MemberType, Args, Closed, AccessText;
    if s == "" || MemberType(s[0]) < 0 || MemberType(s[0]) > 2 {
      return false;
    }
    var kind, name, sessionless := MemberType(s[0]), s[1..], false;
    w.Put(Open(2, MemberTag(kind)), 0);
    if kind == 0 && name != "" && name[0] == '&' {
      name, sessionless := name[1..], true;
    }
    assert name == if sessionless then s[2..] else s[1..];
    var attr, rest := ExpandAttribute(w, name, Lead("name"), "\"");
    if kind == 2 {
      if attr == ' ' {
        attr, rest := if rest != "" then rest[0] else '\0', if rest != "" then rest[1..] else rest;
      }
      if !IsDirection(attr) {
        return false;
      }
      attr, rest := ExpandAttribute(w, rest, Lead("type"), AccessText(attr));
    } else {
      if env.lang.Some? && kind == 0 {
        w.Put(Lead("sessionless"), 0);
        w.Put(if sessionless then "true\"" else "false\"", 0);
      }
      w.Put(">\n", 0);
      ok := ExpandArgs(w, rest, attr, kind, env, i, m);
      if !ok {
        return;
      }
    }
    CloseMember(w, kind, env, i, m);
    ok := true;
  }

  method ExpandMembers(w: Writer, entries: Interface, env: Env, i: nat) returns (ok: bool)
    requires w.Valid()
    modifies w
    ensures w.Valid() && Out(w.text, ok) == Members(old(w.text), entries[1..], env, i, 0)
  {
    hide Member;
    var k, memberIndex: nat := 1, 0;
    while k < |entries|
      invariant 1 <= k <= |entries| && w.Valid() && memberIndex == (k - 1) % 0x100
      invariant Members(old(w.text), entries[1..], env, i, 0) == Members(w.text, entries[k..], env, i, k - 1)
    {
      memberIndex := (memberIndex + 1) % 0x100;
      ok := ExpandMember(w, entries[k], env, i, memberIndex);
      if !ok {
        return;
      }
      k := k + 1;
    }
    return true;
  }

  method OpenInterface(w: Writer, name: string)
    requires w.Valid()
    modifies w
    ensures w.Valid() && w.text == InterfaceOpen(old(w.text), name)
  {
    hide Open, AnnotateSecure, Tag;
    if Flagged(name) {
      WriteTag(w, Open(0, "interface"), name[1..], 0, false);
      if name !in STANDARD {
        w.Put(AnnotateSecure(), 0);
        w.Put((if name[0] == '$' then "true" else "off") + "\"" + "/>\n", 0);
      }
    } else {
      WriteTag(w, Open(0, "interface"), name, 0, false);
    }
  }

  method ExpandInterfaces(w: Writer, ifaces: seq<Interface>, env: Env) returns (ok: bool)
    requires w.Valid()
    modifies w
    ensures w.Valid() && Out(w.text, ok) == Interfaces(old(w.text), ifaces, env, 0)
  {
    hide InterfaceOpen, Described, Members, Close, Interfaces;
    var k, ifaceIndex: nat := 0, 0;
    while k < |ifaces|
      invariant 0 <= k <= |ifaces| && w.Valid() && ifaceIndex == k % 0x100
      invariant Interfaces(old(w.text), ifaces, env, 0) == Interfaces(w.text, ifaces[k..], env, k)
    {
      InterfacesUnfold(w.text, ifaces[k..], env, k);
      assert ifaces[k..][1..] == ifaces[k + 1..];
      ifaceIndex := (ifaceIndex + 1) % 0x100;
      OpenInterface(w, ifaces[k][0]);
      WriteDescription(w, 0, env.lookup(ifaceIndex, 0, 0), env.lang);
      ok := ExpandMembers(w, ifaces[k], env, ifaceIndex);
      if !ok {
        return;
      }
      w.Put(Close(0, "interface"), 0);
      k := k + 1;
    }
    InterfacesUnfold(w.text, ifaces[k..], env, k);
    return true;
  }

  lemma InterfacesUnfold(t: string, ifaces: seq<Interface>, env: Env, i: nat)
    ensures Interfaces(t, ifaces, env, i) ==
            if ifaces == [] then Out(t, true)
            else
              var index := (i + 1) % 0x100;
              var open := Described(InterfaceOpen(t, ifaces[0][0]), 0, env.lookup(index, 0, 0), env.lang);
              var members := Members(open, ifaces[0][1..], env, index, 0);
              if members.ok then Interfaces(members.text + Close(0, "interface"), ifaces[1..], env, i + 1) else members
  {
    hide InterfaceOpen, Described, Members, Close;
  }

  /** ChildPath: found exactly if the path lies below the parent, with the path element below it. */
  method ChildPath(parent: string, path: string) returns (name: Option<string>)
    ensures name == Child(parent, path)
  {
    var p := if parent == "/" then "" else parent;
    var k := 0;
    while k < |p| && k < |path| && p[k] == path[k]
      invariant 0 <= k <= |p| && k <= |path| && p[..k] == path[..k]
    {
      assert p[..k + 1] == p[..k] + [p[k]] && path[..k + 1] == path[..k] + [path[k]];
      k := k + 1;
    }
    if k < |p| || k == |path| || path[k] != '/' {
      return None;
    }
    assert p == p[..k];
    var c := path[k + 1..];
    var len := 0;
    while len < |c| && c[len] != '/'
      invariant 0 <= len <= |c| && forall j :: 0 <= j < len ==> c[j] != '/'
    {
      len := len + 1;
    }
    UptoIs(c, len, '/');
    return if len > 0 then Some(c[..len]) else None;
  }

  // FirstInstance: the number of the first object with that path element below the parent.
  method FirstInstance(parent: string, paths: seq<string>, name: string) returns (k: nat)
    ensures k <= |paths| && (k < |paths| ==> Child(parent, paths[k]) == Some(name))
    ensures forall j :: 0 <= j < k ==> Child(parent, paths[j]) != Some(name)
  {
    hide Child;
    k := 0;
    while k < |paths|
      invariant 0 <= k <= |paths| && forall j :: 0 <= j < k ==> Child(parent, paths[j]) != Some(name)
    {
      var c := ChildPath(parent, paths[k]);
      if c == Some(name) {
        return;
      }
      k := k + 1;
    }
  }

  method WriteChildren(w: Writer, parent: string, paths: seq<string>, about: nat -> Option<string>,
                       lang: Option<string>)
    requires w.Valid()
    modifies w
    ensures w.Valid() && w.text == Children(old(w.text), parent, paths, 0, about, lang)
  {
    hide Child, Described, Open, Close, Tag;
    var k := 0;
    while k < |paths|
      invariant 0 <= k <= |paths| && w.Valid()
      invariant Children(old(w.text), parent, paths, 0, about, lang) == Children(w.text, parent, paths, k, about, lang)
    {
      var name := ChildPath(parent, paths[k]);
      if name.Some? {
        var first := FirstInstance(parent, paths, name.value);
        assert first == k <==> IsFirst(parent, paths, k);
        if first == k {
          var description := about(k);
          if description.Some? {
            WriteTag(w, Open(0, "node"), name.value, |name.value|, false);
            WriteDescription(w, 0, description, lang);
            w.Put(Close(0, "node"), 0);
          } else {
            WriteTag(w, Open(0, "node"), name.value, |name.value|, true);
          }
          assert name.value[..|name.value|] == name.value;
        }
      }
      k := k + 1;
    }
  }

  /** GenXML. */
  method GenXml(w: Writer, node: Node, env: Env, paths: seq<string>, about: nat -> Option<string>) returns (ok: bool)
    requires w.Valid()
    modifies w
    ensures w.Valid() && Out(w.text, ok) == Document(old(w.text), node, env, paths, about)
  {
    hide Open, Close, Tag, AnnotateSecure, Described, Interfaces, Children;
    WriteTag(w, Open(0, "node"), node.path, 0, false);
    if node.secure {
      w.Put(AnnotateSecure(), 0);
      w.Put("true" + "\"" + "/>\n", 0);
    }
    WriteDescription(w, 0, node.description, env.lang);
    ok := ExpandInterfaces(w, node.ifaces, env);
    if ok {
      WriteChildren(w, node.path, paths, about, env.lang);
      w.Put(Close(0, "node"), 0);
    }
  }

  // The length word, in the byte order of the message, and the string with its NUL.
  datatype Reply = Reply(promised: U32, length: U32, body: string, nul: bool)

  /**
   AJ_HandleIntrospectRequest once the object is found. When both passes succeed, the second writes exactly the
   document, and the length word and the promised size of the reply are right if and only if they fit 32 bits.
   */
  method HandleIntrospect(node: Node, env: Env, paths: seq<string>, about: nat -> Option<string>, fails: nat -> bool)
    returns (ok: bool, reply: Reply)
    ensures var document := Document("", node, env, paths, about);
            && (ok ==> document.ok && reply.body == document.text && reply.nul)
            && (ok ==> (reply.length == |reply.body| <==> |document.text| < 0x1_0000_0000))
            && (ok ==> (reply.promised == 4 + |reply.body| + 1 <==> |document.text| + 5 < 0x1_0000_0000))
            && (reply.body <= document.text && (reply.nul ==> ok))
            && (!document.ok ==> !ok)
  {
    hide Document;
    var sizer := new Writer(true, fails);
    ok := GenXml(sizer, node, env, paths, about);
    if !ok {
      return false, Reply(0, 0, "", false);
    }
    var promised := (sizer.len as int + 5) % 0x1_0000_0000;
    if fails(0) {
      return false, Reply(promised, sizer.len, "", false);
    }
    var writer := new Writer(false, fails);
    ok := GenXml(writer, node, env, paths, about);
    ok := writer.ok && !fails(writer.calls + 1);
    return ok, Reply(promised, sizer.len, writer.out, ok);
  }
}
