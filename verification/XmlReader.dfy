/**
 Reading the introspection text back. A small XML reader works on the characters alone: it takes tags apart, keeps a
 stack of the elements that are open, drops layout between tags and knows no entities. Reading a document gives back the
 tree that it was written from exactly when no text and no attribute value holds a character that the generator would
 have had to escape.
 */
module XmlReader {
  import opened Options
  import opened Signature
  import opened XmlSpec
  import opened XmlTree

  /* ---- The reader ---- */

  datatype Xml = Tagged(tag: string, attrs: seq<(string, string)>, content: seq<Xml>) | Chars(text: string)

  // An element that is open: what was complete in front of it goes with it.
  datatype Frame = Frame(tag: string, attrs: seq<(string, string)>, before: seq<Xml>)

  predicate Layout(c: char) { c == ' ' || c == '\n' }

  predicate Blank(s: string) { forall c :: c in s ==> Layout(c) }

  // The part in front of the first of the characters in `stop`.
  function Run(s: string, stop: string): (r: string)
    ensures r <= s && (forall c :: c in r ==> c !in stop) && (|r| < |s| ==> s[|r|] in stop)
  { if s == "" || s[0] in stop then "" else [s[0]] + Run(s[1..], stop) }

  datatype Attribute = Attribute(key: string, value: string, rest: string) | NoAttribute

  // One attribute behind a space, with a quoted value.
  function ReadAttr(s: string): (r: Attribute)
    requires s != ""
    ensures r.Attribute? ==> |r.rest| < |s|
  {
    var key := Run(s[1..], "=");
    var s1 := s[1 + |key|..];
    if |s1| < 2 || s1[1] != '"' then NoAttribute
    else
      var value := Run(s1[2..], "\"<&");
      var s2 := s1[2 + |value|..];
      if s2 == "" || s2[0] != '"' then NoAttribute else Attribute(key, value, s2[1..])
  }

  datatype Attributes = Attributes(attrs: seq<(string, string)>, rest: string) | Malformed

  function ReadAttrs(s: string): (r: Attributes)
    ensures r.Attributes? ==> |r.rest| <= |s|
    decreases |s|
  {
    if s == "" || s[0] != ' ' then Attributes([], s)
    else
      var one := ReadAttr(s);
      if one.NoAttribute? then Malformed
      else
        var more := ReadAttrs(one.rest);
        if more.Malformed? then Malformed else Attributes([(one.key, one.value)] + more.attrs, more.rest)
  }

  // What is left of the text, the content of the innermost open element so far, and the elements that are open.
  function Parse(s: string, content: seq<Xml>, stack: seq<Frame>): Option<seq<Xml>>
    decreases |s|
  {
    if s == "" then if stack == [] then Some(content) else None
    else if s[0] != '<' then
      var text := Run(s, "<&");
      if text == "" || (|text| < |s| && s[|text|] == '&') then None
      else Parse(s[|text|..], if Blank(text) then content else content + [Chars(text)], stack)
    else if |s| > 1 && s[1] == '/' then
      var tag := Run(s[2..], ">");
      if 2 + |tag| == |s| || stack == [] || stack[0].tag != tag then None
      else Parse(s[3 + |tag|..], stack[0].before + [Tagged(tag, stack[0].attrs, content)], stack[1..])
    else
      var tag := Run(s[1..], " />");
      var a := ReadAttrs(s[1 + |tag|..]);
      if a.Malformed? || a.rest == "" then None
      else if a.rest[0] == '>' then Parse(a.rest[1..], [], [Frame(tag, a.attrs, content)] + stack)
      else if |a.rest| > 1 && a.rest[0] == '/' && a.rest[1] == '>' then
        Parse(a.rest[2..], content + [Tagged(tag, a.attrs, [])], stack)
      else None
  }

  function Read(s: string): Option<seq<Xml>> { Parse(s, [], []) }

  /* ---- What should be read ---- */

  function Language(lang: Option<string>): seq<(string, string)> {
    if lang.Some? && lang.value != "" then [("language", lang.value)] else []
  }

  // An element without its layout.
  function Bare(e: Element): Xml
    decreases e
  {
    match e
    case Element(_, tag, attrs, children, _) => Tagged(tag, attrs, BareAll(children))
    case Description(_, lang, text) =>
      Tagged("description", Language(lang), if Blank(text) then [] else [Chars(text)])
  }

  function BareAll(es: seq<Element>): seq<Xml>
    decreases es
  { if es == [] then [] else [Bare(es[0])] + BareAll(es[1..]) }

  predicate LegalValue(s: string) { '"' !in s && '<' !in s && '&' !in s }

  predicate LegalText(s: string) { '<' !in s && '&' !in s }

  // No attribute value and no text in the element holds a character that would have to be escaped.
  ghost predicate Legal(e: Element)
    decreases e
  {
    match e
    case Element(_, _, attrs, children, _) => (forall a :: a in attrs ==> LegalValue(a.1)) && LegalAll(children)
    case Description(_, lang, text) => (lang.Some? ==> LegalValue(lang.value)) && LegalText(text)
  }

  ghost predicate LegalAll(es: seq<Element>)
    decreases es
  { es == [] || (Legal(es[0]) && LegalAll(es[1..])) }

  // A tag or attribute name.
  predicate Simple(s: string) { s != "" && ' ' !in s && '=' !in s && '/' !in s && '>' !in s }

  ghost predicate Formed(e: Element)
    decreases e
  {
    match e
    case Element(_, tag, attrs, children, empty) =>
      && Simple(tag) && (forall a :: a in attrs ==> Simple(a.0)) && (empty ==> children == []) && FormedAll(children)
    case Description(_, _, _) => true
  }

  ghost predicate FormedAll(es: seq<Element>)
    decreases es
  { es == [] || (Formed(es[0]) && FormedAll(es[1..])) }

  /* ---- The text, put together from its parts ---- */

  lemma {:induction false} AttrsAppend(t: string, attrs: seq<(string, string)>)
    ensures Attrs(t, attrs) == t + Attrs("", attrs)
    decreases |attrs|
  {
    if attrs == [] {
      assert t + "" == t;
    } else {
      var one := Lead(attrs[0].0) + attrs[0].1 + "\"";
      AttrsAppend(t + Lead(attrs[0].0) + attrs[0].1 + "\"", attrs[1..]);
      AttrsAppend("" + Lead(attrs[0].0) + attrs[0].1 + "\"", attrs[1..]);
      hide Lead;
      assert t + Lead(attrs[0].0) + attrs[0].1 + "\"" == t + one;
      assert "" + Lead(attrs[0].0) + attrs[0].1 + "\"" == one;
      Regroup(t, one, Attrs("", attrs[1..]));
    }
  }

  lemma Join6(a: string, b: string, c: string, d: string, e: string, f: string)
    ensures a + b + c + d + e + f == a + (b + (c + (d + (e + f))))
  {
    Regroup(a + b + c + d, e, f);
    Regroup4(a, b, c, d, e + f);
  }

  lemma AttrsStep(attrs: seq<(string, string)>)
    requires attrs != []
    ensures Attrs("", attrs) == " " + (attrs[0].0 + ("=\"" + (attrs[0].1 + ("\"" + Attrs("", attrs[1..])))))
  {
    var key, value, more := attrs[0].0, attrs[0].1, Attrs("", attrs[1..]);
    AttrsAppend("" + Lead(key) + value + "\"", attrs[1..]);
    assert Attrs("", attrs) == Attrs("" + Lead(key) + value + "\"", attrs[1..]);
    hide Attrs;
    assert "" + Lead(key) == " " + key + "=\"";
    hide Lead;
    Join6(" ", key, "=\"", value, "\"", more);
  }

  // A start tag with content and an end tag.
  function Around(indent: nat, tag: string, attrs: string, content: string): string {
    var sp := Spaces(indent);
    sp + ("<" + (tag + (attrs + (">" + ("\n" + (content + (sp + ("</" + (tag + (">" + "\n"))))))))))
  }

  function Alone(indent: nat, tag: string, attrs: string): string {
    Spaces(indent) + ("<" + (tag + (attrs + ("/>" + "\n"))))
  }

  function Noted(level: nat, attrs: string, text: string): string {
    Indented("", level) + ("<" + ("description" + (attrs + (">" + (text + ("</" + ("description" + (">" + "\n"))))))))
  }

  lemma {:induction false} IndentedAppends(t: string, level: nat)
    ensures Indented(t, level) == t + Indented("", level) && Blank(Indented("", level))
    decreases level
  {
    if level == 0 {
      assert t + "" == t;
    } else {
      IndentedAppends(t, level - 1);
      Regroup(t, Indented("", level - 1), "    ");
    }
  }

  // The description attribute, if there is one, behind the start of the tag.
  lemma LanguageText(open: string, lang: Option<string>)
    ensures (if lang.Some? && lang.value != "" then open + Lead("language") + lang.value + "\"" else open) ==
            open + Attrs("", Language(lang))
  {
    if lang.Some? && lang.value != "" {
      OneAttr(open, "language", lang.value);
      AttrsAppend(open, Language(lang));
    } else {
      assert open + "" == open;
    }
  }

  lemma DescriptionTags()
    ensures Open(0, "description") == "<" + "description"
    ensures Close(0, "description") == "</" + ("description" + (">" + "\n"))
  {
    assert Spaces(0) == "";
  }

  lemma DescribedText(t: string, level: nat, text: string, lang: Option<string>)
    ensures Described(t, level, Some(text), lang) == t + Noted(level, Attrs("", Language(lang)), text)
  {
    IndentedAppends(t, level);
    var sp, a := Indented("", level), Attrs("", Language(lang));
    var end := "</" + ("description" + (">" + "\n"));
    DescriptionTags();
    LanguageText(Indented(t, level) + Open(0, "description"), lang);
    hide Lead, Open, Close, Attrs, Indented, Language;
    assert Described(t, level, Some(text), lang) == t + sp + ("<" + "description") + a + ">" + text + end;
    Regroup(t + sp, "<", "description");
    Join6(t + sp + "<", "description", a, ">", text, end);
    Regroup(t, sp, "<");
    Regroup(t, sp + "<", "description" + (a + (">" + (text + end))));
    Regroup(sp, "<", "description" + (a + (">" + (text + end))));
  }

  lemma {:induction false} SerialiseAppends(t: string, e: Element)
    ensures Serialise(t, e) == t + Serialise("", e)
    ensures e.Element? && !e.empty ==>
              Serialise("", e) == Around(e.indent, e.tag, Attrs("", e.attrs), SerialiseAll("", e.children))
    ensures e.Element? && e.empty ==> Serialise("", e) == Alone(e.indent, e.tag, Attrs("", e.attrs))
    ensures e.Description? ==> Serialise("", e) == Noted(e.level, Attrs("", Language(e.lang)), e.text)
    decreases e, 1
  {
    hide Attrs, SerialiseAll, Around, Alone, Noted, Described;
    match e
    case Element(_, _, _, _, _) =>
      hide Serialise;
      ElementText(t, e);
      ElementText("", e);
    case Description(level, lang, text) =>
      DescribedText(t, level, text, lang);
      DescribedText("", level, text, lang);
  }

  lemma {:induction false} ElementText(t: string, e: Element)
    requires e.Element?
    ensures Serialise(t, e) ==
            t + if e.empty then Alone(e.indent, e.tag, Attrs("", e.attrs))
                else Around(e.indent, e.tag, Attrs("", e.attrs), SerialiseAll("", e.children))
    decreases e, 0
  {
    var start := Attrs(t + Open(e.indent, e.tag), e.attrs);
    AttrsAppend(t + Open(e.indent, e.tag), e.attrs);
    AllAppend(start + ">\n", e.children);
    hide Attrs, SerialiseAll, Spaces;
    var a, c, sp, tag := Attrs("", e.attrs), SerialiseAll("", e.children), Spaces(e.indent), e.tag;
    if e.empty {
      JoinedAlone(t, sp, tag, a);
    } else {
      Joined(t, sp, tag, a, c);
    }
  }

  lemma JoinedAlone(t: string, sp: string, tag: string, a: string)
    ensures t + (sp + "<" + tag) + a + "/>\n" == t + (sp + ("<" + (tag + (a + ("/>" + "\n")))))
  {
    var end := "/>" + "\n";
    assert "/>\n" == end;
    Regroup(t, sp + "<" + tag, a);
    Regroup(t, sp + "<" + tag + a, end);
    Regroup4(sp, "<", tag, a, end);
  }

  lemma Joined(t: string, sp: string, tag: string, a: string, c: string)
    ensures t + (sp + "<" + tag) + a + ">\n" + c + (sp + "</" + tag + ">\n") ==
            t + (sp + ("<" + (tag + (a + (">" + ("\n" + (c + (sp + ("</" + (tag + (">" + "\n")))))))))))
  {
    var end := sp + ("</" + (tag + (">" + "\n")));
    assert ">\n" == ">" + "\n";
    Regroup4(sp, "</", tag, ">", "\n");
    Regroup(sp + "</" + tag, ">", "\n");
    Regroup(t + (sp + "<" + tag) + a, ">", "\n");
    Regroup(t, sp + "<" + tag, a);
    Join6(t, sp + "<" + tag + a, ">", "\n", c, end);
    Regroup4(sp, "<", tag, a, ">" + ("\n" + (c + end)));
  }

  lemma {:induction false} AllAppend(t: string, es: seq<Element>)
    ensures SerialiseAll(t, es) == t + SerialiseAll("", es)
    ensures es != [] ==> SerialiseAll("", es) == Serialise("", es[0]) + SerialiseAll("", es[1..])
    decreases es
  {
    if es == [] {
      assert t + "" == t;
    } else {
      SerialiseAppends(t, es[0]);
      AllAppend(Serialise(t, es[0]), es[1..]);
      AllAppend(Serialise("", es[0]), es[1..]);
      hide Serialise;
      Regroup(t, Serialise("", es[0]), SerialiseAll("", es[1..]));
    }
  }

  /* ---- Reading the parts ---- */

  lemma RunIs(p: string, t: string, stop: string)
    requires (forall c :: c in p ==> c !in stop) && (t == "" || t[0] in stop)
    ensures Run(p + t, stop) == p
  {
    hide Run;
    var r := Run(p + t, stop);
    assert forall k :: 0 <= k < |p| ==> p[k] in p && (p + t)[k] == p[k];
    assert forall k :: 0 <= k < |r| ==> r[k] in r && r[k] == (p + t)[k];
    assert t != "" ==> (p + t)[|p|] == t[0];
    assert r == (p + t)[..|p|];
  }

  lemma ReadAttrsStep(s: string, one: Attribute, more: Attributes)
    requires s != "" && s[0] == ' ' && ReadAttr(s) == one && one.Attribute?
    requires ReadAttrs(one.rest) == more && more.Attributes?
    ensures ReadAttrs(s) == Attributes([(one.key, one.value)] + more.attrs, more.rest)
  {
    hide ReadAttr;
  }

  lemma AttrsSplit(attrs: seq<(string, string)>, rest: string)
    requires attrs != []
    ensures var key, value, more := attrs[0].0, attrs[0].1, Attrs("", attrs[1..]) + rest;
            Attrs("", attrs) + rest == " " + (key + ("=\"" + (value + ("\"" + more))))
  {
    hide Attrs;
    AttrsStep(attrs);
    AttrsRegroup(attrs[0].0, attrs[0].1, Attrs("", attrs[1..]), rest);
  }

  lemma NoAttrs(rest: string)
    requires rest == "" || rest[0] != ' '
    ensures ReadAttrs(Attrs("", []) + rest) == Attributes([], rest)
  {
    assert Attrs("", []) + rest == rest;
  }

  lemma {:induction false} AttrsBack(attrs: seq<(string, string)>, rest: string)
    requires forall a :: a in attrs ==> Simple(a.0) && LegalValue(a.1)
    requires rest == "" || rest[0] != ' '
    ensures ReadAttrs(Attrs("", attrs) + rest) == Attributes(attrs, rest)
    decreases |attrs|
  {
    hide Attrs, Simple, LegalValue, ReadAttr, ReadAttrs;
    if attrs == [] {
      NoAttrs(rest);
    } else {
      AttrsBack(attrs[1..], rest);
      var key, value, more := attrs[0].0, attrs[0].1, Attrs("", attrs[1..]) + rest;
      assert attrs[0] in attrs;
      AttrsSplit(attrs, rest);
      AttrThenRest(key, value, more, Attributes(attrs[1..], rest));
      assert attrs == [(key, value)] + attrs[1..];
    }
  }

  lemma AttrThenRest(key: string, value: string, more: string, a: Attributes)
    requires Simple(key) && LegalValue(value) && ReadAttrs(more) == a && a.Attributes?
    ensures ReadAttrs(" " + (key + ("=\"" + (value + ("\"" + more))))) == Attributes([(key, value)] + a.attrs, a.rest)
  {
    hide Simple, LegalValue, ReadAttr, ReadAttrs;
    OneAttrBack(key, value, more);
    var s := " " + (key + ("=\"" + (value + ("\"" + more))));
    assert s[0] == ' ';
    ReadAttrsStep(s, Attribute(key, value, more), a);
  }

  lemma AttrsRegroup(key: string, value: string, more: string, rest: string)
    ensures " " + (key + ("=\"" + (value + ("\"" + more)))) + rest ==
            " " + (key + ("=\"" + (value + ("\"" + (more + rest)))))
  {
    Join6(" ", key, "=\"", value, "\"", more);
    Regroup(" " + key + "=\"" + value + "\"", more, rest);
    Join6(" ", key, "=\"", value, "\"", more + rest);
  }

  lemma OneAttrBack(key: string, value: string, rest: string)
    requires Simple(key) && LegalValue(value)
    ensures ReadAttr(" " + (key + ("=\"" + (value + ("\"" + rest))))) == Attribute(key, value, rest)
  {
    var t2 := "\"" + rest;
    var t1 := "=\"" + (value + t2);
    var s := " " + (key + t1);
    assert s[1..] == key + t1 && s[1 + |key|..] == t1;
    RunIs(key, t1, "=");
    assert t1[2..] == value + t2 && t1[2 + |value|..] == t2 && t2[1..] == rest;
    RunIs(value, t2, "\"<&");
    hide Run, Simple, LegalValue;
  }

  // A start tag up to the end of its attributes.
  lemma TagBack(tag: string, attrs: seq<(string, string)>, rest: string)
    requires Simple(tag) && forall a :: a in attrs ==> Simple(a.0) && LegalValue(a.1)
    requires rest != "" && (rest[0] == '>' || rest[0] == '/')
    ensures var s := "<" + (tag + (Attrs("", attrs) + rest));
            && |s| > 1 && s[0] == '<' && s[1] != '/' && Run(s[1..], " />") == tag
            && ReadAttrs(s[1 + |tag|..]) == Attributes(attrs, rest)
  {
    var u := Attrs("", attrs) + rest;
    var s := "<" + (tag + u);
    if attrs == [] {
      assert u == rest;
    } else {
      AttrsStep(attrs);
    }
    AttrsBack(attrs, rest);
    assert tag[0] in tag && s[1] == tag[0];
    assert s[1..] == tag + u && s[1 + |tag|..] == u;
    hide Attrs, ReadAttrs;
    RunIs(tag, u, " />");
  }

  lemma ParseTag(s: string, tag: string, a: Attributes, content: seq<Xml>, stack: seq<Frame>)
    requires |s| > 1 && s[0] == '<' && s[1] != '/' && Run(s[1..], " />") == tag
    requires ReadAttrs(s[1 + |tag|..]) == a && a.Attributes? && a.rest != ""
    ensures a.rest[0] == '>' ==>
              Parse(s, content, stack) == Parse(a.rest[1..], [], [Frame(tag, a.attrs, content)] + stack)
    ensures |a.rest| > 1 && a.rest[0] == '/' && a.rest[1] == '>' ==>
              Parse(s, content, stack) == Parse(a.rest[2..], content + [Tagged(tag, a.attrs, [])], stack)
  {
    hide Run, ReadAttrs, Blank;
  }

  lemma StartBack(tag: string, attrs: seq<(string, string)>, rest: string, content: seq<Xml>, stack: seq<Frame>)
    requires Simple(tag) && forall a :: a in attrs ==> Simple(a.0) && LegalValue(a.1)
    ensures Parse("<" + (tag + (Attrs("", attrs) + (">" + rest))), content, stack) ==
            Parse(rest, [], [Frame(tag, attrs, content)] + stack)
  {
    hide Run, ReadAttrs, Attrs, Parse, Simple, LegalValue;
    TagBack(tag, attrs, ">" + rest);
    ParseTag("<" + (tag + (Attrs("", attrs) + (">" + rest))), tag, Attributes(attrs, ">" + rest), content, stack);
    assert (">" + rest)[1..] == rest;
  }

  lemma LeafBack(tag: string, attrs: seq<(string, string)>, rest: string, content: seq<Xml>, stack: seq<Frame>)
    requires Simple(tag) && forall a :: a in attrs ==> Simple(a.0) && LegalValue(a.1)
    ensures Parse("<" + (tag + (Attrs("", attrs) + ("/>" + rest))), content, stack) ==
            Parse(rest, content + [Tagged(tag, attrs, [])], stack)
  {
    hide Run, ReadAttrs, Attrs, Parse, Simple, LegalValue;
    TagBack(tag, attrs, "/>" + rest);
    ParseTag("<" + (tag + (Attrs("", attrs) + ("/>" + rest))), tag, Attributes(attrs, "/>" + rest), content, stack);
    assert ("/>" + rest)[2..] == rest;
  }

  lemma EndBack(tag: string, rest: string, content: seq<Xml>, stack: seq<Frame>)
    requires stack != [] && stack[0].tag == tag && '>' !in tag
    ensures Parse("</" + (tag + (">" + rest)), content, stack) ==
            Parse(rest, stack[0].before + [Tagged(tag, stack[0].attrs, content)], stack[1..])
  {
    var s := "</" + (tag + (">" + rest));
    assert s[2..] == tag + (">" + rest) && s[3 + |tag|..] == rest;
    RunIs(tag, ">" + rest, ">");
    hide Run, ReadAttrs, Blank;
  }

  lemma TextBack(text: string, rest: string, content: seq<Xml>, stack: seq<Frame>)
    requires LegalText(text) && (rest == "" || rest[0] == '<')
    ensures Parse(text + rest, content, stack) ==
            Parse(rest, if Blank(text) then content else content + [Chars(text)], stack)
  {
    var s := text + rest;
    if text == "" {
      assert s == rest;
    } else {
      RunIs(text, rest, "<&");
      assert s[0] == text[0] && text[0] in text && s[|text|..] == rest;
      hide Run, ReadAttrs, Blank;
    }
  }

  // Layout, then a tag or the end.
  predicate Gap(s: string) { s == "" || s[0] == '<' || (Layout(s[0]) && Gap(s[1..])) }

  lemma {:induction false} GapSplit(s: string) returns (w: string, rest: string)
    requires Gap(s)
    ensures s == w + rest && Blank(w) && (rest == "" || rest[0] == '<')
    decreases |s|
  {
    if s == "" || s[0] == '<' {
      w, rest := "", s;
    } else {
      var v;
      v, rest := GapSplit(s[1..]);
      w := [s[0]] + v;
    }
  }

  lemma {:induction false} GapGrows(w: string, s: string)
    requires Blank(w) && Gap(s)
    ensures Gap(w + s)
    decreases |w|
  {
    if w == "" {
      assert w + s == s;
    } else {
      assert w[0] in w && forall c :: c in w[1..] ==> c in w;
      GapGrows(w[1..], s);
      assert (w + s)[1..] == w[1..] + s;
    }
  }

  lemma BlankIsLegal(w: string)
    requires Blank(w)
    ensures LegalText(w)
  {
  }

  lemma LayoutBack(w: string, s: string, content: seq<Xml>, stack: seq<Frame>)
    requires Blank(w) && Gap(s)
    ensures Parse(w + s, content, stack) == Parse(s, content, stack)
  {
    hide Parse, Gap;
    var g, rest := GapSplit(s);
    Regroup(w, g, rest);
    BlankIsLegal(g);
    BlankIsLegal(w + g);
    TextBack(w + g, rest, content, stack);
    TextBack(g, rest, content, stack);
  }

  /* ---- Reading the elements ---- */

  lemma SpacesBlank(n: nat)
    ensures Blank(Spaces(n))
  {
  }

  lemma SpacedGap(w: string, tail: string, rest: string)
    requires Blank(w) && tail != "" && tail[0] == '<'
    ensures Gap(w + tail + rest)
  {
    hide Gap, Blank;
    Regroup(w, tail, rest);
    assert Gap(tail + rest) by {
      assert (tail + rest)[0] == '<';
      TagGap(tail, rest);
    }
    GapGrows(w, tail + rest);
  }

  lemma TextGap(e: Element, rest: string)
    ensures Gap(Serialise("", e) + rest)
  {
    hide Serialise, Gap, Blank, Attrs, Spaces, Indented;
    SerialiseAppends("", e);
    match e
    case Element(indent, tag, attrs, children, empty) =>
      SpacesBlank(indent);
      var sp, a, c := Spaces(indent), Attrs("", attrs), SerialiseAll("", children);
      if empty {
        SpacedGap(sp, "<" + (tag + (a + ("/>" + "\n"))), rest);
      } else {
        SpacedGap(sp, "<" + (tag + (a + (">" + ("\n" + (c + (sp + ("</" + (tag + (">" + "\n"))))))))), rest);
      }
    case Description(level, lang, text) =>
      IndentedAppends("", level);
      var a := Attrs("", Language(lang));
      SpacedGap(Indented("", level),
                "<" + ("description" + (a + (">" + (text + ("</" + ("description" + (">" + "\n"))))))), rest);
  }

  lemma {:induction false} ElementBack(e: Element, rest: string, content: seq<Xml>, stack: seq<Frame>)
    requires Formed(e) && Legal(e) && Gap(rest)
    ensures Parse(Serialise("", e) + rest, content, stack) == Parse(rest, content + [Bare(e)], stack)
    decreases e, 1
  {
    SerialiseAppends("", e);
    hide Serialise, Parse, Gap;
    match e
    case Element(indent, tag, attrs, children, empty) =>
      if empty {
        AloneBack(indent, tag, attrs, rest, content, stack);
      } else {
        AroundBack(e, rest, content, stack);
      }
    case Description(level, lang, text) => NotedBack(level, lang, text, rest, content, stack);
  }

  lemma AloneBack(indent: nat, tag: string, attrs: seq<(string, string)>, rest: string, content: seq<Xml>,
                  stack: seq<Frame>)
    requires Simple(tag) && (forall a :: a in attrs ==> Simple(a.0) && LegalValue(a.1)) && Gap(rest)
    ensures Parse(Alone(indent, tag, Attrs("", attrs)) + rest, content, stack) ==
            Parse(rest, content + [Tagged(tag, attrs, [])], stack)
  {
    hide Parse, Spaces, Attrs;
    var sp, a := Spaces(indent), Attrs("", attrs);
    var tail := "<" + (tag + (a + ("/>" + ("\n" + rest))));
    assert Alone(indent, tag, a) + rest == sp + tail by {
      Join6(sp, "<", tag, a, "/>", "\n");
      Join6(sp, "<", tag, a, "/>", "\n" + rest);
      Regroup(sp + "<" + tag + a + "/>", "\n", rest);
    }
    SpacesBlank(indent);
    LayoutBack(sp, tail, content, stack);
    LeafBack(tag, attrs, "\n" + rest, content, stack);
    LayoutBack("\n", rest, content + [Tagged(tag, attrs, [])], stack);
  }

  lemma {:induction false} AroundBack(e: Element, rest: string, content: seq<Xml>, stack: seq<Frame>)
    requires e.Element? && !e.empty && Formed(e) && Legal(e) && Gap(rest)
    ensures Parse(Around(e.indent, e.tag, Attrs("", e.attrs), SerialiseAll("", e.children)) + rest, content, stack) ==
            Parse(rest, content + [Bare(e)], stack)
    decreases e, 0
  {
    hide Parse, Spaces, Attrs, Gap, SerialiseAll, Simple, LegalValue;
    var sp, tag, a, c := Spaces(e.indent), e.tag, Attrs("", e.attrs), SerialiseAll("", e.children);
    var end := sp + ("</" + (tag + (">" + ("\n" + rest))));
    var tail := "<" + (tag + (a + (">" + ("\n" + (c + end)))));
    AroundRegroup(sp, tag, a, c, rest);
    SpacesBlank(e.indent);
    TagGap("<", tag + (a + (">" + ("\n" + (c + end)))));
    LayoutBack(sp, tail, content, stack);
    StartBack(tag, e.attrs, "\n" + (c + end), content, stack);
    var inner := [Frame(tag, e.attrs, content)] + stack;
    TagGap("</", tag + (">" + ("\n" + rest)));
    GapGrows(sp, "</" + (tag + (">" + ("\n" + rest))));
    AllGap(e.children, end);
    LayoutBack("\n", c + end, [], inner);
    AllBack(e.children, end, [], inner);
    var read := [] + BareAll(e.children);
    LayoutBack(sp, "</" + (tag + (">" + ("\n" + rest))), read, inner);
    NoBracket(tag);
    EndBack(tag, "\n" + rest, read, inner);
    assert inner[1..] == stack && read == BareAll(e.children);
    LayoutBack("\n", rest, content + [Bare(e)], stack);
  }

  lemma TagGap(lead: string, s: string)
    requires lead != "" && lead[0] == '<'
    ensures Gap(lead + s)
  {
  }

  lemma NoBracket(tag: string)
    requires Simple(tag)
    ensures '>' !in tag
  {
  }

  lemma AroundRegroup(sp: string, tag: string, a: string, c: string, rest: string)
    ensures sp + ("<" + (tag + (a + (">" + ("\n" + (c + (sp + ("</" + (tag + (">" + "\n")))))))))) + rest ==
            sp + ("<" + (tag + (a + (">" + ("\n" + (c + (sp + ("</" + (tag + (">" + ("\n" + rest)))))))))))
  {
    var close, close' := sp + ("</" + (tag + (">" + "\n"))), sp + ("</" + (tag + (">" + ("\n" + rest))));
    assert close + rest == close' by {
      Regroup4(sp, "</", tag, ">", "\n");
      Regroup4(sp, "</", tag, ">", "\n" + rest);
      Regroup(sp + "</" + tag + ">", "\n", rest);
    }
    var body, body' := "\n" + (c + close), "\n" + (c + close');
    assert body + rest == body' by {
      Regroup("\n", c, close);
      Regroup("\n" + c, close, rest);
      Regroup("\n", c, close');
    }
    Join6(sp, "<", tag, a, ">", body);
    Join6(sp, "<", tag, a, ">", body');
    Regroup(sp + "<" + tag + a + ">", body, rest);
  }

  lemma NotedBack(level: nat, lang: Option<string>, text: string, rest: string, content: seq<Xml>, stack: seq<Frame>)
    requires (lang.Some? ==> LegalValue(lang.value)) && LegalText(text) && Gap(rest)
    ensures Parse(Noted(level, Attrs("", Language(lang)), text) + rest, content, stack) ==
            Parse(rest, content + [Bare(Description(level, lang, text))], stack)
  {
    hide Parse, Indented, Attrs, Gap, LegalText, LegalValue, Blank;
    var sp, tag, a := Indented("", level), "description", Attrs("", Language(lang));
    var end := "</" + (tag + (">" + ("\n" + rest)));
    var tail := "<" + (tag + (a + (">" + (text + end))));
    NotedRegroup(sp, tag, a, text, rest);
    IndentedAppends("", level);
    TagGap("<", tag + (a + (">" + (text + end))));
    LayoutBack(sp, tail, content, stack);
    SimpleTags();
    SimpleKeys();
    hide Simple;
    StartBack(tag, Language(lang), text + end, content, stack);
    var inner := [Frame(tag, Language(lang), content)] + stack;
    TextBack(text, end, [], inner);
    var read := if Blank(text) then [] else [] + [Chars(text)];
    NoBracket(tag);
    EndBack(tag, "\n" + rest, read, inner);
    assert inner[1..] == stack && [] + [Chars(text)] == [Chars(text)];
    assert Bare(Description(level, lang, text)) == Tagged(tag, Language(lang), read);
    assert Blank("\n") by {
      NewlineBlank();
    }
    LayoutBack("\n", rest, content + [Bare(Description(level, lang, text))], stack);
  }

  lemma NewlineBlank()
    ensures Blank("\n")
  {
  }

  // The tag and attribute names that the generator writes are letters.
  lemma Letters(s: string)
    requires s != "" && forall k :: 0 <= k < |s| ==> 'a' <= s[k] <= 'z'
    ensures Simple(s)
  {
  }

  lemma SimpleTags()
    ensures Simple("description") && Simple("node") && Simple("interface") && Simple("annotation")
    ensures Simple("method") && Simple("signal") && Simple("property") && Simple("arg")
  {
    hide Simple;
    Letters("description");
    Letters("node");
    Letters("interface");
    Letters("annotation");
    Letters("method");
    Letters("signal");
    Letters("property");
    Letters("arg");
  }

  lemma SimpleKeys()
    ensures Simple("language") && Simple("name") && Simple("value") && Simple("type") && Simple("direction")
    ensures Simple("access") && Simple("sessionless")
  {
    hide Simple;
    Letters("language");
    Letters("name");
    Letters("value");
    Letters("type");
    Letters("direction");
    Letters("access");
    Letters("sessionless");
  }

  lemma NotedRegroup(sp: string, tag: string, a: string, text: string, rest: string)
    ensures sp + ("<" + (tag + (a + (">" + (text + ("</" + (tag + (">" + "\n")))))))) + rest ==
            sp + ("<" + (tag + (a + (">" + (text + ("</" + (tag + (">" + ("\n" + rest)))))))))
  {
    var close, close' := "</" + (tag + (">" + "\n")), "</" + (tag + (">" + ("\n" + rest)));
    assert close + rest == close' by {
      Regroup4("</", tag, ">", "\n", rest);
      Regroup4("</", tag, ">", "\n", "");
      assert "\n" + "" == "\n";
    }
    var body, body' := text + close, text + close';
    assert body + rest == body' by {
      Regroup(text, close, rest);
    }
    Join6(sp, "<", tag, a, ">", body);
    Join6(sp, "<", tag, a, ">", body');
    Regroup(sp + "<" + tag + a + ">", body, rest);
  }

  lemma AllGap(es: seq<Element>, rest: string)
    requires Gap(rest)
    ensures Gap(SerialiseAll("", es) + rest)
  {
    hide Gap, Serialise;
    if es == [] {
      assert SerialiseAll("", es) + rest == rest;
    } else {
      AllAppend("", es);
      hide SerialiseAll;
      Regroup(Serialise("", es[0]), SerialiseAll("", es[1..]), rest);
      TextGap(es[0], SerialiseAll("", es[1..]) + rest);
    }
  }

  lemma {:induction false} AllBack(es: seq<Element>, rest: string, content: seq<Xml>, stack: seq<Frame>)
    requires FormedAll(es) && LegalAll(es) && Gap(rest)
    ensures Parse(SerialiseAll("", es) + rest, content, stack) == Parse(rest, content + BareAll(es), stack)
    decreases es
  {
    hide Parse, Gap, Serialise, Formed, Legal, Bare;
    if es == [] {
      assert SerialiseAll("", es) + rest == rest && content + [] == content;
    } else {
      AllAppend("", es);
      hide SerialiseAll;
      var more := SerialiseAll("", es[1..]) + rest;
      Regroup(Serialise("", es[0]), SerialiseAll("", es[1..]), rest);
      AllGap(es[1..], rest);
      ElementBack(es[0], more, content, stack);
      AllBack(es[1..], rest, content + [Bare(es[0])], stack);
      assert content + [Bare(es[0])] + BareAll(es[1..]) == content + ([Bare(es[0])] + BareAll(es[1..]));
    }
  }

  /* ---- What is read is legal ---- */

  ghost predicate LegalXml(x: Xml)
    decreases x
  {
    match x
    case Tagged(_, attrs, content) =>
      (forall a :: a in attrs ==> LegalValue(a.1)) && forall y :: y in content ==> LegalXml(y)
    case Chars(text) => LegalText(text)
  }

  ghost predicate LegalXmls(xs: seq<Xml>) { forall x :: x in xs ==> LegalXml(x) }

  ghost predicate LegalFrame(f: Frame) { (forall a :: a in f.attrs ==> LegalValue(a.1)) && LegalXmls(f.before) }

  lemma ReadAttrLegal(s: string)
    requires s != ""
    ensures ReadAttr(s).Attribute? ==> LegalValue(ReadAttr(s).value)
  {
  }

  lemma {:induction false} ReadAttrsLegal(s: string)
    ensures ReadAttrs(s).Attributes? ==> forall a :: a in ReadAttrs(s).attrs ==> LegalValue(a.1)
    decreases |s|
  {
    hide ReadAttr, LegalValue;
    if s != "" && s[0] == ' ' {
      ReadAttrLegal(s);
      if ReadAttr(s).Attribute? {
        ReadAttrsLegal(ReadAttr(s).rest);
      }
    }
  }

  lemma TextLegal(s: string, content: seq<Xml>)
    requires LegalXmls(content)
    ensures LegalXmls(content + [Chars(Run(s, "<&"))])
  {
  }

  lemma ClosedLegal(f: Frame, content: seq<Xml>, tag: string)
    requires LegalFrame(f) && LegalXmls(content)
    ensures LegalXmls(f.before + [Tagged(tag, f.attrs, content)])
  {
  }

  lemma {:induction false} ParseLegal(s: string, content: seq<Xml>, stack: seq<Frame>)
    requires LegalXmls(content) && forall f :: f in stack ==> LegalFrame(f)
    ensures Parse(s, content, stack).Some? ==> LegalXmls(Parse(s, content, stack).value)
    decreases |s|
  {
    hide ReadAttrs, LegalValue, LegalXml, LegalFrame, LegalXmls, Run, Blank;
    if s == "" {
    } else if s[0] != '<' {
      var text := Run(s, "<&");
      if text != "" {
        TextLegal(s, content);
        ParseLegal(s[|text|..], if Blank(text) then content else content + [Chars(text)], stack);
      }
    } else if |s| > 1 && s[1] == '/' {
      var tag := Run(s[2..], ">");
      if 2 + |tag| < |s| && stack != [] {
        assert stack[0] in stack;
        ClosedLegal(stack[0], content, tag);
        ParseLegal(s[3 + |tag|..], stack[0].before + [Tagged(tag, stack[0].attrs, content)], stack[1..]);
      }
    } else {
      TagLegal(s, content, stack);
    }
  }

  lemma {:induction false} TagLegal(s: string, content: seq<Xml>, stack: seq<Frame>)
    requires LegalXmls(content) && forall f :: f in stack ==> LegalFrame(f)
    requires s != "" && s[0] == '<' && !(|s| > 1 && s[1] == '/')
    ensures Parse(s, content, stack).Some? ==> LegalXmls(Parse(s, content, stack).value)
    decreases |s|, 0
  {
    hide ReadAttrs, LegalValue;
    var tag := Run(s[1..], " />");
    var a := ReadAttrs(s[1 + |tag|..]);
    ReadAttrsLegal(s[1 + |tag|..]);
    if a.Attributes? && a.rest != "" {
      if a.rest[0] == '>' {
        ParseLegal(a.rest[1..], [], [Frame(tag, a.attrs, content)] + stack);
      } else if |a.rest| > 1 {
        ParseLegal(a.rest[2..], content + [Tagged(tag, a.attrs, [])], stack);
      }
    }
  }

  lemma {:induction false} BareLegal(e: Element)
    ensures LegalXml(Bare(e)) <==> Legal(e)
    decreases e
  {
    match e
    case Element(_, _, attrs, children, _) => BareAllLegal(children);
    case Description(level, lang, text) => DescriptionLegal(level, lang, text);
  }

  lemma DescriptionLegal(level: nat, lang: Option<string>, text: string)
    ensures LegalXml(Bare(Description(level, lang, text))) <==> Legal(Description(level, lang, text))
  {
    var x := Bare(Description(level, lang, text));
    assert (forall a :: a in x.attrs ==> LegalValue(a.1)) <==> (lang.Some? ==> LegalValue(lang.value)) by {
      if lang.Some? && lang.value != "" {
        assert ("language", lang.value) in x.attrs;
      }
    }
    if Blank(text) {
      BlankIsLegal(text);
    } else {
      assert Chars(text) in x.content;
    }
  }

  lemma {:induction false} BareAllLegal(es: seq<Element>)
    ensures LegalXmls(BareAll(es)) <==> LegalAll(es)
    decreases es
  {
    if es != [] {
      BareLegal(es[0]);
      BareAllLegal(es[1..]);
      hide Bare, LegalXml, Legal;
      assert forall x :: x in BareAll(es) <==> x == Bare(es[0]) || x in BareAll(es[1..]);
    }
  }

  /** The text of an element reads back to the element exactly when it holds nothing that would have to be escaped. */
  lemma ReadsBackExactly(e: Element)
    requires Formed(e)
    ensures Read(Serialise("", e)) == Some([Bare(e)]) <==> Legal(e)
  {
    var s := Serialise("", e);
    if Legal(e) {
      ElementBack(e, "", [], []);
      assert s + "" == s && [] + [Bare(e)] == [Bare(e)];
    }
    hide Parse, Serialise, Bare, Legal;
    ParseLegal(s, [], []);
    BareLegal(e);
    assert Bare(e) in [Bare(e)];
  }

  /* ---- The document ---- */

  // Names, types and descriptions that need no escaping.
  predicate LegalMember(d: MemberDef) {
    && LegalValue(d.name)
    && if d.PropertyDef? then LegalValue(d.kind)
       else forall a :: a in d.args ==> LegalValue(a.name) && LegalValue(a.kind)
  }

  predicate LegalInterface(d: InterfaceDef) { LegalValue(d.name) && forall m :: m in d.members ==> LegalMember(m) }

  predicate LegalNote(description: Option<string>, lang: Option<string>) {
    description.Some? ==> LegalText(description.value) && (lang.Some? ==> LegalValue(lang.value))
  }

  ghost predicate LegalEnv(env: Env) { forall i, m, a :: LegalNote(env.lookup(i, m, a), env.lang) }

  // The elements are formed, and legal if what they are made from is.
  ghost predicate Good(es: seq<Element>, legal: bool) { FormedAll(es) && (legal ==> LegalAll(es)) }

  lemma {:induction false} GoodConcat(a: seq<Element>, b: seq<Element>, legal: bool)
    requires Good(a, legal) && Good(b, legal)
    ensures Good(a + b, legal)
    decreases |a|
  {
    hide Formed, Legal;
    if a == [] {
      assert a + b == b;
    } else {
      GoodConcat(a[1..], b, legal);
      assert (a + b)[1..] == a[1..] + b;
    }
  }

  lemma GoodOne(e: Element, legal: bool)
    ensures Good([e], legal) <==> Formed(e) && (legal ==> Legal(e))
  {
    hide Formed, Legal;
    assert Good([e][1..], legal);
  }

  lemma GoodAbout(level: nat, description: Option<string>, lang: Option<string>)
    ensures Good(About(level, description, lang), LegalNote(description, lang))
  {
    if description.Some? {
      GoodOne(Description(level, lang, description.value), LegalNote(description, lang));
    }
  }

  // An element is good if its names are simple, its values legal and its children good.
  lemma GoodElement(e: Element, legal: bool)
    requires e.Element? && Simple(e.tag) && (e.empty ==> e.children == []) && Good(e.children, legal)
    requires forall a :: a in e.attrs ==> Simple(a.0) && (legal ==> LegalValue(a.1))
    ensures Good([e], legal)
  {
    hide Simple, LegalValue;
    GoodOne(e, legal);
  }

  lemma GoodArg(arg: Arg, isMethod: bool, description: Option<string>, lang: Option<string>)
    ensures Good([ArgTree(arg, isMethod, description, lang)],
                 LegalValue(arg.name) && LegalValue(arg.kind) && LegalNote(description, lang))
  {
    SimpleTags();
    SimpleKeys();
    LegalWords();
    GoodAbout(2, description, lang);
    hide Simple, LegalValue, Good, LegalNote;
    var legal := LegalValue(arg.name) && LegalValue(arg.kind) && LegalNote(description, lang);
    GoodLess(About(2, description, lang), LegalNote(description, lang), legal);
    GoodElement(ArgTree(arg, isMethod, description, lang), legal);
  }

  lemma GoodLess(es: seq<Element>, legal: bool, less: bool)
    requires Good(es, legal) && (less ==> legal)
    ensures Good(es, less)
  {
  }

  // The attribute values that the generator writes.
  lemma LegalWords()
    ensures LegalValue("in") && LegalValue("out") && LegalValue("true") && LegalValue("false") && LegalValue("off")
    ensures LegalValue("read") && LegalValue("write") && LegalValue("readwrite")
  {
    hide LegalValue;
    LegalLetters("in");
    LegalLetters("out");
    LegalLetters("true");
    LegalLetters("false");
    LegalLetters("off");
    LegalLetters("read");
    LegalLetters("write");
    LegalLetters("readwrite");
  }

  lemma LegalLetters(s: string)
    requires forall k :: 0 <= k < |s| ==> '.' == s[k] || 'A' <= s[k] <= 'Z' || 'a' <= s[k] <= 'z'
    ensures LegalValue(s)
  {
  }

  lemma {:induction false} GoodArgs(args: seq<Arg>, isMethod: bool, env: Env, i: nat, m: nat, a: nat)
    ensures Good(ArgTrees(args, isMethod, env, i, m, a),
                 LegalEnv(env) && forall g :: g in args ==> LegalValue(g.name) && LegalValue(g.kind))
    decreases |args|
  {
    var legal := LegalEnv(env) && forall g :: g in args ==> LegalValue(g.name) && LegalValue(g.kind);
    if args != [] {
      var description, more := env.lookup(i, m, (a + 1) % 0x100), ArgTrees(args[1..], isMethod, env, i, m, a + 1);
      GoodArg(args[0], isMethod, description, env.lang);
      GoodArgs(args[1..], isMethod, env, i, m, a + 1);
      assert legal ==> args[0] in args;
      hide Good, ArgTree, LegalValue, LegalNote;
      var one := [ArgTree(args[0], isMethod, description, env.lang)];
      GoodLess(one, LegalValue(args[0].name) && LegalValue(args[0].kind) && LegalNote(description, env.lang), legal);
      GoodLess(more, LegalEnv(env) && forall g :: g in args[1..] ==> LegalValue(g.name) && LegalValue(g.kind), legal);
      GoodConcat(one, more, legal);
    }
  }

  lemma GoodMember(d: MemberDef, env: Env, i: nat, m: nat)
    ensures Good([MemberTree(d, env, i, m)], LegalEnv(env) && LegalMember(d))
  {
    SimpleTags();
    SimpleKeys();
    LegalWords();
    hide Simple, ArgTrees, LegalValue, Good;
    var legal, description := LegalEnv(env) && LegalMember(d), env.lookup(i, m, 0);
    var about := About(1, description, env.lang);
    GoodAbout(1, description, env.lang);
    GoodLess(about, LegalNote(description, env.lang), legal);
    if !d.PropertyDef? {
      var args := ArgTrees(d.args, d.MethodDef?, env, i, m, 0);
      GoodArgs(d.args, d.MethodDef?, env, i, m, 0);
      GoodLess(args, LegalEnv(env) && forall g :: g in d.args ==> LegalValue(g.name) && LegalValue(g.kind), legal);
      GoodConcat(args, about, legal);
    }
    GoodElement(MemberTree(d, env, i, m), legal);
  }

  lemma {:induction false} GoodMembers(ds: seq<MemberDef>, env: Env, i: nat, m: nat)
    ensures Good(MemberTrees(ds, env, i, m), LegalEnv(env) && forall d :: d in ds ==> LegalMember(d))
    decreases |ds|
  {
    var legal := LegalEnv(env) && forall d :: d in ds ==> LegalMember(d);
    if ds != [] {
      var one, more := [MemberTree(ds[0], env, i, (m + 1) % 0x100)], MemberTrees(ds[1..], env, i, m + 1);
      GoodMember(ds[0], env, i, (m + 1) % 0x100);
      GoodMembers(ds[1..], env, i, m + 1);
      hide Good, MemberTree, LegalMember, LegalEnv;
      GoodLess(one, LegalEnv(env) && LegalMember(ds[0]), legal);
      GoodLess(more, LegalEnv(env) && forall d :: d in ds[1..] ==> LegalMember(d), legal);
      GoodConcat(one, more, legal);
    }
  }

  lemma GoodAnnotation(value: string)
    requires LegalValue(value)
    ensures Good([Annotation(value)], true)
  {
    SimpleTags();
    SimpleKeys();
    LegalLetters("org.alljoyn.Bus.Secure");
    hide Simple, LegalValue;
    GoodElement(Annotation(value), true);
  }

  lemma GoodInterface(d: InterfaceDef, env: Env, i: nat)
    ensures Good([InterfaceTree(d, env, i)], LegalEnv(env) && LegalInterface(d))
  {
    SimpleTags();
    SimpleKeys();
    LegalWords();
    hide Simple, About, MemberTrees, Annotation, Standard, LegalValue, Good, LegalMember;
    var legal, description := LegalEnv(env) && LegalInterface(d), env.lookup(i, 0, 0);
    var annotation :=
      if d.flag.None? || Standard(d) then []
      else [Annotation(if d.flag.value == '$' then "true" else "off")];
    var about, members := About(0, description, env.lang), MemberTrees(d.members, env, i, 0);
    GoodAnnotation("true");
    GoodAnnotation("off");
    GoodNothing(true);
    GoodAbout(0, description, env.lang);
    GoodMembers(d.members, env, i, 0);
    GoodLess(annotation, true, legal);
    GoodLess(about, LegalNote(description, env.lang), legal);
    GoodLess(members, LegalEnv(env) && forall m :: m in d.members ==> LegalMember(m), legal);
    GoodConcat(annotation, about, legal);
    GoodConcat(annotation + about, members, legal);
    GoodElement(InterfaceTree(d, env, i), legal);
  }

  lemma GoodNothing(legal: bool)
    ensures Good([], legal)
  {
  }

  lemma {:induction false} GoodInterfaces(ds: seq<InterfaceDef>, env: Env, i: nat)
    ensures Good(InterfaceTrees(ds, env, i), LegalEnv(env) && forall d :: d in ds ==> LegalInterface(d))
    decreases |ds|
  {
    var legal := LegalEnv(env) && forall d :: d in ds ==> LegalInterface(d);
    if ds != [] {
      var one, more := [InterfaceTree(ds[0], env, (i + 1) % 0x100)], InterfaceTrees(ds[1..], env, i + 1);
      GoodInterface(ds[0], env, (i + 1) % 0x100);
      GoodInterfaces(ds[1..], env, i + 1);
      hide Good, InterfaceTree, LegalInterface, LegalEnv;
      GoodLess(one, LegalEnv(env) && LegalInterface(ds[0]), legal);
      GoodLess(more, LegalEnv(env) && forall d :: d in ds[1..] ==> LegalInterface(d), legal);
      GoodConcat(one, more, legal);
    }
  }

  lemma GoodChild(name: string, description: Option<string>, lang: Option<string>)
    ensures Good([ChildTree(name, description, lang)], LegalValue(name) && LegalNote(description, lang))
  {
    SimpleTags();
    SimpleKeys();
    hide Simple, LegalValue, Good, LegalNote;
    var legal := LegalValue(name) && LegalNote(description, lang);
    GoodAbout(0, description, lang);
    GoodLess(About(0, description, lang), LegalNote(description, lang), legal);
    GoodElement(ChildTree(name, description, lang), legal);
  }

  lemma ChildLegal(parent: string, path: string)
    requires Child(parent, path).Some? && LegalValue(path)
    ensures LegalValue(Child(parent, path).value)
  {
    var p := if parent == "/" then "" else parent;
    var below, name := path[|p| + 1..], Child(parent, path).value;
    assert forall c :: c in below ==> c in path;
    assert forall k :: 0 <= k < |name| ==> name[k] == below[k];
  }

  ghost predicate LegalChildren(paths: seq<string>, about: nat -> Option<string>, lang: Option<string>) {
    (forall p :: p in paths ==> LegalValue(p)) && forall k :: LegalNote(about(k), lang)
  }

  lemma {:induction false} GoodChildren(parent: string, paths: seq<string>, k: nat, about: nat -> Option<string>,
                                        lang: Option<string>)
    requires k <= |paths|
    ensures Good(ChildTrees(parent, paths, k, about, lang), LegalChildren(paths, about, lang))
    decreases |paths| - k
  {
    hide Child, ChildTree, LegalValue, LegalNote;
    var legal := LegalChildren(paths, about, lang);
    if k < |paths| {
      GoodChildren(parent, paths, k + 1, about, lang);
      hide Good;
      var more := ChildTrees(parent, paths, k + 1, about, lang);
      if IsFirst(parent, paths, k) {
        var name := Child(parent, paths[k]).value;
        GoodChild(name, about(k), lang);
        if legal {
          ChildLegal(parent, paths[k]);
        }
        GoodLess([ChildTree(name, about(k), lang)], LegalValue(name) && LegalNote(about(k), lang), legal);
        GoodConcat([ChildTree(name, about(k), lang)], more, legal);
      } else {
        assert [] + more == more;
      }
    }
  }

  // Nothing that goes into the document of a node would have to be escaped.
  ghost predicate LegalInputs(path: string, description: Option<string>, ds: seq<InterfaceDef>, env: Env,
                              paths: seq<string>, about: nat -> Option<string>)
  {
    && LegalValue(path) && LegalNote(description, env.lang) && (forall d :: d in ds ==> LegalInterface(d))
    && LegalEnv(env) && LegalChildren(paths, about, env.lang)
  }

  lemma GoodDocument(path: string, secure: bool, description: Option<string>, ds: seq<InterfaceDef>, env: Env,
                     paths: seq<string>, about: nat -> Option<string>)
    ensures Formed(NodeTree(path, secure, description, ds, env, paths, about))
    ensures LegalInputs(path, description, ds, env, paths, about) ==>
              Legal(NodeTree(path, secure, description, ds, env, paths, about))
  {
    SimpleTags();
    SimpleKeys();
    LegalWords();
    hide Simple, About, InterfaceTrees, ChildTrees, Annotation, LegalValue, Good, LegalNote, LegalEnv, LegalChildren;
    hide LegalInterface, Formed, Legal;
    var legal := LegalInputs(path, description, ds, env, paths, about);
    var annotation := if secure then [Annotation("true")] else [];
    var note, ifaces, children := About(0, description, env.lang), InterfaceTrees(ds, env, 0),
        ChildTrees(path, paths, 0, about, env.lang);
    GoodAnnotation("true");
    GoodNothing(true);
    GoodAbout(0, description, env.lang);
    GoodInterfaces(ds, env, 0);
    GoodChildren(path, paths, 0, about, env.lang);
    GoodLess(annotation, true, legal);
    GoodLess(note, LegalNote(description, env.lang), legal);
    GoodLess(ifaces, LegalEnv(env) && forall d :: d in ds ==> LegalInterface(d), legal);
    GoodLess(children, LegalChildren(paths, about, env.lang), legal);
    GoodConcat(annotation, note, legal);
    GoodConcat(annotation + note, ifaces, legal);
    GoodConcat(annotation + note + ifaces, children, legal);
    var tree := NodeTree(path, secure, description, ds, env, paths, about);
    GoodElement(tree, legal);
    GoodOne(tree, legal);
  }

  /**
   The whole document, read character by character, is the node with its annotation, interfaces and children, exactly
   when no attribute value and no text in it holds a character that would have to be escaped; so if none of the names,
   types, languages and descriptions that it is made from does.
   */
  lemma DocumentReadsExactly(path: string, secure: bool, description: Option<string>, ds: seq<InterfaceDef>, env: Env,
                             paths: seq<string>, about: nat -> Option<string>)
    requires forall d :: d in ds ==> InterfaceOk(d)
    ensures var tree := NodeTree(path, secure, description, ds, env, paths, about);
            Read(Document("", Node(path, secure, description, EncodeInterfaces(ds)), env, paths, about).text)
              == Some([Bare(tree)])
            <==> Legal(tree)
    ensures LegalInputs(path, description, ds, env, paths, about) ==>
              Legal(NodeTree(path, secure, description, ds, env, paths, about))
  {
    hide *;
    DocumentIsTree("", path, secure, description, ds, env, paths, about);
    GoodDocument(path, secure, description, ds, env, paths, about);
    ReadsBackExactly(NodeTree(path, secure, description, ds, env, paths, about));
  }

  /** A node whose description holds a less-than sign does not read back. */
  lemma DescriptionBreaksDocument(env: Env, about: nat -> Option<string>)
    ensures var tree := NodeTree("/", false, Some("1 < 2"), [], env, [], about);
            Read(Document("", Node("/", false, Some("1 < 2"), []), env, [], about).text) != Some([Bare(tree)])
  {
    DocumentReadsExactly("/", false, Some("1 < 2"), [], env, [], about);
    var tree := NodeTree("/", false, Some("1 < 2"), [], env, [], about);
    hide Read, Document, Bare;
    assert "1 < 2"[2] == '<';
    assert tree.children == [Description(0, env.lang, "1 < 2")];
    assert !Legal(tree.children[0]);
  }
}
