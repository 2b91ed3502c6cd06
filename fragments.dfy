/**
 * The text templates of the writer, as specification functions of the tree: the
 * constant, property, argument and method fragments, the object file body, and the
 * output file name. Where the two revisions differ, the function takes the revision.
 */
module Fragments {
  import opened DocTree
  import opened Strings
  import opened Links
  import opened Signature

  /** `\t.. php:{kind}:: {name}\n\n\t\t{value}\n`, the form shared by constants and
      properties. */
  function Directive(kind: string, name: string, value: string): string
  {
    "\t.. php:" + kind + ":: " + name + "\n\n\t\t" + value + "\n"
  }

  /** `formatConstant`. */
  function ConstantText(c: Constant): string
  {
    Directive("const", c.name, c.value)
  }

  /** `formatProperty`. */
  function PropertyText(p: Property): string
  {
    Directive("attr", p.name, p.value)
  }

  /** `formatArgument`'s line, given the description it settled on. */
  function ArgumentText(typ: string, name: string, description: string): string
  {
    "\t\t:param " + typ + " " + name + ": " + description + "\n"
  }

  /** Where an argument's description comes from: in the newer revision, the first
      `param` tag of the method whose `variable` is the argument's name, formatted at
      depth 3, or "" when no tag matches; in the older one, the argument's own
      `description` child. */
  function ParamDescription(rev: Revision, m: Method, a: Argument): string
  {
    match rev
    case Plugin =>
      (match FirstParam(m.doc.tags, a.name)
       case Some(t) => FormatDescription(t.description, 3)
       case None => "")
    case Legacy => a.description
  }

  function ParamTexts(rev: Revision, m: Method): (r: seq<string>)
    ensures |r| == |m.arguments|
    ensures forall i :: 0 <= i < |r| ==>
              r[i] == ArgumentText(m.arguments[i].typ, m.arguments[i].name, ParamDescription(rev, m, m.arguments[i]))
  {
    seq(|m.arguments|, i requires 0 <= i < |m.arguments| =>
      ArgumentText(m.arguments[i].typ, m.arguments[i].name, ParamDescription(rev, m, m.arguments[i])))
  }

  /** A method description as each revision prepares it: formatted at depth 2, or
      with every line break turned into a space. */
  function MethodDescription(rev: Revision, s: string): string
  {
    match rev
    case Plugin => FormatDescription(s, 2)
    case Legacy => Flatten(s)
  }

  /** An object description: formatted at depth 1, or inserted raw. */
  function ObjectDescription(rev: Revision, s: string): string
  {
    match rev
    case Plugin => FormatDescription(s, 1)
    case Legacy => s
  }

  /** The node the return query yields: the first `return` tag in the newer revision;
      in the older one, whatever its mis-quoted query selects. */
  function ReturnTag(rev: Revision, m: Method): Option<Tag>
  {
    match rev
    case Plugin => FirstTag(m.doc.tags, "return")
    case Legacy => m.returnChildMatch
  }

  function ReturnBlock(t: Option<Tag>): string
  {
    match t
    case None => ""
    case Some(tag) => ("\t\t:returns: " + tag.description + "\n") + ("\t\t:rtype: " + tag.typ + "\n\n")
  }

  /** A description paragraph, emitted only when PHP finds the text true. */
  function DescBlock(indent: string, d: string): string
  {
    if Truthy(d) then indent + d + "\n\n" else ""
  }

  function MethodDirective(m: Method): string
  {
    if m.staticAttr == "true" then "\t.. php:staticmethod:: " else "\t.. php:method:: "
  }

  /** The name with its argument list, `name(args)`. */
  function MethodName(m: Method): string
  {
    m.name + "(" + ArgList(m.arguments) + ")"
  }

  /** The directive line and the descriptions. */
  function MethodHead(rev: Revision, m: Method): string
  {
    MethodDirective(m) + MethodName(m) + "\n\n"
    + DescBlock("\t\t", MethodDescription(rev, m.doc.description))
    + DescBlock("\t\t", MethodDescription(rev, m.doc.fullDescription))
  }

  /** `formatMethod`: the head, one line per argument, the return block and the
      extra blank line. */
  function MethodText(rev: Revision, m: Method): string
  {
    MethodHead(rev, m) + Join(ParamTexts(rev, m)) + ReturnBlock(ReturnTag(rev, m)) + "\n\n"
  }

  /** The package or subpackage an object is filed under: the description of the
      first such tag of its parent's doc-block, else "" (newer) or "NONE" (older). */
  function Placeholder(rev: Revision): string
  {
    match rev
    case Plugin => ""
    case Legacy => "NONE"
  }

  function ScopeValue(rev: Revision, o: DocObject, key: string): string
  {
    match FirstTag(o.scopeTags, key)
    case Some(t) => t.description
    case None => Placeholder(rev)
  }

  function PackageOf(rev: Revision, o: DocObject): string
  {
    ScopeValue(rev, o, "package")
  }

  function SubpackageOf(rev: Revision, o: DocObject): string
  {
    ScopeValue(rev, o, "subpackage")
  }

  /** The file name relative to the target: the newer revision leaves out a package
      or subpackage segment that PHP's `empty` finds empty ("" or "0"). */
  function FileName(rev: Revision, package: string, subpackage: string, name: string): string
  {
    match rev
    case Plugin =>
      (if Truthy(package) then package + "/" else "")
      + (if Truthy(subpackage) then subpackage + "/" else "")
      + name + ".rst"
    case Legacy => package + "/" + subpackage + "/" + name + ".rst"
  }

  function ObjectFileName(rev: Revision, o: DocObject): string
  {
    FileName(rev, PackageOf(rev, o), SubpackageOf(rev, o), o.name)
  }

  /** The title line and its underline of `mb_strlen(name)` dashes. */
  function Title(name: string): string
  {
    name + "\n" + (Repeat('-', |name|) + "\n\n")
  }

  function ObjectDirective(kind: ObjectKind, name: string): string
  {
    ".. php:" + KindName(kind) + ":: " + name + "\n\n"
  }

  /** The title, the directive and the descriptions. */
  function ObjectHead(rev: Revision, kind: ObjectKind, o: DocObject): string
  {
    Title(o.name) + ObjectDirective(kind, o.name)
    + DescBlock("\t", ObjectDescription(rev, o.doc.description))
    + DescBlock("\t", ObjectDescription(rev, o.doc.fullDescription))
  }

  function ConstantTexts(cs: seq<Constant>): (r: seq<string>)
    ensures |r| == |cs| && forall i :: 0 <= i < |cs| ==> r[i] == ConstantText(cs[i])
  {
    seq(|cs|, i requires 0 <= i < |cs| => ConstantText(cs[i]))
  }

  function PropertyTexts(ps: seq<Property>): (r: seq<string>)
    ensures |r| == |ps| && forall i :: 0 <= i < |ps| ==> r[i] == PropertyText(ps[i])
  {
    seq(|ps|, i requires 0 <= i < |ps| => PropertyText(ps[i]))
  }

  function MethodTexts(rev: Revision, ms: seq<Method>): (r: seq<string>)
    ensures |r| == |ms| && forall i :: 0 <= i < |ms| ==> r[i] == MethodText(rev, ms[i])
  {
    seq(|ms|, i requires 0 <= i < |ms| => MethodText(rev, ms[i]))
  }

  /** The member fragments in file order: constants, then properties, then methods,
      each in source order. */
  function MemberTexts(rev: Revision, o: DocObject): seq<string>
  {
    ConstantTexts(o.constants) + PropertyTexts(o.properties) + MethodTexts(rev, o.methods)
  }

  /** `formatObject`'s file contents: the head, then the constant, property and
      method fragments. */
  function ObjectText(rev: Revision, kind: ObjectKind, o: DocObject): string
  {
    ObjectHead(rev, kind, o) + Join(ConstantTexts(o.constants)) + Join(PropertyTexts(o.properties))
    + Join(MethodTexts(rev, o.methods))
  }

  /** A constant or property fragment determines its name and value, as long as
      the name holds no line break: the template loses nothing. */
  lemma DirectiveInjective(kind: string, n1: string, v1: string, n2: string, v2: string)
    requires '\n' !in n1 && '\n' !in n2
    requires Directive(kind, n1, v1) == Directive(kind, n2, v2)
    ensures n1 == n2 && v1 == v2
  {
    var head := "\t.. php:" + kind + ":: ";
    var r1 := "\n\t\t" + v1 + "\n";
    var r2 := "\n\t\t" + v2 + "\n";
    assert Directive(kind, n1, v1) == head + (n1 + "\n" + r1);
    assert Directive(kind, n2, v2) == head + (n2 + "\n" + r2);
    DropCommon(head, n1 + "\n" + r1, n2 + "\n" + r2);
    SplitAtFirstBreak(n1, r1, n2, r2);
    DropAround("\n\t\t", v1, v2, "\n");
  }

  lemma DropCommon(head: string, t1: string, t2: string)
    requires head + t1 == head + t2
    ensures t1 == t2
  {
    assert t1 == (head + t1)[|head|..];
  }

  lemma DropAround(p: string, v1: string, v2: string, q: string)
    requires p + v1 + q == p + v2 + q
    ensures v1 == v2
  {
    assert v1 == (p + v1 + q)[|p|..|p| + |v1|];
    assert v2 == (p + v2 + q)[|p|..|p| + |v2|];
  }

  /** Two names without a line break, each followed by one, split the same text in
      the same place. */
  lemma SplitAtFirstBreak(n1: string, r1: string, n2: string, r2: string)
    requires '\n' !in n1 && '\n' !in n2
    requires n1 + "\n" + r1 == n2 + "\n" + r2
    ensures n1 == n2 && r1 == r2
  {
    var t := n1 + "\n" + r1;
    NameEndsAtFirstBreak(n1, r1);
    NameEndsAtFirstBreak(n2, r2);
    assert |n1| == |n2| by {
      assert |n1| >= |n2| by { assert t[|n2|] == '\n'; }
      assert |n2| >= |n1| by { assert t[|n1|] == '\n'; }
    }
    assert n1 == t[..|n1|];
    assert n2 == t[..|n2|];
    assert r1 == t[|n1| + 1..];
    assert r2 == (n2 + "\n" + r2)[|n2| + 1..];
  }

  /** In a name followed by a line break, the first line break ends the name. */
  lemma NameEndsAtFirstBreak(n: string, rest: string)
    requires '\n' !in n
    ensures (n + "\n" + rest)[|n|] == '\n'
    ensures forall k :: 0 <= k < |n| ==> (n + "\n" + rest)[k] != '\n'
  {
    assert forall k :: 0 <= k < |n| ==> (n + "\n" + rest)[k] == n[k];
  }

  /** A constant fragment is never mistaken for a property fragment. */
  lemma ConstantIsNotProperty(c: Constant, p: Property)
    ensures ConstantText(c) != PropertyText(p)
  {
    assert ConstantText(c)[8] == 'c';
    assert PropertyText(p)[8] == 'a';
  }

  /** The directive is `php:staticmethod` exactly when the `static` attribute is
      the string "true", and `php:method` otherwise. */
  lemma StaticDirective(rev: Revision, m: Method)
    ensures m.staticAttr == "true" <==> StartsWith(MethodText(rev, m), "\t.. php:staticmethod:: ")
    ensures m.staticAttr != "true" <==> StartsWith(MethodText(rev, m), "\t.. php:method:: ")
  {
    MethodStartsWithDirective(rev, m);
    DirectivesExclusive(MethodText(rev, m), m.staticAttr == "true");
  }

  /** A text opening with one of the two method directives does not open with the
      other: they differ at their ninth character. */
  lemma DirectivesExclusive(t: string, isStatic: bool)
    requires StartsWith(t, if isStatic then "\t.. php:staticmethod:: " else "\t.. php:method:: ")
    ensures isStatic <==> StartsWith(t, "\t.. php:staticmethod:: ")
    ensures !isStatic <==> StartsWith(t, "\t.. php:method:: ")
  {
    if isStatic {
      assert t[8] == 's';
    } else {
      assert t[8] == 'm';
    }
  }

  lemma MethodStartsWithDirective(rev: Revision, m: Method)
    ensures StartsWith(MethodText(rev, m), MethodDirective(m))
  {
    var d := MethodDirective(m);
    var h1 := d + MethodName(m);
    var h2 := h1 + "\n\n";
    var h3 := h2 + DescBlock("\t\t", MethodDescription(rev, m.doc.description));
    var h4 := h3 + DescBlock("\t\t", MethodDescription(rev, m.doc.fullDescription));
    var t1 := h4 + Join(ParamTexts(rev, m));
    var t2 := t1 + ReturnBlock(ReturnTag(rev, m));
    PrefixConcat(d, MethodName(m));
    StartsWithAppend(h1, "\n\n", d);
    StartsWithAppend(h2, DescBlock("\t\t", MethodDescription(rev, m.doc.description)), d);
    StartsWithAppend(h3, DescBlock("\t\t", MethodDescription(rev, m.doc.fullDescription)), d);
    StartsWithAppend(h4, Join(ParamTexts(rev, m)), d);
    StartsWithAppend(t1, ReturnBlock(ReturnTag(rev, m)), d);
    StartsWithAppend(t2, "\n\n", d);
  }

  /** Every method fragment ends with the extra blank line. */
  lemma MethodEndsWithBlankLine(rev: Revision, m: Method)
    ensures |MethodText(rev, m)| >= 4
    ensures MethodText(rev, m)[|MethodText(rev, m)| - 2..] == "\n\n"
  {
  }

  /** The `i`-th parameter line is `\t\t:param {type} {name}: {desc}\n` for the
      `i`-th argument, and stands in the method fragment after those of the earlier
      arguments. */
  lemma ParamLineAt(rev: Revision, m: Method, i: nat)
    requires i < |m.arguments|
    ensures var lines := ParamTexts(rev, m);
            var a := m.arguments[i];
            var lo := |Join(lines[..i])|;
            lo + |lines[i]| <= |Join(lines)|
            && Join(lines)[lo..lo + |lines[i]|] == ArgumentText(a.typ, a.name, ParamDescription(rev, m, a))
  {
    JoinPartAt(ParamTexts(rev, m), i);
  }

  /** Newer revision: with no `param` tag for the argument, its description is "". */
  lemma ParamWithoutTag(m: Method, a: Argument)
    requires forall i :: 0 <= i < |m.doc.tags| ==> !(m.doc.tags[i].name == "param" && m.doc.tags[i].variable == a.name)
    ensures ParamDescription(Plugin, m, a) == ""
  {
  }

  /** Newer revision: the description comes from the first matching `param` tag,
      formatted at depth 3. */
  lemma ParamFromFirstTag(m: Method, a: Argument, k: nat)
    requires k < |m.doc.tags|
    requires m.doc.tags[k].name == "param" && m.doc.tags[k].variable == a.name
    requires forall j :: 0 <= j < k ==> !(m.doc.tags[j].name == "param" && m.doc.tags[j].variable == a.name)
    ensures ParamDescription(Plugin, m, a) == FormatDescription(m.doc.tags[k].description, 3)
  {
    var r := FirstParam(m.doc.tags, a.name);
    assert r == Some(m.doc.tags[k]) by {
      assert r.Some?;
      var i :| 0 <= i < |m.doc.tags| && m.doc.tags[i] == r.value
               && r.value.name == "param" && r.value.variable == a.name
               && forall j :: 0 <= j < i ==> !(m.doc.tags[j].name == "param" && m.doc.tags[j].variable == a.name);
      if i < k {
      } else if k < i {
        assert false;
      }
    }
  }

  /** Older revision: a method description keeps no line break. */
  lemma LegacyMethodDescriptionIsOneLine(s: string)
    ensures !HasBreak(MethodDescription(Legacy, s))
    ensures |MethodDescription(Legacy, s)| == |s|
  {
    FlattenShape(s);
  }

  /** Without a return node there is no return block; with one, its two lines carry
      the node's description and type. */
  lemma ReturnLines(rev: Revision, m: Method)
    ensures ReturnTag(rev, m).None? ==> ReturnBlock(ReturnTag(rev, m)) == ""
    ensures ReturnTag(rev, m).Some? ==>
              var t := ReturnTag(rev, m).value;
              ReturnBlock(ReturnTag(rev, m)) == "\t\t:returns: " + t.description + "\n\t\t:rtype: " + t.typ + "\n\n"
    ensures rev == Plugin ==> (ReturnTag(rev, m).Some? <==> exists i :: 0 <= i < |m.doc.tags| && m.doc.tags[i].name == "return")
  {
    if rev == Plugin {
      var r := FirstTag(m.doc.tags, "return");
      assert ReturnTag(rev, m) == r;
    }
  }

  /** An absent package or subpackage tag resolves to the placeholder: "" in the
      newer revision, "NONE" in the older. */
  lemma AbsentTagIsPlaceholder(rev: Revision, o: DocObject, key: string)
    requires forall i :: 0 <= i < |o.scopeTags| ==> o.scopeTags[i].name != key
    ensures ScopeValue(rev, o, key) == (if rev == Plugin then "" else "NONE")
  {
  }

  /** Newer revision: empty segments are left out, so an object with neither
      package nor subpackage is written straight to `name.rst`. */
  lemma PluginFileNameSegments(package: string, subpackage: string, name: string)
    ensures !Truthy(package) && !Truthy(subpackage) ==> FileName(Plugin, package, subpackage, name) == name + ".rst"
    ensures Truthy(package) && !Truthy(subpackage) ==> FileName(Plugin, package, subpackage, name) == package + "/" + name + ".rst"
    ensures !Truthy(package) && Truthy(subpackage) ==> FileName(Plugin, package, subpackage, name) == subpackage + "/" + name + ".rst"
    ensures Truthy(package) && Truthy(subpackage) ==> FileName(Plugin, package, subpackage, name) == FileName(Legacy, package, subpackage, name)
  {
  }

  /** The file starts with the name on a line of its own, underlined by exactly as
      many dashes as the name has characters. */
  lemma TitleUnderline(rev: Revision, kind: ObjectKind, o: DocObject)
    ensures 2 * |o.name| + 2 <= |ObjectText(rev, kind, o)|
    ensures ObjectText(rev, kind, o)[..2 * |o.name| + 2] == o.name + "\n" + Repeat('-', |o.name|) + "\n"
  {
    var title := Title(o.name);
    var h1 := title + ObjectDirective(kind, o.name);
    var h2 := h1 + DescBlock("\t", ObjectDescription(rev, o.doc.description));
    var h3 := h2 + DescBlock("\t", ObjectDescription(rev, o.doc.fullDescription));
    var t1 := h3 + Join(ConstantTexts(o.constants));
    var t2 := t1 + Join(PropertyTexts(o.properties));
    PrefixConcat(title, ObjectDirective(kind, o.name));
    StartsWithAppend(h1, DescBlock("\t", ObjectDescription(rev, o.doc.description)), title);
    StartsWithAppend(h2, DescBlock("\t", ObjectDescription(rev, o.doc.fullDescription)), title);
    StartsWithAppend(h3, Join(ConstantTexts(o.constants)), title);
    StartsWithAppend(t1, Join(PropertyTexts(o.properties)), title);
    StartsWithAppend(t2, Join(MethodTexts(rev, o.methods)), title);
    var t := ObjectText(rev, kind, o);
    assert t == t2 + Join(MethodTexts(rev, o.methods));
    TitleShape(o.name);
    assert t[..2 * |o.name| + 2] == t[..|title|][..2 * |o.name| + 2];
  }

  lemma TitleShape(name: string)
    ensures |Title(name)| == 2 * |name| + 3
    ensures Title(name)[..2 * |name| + 2] == name + "\n" + Repeat('-', |name|) + "\n"
  {
  }

  /** Member fragments follow the head: constants first, then properties, then
      methods, each in source order. */
  lemma MembersInOrder(rev: Revision, kind: ObjectKind, o: DocObject)
    ensures ObjectText(rev, kind, o) == ObjectHead(rev, kind, o) + Join(MemberTexts(rev, o))
  {
    var h := ObjectHead(rev, kind, o);
    var c := Join(ConstantTexts(o.constants));
    var p := Join(PropertyTexts(o.properties));
    var m := Join(MethodTexts(rev, o.methods));
    JoinAppend(ConstantTexts(o.constants) + PropertyTexts(o.properties), MethodTexts(rev, o.methods));
    JoinAppend(ConstantTexts(o.constants), PropertyTexts(o.properties));
    assert Join(MemberTexts(rev, o)) == c + p + m;
    Regroup(h, c, p, m);
  }
}
