/**
 * The parsed documentation tree the Sphinx writer walks, as values.
 *
 * The writer reads this tree through XPath queries; here every query result the
 * writer uses is a field or a sequence, in document order. Both revisions of the
 * writer read the same tree, so the datatypes are shared; `Revision` says which
 * revision's behaviour a function or method follows.
 */
module DocTree {

  datatype Option<T> = None | Some(value: T)

  /** Plugin: the newer revision (empty path segments, link rewriting, param-tag
      descriptions). Legacy: the older one ("NONE" placeholders, flattened method
      descriptions, argument descriptions from the argument itself). */
  datatype Revision = Plugin | Legacy

  /** A doc-block tag; its attributes are read as strings (absent ones read as ""). */
  datatype Tag = Tag(name: string, variable: string, description: string, typ: string)

  datatype DocBlock = DocBlock(description: string, fullDescription: string, tags: seq<Tag>)

  datatype Constant = Constant(name: string, value: string)

  datatype Property = Property(name: string, value: string)

  /** `description` is the argument's own `description` child, read by the older revision. */
  datatype Argument = Argument(name: string, typ: string, default: string, description: string)

  /** `staticAttr` is the raw value of the method's `static` attribute.
      `returnChildMatch` is what the older revision's return query selects: that query
      compares `@name` with a child element called `return` instead of the string
      "return", so it is an input of its own and normally `None`. */
  datatype Method = Method(
    name: string,
    staticAttr: string,
    doc: DocBlock,
    arguments: seq<Argument>,
    returnChildMatch: Option<Tag>)

  datatype ObjectKind = Interface | Class

  /** A class or interface. `scopeTags` are the tags of the doc-block of its parent
      node (the file), where the package and subpackage tags live. */
  datatype DocObject = DocObject(
    name: string,
    doc: DocBlock,
    scopeTags: seq<Tag>,
    constants: seq<Constant>,
    properties: seq<Property>,
    methods: seq<Method>)

  /** The results of the two top-level queries: every interface, then every class,
      that has a full name, in document order. */
  datatype Structure = Structure(interfaces: seq<DocObject>, classes: seq<DocObject>)

  function KindName(k: ObjectKind): string
  {
    match k
    case Interface => "interface"
    case Class => "class"
  }

  /** PHP's truth value of a string: only "" and "0" are false. */
  predicate Truthy(s: string)
  {
    s != "" && s != "0"
  }

  /** The first tag of `tags` called `name`. */
  function FirstTag(tags: seq<Tag>, name: string): (r: Option<Tag>)
    ensures r.None? <==> forall i :: 0 <= i < |tags| ==> tags[i].name != name
    ensures r.Some? ==> exists i :: 0 <= i < |tags| && tags[i] == r.value && r.value.name == name
                                    && forall j :: 0 <= j < i ==> tags[j].name != name
  {
    if |tags| == 0 then None
    else if tags[0].name == name then Some(tags[0])
    else
      var r := FirstTag(tags[1..], name);
      if r.Some? then
        ghost var i :| 0 <= i < |tags[1..]| && tags[1..][i] == r.value && r.value.name == name
                       && forall j :: 0 <= j < i ==> tags[1..][j].name != name;
        assert tags[i + 1] == r.value;
        r
      else r
  }

  /** The first `param` tag whose `variable` attribute equals `variable`. */
  function FirstParam(tags: seq<Tag>, variable: string): (r: Option<Tag>)
    ensures r.None? <==> forall i :: 0 <= i < |tags| ==> !(tags[i].name == "param" && tags[i].variable == variable)
    ensures r.Some? ==> exists i :: 0 <= i < |tags| && tags[i] == r.value
                                    && r.value.name == "param" && r.value.variable == variable
                                    && forall j :: 0 <= j < i ==> !(tags[j].name == "param" && tags[j].variable == variable)
  {
    if |tags| == 0 then None
    else if tags[0].name == "param" && tags[0].variable == variable then Some(tags[0])
    else
      var r := FirstParam(tags[1..], variable);
      if r.Some? then
        ghost var i :| 0 <= i < |tags[1..]| && tags[1..][i] == r.value
                       && r.value.name == "param" && r.value.variable == variable
                       && forall j :: 0 <= j < i ==> !(tags[1..][j].name == "param" && tags[1..][j].variable == variable);
        assert tags[i + 1] == r.value;
        r
      else r
  }
}
