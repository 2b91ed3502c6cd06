/**
 * The Sphinx writer object: its register of generated files and the effects of its
 * methods on the file system, modelled as the set of existing directories and the
 * map from file path to contents.
 *
 * `transform` formats every interface and then every class into its own `.rst` file
 * and registers it; it then sorts the register by package and writes `index.rst`
 * with a table of contents that lists every registered file.
 */
module SphinxWriter {
  import opened DocTree
  import opened Strings
  import opened Signature
  import opened Fragments
  import opened Catalog
  import opened FileSink

  /** The objects in the order `transform` visits them: interfaces, then classes. */
  function Tagged(kind: ObjectKind, os: seq<DocObject>): (r: seq<(ObjectKind, DocObject)>)
    ensures |r| == |os| && forall i :: 0 <= i < |os| ==> r[i] == (kind, os[i])
  {
    seq(|os|, i requires 0 <= i < |os| => (kind, os[i]))
  }

  function Objects(st: Structure): seq<(ObjectKind, DocObject)>
  {
    Tagged(Interface, st.interfaces) + Tagged(Class, st.classes)
  }

  /** The path handed to `file_force_contents` for an object. */
  function ObjectPath(rev: Revision, target: string, o: DocObject): string
  {
    target + "/" + ObjectFileName(rev, o)
  }

  function IndexPath(target: string): string
  {
    target + "/" + "index.rst"
  }

  /** The register key of an object: package, subpackage and name. */
  function EntryOf(rev: Revision, o: DocObject): Entry
  {
    Entry(PackageOf(rev, o), SubpackageOf(rev, o), o.name)
  }

  /** The register after the objects have been registered in order. */
  function RegisterAll(c: Register, rev: Revision, objs: seq<(ObjectKind, DocObject)>): Register
  {
    if |objs| == 0 then c
    else
      var o := objs[|objs| - 1].1;
      Put(RegisterAll(c, rev, objs[..|objs| - 1]), PackageOf(rev, o), SubpackageOf(rev, o), o.name, ObjectFileName(rev, o))
  }

  /** The file an object's page goes to, and its text. */
  function Page(rev: Revision, target: string, obj: (ObjectKind, DocObject)): (string, string)
  {
    ("/" + ObjectPath(rev, target, obj.1), ObjectText(rev, obj.0, obj.1))
  }

  /** Every object's page, in visiting order. */
  function Pages(rev: Revision, target: string, objs: seq<(ObjectKind, DocObject)>): (r: seq<(string, string)>)
    ensures |r| == |objs|
    ensures forall i :: 0 <= i < |objs| ==> r[i] == Page(rev, target, objs[i])
  {
    seq(|objs|, i requires 0 <= i < |objs| => Page(rev, target, objs[i]))
  }

  /** The files after each page has been written, in order. */
  function WriteAll(files: map<string, string>, pages: seq<(string, string)>): map<string, string>
  {
    if |pages| == 0 then files
    else WriteAll(files, pages[..|pages| - 1])[pages[|pages| - 1].0 := pages[|pages| - 1].1]
  }

  /** The directories created on the way to each object's file. */
  function DirsAll(rev: Revision, target: string, objs: seq<(ObjectKind, DocObject)>): set<string>
  {
    if |objs| == 0 then {}
    else DirsAll(rev, target, objs[..|objs| - 1]) + SlashPrefixes(ObjectPath(rev, target, objs[|objs| - 1].1))
  }

  /** Visiting `a` and then `b` registers what visiting `a + b` does. */
  lemma {:induction false} RegisterAppend(c: Register, rev: Revision, a: seq<(ObjectKind, DocObject)>, b: seq<(ObjectKind, DocObject)>)
    ensures RegisterAll(c, rev, a + b) == RegisterAll(RegisterAll(c, rev, a), rev, b)
  {
    if |b| == 0 {
      assert a + b == a;
    } else {
      var n := |b| - 1;
      assert (a + b)[..|a + b| - 1] == a + b[..n];
      RegisterAppend(c, rev, a, b[..n]);
    }
  }

  /** Writing `a` and then `b` is writing `a + b`. */
  lemma {:induction false} WriteAppend(files: map<string, string>, a: seq<(string, string)>, b: seq<(string, string)>)
    ensures WriteAll(files, a + b) == WriteAll(WriteAll(files, a), b)
  {
    if |b| == 0 {
      assert a + b == a;
    } else {
      var n := |b| - 1;
      assert (a + b)[..|a + b| - 1] == a + b[..n];
      WriteAppend(files, a, b[..n]);
    }
  }

  lemma WriteStep(files: map<string, string>, pages: seq<(string, string)>, k: nat)
    requires k < |pages|
    ensures WriteAll(files, pages[..k + 1]) == WriteAll(files, pages[..k])[pages[k].0 := pages[k].1]
  {
    assert pages[..k + 1][..k] == pages[..k];
  }

  /** Visiting `a` and then `b` creates the directories visiting `a + b` does. */
  lemma {:induction false} DirsAppend(rev: Revision, target: string, a: seq<(ObjectKind, DocObject)>, b: seq<(ObjectKind, DocObject)>)
    ensures DirsAll(rev, target, a + b) == DirsAll(rev, target, a) + DirsAll(rev, target, b)
  {
    if |b| == 0 {
      assert a + b == a;
    } else {
      var n := |b| - 1;
      assert (a + b)[..|a + b| - 1] == a + b[..n];
      DirsAppend(rev, target, a, b[..n]);
    }
  }

  /** Visiting one more object extends the register, the files and the
      directories by that object's share. */
  lemma VisitStep(c: Register, rev: Revision, target: string,
                  objs: seq<(ObjectKind, DocObject)>, k: nat, kind: ObjectKind, o: DocObject)
    requires k < |objs| && objs[k] == (kind, o)
    ensures RegisterAll(c, rev, objs[..k + 1])
            == Put(RegisterAll(c, rev, objs[..k]), PackageOf(rev, o), SubpackageOf(rev, o), o.name, ObjectFileName(rev, o))
    ensures DirsAll(rev, target, objs[..k + 1]) == DirsAll(rev, target, objs[..k]) + SlashPrefixes(ObjectPath(rev, target, o))
  {
    assert objs[..k + 1][..k] == objs[..k];
  }

  class Writer {
    const rev: Revision
    /** The transformer's target directory. */
    const target: string
    /** `$packages`. */
    var packages: Register
    /** The directories that exist. */
    var dirs: set<string>
    /** The contents of each file written, by path. */
    var files: map<string, string>

    constructor(rev: Revision, target: string, dirs: set<string>, files: map<string, string>)
      ensures this.rev == rev && this.target == target
      ensures this.packages == [] && this.dirs == dirs && this.files == files
    {
      this.rev := rev;
      this.target := target;
      this.packages := [];
      this.dirs := dirs;
      this.files := files;
    }

    /** `file_force_contents`: every directory on the way is created, and the file
        lands at the path with one more slash in front. */
    method ForceContents(path: string, contents: string)
      modifies this
      ensures packages == old(packages)
      ensures dirs == old(dirs) + SlashPrefixes(path)
      ensures files == old(files)["/" + path := contents]
    {
      var parts := Explode(path);
      var file := parts[|parts| - 1];
      var dirParts := parts[..|parts| - 1];
      var dir := "";
      var i := 0;
      while i < |dirParts|
        invariant 0 <= i <= |dirParts|
        invariant dir == Slashed(dirParts[..i])
        invariant dirs == old(dirs) + Visited(dirParts[..i])
        invariant packages == old(packages) && files == old(files)
      {
        assert dirParts[..i + 1][..i] == dirParts[..i];
        dir := dir + "/" + dirParts[i];
        if dir !in dirs {
          dirs := dirs + {dir};
        }
        i := i + 1;
      }
      assert dirParts[..i] == dirParts;
      VisitedAreSlashPrefixes(path);
      WriteTargetRooted(path);
      files := files[dir + "/" + file := contents];
    }

    /** The start of `formatMethod`: the directive with the argument list and each
        description that is not empty. */
    method RenderMethodHead(m: Method) returns (contents: string)
      ensures contents == MethodHead(rev, m)
    {
      var args := FormatArgs(m.arguments);
      var methodName := m.name + "(" + args + ")";
      var description := MethodDescription(rev, m.doc.description);
      var fullDescription := MethodDescription(rev, m.doc.fullDescription);
      if m.staticAttr == "true" {
        contents := "\t.. php:staticmethod:: " + methodName + "\n\n";
      } else {
        contents := "\t.. php:method:: " + methodName + "\n\n";
      }
      contents := contents + DescBlock("\t\t", description);
      contents := contents + DescBlock("\t\t", fullDescription);
    }

    /** `formatMethod`'s argument loop: one `:param` line per argument, appended
        in order. */
    method AppendParams(m: Method, head: string) returns (contents: string)
      ensures contents == head + Join(ParamTexts(rev, m))
    {
      ghost var lines := ParamTexts(rev, m);
      contents := head;
      var i := 0;
      while i < |m.arguments|
        invariant 0 <= i <= |m.arguments|
        invariant contents == head + Join(lines[..i])
      {
        var a := m.arguments[i];
        var line := ArgumentText(a.typ, a.name, ParamDescription(rev, m, a));
        JoinStep(lines, i);
        Associate(head, Join(lines[..i]), line);
        contents := contents + line;
        i := i + 1;
      }
      assert lines[..i] == lines;
    }

    /** `formatMethod`: the directive with the argument list, the descriptions,
        one `:param` line per argument and the return block. */
    method FormatMethod(m: Method) returns (text: string)
      ensures text == MethodText(rev, m)
    {
      var contents := RenderMethodHead(m);
      contents := AppendParams(m, contents);
      var ret := ReturnTag(rev, m);
      if ret.Some? {
        ghost var params := contents;
        var returnsLine := "\t\t:returns: " + ret.value.description + "\n";
        var rtypeLine := "\t\t:rtype: " + ret.value.typ + "\n\n";
        contents := contents + returnsLine;
        contents := contents + rtypeLine;
        assert contents == params + (returnsLine + rtypeLine);
      }
      text := contents + "\n\n";
    }

    /** `formatObject`: registers the object's file, then writes its text. */
    method FormatObject(o: DocObject, kind: ObjectKind)
      modifies this
      ensures packages == Put(old(packages), PackageOf(rev, o), SubpackageOf(rev, o), o.name, ObjectFileName(rev, o))
      ensures dirs == old(dirs) + SlashPrefixes(ObjectPath(rev, target, o))
      ensures files == old(files)["/" + ObjectPath(rev, target, o) := ObjectText(rev, kind, o)]
    {
      var package := PackageOf(rev, o);
      var subpackage := SubpackageOf(rev, o);
      var filename := FileName(rev, package, subpackage, o.name);
      packages := Put(packages, package, subpackage, o.name, filename);
      var contents := RenderObject(o, kind);
      ForceContents(ObjectPath(rev, target, o), contents);
    }

    /** The head of an object's page: the name underlined with dashes, the
        directive, and each description that is not empty. */
    method RenderHead(o: DocObject, kind: ObjectKind) returns (contents: string)
      ensures contents == ObjectHead(rev, kind, o)
    {
      var name := o.name;
      var description := ObjectDescription(rev, o.doc.description);
      var fullDescription := ObjectDescription(rev, o.doc.fullDescription);
      contents := name + "\n";
      contents := contents + (Repeat('-', |name|) + "\n\n");
      contents := contents + (".. php:" + KindName(kind) + ":: " + name + "\n\n");
      contents := contents + DescBlock("\t", description);
      contents := contents + DescBlock("\t", fullDescription);
    }

    /** The text `formatObject` assembles: the title, the directive, the
        descriptions, then every constant, every property and every method. */
    method RenderObject(o: DocObject, kind: ObjectKind) returns (contents: string)
      ensures contents == ObjectText(rev, kind, o)
    {
      contents := RenderHead(o, kind);
      contents := AppendConstants(contents, o.constants);
      contents := AppendProperties(contents, o.properties);
      contents := AppendMethods(contents, o.methods);
    }

    /** `formatObject`'s constant loop: each constant's fragment, in order. */
    method AppendConstants(head: string, cs: seq<Constant>) returns (contents: string)
      ensures contents == head + Join(ConstantTexts(cs))
    {
      contents := head;
      var i := 0;
      while i < |cs|
        invariant 0 <= i <= |cs|
        invariant contents == head + Join(ConstantTexts(cs)[..i])
      {
        JoinStep(ConstantTexts(cs), i);
        Associate(head, Join(ConstantTexts(cs)[..i]), ConstantText(cs[i]));
        contents := contents + ConstantText(cs[i]);
        i := i + 1;
      }
      assert ConstantTexts(cs)[..i] == ConstantTexts(cs);
    }

    /** `formatObject`'s property loop: each property's fragment, in order. */
    method AppendProperties(head: string, ps: seq<Property>) returns (contents: string)
      ensures contents == head + Join(PropertyTexts(ps))
    {
      contents := head;
      var i := 0;
      while i < |ps|
        invariant 0 <= i <= |ps|
        invariant contents == head + Join(PropertyTexts(ps)[..i])
      {
        JoinStep(PropertyTexts(ps), i);
        Associate(head, Join(PropertyTexts(ps)[..i]), PropertyText(ps[i]));
        contents := contents + PropertyText(ps[i]);
        i := i + 1;
      }
      assert PropertyTexts(ps)[..i] == PropertyTexts(ps);
    }

    /** `formatObject`'s method loop: each method's fragment from `formatMethod`,
        in order. */
    method AppendMethods(head: string, ms: seq<Method>) returns (contents: string)
      ensures contents == head + Join(MethodTexts(rev, ms))
    {
      contents := head;
      var i := 0;
      while i < |ms|
        invariant 0 <= i <= |ms|
        invariant contents == head + Join(MethodTexts(rev, ms)[..i])
      {
        JoinStep(MethodTexts(rev, ms), i);
        Associate(head, Join(MethodTexts(rev, ms)[..i]), MethodText(rev, ms[i]));
        var text := FormatMethod(ms[i]);
        contents := contents + text;
        i := i + 1;
      }
      assert MethodTexts(rev, ms)[..i] == MethodTexts(rev, ms);
    }

    /** The table of contents built from the (already sorted) register: one row per
        entry, package by package, subpackage by subpackage, in register order. */
    method RenderToc() returns (toc: string)
      ensures toc == Toc(packages)
    {
      toc := TocHeader;
      var i := 0;
      while i < |packages|
        invariant 0 <= i <= |packages|
        invariant toc == TocHeader + Rows(Entries(packages[..i]))
      {
        ghost var before := toc;
        toc := AppendSubpackages(toc, packages[i].0, packages[i].1);
        PackageRowStep(packages, i);
        Associate(TocHeader, Rows(Entries(packages[..i])), Rows(SubpackageEntries(packages[i].0, packages[i].1)));
        i := i + 1;
      }
      assert packages[..i] == packages;
    }

    /** The rows of one package, appended subpackage by subpackage. */
    method AppendSubpackages(toc: string, package: string, subpackages: Subpackages) returns (r: string)
      ensures r == toc + Rows(SubpackageEntries(package, subpackages))
    {
      r := toc;
      var j := 0;
      while j < |subpackages|
        invariant 0 <= j <= |subpackages|
        invariant r == toc + Rows(SubpackageEntries(package, subpackages[..j]))
      {
        r := AppendElements(r, package, subpackages[j].0, subpackages[j].1);
        SubpackageRowStep(package, subpackages, j);
        Associate(toc, Rows(SubpackageEntries(package, subpackages[..j])), Rows(ElementEntries(package, subpackages[j].0, subpackages[j].1)));
        j := j + 1;
      }
      assert subpackages[..j] == subpackages;
    }

    /** The rows of one subpackage: `package/subpackage/file` for each element. */
    method AppendElements(toc: string, package: string, subpackage: string, elements: Elements) returns (r: string)
      ensures r == toc + Rows(ElementEntries(package, subpackage, elements))
    {
      r := toc;
      var k := 0;
      while k < |elements|
        invariant 0 <= k <= |elements|
        invariant r == toc + Rows(ElementEntries(package, subpackage, elements[..k]))
      {
        ElementRowStep(package, subpackage, elements, k);
        ghost var row := "\n\t" + package + "/" + subpackage + "/" + elements[k].0;
        r := r + "\n\t" + package + "/" + subpackage + "/" + elements[k].0;
        assert r == toc + Rows(ElementEntries(package, subpackage, elements[..k])) + row;
        Associate(toc, Rows(ElementEntries(package, subpackage, elements[..k])), row);
        k := k + 1;
      }
      assert elements[..k] == elements;
    }

    /** `transform`: every interface and then every class is formatted and
        registered, the register is sorted by package, and the index is written. */
    method Transform(st: Structure)
      modifies this
      ensures packages == KSort(RegisterAll([], rev, Objects(st)))
      ensures dirs == old(dirs) + DirsAll(rev, target, Objects(st)) + SlashPrefixes(IndexPath(target))
      ensures files == WriteAll(old(files), Pages(rev, target, Tagged(Interface, st.interfaces)) + Pages(rev, target, Tagged(Class, st.classes)))
                         ["/" + IndexPath(target) := Toc(packages)]
    {
      packages := [];
      FormatEach(Interface, st.interfaces);
      FormatEach(Class, st.classes);
      RegisterAppend([], rev, Tagged(Interface, st.interfaces), Tagged(Class, st.classes));
      WriteAppend(old(files), Pages(rev, target, Tagged(Interface, st.interfaces)), Pages(rev, target, Tagged(Class, st.classes)));
      DirsAppend(rev, target, Tagged(Interface, st.interfaces), Tagged(Class, st.classes));
      WriteIndex();
    }

    /** One of `transform`'s two loops: each object of the list is formatted in
        turn. */
    method FormatEach(kind: ObjectKind, os: seq<DocObject>)
      modifies this
      ensures packages == RegisterAll(old(packages), rev, Tagged(kind, os))
      ensures dirs == old(dirs) + DirsAll(rev, target, Tagged(kind, os))
      ensures files == WriteAll(old(files), Pages(rev, target, Tagged(kind, os)))
    {
      ghost var objs := Tagged(kind, os);
      ghost var pages := Pages(rev, target, objs);
      var i := 0;
      while i < |os|
        invariant 0 <= i <= |os|
        invariant packages == RegisterAll(old(packages), rev, objs[..i])
        invariant dirs == old(dirs) + DirsAll(rev, target, objs[..i])
        invariant files == WriteAll(old(files), pages[..i])
      {
        VisitStep(old(packages), rev, target, objs, i, kind, os[i]);
        WriteStep(old(files), pages, i);
        assert pages[i] == Page(rev, target, (kind, os[i]));
        FormatObject(os[i], kind);
        i := i + 1;
      }
      assert objs[..i] == objs && pages[..i] == pages;
    }

    /** The end of `transform`: the register is sorted by package and the table of
        contents is written to `index.rst` in the target directory. */
    method WriteIndex()
      modifies this
      ensures packages == KSort(old(packages))
      ensures dirs == old(dirs) + SlashPrefixes(IndexPath(target))
      ensures files == old(files)["/" + IndexPath(target) := Toc(packages)]
    {
      packages := KSort(packages);
      var toc := RenderToc();
      ForceContents(IndexPath(target), toc);
    }
  }

  lemma ElementRowStep(p: string, s: string, elements: Elements, k: nat)
    requires k < |elements|
    ensures Rows(ElementEntries(p, s, elements[..k + 1]))
            == Rows(ElementEntries(p, s, elements[..k])) + ("\n\t" + p + "/" + s + "/" + elements[k].0)
  {
    var es := ElementEntries(p, s, elements[..k + 1]);
    assert es[..k] == ElementEntries(p, s, elements[..k]);
  }

  lemma SubpackageRowStep(p: string, subs: Subpackages, j: nat)
    requires j < |subs|
    ensures Rows(SubpackageEntries(p, subs[..j + 1]))
            == Rows(SubpackageEntries(p, subs[..j])) + Rows(ElementEntries(p, subs[j].0, subs[j].1))
  {
    assert subs[..j + 1][..j] == subs[..j];
    RowsAppend(SubpackageEntries(p, subs[..j]), ElementEntries(p, subs[j].0, subs[j].1));
  }

  lemma PackageRowStep(c: Register, i: nat)
    requires i < |c|
    ensures Rows(Entries(c[..i + 1])) == Rows(Entries(c[..i])) + Rows(SubpackageEntries(c[i].0, c[i].1))
  {
    assert c[..i + 1][..i] == c[..i];
    RowsAppend(Entries(c[..i]), SubpackageEntries(c[i].0, c[i].1));
  }

  // ---------------------------------------------------------------------------
  // What `transform` produces

  /** Some visited object has this register key. */
  predicate Registers(rev: Revision, objs: seq<(ObjectKind, DocObject)>, e: Entry)
  {
    exists x :: x in objs && EntryOf(rev, x.1) == e
  }

  lemma RegistersSnoc(rev: Revision, objs: seq<(ObjectKind, DocObject)>, e: Entry)
    requires |objs| > 0
    ensures Registers(rev, objs, e)
            <==> Registers(rev, objs[..|objs| - 1], e) || EntryOf(rev, objs[|objs| - 1].1) == e
  {
    var n := |objs| - 1;
    assert objs == objs[..n] + [objs[n]];
    if Registers(rev, objs, e) {
      var x :| x in objs && EntryOf(rev, x.1) == e;
      assert x in objs[..n] || x == objs[n];
    }
    if Registers(rev, objs[..n], e) {
      var x :| x in objs[..n] && EntryOf(rev, x.1) == e;
      assert x in objs;
    }
  }

  /** After the visit, a key is registered exactly when some visited object has it,
      and its file is the one that key names; other keys keep what they had. */
  lemma {:induction false} RegisterAllLookup(c: Register, rev: Revision, objs: seq<(ObjectKind, DocObject)>, e: Entry)
    ensures Lookup(RegisterAll(c, rev, objs), e.package, e.subpackage, e.name)
            == if Registers(rev, objs, e) then Some(FileName(rev, e.package, e.subpackage, e.name))
               else Lookup(c, e.package, e.subpackage, e.name)
  {
    if |objs| > 0 {
      var n := |objs| - 1;
      var o := objs[n].1;
      RegisterAllLookup(c, rev, objs[..n], e);
      RegistersSnoc(rev, objs, e);
      PutLookup(RegisterAll(c, rev, objs[..n]), PackageOf(rev, o), SubpackageOf(rev, o), o.name, ObjectFileName(rev, o),
                e.package, e.subpackage, e.name);
    }
  }

  /** The register keeps the shape of a PHP array at every level. */
  lemma {:induction false} RegisterAllValid(c: Register, rev: Revision, objs: seq<(ObjectKind, DocObject)>)
    requires Valid(c)
    ensures Valid(RegisterAll(c, rev, objs))
  {
    if |objs| > 0 {
      var n := |objs| - 1;
      var o := objs[n].1;
      RegisterAllValid(c, rev, objs[..n]);
      PutValid(RegisterAll(c, rev, objs[..n]), PackageOf(rev, o), SubpackageOf(rev, o), o.name, ObjectFileName(rev, o));
    }
  }

  /** The table of contents lists an entry exactly when some interface or class was
      registered under it. */
  lemma TocListsVisited(rev: Revision, objs: seq<(ObjectKind, DocObject)>, e: Entry)
    ensures e in Entries(KSort(RegisterAll([], rev, objs))) <==> Registers(rev, objs, e)
  {
    var c := RegisterAll([], rev, objs);
    RegisterAllValid([], rev, objs);
    KSortEntries(c, e);
    EntriesAreRegistered(c, e);
    RegisterAllLookup([], rev, objs, e);
  }

  /** No row of the table of contents is repeated, however often an object with
      the same key was formatted. */
  lemma TocRowsDistinct(rev: Revision, objs: seq<(ObjectKind, DocObject)>)
    ensures var es := Entries(KSort(RegisterAll([], rev, objs)));
            forall i, j :: 0 <= i < j < |es| ==> es[i] != es[j]
  {
    RegisterAllValid([], rev, objs);
    KSortValid(RegisterAll([], rev, objs));
    EntriesDistinct(KSort(RegisterAll([], rev, objs)));
  }

  /** Every row of a register whose packages are in order comes no later, by
      package, than the rows after it. */
  lemma {:induction false} EntriesByPackage(c: Register, i: nat, j: nat)
    requires Sorted(c) && i < j < |Entries(c)|
    ensures StrLe(Entries(c)[i].package, Entries(c)[j].package)
  {
    var n := |c| - 1;
    var front := Entries(c[..n]);
    var back := SubpackageEntries(c[n].0, c[n].1);
    assert Entries(c) == front + back;
    assert Sorted(c[..n]);
    if j < |front| {
      EntriesByPackage(c[..n], i, j);
    } else {
      var ej := Entries(c)[j];
      assert ej == back[j - |front|];
      SubpackageEntriesMember(c[n].0, c[n].1, ej);
      if i < |front| {
        var ei := Entries(c)[i];
        assert ei == front[i];
        EntriesMember(c[..n], ei);
        var x :| x in c[..n] && x.0 == ei.package && ei in SubpackageEntries(x.0, x.1);
        var m :| 0 <= m < n && c[..n][m] == x;
        SortedOrdered(c, m, n);
      } else {
        var ei := Entries(c)[i];
        assert ei == back[i - |front|];
        SubpackageEntriesMember(c[n].0, c[n].1, ei);
        StrLeReflexive(ei.package);
      }
    }
  }

  /** The rows of the table of contents are grouped by package, in byte order. */
  lemma TocGroupedByPackage(c: Register, i: nat, j: nat)
    requires i < j < |Entries(KSort(c))|
    ensures StrLe(Entries(KSort(c))[i].package, Entries(KSort(c))[j].package)
  {
    EntriesByPackage(KSort(c), i, j);
  }

  /** A file keeps the text of the last page written to it. */
  lemma {:induction false} WrittenLast(files: map<string, string>, pages: seq<(string, string)>, i: nat)
    requires i < |pages| && forall j :: i < j < |pages| ==> pages[j].0 != pages[i].0
    ensures pages[i].0 in WriteAll(files, pages) && WriteAll(files, pages)[pages[i].0] == pages[i].1
  {
    var n := |pages| - 1;
    if i < n {
      WrittenLast(files, pages[..n], i);
    }
  }

  /** A file no page is written to is left as it was. */
  lemma {:induction false} WrittenNowhere(files: map<string, string>, pages: seq<(string, string)>, path: string)
    requires forall i :: 0 <= i < |pages| ==> pages[i].0 != path
    ensures path in WriteAll(files, pages) <==> path in files
    ensures path in files ==> WriteAll(files, pages)[path] == files[path]
  {
    if |pages| > 0 {
      WrittenNowhere(files, pages[..|pages| - 1], path);
    }
  }

  /** In the older revision every row names, without its `.rst`, the file written
      for the object. */
  lemma LegacyRowNamesFile(o: DocObject)
    ensures Row(EntryOf(Legacy, o)) + ".rst" == "\n\t" + ObjectFileName(Legacy, o)
  {
  }

  /** In the newer revision the rows still put both segments in, so the row and the
      file agree only when the package and the subpackage are both non-empty; an
      object without either is listed as `//name` while its file is `name.rst`. */
  lemma PluginRowNamesFile(o: DocObject)
    ensures Truthy(PackageOf(Plugin, o)) && Truthy(SubpackageOf(Plugin, o))
            ==> Row(EntryOf(Plugin, o)) + ".rst" == "\n\t" + ObjectFileName(Plugin, o)
    ensures PackageOf(Plugin, o) == "" && SubpackageOf(Plugin, o) == ""
            ==> Row(EntryOf(Plugin, o)) == "\n\t//" + o.name && ObjectFileName(Plugin, o) == o.name + ".rst"
  {
  }
}
