# Sphinx writer of DocBlox, modelled in Dafny

DocBlox's Sphinx writer turns a parsed documentation tree into reStructuredText
for the Sphinx PHP-domain extension. The tree holds interfaces and classes with
their constants, properties, methods and arguments. The writer produces one `.rst`
file per interface or class, plus an `index.rst` table of contents. The repository
holds two revisions of the writer:

- **Plugin**, the newer one (`src/DocBlox/Plugin/Core/Transformer/Writer/Sphinx.php`);
- **Legacy**, the older one (`src/DocBlox/Transformer/Writer/Sphinx.php`).

They differ in five places:

- the placeholder for a missing package or subpackage (`""` against `"NONE"`);
- the output path (the newer one leaves out empty segments);
- how descriptions are prepared (the newer one re-indents them and rewrites
  `{@link …}` references; the older one flattens method descriptions to one line);
- where an argument's description comes from;
- the `return` tag query (the older one compares `@name` with a child element).

Every function and method that differs takes a `Revision`.

The project is split into modules:

- `DocTree` (`doc_tree.dfy`): the tree as datatypes. Every XPath query result the
  writer reads is a field or a sequence in document order.
- `Strings` (`strings.dfy`): PHP's `trim`, the re-indentation of line breaks, the
  newline flattening, and `Join`, which is what a loop appending to an accumulator
  produces.
- `Links` (`links.dfy`): the three `{@link …}` rewrites of the newer
  `formatDescription`, as hand-written scanners in the order the code applies them,
  and the whole `formatDescription`.
- `Signature` (`signature.dfy`): the loop that builds a method's argument list.
- `Fragments` (`fragments.dfy`): the text templates as functions of the tree. These
  are the constant, property, argument, method and object texts and the output
  file name.
- `Catalog` (`catalog.dfy`): the register `$packages[$package][$subpackage][$name] =
  $filename`. It is three levels of PHP arrays: key/value sequences in insertion
  order, where assigning to a present key replaces the value in place. It also
  holds `ksort` on the package level and the table of contents as a function of the
  sorted register.
- `FileSink` (`file_sink.dfy`): the path arithmetic of `file_force_contents`.
- `SphinxWriter` (`writer.dfy`): class `Writer`. Its fields are the register
  `packages`, the set of existing directories `dirs`, and the map `files` from path
  to written contents. `Transform`, `FormatObject` and `ForceContents` are methods
  that update these fields, as the PHP does. `Transform` has no loop of its own:
  it updates them through `FormatEach`, which loops over the interfaces and then
  over the classes, and through `WriteIndex`. `ForceContents` loops over the
  directory pieces of the path. `FormatMethod`, `RenderObject` and `RenderToc`
  build text in loops and change no field. Each method is proved against the
  specification functions of `Fragments`, `Catalog` and `FileSink`.

Both revisions share the templates, the register and the table of contents.

## Model

In the source column, `Plugin/…` rows cite the newer revision and
`Transformer/Writer/…` rows cite the older one. Where a member covers both
revisions, the row cites the newer one. The older revision's lines are given in
the "states" text. There the code differs from the newer revision only in the
five places listed above: the placeholder, the output path, the description
preparation, the source of an argument's description and the `return` tag query.

| member | source | states |
|---|---|---|
| DocTree.FirstTag | src/DocBlox/Plugin/Core/Transformer/Writer/Sphinx.php:262-264 | The `return` query's first node: the earliest tag with the name, or none exactly when no tag has it |
| DocTree.FirstParam | src/DocBlox/Plugin/Core/Transformer/Writer/Sphinx.php:258-259 | `$tags->item(0)`: the earliest `param` tag whose `variable` is the argument name, or none exactly when there is no such tag |
| Strings.Repeat | src/DocBlox/Plugin/Core/Transformer/Writer/Sphinx.php:165 | `str_repeat`: exactly `n` copies of the character |
| Strings.Trim | src/DocBlox/Plugin/Core/Transformer/Writer/Sphinx.php:305 | `trim`: the result is a slice of the input with only trimmed characters on either side, and it neither starts nor ends with one |
| Strings.Reindent | src/DocBlox/Plugin/Core/Transformer/Writer/Sphinx.php:308 | definition: `preg_replace('/\\n|\\r/', "\n$in", …)` as a scan that replaces each `\n` and each `\r` by a line break followed by `depth` tabs and copies every other character; its properties are the `Reindent…` rows below |
| Strings.ReindentShape | src/DocBlox/Plugin/Core/Transformer/Writer/Sphinx.php:308 | Every `\n` or `\r` becomes a line break plus `depth` tabs (a `\r\n` pair counts twice), and no `\r` is left |
| Strings.ReindentIndents | src/DocBlox/Plugin/Core/Transformer/Writer/Sphinx.php:302-308 | Every line break of the result is followed by the `depth` tabs of `str_repeat("\t", $indentation)`; a tab of the input that follows the break comes after them |
| Strings.ReindentNoBreak | src/DocBlox/Plugin/Core/Transformer/Writer/Sphinx.php:308 | Text without a line break is unchanged by the re-indentation |
| Strings.ReindentAppend | src/DocBlox/Plugin/Core/Transformer/Writer/Sphinx.php:308 | The replacement works character by character, so it distributes over concatenation |
| Strings.Flatten | src/DocBlox/Transformer/Writer/Sphinx.php:229-230 | definition: the older `formatMethod`'s `str_replace(array("\n","\r"), ' ', …)` as a scan that replaces each `\n` and each `\r` by a space; its properties are in the `FlattenShape` row |
| Strings.FlattenShape | src/DocBlox/Transformer/Writer/Sphinx.php:229-230 | `str_replace(array("\n","\r"), ' ', …)` keeps the length, turns each break into a space, keeps every other character, and leaves no break |
| Strings.JoinPartAt | src/DocBlox/Plugin/Core/Transformer/Writer/Sphinx.php:257-260 | In text built by appending parts in a loop, part `i` stands unchanged after the text of the parts before it |
| Strings.JoinAppend | src/DocBlox/Plugin/Core/Transformer/Writer/Sphinx.php:171-181 | Appending two runs of parts one after the other gives the concatenation of both runs |
| Links.FormatDescription | src/DocBlox/Plugin/Core/Transformer/Writer/Sphinx.php:300-320 | definition: the newer `formatDescription`: `trim`, then the re-indentation at depth `$indentation`, then the method-reference rewrite and then the class-reference rewrite; the attribute rewrite between them is left out because it never fires (`AttributeRuleNeverMatches`) |
| Links.RewriteMethods | src/DocBlox/Plugin/Core/Transformer/Writer/Sphinx.php:314 | definition: `preg_replace` of `{@link ([^}:]+)::([^}]+)(\(\))?}` by `:php:meth:` as a left-to-right scan: at each position the leftmost-longest `MethodMatch` is replaced and the scan resumes after it; otherwise one character is copied |
| Links.RewriteClasses | src/DocBlox/Plugin/Core/Transformer/Writer/Sphinx.php:317 | definition: `preg_replace` of `{@link ([^}]+)}` by `:php:class:` as the same left-to-right scan over `ClassMatch` |
| Links.RunNoBrace | src/DocBlox/Plugin/Core/Transformer/Writer/Sphinx.php:317 | `[^}]+` takes the longest prefix without `}`: it stops at a `}` or at the end |
| Links.RunNoBraceColon | src/DocBlox/Plugin/Core/Transformer/Writer/Sphinx.php:314 | `[^}:]+` takes the longest prefix without `}` or `:` |
| Links.MethodMatch | src/DocBlox/Plugin/Core/Transformer/Writer/Sphinx.php:314 | A match of `{@link ([^}:]+)::([^}]+)(\(\))?}` has a length within the text, a non-empty owner free of `}` and `:`, and a non-empty member free of `}` |
| Links.MethodMatchSpells | src/DocBlox/Plugin/Core/Transformer/Writer/Sphinx.php:314 | A method match covers exactly the marker, the owner, `::`, the member and `}` |
| Links.ClassMatch | src/DocBlox/Plugin/Core/Transformer/Writer/Sphinx.php:317 | A match of `{@link ([^}]+)}` covers exactly marker, name and `}`, with a non-empty name free of `}` |
| Links.AttributeRuleNeverMatches | src/DocBlox/Plugin/Core/Transformer/Writer/Sphinx.php:311 | The attribute rule never fires: its unescaped `$` demands the end of the text right after `::`, where the pattern still needs more |
| Links.NoMarkerUnchanged | src/DocBlox/Plugin/Core/Transformer/Writer/Sphinx.php:314-317 | Text without `{@link ` passes through both replacements unchanged |
| Links.FormatWithoutLinks | src/DocBlox/Plugin/Core/Transformer/Writer/Sphinx.php:300-320 | With no reference left after trimming and re-indenting, `formatDescription` is the trim followed by the re-indentation |
| Links.NoOpenBraceNoMarker | src/DocBlox/Plugin/Core/Transformer/Writer/Sphinx.php:311-317 | Without a `{` no reference opens anywhere |
| Links.MethodMatchWhole | src/DocBlox/Plugin/Core/Transformer/Writer/Sphinx.php:314 | The method pattern matches all of `{@link A::m}`, with `A` and `m` as its groups |
| Links.MethodReference | src/DocBlox/Plugin/Core/Transformer/Writer/Sphinx.php:314-317 | `{@link A::m}` becomes ``:php:meth:`A::m()` `` after both replacements |
| Links.FieldReferenceBecomesMethod | src/DocBlox/Plugin/Core/Transformer/Writer/Sphinx.php:311-317 | `{@link A::$f}` falls through to the method rule and becomes ``:php:meth:`A::$f()` `` |
| Links.CallReferenceDoublesParens | src/DocBlox/Plugin/Core/Transformer/Writer/Sphinx.php:314 | `{@link A::m()}` becomes ``:php:meth:`A::m()()` ``, because `[^}]+` swallows the parentheses |
| Links.MethodMatchFollowed | src/DocBlox/Plugin/Core/Transformer/Writer/Sphinx.php:314 | Whatever follows `{@link A::m}`, the method pattern matches just the reference, with `A` and `m` as its groups |
| Links.ClassMatchFollowed | src/DocBlox/Plugin/Core/Transformer/Writer/Sphinx.php:317 | Whatever follows `{@link X}`, the class pattern matches just the reference |
| Links.WithoutCloseBraceUnchanged | src/DocBlox/Plugin/Core/Transformer/Writer/Sphinx.php:314-317 | Text without `}` holds no complete reference: both replacements leave it alone, an unclosed `{@link ` included |
| Links.WithoutDoubleColonMethodsUnchanged | src/DocBlox/Plugin/Core/Transformer/Writer/Sphinx.php:314 | Text without `::` is left alone by the method replacement, wherever its markers stand |
| Links.MethodsSkipPrefix | src/DocBlox/Plugin/Core/Transformer/Writer/Sphinx.php:314 | Text without `{` is copied by the method replacement, and the scan goes on after it |
| Links.ClassesSkipPrefix | src/DocBlox/Plugin/Core/Transformer/Writer/Sphinx.php:317 | Text without `{` is copied by the class replacement, and the scan goes on after it |
| Links.MethodReferenceThen | src/DocBlox/Plugin/Core/Transformer/Writer/Sphinx.php:314 | A method reference at the start of a text is replaced and the scan resumes right after its `}` |
| Links.ClassReferenceThen | src/DocBlox/Plugin/Core/Transformer/Writer/Sphinx.php:317 | A class reference at the start of a text is replaced and the scan resumes right after its `}` |
| Links.MethodReferenceIn | src/DocBlox/Plugin/Core/Transformer/Writer/Sphinx.php:314 | Inside a text, `{@link A::m}` after a `{`-free prefix becomes ``:php:meth:`A::m()` `` with the prefix kept and the rest rewritten on its own |
| Links.ClassReferenceIn | src/DocBlox/Plugin/Core/Transformer/Writer/Sphinx.php:317 | Inside a text, `{@link X}` after a `{`-free prefix becomes ``:php:class:`X` `` with the prefix kept and the rest rewritten on its own |
| Links.NoMethodMatchWithoutColons | src/DocBlox/Plugin/Core/Transformer/Writer/Sphinx.php:314 | The method pattern does not match `{@link X}` when `X` has no `::` |
| Links.ClassMatchWhole | src/DocBlox/Plugin/Core/Transformer/Writer/Sphinx.php:317 | The class pattern matches all of `{@link X}` with `X` as its group |
| Links.MethodsSkipClassReference | src/DocBlox/Plugin/Core/Transformer/Writer/Sphinx.php:314 | `{@link X}` without `::` is left alone by the method replacement |
| Links.ClassReference | src/DocBlox/Plugin/Core/Transformer/Writer/Sphinx.php:314-317 | `{@link X}` without `::` becomes ``:php:class:`X` `` |
| Signature.FormatArgs | src/DocBlox/Plugin/Core/Transformer/Writer/Sphinx.php:231-242 | The `$args`/`$first` loop (older revision: lines 215-226) builds exactly `ArgList(args)`, the pieces of the arguments in order |
| Signature.ArgListEmpty | src/DocBlox/Plugin/Core/Transformer/Writer/Sphinx.php:231-242 | The list is empty exactly when there are no arguments, or only one, which is mandatory and has an empty name |
| Signature.ArgListPrefix | src/DocBlox/Plugin/Core/Transformer/Writer/Sphinx.php:233-242 | The list for the first `i` arguments is a prefix of the whole list: later iterations only append |
| Signature.PieceAt | src/DocBlox/Plugin/Core/Transformer/Writer/Sphinx.php:236-240 | Argument `i` occupies its own piece: `" "` unless first, `"["` if optional, `", "` unless first, the name, `" = default]"` if optional |
| Signature.NameAt | src/DocBlox/Plugin/Core/Transformer/Writer/Sphinx.php:236-239 | Each name stands at its offset in the list, and right before it stands its separator: nothing, or `"["` if optional, for the first argument; `" "`, the optional `"["` and `", "` for a later one |
| Signature.NamesInOrder | src/DocBlox/Plugin/Core/Transformer/Writer/Sphinx.php:233-242 | The names come in declaration order and do not overlap |
| Signature.BracketsCountOptional | src/DocBlox/Plugin/Core/Transformer/Writer/Sphinx.php:237-240 | When no name or default holds `[`, the list holds one `[` per argument whose default has non-zero length, a default of `"0"` included |
| Signature.TwoArguments | src/DocBlox/Plugin/Core/Transformer/Writer/Sphinx.php:231-242 | With a mandatory first argument, two arguments give `x , y` or `x [, y = d]` |
| Fragments.ConstantText | src/DocBlox/Plugin/Core/Transformer/Writer/Sphinx.php:196-201 | definition: `formatConstant`'s `"\t.. php:const:: {$name}\n\n\t\t{$value}\n"` (older revision :180-185, the same code) |
| Fragments.PropertyText | src/DocBlox/Plugin/Core/Transformer/Writer/Sphinx.php:212-217 | definition: `formatProperty`'s `"\t.. php:attr:: {$name}\n\n\t\t{$value}\n"` (older revision :196-201, the same code) |
| Fragments.ArgumentText | src/DocBlox/Plugin/Core/Transformer/Writer/Sphinx.php:281-289 | definition: `formatArgument`'s line `"\t\t:param {$type} {$name}: {$description}\n"`, given the description (older revision :263-270) |
| Fragments.ParamDescription | src/DocBlox/Plugin/Core/Transformer/Writer/Sphinx.php:258-259 | definition: where the argument's description comes from: newer revision, the first `param` tag whose `variable` is the argument name, formatted at depth 3 (:286), or "" when there is none; older revision, the argument's own `description[1]` (:267) |
| Fragments.MethodText | src/DocBlox/Plugin/Core/Transformer/Writer/Sphinx.php:228-269 | definition: `formatMethod`: the directive with the argument list, the prepared descriptions, one `:param` line per argument, the return block and the extra blank line; the older revision (:212-252) flattens the descriptions and reads the return block from what its `@name=return` query selects |
| Fragments.ObjectText | src/DocBlox/Plugin/Core/Transformer/Writer/Sphinx.php:163-181 | definition: `formatObject`'s file contents: the title, its underline, the `php:class` or `php:interface` directive, the non-empty descriptions, then the constant, property and method texts in document order (older revision :147-165, with raw descriptions) |
| Fragments.FileName | src/DocBlox/Plugin/Core/Transformer/Writer/Sphinx.php:158 | definition: the file name relative to the target: newer revision, `package/` and `subpackage/` only when PHP's `empty` finds them non-empty, then `name.rst`; older revision (:142), always `package/subpackage/name.rst` |
| Fragments.DirectiveInjective | src/DocBlox/Transformer/Writer/Sphinx.php:180-200 | The constant and property templates lose nothing: when the name holds no line break, the text determines the name and the value |
| Fragments.ConstantIsNotProperty | src/DocBlox/Plugin/Core/Transformer/Writer/Sphinx.php:196-217 | A constant text (`php:const`) is never equal to a property text (`php:attr`) |
| Fragments.StaticDirective | src/DocBlox/Plugin/Core/Transformer/Writer/Sphinx.php:248-252 | The method text opens with `php:staticmethod` exactly when the `static` attribute is the string `"true"`, and with `php:method` exactly when it is not |
| Fragments.MethodEndsWithBlankLine | src/DocBlox/Plugin/Core/Transformer/Writer/Sphinx.php:268 | Every method text ends with the extra `"\n\n"` |
| Fragments.ParamLineAt | src/DocBlox/Plugin/Core/Transformer/Writer/Sphinx.php:257-260 | The `i`-th `:param` line is `\t\t:param {type} {name}: {desc}\n` for the `i`-th argument, after the lines of the earlier arguments |
| Fragments.ParamWithoutTag | src/DocBlox/Plugin/Core/Transformer/Writer/Sphinx.php:286 | Newer revision: with no `param` tag for the argument, its description is `""` |
| Fragments.ParamFromFirstTag | src/DocBlox/Plugin/Core/Transformer/Writer/Sphinx.php:258-259 | Newer revision: the description is that of the first matching `param` tag, formatted at depth 3 |
| Fragments.LegacyMethodDescriptionIsOneLine | src/DocBlox/Transformer/Writer/Sphinx.php:229-230 | Older revision: a method description keeps its length and holds no line break |
| Fragments.ReturnLines | src/DocBlox/Plugin/Core/Transformer/Writer/Sphinx.php:262-266 | No return node gives no return block; one gives `:returns:` and `:rtype:` lines with its description and type. In the newer revision there is a node exactly when some tag is named `return` |
| Fragments.AbsentTagIsPlaceholder | src/DocBlox/Transformer/Writer/Sphinx.php:133-136 | A missing package or subpackage tag resolves to `"NONE"` in the older revision (newer revision, lines 149-152: `""`) |
| Fragments.PluginFileNameSegments | src/DocBlox/Plugin/Core/Transformer/Writer/Sphinx.php:158 | Newer revision: a segment PHP's `empty` finds empty is left out, giving `name.rst`, `package/name.rst` or `subpackage/name.rst`; with both segments present the name is the older revision's `package/subpackage/name.rst` |
| Fragments.TitleUnderline | src/DocBlox/Plugin/Core/Transformer/Writer/Sphinx.php:164-165 | The object text starts with the name on its own line, underlined by exactly as many dashes as the name has characters |
| Fragments.MembersInOrder | src/DocBlox/Plugin/Core/Transformer/Writer/Sphinx.php:171-181 | After the head come the constant texts, then the property texts, then the method texts, each in source order |
| Catalog.IndexOf | src/DocBlox/Plugin/Core/Transformer/Writer/Sphinx.php:161 | The position of a key in a PHP array level: absent exactly when the key is not there, otherwise the only place it holds |
| Catalog.AssignKeys | src/DocBlox/Plugin/Core/Transformer/Writer/Sphinx.php:161 | Assigning keeps the key order and appends a new key last |
| Catalog.AssignGet | src/DocBlox/Plugin/Core/Transformer/Writer/Sphinx.php:161 | After an assignment the key reads the new value and every other key reads what it did before |
| Catalog.AssignDistinct | src/DocBlox/Plugin/Core/Transformer/Writer/Sphinx.php:161 | Assignment never repeats a key |
| Catalog.Put | src/DocBlox/Plugin/Core/Transformer/Writer/Sphinx.php:161 | definition: `$this->packages[$package][$subpackage][$name] = $filename` on three levels of ordered PHP arrays, a missing level starting empty; its properties are the `Put…` rows below |
| Catalog.PutLookup | src/DocBlox/Plugin/Core/Transformer/Writer/Sphinx.php:161 | `$packages[$p][$s][$n] = $f` stores `$f` under the three keys and changes no other lookup |
| Catalog.PutValid | src/DocBlox/Plugin/Core/Transformer/Writer/Sphinx.php:161 | Registering keeps every level of the register free of repeated keys |
| Catalog.PutPackageOrder | src/DocBlox/Plugin/Core/Transformer/Writer/Sphinx.php:161 | A new package is appended to the package order; a known one keeps its place |
| Catalog.PutSubpackageOrder | src/DocBlox/Plugin/Core/Transformer/Writer/Sphinx.php:161 | Within the package, a new subpackage is appended to the subpackage order and a known one keeps its place |
| Catalog.PutNameOrder | src/DocBlox/Plugin/Core/Transformer/Writer/Sphinx.php:161 | Within the subpackage, a new name is appended to the name order and a known one keeps its place |
| Catalog.PutExistingKeepsEntries | src/DocBlox/Transformer/Writer/Sphinx.php:145 | Registering a triple already present replaces its file in place: no row is added and none moves |
| Catalog.StrLeTotal | src/DocBlox/Plugin/Core/Transformer/Writer/Sphinx.php:101 | The byte order `ksort` uses on string keys is total |
| Catalog.StrLeTransitive | src/DocBlox/Plugin/Core/Transformer/Writer/Sphinx.php:101 | The byte order is transitive |
| Catalog.Insert | src/DocBlox/Plugin/Core/Transformer/Writer/Sphinx.php:101 | Inserting a pair adds exactly that pair and keeps a sorted level sorted |
| Catalog.KSort | src/DocBlox/Plugin/Core/Transformer/Writer/Sphinx.php:101 | `ksort`: the same package pairs, now in ascending key order |
| Catalog.KSortSamePairs | src/DocBlox/Plugin/Core/Transformer/Writer/Sphinx.php:101 | Sorting neither adds nor loses a package |
| Catalog.SortedOrdered | src/DocBlox/Plugin/Core/Transformer/Writer/Sphinx.php:101 | In a sorted level every key is no greater than any later key |
| Catalog.KSortValid | src/DocBlox/Plugin/Core/Transformer/Writer/Sphinx.php:101 | Sorting keeps the register free of repeated keys |
| Catalog.SubpackageEntriesMember | src/DocBlox/Plugin/Core/Transformer/Writer/Sphinx.php:104-108 | A package's rows are exactly the names held in any of its subpackages |
| Catalog.EntriesMember | src/DocBlox/Plugin/Core/Transformer/Writer/Sphinx.php:103-109 | A row is listed exactly when some package pair holds it |
| Catalog.EntriesAreRegistered | src/DocBlox/Plugin/Core/Transformer/Writer/Sphinx.php:103-109 | In a valid register the rows are exactly the registered triples |
| Catalog.KSortEntries | src/DocBlox/Plugin/Core/Transformer/Writer/Sphinx.php:101-109 | Sorting does not change which rows are listed |
| Catalog.EntriesDistinct | src/DocBlox/Transformer/Writer/Sphinx.php:87-93 | In a valid register no row is listed twice |
| Catalog.Toc | src/DocBlox/Plugin/Core/Transformer/Writer/Sphinx.php:98-109 | definition: the index text: the `API Documentation` header and the `toctree` directive, then one `\n\t$package/$subpackage/$element` row per entry of the sorted register, in its order (older revision :82-93) |
| Catalog.RowsAppend | src/DocBlox/Plugin/Core/Transformer/Writer/Sphinx.php:103-109 | The rows of two runs of entries are the rows of the first followed by those of the second |
| FileSink.Explode | src/DocBlox/Plugin/Core/Transformer/Writer/Sphinx.php:334 | `explode('/', …)` always yields at least one piece |
| FileSink.ImplodeExplode | src/DocBlox/Plugin/Core/Transformer/Writer/Sphinx.php:334 | Exploding on `/` loses nothing: joining the pieces with `/` gives the path back |
| FileSink.ExplodeNoSlash | src/DocBlox/Plugin/Core/Transformer/Writer/Sphinx.php:334 | No piece holds a `/` |
| FileSink.SlashedImplode | src/DocBlox/Plugin/Core/Transformer/Writer/Sphinx.php:337-338 | Appending `"/$part"` for every piece gives `/` followed by the pieces joined with `/` |
| FileSink.WriteTarget | src/DocBlox/Plugin/Core/Transformer/Writer/Sphinx.php:342 | definition: `"$dir/$file"` once the loop is done: every directory piece of the exploded path prefixed by `/`, then `/` and the last piece; its property is the `WriteTargetRooted` row |
| FileSink.WriteTargetRooted | src/DocBlox/Plugin/Core/Transformer/Writer/Sphinx.php:342 | The file is written to the path with one more `/` in front: a relative path becomes rooted, an absolute one gets a double slash |
| FileSink.VisitedAreSlashPrefixes | src/DocBlox/Transformer/Writer/Sphinx.php:284-291 | The loop visits exactly `"/" + path[..k]` for every `/` at position `k` of the path |
| SphinxWriter.RegisterAppend | src/DocBlox/Plugin/Core/Transformer/Writer/Sphinx.php:69-78 | Registering the interfaces and then the classes is registering the concatenated list |
| SphinxWriter.WriteAppend | src/DocBlox/Plugin/Core/Transformer/Writer/Sphinx.php:69-78 | Writing one run of pages and then another is writing the concatenated run |
| SphinxWriter.DirsAppend | src/DocBlox/Plugin/Core/Transformer/Writer/Sphinx.php:69-78 | The directories created for two runs are those of the first together with those of the second |
| SphinxWriter.VisitStep | src/DocBlox/Plugin/Core/Transformer/Writer/Sphinx.php:161 | Visiting one more object registers its key and file and creates the directories on its path |
| SphinxWriter.Writer.ForceContents | src/DocBlox/Plugin/Core/Transformer/Writer/Sphinx.php:332-343 | `file_force_contents` (older revision: lines 282-293): every `/`-prefix of the path becomes a directory, the file lands at `"/" + path`, and the register is untouched |
| SphinxWriter.Writer.FormatMethod | src/DocBlox/Plugin/Core/Transformer/Writer/Sphinx.php:228-269 | `formatMethod` (older revision: lines 212-252) returns exactly the method text: directive, descriptions, one `:param` line per argument, the return block and the blank line |
| SphinxWriter.Writer.RenderMethodHead | src/DocBlox/Plugin/Core/Transformer/Writer/Sphinx.php:230-254 | The argument loop, the static or plain method directive over `name(args)`, and the truthy descriptions at depth 2: exactly `MethodHead`, the opening of the method text |
| SphinxWriter.Writer.AppendParams | src/DocBlox/Plugin/Core/Transformer/Writer/Sphinx.php:257-260 | The loop over the arguments appends one `:param` line per argument, in order, after what was built before |
| SphinxWriter.Writer.AppendConstants | src/DocBlox/Plugin/Core/Transformer/Writer/Sphinx.php:171-173 | The constant loop appends the text of every constant, in order |
| SphinxWriter.Writer.AppendProperties | src/DocBlox/Plugin/Core/Transformer/Writer/Sphinx.php:175-177 | The property loop appends the text of every property, in order |
| SphinxWriter.Writer.AppendMethods | src/DocBlox/Plugin/Core/Transformer/Writer/Sphinx.php:179-181 | The method loop appends the text of every method, in order |
| SphinxWriter.Writer.FormatObject | src/DocBlox/Plugin/Core/Transformer/Writer/Sphinx.php:147-185 | `formatObject` (older revision: lines 131-169) registers the object's file under its triple and writes the object text to that file, creating the directories on its path |
| SphinxWriter.Writer.RenderHead | src/DocBlox/Plugin/Core/Transformer/Writer/Sphinx.php:164-169 | The object's title, underline, directive and truthy descriptions, as `ObjectHead` |
| SphinxWriter.Writer.RenderObject | src/DocBlox/Plugin/Core/Transformer/Writer/Sphinx.php:164-181 | The contents built by `formatObject`'s loops: exactly the object text |
| SphinxWriter.Writer.RenderToc | src/DocBlox/Plugin/Core/Transformer/Writer/Sphinx.php:98-109 | The three nested loops give the header followed by one row per entry of the register, in register order |
| SphinxWriter.Writer.AppendSubpackages | src/DocBlox/Plugin/Core/Transformer/Writer/Sphinx.php:104-108 | The middle loop appends the rows of every subpackage of one package, in order |
| SphinxWriter.Writer.AppendElements | src/DocBlox/Plugin/Core/Transformer/Writer/Sphinx.php:105-107 | The inner loop appends `"\n\t$package/$subpackage/$element"` for every element, in order |
| SphinxWriter.Writer.FormatEach | src/DocBlox/Plugin/Core/Transformer/Writer/Sphinx.php:69-72 | One of `transform`'s two loops: every object of the list is registered and written, in order |
| SphinxWriter.Writer.WriteIndex | src/DocBlox/Plugin/Core/Transformer/Writer/Sphinx.php:101-111 | The register is sorted by package and the table of contents is written to `index.rst` under the target |
| SphinxWriter.Writer.Transform | src/DocBlox/Plugin/Core/Transformer/Writer/Sphinx.php:62-112 | `transform` (older revision: lines 46-96): interfaces then classes are registered and written, the register ends sorted, and `index.rst` holds its table of contents |
| SphinxWriter.RegistersSnoc | src/DocBlox/Plugin/Core/Transformer/Writer/Sphinx.php:69-78 | A key is registered by a list of objects exactly when it is registered by all but the last object, or by the last one |
| SphinxWriter.RegisterAllLookup | src/DocBlox/Plugin/Core/Transformer/Writer/Sphinx.php:161 | After the visit a triple is registered exactly when some visited object has it, and its file is the name that triple gives |
| SphinxWriter.RegisterAllValid | src/DocBlox/Plugin/Core/Transformer/Writer/Sphinx.php:161 | The register keeps the shape of a PHP array at every level |
| SphinxWriter.TocListsVisited | src/DocBlox/Plugin/Core/Transformer/Writer/Sphinx.php:98-109 | The table of contents lists a triple exactly when some interface or class was registered under it |
| SphinxWriter.TocRowsDistinct | src/DocBlox/Transformer/Writer/Sphinx.php:85-93 | No row of the table of contents is repeated, however often a triple was registered |
| SphinxWriter.EntriesByPackage | src/DocBlox/Plugin/Core/Transformer/Writer/Sphinx.php:101-109 | When the packages are sorted, the rows come in package order |
| SphinxWriter.TocGroupedByPackage | src/DocBlox/Transformer/Writer/Sphinx.php:85-93 | After `ksort` the rows of the table of contents are in ascending package order |
| SphinxWriter.WrittenLast | src/DocBlox/Plugin/Core/Transformer/Writer/Sphinx.php:342 | A file holds the text of the last page written to it |
| SphinxWriter.WrittenNowhere | src/DocBlox/Plugin/Core/Transformer/Writer/Sphinx.php:342 | A file no page is written to keeps whatever it held |
| SphinxWriter.LegacyRowNamesFile | src/DocBlox/Transformer/Writer/Sphinx.php:142 | Older revision: every row, with `.rst` added, is the file name written for the object |
| SphinxWriter.PluginRowNamesFile | src/DocBlox/Plugin/Core/Transformer/Writer/Sphinx.php:158 | Newer revision: the row and the file name agree when both segments are non-empty, but with neither the row reads `//name` while the file is `name.rst` |

## Left out

- The DOM and XPath evaluation. The tree is a value, and each query result is a
  field or sequence in document order. The newer revision's `param` query, which
  splices the argument name into an XPath string, is modelled as "the first `param`
  tag whose `variable` equals the name". A name holding a quote, which would break
  that query, is not modelled.
- The older revision's return query compares `@name` with a child element instead
  of the string `return`. What it selects is an input field of the method
  (`returnChildMatch`), not computed from the tree.
- The real file system. `is_dir`, `mkdir` and `file_put_contents` become the `dirs`
  set and the `files` map. The source ignores their return values, so failures are
  not modelled, and neither is a path component that exists as a plain file.
- PCRE as an engine. The three link rules are hand-written scanners for their
  specific shapes.
- The `var_dump` debug output of the newer `formatArgument` (line 285), and the
  commented-out `@todo` blocks in both `transform` methods.
- `ksort`'s conversion of numeric-string keys to integers. Keys are compared
  byte-wise as strings.
- `mb_strlen`'s multibyte counting. A name's length is its length as a sequence of
  characters.
- `DIRECTORY_SEPARATOR` is fixed to `/`.
- The transformation pipeline (`getTransformer()->getTarget()`). The target
  directory is the writer's `target` field.
- The `$this->xpath` and `$this->transformation` fields. They only carry the
  query engine and the pipeline.
- SphinxWriter.Writer.RenderHead, RenderObject, AppendConstants, AppendProperties,
  AppendMethods, RenderMethodHead, AppendParams, AppendSubpackages, AppendElements,
  FormatEach and WriteIndex are parts of `formatObject`, `formatMethod` and
  `transform` given methods of their own, so that each loop is a proof unit of its
  own. Two pure values are computed later than in the PHP: `WriteIndex` builds the
  constant table-of-contents header after `ksort` (the PHP builds it before), and
  `RenderHead` formats the two descriptions after the register update (the PHP
  formats them before). Neither value reads the register, so the results are the
  same.
- Paths are compared as strings. `files` and `dirs` are keyed by the path text, and
  `//` is not collapsed to `/`. In the older revision a `package` tag with an empty
  description and subpackage `x` give `t//x/N.rst`, and package `x` with a
  `subpackage` tag with an empty description gives `t/x//N.rst`. On disk these name the same file, so the second write replaces the
  first. The model keeps them as two files, and `SphinxWriter.WrittenLast` holds
  per path text, not per file on disk.
