# doxyfront in Dafny

doxyfront turns Doxygen's XML output into a static HTML documentation tree and a Graphviz
graph of the include dependencies between directories. This project models and proves its
core:

- **Loaded definitions** (`doxyfront/model.py`). This covers:
  - references that are symbolic, unresolved or resolved, and their resolution against an
    id map;
  - the inline-markup fragment tree and how it renders to plaintext and HTML;
  - HTML escaping;
  - the split of attribute flags around a C++ declaration;
  - qualified names and paths, built by walking the scope and file parent chains;
  - the plaintext signatures of macros and enums, and the default signature.

  The definitions of one documentation set live in an arena: `defs: seq<Def>`. A parent
  link or a resolved reference is an index into it. A ghost `rank` per definition witnesses
  that parent chains are acyclic; it is what makes the walks terminate.
- **Record construction** (`doxyfront/source.py`). This covers:
  - the attribute and text helpers;
  - `yesno_to_bool`;
  - the visibility, attribute and variant name tables;
  - `deserialize_ref`, line numbers and includes;
  - inheritance records and parameters;
  - the per-kind member dispatch of `CompoundDef.deserialize`;
  - the kind dispatch of `parse`.

  Records are read from an element tree, `Xml.Element`, which stands for what
  `xml.etree.ElementTree` hands over: a tag, the attributes in document order, an optional
  text and the children. A Python exception that escapes is an `Err` of `Source.Failure`.

  Two slips in `source.py` (see "## Findings") make the program differ from its evident
  intent. Every deserializer therefore takes a `Source.Reading`:
  - `AsWritten` is what the program does;
  - `Intended` is the evident intent.
- **Directory dependencies** (`doxyfront/depgraph.py`). This covers:
  - `_san_id`;
  - the recursive generators `_files_contained` and `_collect_folders`, as recursive
    functions returning sequences;
  - `_visible_folders` and the root-finding loop, as methods proved against reference
    definitions (reachability through resolved directory members);
  - the dictionaries `depgraph` builds, and its nested include counters, as multisets of
    edges;
  - the visibility guard of `_subgraph`.
- **Page tree** (`doxyfront/doctree.py`). This covers:
  - the first-match category table;
  - the grouping loop of `render` and the sort inside each group (a stable insertion sort
    proved sorted, stable and a permutation);
  - the `doctree` loop that builds each page's member list and the `non_global` set;
  - the index roots.

`doctree.py` and `depgraph.py` read a `members` list of resolved references. Only
`model.CompoundDef` has such a field (`source.CompoundDef` calls its list `definitions` and
never holds resolved references). `doctree.py`'s `isinstance` tests name `source.*` classes,
while `members` and `kind()` exist only on `model.*`. Both files are therefore modelled over
the `Defs` arena, and the class tests are read through `Doctree.DefClass` and `IsInstance`.

Imperative code is modelled as methods with loops, each proved equal to a specification
function whose properties are lemmas. This covers:
- `CompoundDef.resolve_refs` (class `Resolution.Graph`, which overwrites one arena slot);
- the parent-chain `while` loops;
- `deserialize_attributes`, `Param.deserialize` and the loops of `CompoundDef.deserialize`;
- `_visible_folders`, the `seen` loop and the counting loops of `depgraph`;
- the grouping loop of `render` and the loop of `doctree`.

## Model

| member | source | states |
|---|---|---|
| Refs.Resolve | doxyfront/model.py:273-298 | a symbolic reference whose id is a key resolves to that definition, one whose id is missing becomes unresolved with its display name, and any other reference is returned as is |
| Refs.ResolveTerminal | doxyfront/model.py:273-298 | a resolved reference is never symbolic, and resolving it again with any map changes nothing |
| Refs.ResolveAll | doxyfront/model.py:547-550 | resolving a member list keeps its length and order and replaces element i by its resolution |
| Refs.ResolveAllTerminal | doxyfront/model.py:547-550 | after resolving a list no element is symbolic, and resolving it again is a no-op |
| Resolution.Graph.ResolveRefs | doxyfront/model.py:547-550 | resolving one definition in place replaces exactly that arena slot by its resolution and leaves no symbolic reference in it; when every id maps into the arena, a closed arena stays closed |
| Resolution.ResolveDefClosed | doxyfront/model.py:547-550 | resolving a definition against an id map whose every index is in the arena keeps the arena closed |
| Resolution.ResolveInclude | doxyfront/model.py:306-308 | an include keeps `local` and the presence of its file; a present file reference becomes terminal |
| Resolution.ResolveInheritance | doxyfront/model.py:594-596 | a base keeps visibility, virtuality and the presence of its reference; the reference becomes terminal |
| Resolution.WithMembers | doxyfront/model.py:547-550 | a compound kind with a new member list stays a compound kind and holds exactly that list |
| Resolution.ResolveOthers | doxyfront/model.py:566-569 | the per-class resolution of everything besides the member list keeps a compound's members |
| Resolution.MarkupResolveTerminal | doxyfront/model.py:208-211 | a resolved description has no symbolic reference, and resolving it again changes nothing |
| Resolution.ParamsResolveTerminal | doxyfront/model.py:377-379 | resolved parameters have no symbolic reference, and resolving them again changes nothing |
| Resolution.ResolveDefTerminal | doxyfront/model.py:208-211 | after `resolve_refs` no reference anywhere in a definition (descriptions, members, includes, bases, parameters, enum values) is symbolic |
| Resolution.ResolveKindTerminal | doxyfront/model.py:320-322 | the kind-specific fields of a resolved definition hold no symbolic reference |
| Resolution.ResolveDefIdempotent | doxyfront/model.py:208-211 | resolving a resolved definition again, with any id map, changes nothing |
| Resolution.ResolveKindIdempotent | doxyfront/model.py:414-420 | re-resolving the kind-specific fields changes nothing, for every kind |
| Resolution.LeafResolveIdempotent | doxyfront/model.py:344-349 | re-resolving a macro, typedef, function, variable, property, enum value or friend changes nothing |
| Resolution.EnumResolveIdempotent | doxyfront/model.py:503-507 | re-resolving an enum, its underlying type and its values, changes nothing |
| Resolution.FileResolveIdempotent | doxyfront/model.py:566-569 | re-resolving a file, its members and includes, changes nothing |
| Resolution.ClassResolveIdempotent | doxyfront/model.py:618-623 | re-resolving a class, its members, template parameters and bases, changes nothing |
| HtmlEscape.EscapeIsEntityWise | doxyfront/model.py:24-29 | the five chained replacements, `&` first, act character by character: each special character becomes its entity and every other character is kept |
| HtmlEscape.EscapeRoundTrip | doxyfront/model.py:24-29 | decoding the five entities with `&amp;` decoded last gives back the input |
| HtmlEscape.UnescapeEntityWise | doxyfront/model.py:24-29 | decoding undoes the character-by-character escaping |
| HtmlEscape.EscapeClean | doxyfront/model.py:24-29 | the escaped text contains no `<`, `>`, `"` or `'` |
| HtmlEscape.EscapeAppend | doxyfront/model.py:24-29 | escaping distributes over concatenation |
| HtmlEscape.EntityMismatch | doxyfront/model.py:25-29 | no entity is a prefix of a different entity followed by any text |
| Fragments.ResolveFragmentTerminal | doxyfront/model.py:36-38 | after resolving a fragment tree no cross-reference anywhere in it is symbolic |
| Fragments.ResolveFragmentIdempotent | doxyfront/model.py:89-91 | resolving a resolved tree again changes nothing |
| Fragments.PlaintextIgnoresResolution | doxyfront/model.py:40-53 | resolution does not change a tree's plaintext |
| Fragments.EscapeJoin | doxyfront/model.py:41-44 | escaping a space-joined list equals joining the escaped elements |
| Fragments.TextOnlyHtmlIsEscapedPlaintext | doxyfront/model.py:40-56 | for a tree of plain and text fragments, the HTML is the escaped plaintext |
| Fragments.FormatHtmlOfText | doxyfront/model.py:74-75 | a format fragment over unformatted text renders as `<tag>`, the escaped plaintext, `</tag>`, with the variant's tag |
| Fragments.RefFragmentHtml | doxyfront/model.py:83-87 | a resolved cross-reference renders its target's name HTML; any other renders exactly like its children |
| Fragments.HtmlIgnoresTargets | doxyfront/model.py:43-44 | a tree without resolved references renders the same whatever the target renderer |
| Fragments.MissingTargetRendersAsText | doxyfront/model.py:283-288 | a cross-reference to an undefined id degrades, after resolution, to the escaped plaintext of its children |
| Fragments.TextOnlyResolvesToItself | doxyfront/model.py:36-38 | resolution leaves a tree without cross-references unchanged |
| Defs.AttributePlaintextInjective | doxyfront/model.py:160-163 | distinct attributes render distinctly, only `ABSTRACT` renders as `= 0`, and the others render as their lower-case name |
| Defs.Keep | doxyfront/model.py:175 | the comprehension keeps exactly the members of the order list that occur in the input, and is no longer than the order list |
| Defs.KeepOrdered | doxyfront/model.py:175 | what is kept follows the order list |
| Defs.KeepDistinct | doxyfront/model.py:175 | what is kept has no repetitions |
| Defs.KeepSetOnly | doxyfront/model.py:175 | permuting or repeating the input changes nothing |
| Defs.CppOrderAttributes | doxyfront/model.py:171-175 | the before list holds exactly the input's members among STATIC, VIRTUAL, CONSTEXPR, MUTABLE, EXPLICIT; the after list those among CONST, OVERRIDE, FINAL, ABSTRACT; neither has NOEXCEPT or INLINE |
| Defs.CppOrderAttributesProperties | doxyfront/model.py:171-175 | both lists follow the fixed order without repetitions, and depend only on the set of input attributes |
| Defs.VariantKindNames | doxyfront/model.py:411-412 | a function's kind is present exactly when its variant is, and equal kinds mean equal variants |
| Defs.ClassVariantKindNames | doxyfront/model.py:615-616 | a class's kind is present exactly when its variant is, and equal kinds mean equal variants |
| Defs.ChainShape | doxyfront/model.py:224-228 | the walk up from a parent meets consecutive ancestors outside the context, starts at that parent, and stops at a missing parent or one in the context |
| Defs.ChainStep | doxyfront/model.py:226-228 | one loop round moves one ancestor from the rest of the walk onto the chain |
| Defs.PrefixStep | doxyfront/model.py:226-227 | one loop round moves an ancestor's name and the separator from the prefix still to walk into the text built |
| Defs.QualifiedNamePlaintext | doxyfront/model.py:223-229 | the loop returns the qualified name of the definition for the context |
| Defs.QualifiedNameShape | doxyfront/model.py:223-229 | a qualified name ends with the definition's own name, and is exactly that name when the scope parent is absent or in the context |
| Defs.QualifiedNameStep | doxyfront/model.py:223-229 | with an outer scope outside the context, the qualified name is that scope's qualified name, `::` and the own name |
| Defs.PathPlaintext | doxyfront/model.py:241-247 | the loop returns the path name of the reference definition: the file parents' names and the own name, joined by `/`, or the bare name when short |
| Defs.PathNameStep | doxyfront/model.py:241-247 | a full path is the file parent's path, `/` and the own name |
| Defs.MacroSignaturePlaintext | doxyfront/model.py:330-331 | a macro signature is `#define`, the name and `(`, then the parameters joined by `, `, then `)`; with no parameters it is `#define name()` |
| Defs.MacroSignatureParams | doxyfront/model.py:330-331 | when no parameter holds a comma, splitting the text between the parentheses at `, ` gives back the parameters |
| Defs.EnumSignatureProperties | doxyfront/model.py:518-522 | an enum signature starts with `enum class ` for a strong enum and with `enum ` otherwise. The fully qualified form ignores the context. Without an underlying type, the signature is that prefix and the name: qualified from the outermost scope when fully qualified, and relative to the context otherwise |
| Defs.EnumSignatureUnderlying | doxyfront/model.py:523-524 | with an underlying type, the signature ends with `: ` and the type's plaintext, qualified or not |
| Defs.DefaultSignatureProperties | doxyfront/model.py:265-270 | a path definition not fully qualified shows kind and bare name; the fully qualified signature ignores the context |
| Xml.Attr | doxyfront/source.py:9-21 | the lookup finds a value exactly when some attribute has the key, and the value found is stored under it |
| Xml.AttrAt | doxyfront/source.py:17-21 | with distinct keys the lookup returns the value stored under the key, wherever it is |
| Xml.MaybeText | doxyfront/source.py:24-34 | the text is returned exactly when it is present and non-empty |
| Xml.FindAll | doxyfront/source.py:185 | every element found is a child with the tag, and every child with the tag is found |
| Xml.FindAllAppend | doxyfront/source.py:185 | the matches keep document order: those of two runs of children are the first run's followed by the second's |
| Xml.FindFirstOfFindAll | doxyfront/source.py:543 | `find` is the head of `findall`, and finds nothing exactly when no child has the tag |
| Xml.Last | doxyfront/source.py:154-164 | the last child with one of the tags, or, when none is found, no child has any of them |
| Xml.LastAppend | doxyfront/source.py:154-164 | a later matching child overrides every earlier one |
| Strings.ParseDecimal | doxyfront/source.py:77 | `int` reads back the decimal rendering of a natural number, with or without a minus sign |
| Source.YesNo | doxyfront/source.py:37-43 | `'yes'` gives true, `'no'` false, every other input (absent included) nothing |
| Source.VisibilityOf | doxyfront/source.py:97-103 | the member whose name is the upper-cased input, or nothing when no member has that name |
| Source.VisibilityRoundTrip | doxyfront/source.py:97-103 | the lower-case names Doxygen writes read back as their members |
| Source.AttributeOf | doxyfront/source.py:106-124 | the attribute whose name is the upper-cased key, or nothing; the table has no CONST |
| Source.AttributeRoundTrip | doxyfront/source.py:106-124 | each attribute's lower-case name reads back as that attribute |
| Source.FunctionVariantOf | doxyfront/source.py:321-326 | the variant whose name is the upper-cased input, or nothing |
| Source.ClassVariantOf | doxyfront/source.py:508-513 | the variant whose name is the upper-cased input, or nothing |
| Source.FunctionKindsNameVariants | doxyfront/source.py:192-193 | the member kinds dispatched to functions (`function`, `signal`, `slot`) all name a variant |
| Source.ClassKindsNameVariants | doxyfront/source.py:553-554 | the six compound kinds dispatched to classes all name a variant |
| Source.DeserializeAttributes | doxyfront/source.py:120-129 | the loop returns the attribute list of the node's attributes |
| Source.AttributesOfMember | doxyfront/source.py:120-129 | an attribute is in the list exactly when some XML attribute whose upper-cased key is its name has the value `yes` |
| Source.AttributesOfAppend | doxyfront/source.py:122-126 | the list follows attribute order |
| Source.MaybeLineno | doxyfront/source.py:74-80 | a line number is returned only when the attribute is present, and it is positive |
| Source.MaybeLinenoDecimal | doxyfront/source.py:76-78 | a positive line number written in decimal reads back, zero and negative ones give nothing |
| Source.MaybeLinenoAsWritten | doxyfront/source.py:74-80 | as written, a present value `int` rejects raises `ValueError`; otherwise the result is the intended one |
| Source.MaybeLinenoRaises | doxyfront/source.py:79 | the value `12a` raises as written and gives nothing as intended |
| Source.LocationOf | doxyfront/source.py:83-87 | as written, a present line that `int` rejects raises `ValueError`; as intended nothing raises; otherwise the location is the `file` attribute and the line `maybe_lineno` reads |
| Source.Locations | doxyfront/source.py:158-164 | every `location` child is read in order: as written the loop raises exactly when some child's line is unreadable; otherwise it keeps the last child's location |
| Source.CommonOf | doxyfront/source.py:144-165 | `Def.deserialize` raises only as written, and exactly when a `location` child's line is unreadable; otherwise it returns the common fields of the element |
| Source.DeserializeRef | doxyfront/source.py:232-239 | no reference exactly when both id and text are absent; symbolic exactly when an id is present, with that id and the text; otherwise unresolved with the text |
| Source.InheritanceOf | doxyfront/source.py:489-495 | a base without `prot` raises `KeyError`; otherwise it is virtual exactly when `virt` is `virtual` |
| Source.ParamDeserialize | doxyfront/source.py:297-311 | under either reading, the loop returns the parameter that reading's pass over the children describes; as written, its second name branch tests `declname` again |
| Source.ScanParamCommon | doxyfront/source.py:301-309 | under either reading, the type, the `declname` and the default end as the last child of their tag left them |
| Source.ScanParamLast | doxyfront/source.py:306-307 | as intended, `defname` ends as the last `defname` child left it |
| Source.ParamOfFields | doxyfront/source.py:301-310 | as intended, the name is the last `declname` text, or else the last `defname` text; the type is the last `type` child; the default is the last `defval` text |
| Source.ParamOfAsWrittenName | doxyfront/source.py:304-310 | as written, the name is the last `declname` text and never a `defname`; the type and the default are as intended |
| Source.ScanParamAsWrittenIgnoresDefname | doxyfront/source.py:304-309 | as written, the loop never sets `defname` |
| Source.ParamDefnameLost | doxyfront/source.py:306-307 | a parameter with only a `defname` has no name as written and keeps it as intended |
| Source.EnumValueOf | doxyfront/source.py:388-393 | an enum value raises exactly when its common fields do; otherwise it carries them |
| Source.EnumValues | doxyfront/source.py:410-414 | one value per `enumvalue` child; only as written can a value's `ValueError` escape, and as intended nothing escapes |
| Source.EnumOf | doxyfront/source.py:404-415 | an enum raises exactly when one of its values does |
| Source.MemberBody | doxyfront/source.py:188-201 | each member kind gets the body of the class `CompoundDef.deserialize` picks for it (the variant named by kind for functions); only as written can an enum body raise `ValueError` |
| Source.MemberOf | doxyfront/source.py:186-203 | a member without `kind` raises `KeyError`. A known kind gives a definition with the element's common fields and that kind's body. Any other kind gives nothing. As intended, nothing else raises; as written, a known member with an unreadable line raises `ValueError` |
| Source.MemberFunctionVariant | doxyfront/source.py:338 | a function, signal or slot member always gets its variant |
| Source.DeserializeSection | doxyfront/source.py:185-207 | the inner loop returns the references and members one section contributes, or its first exception |
| Source.DeserializeCompound | doxyfront/source.py:181-207 | the outer loop returns the references and members of all children, or the first exception |
| Source.EntriesCount | doxyfront/source.py:182-207 | the references number the members plus the `inner*` entries |
| Source.EntriesReferenced | doxyfront/source.py:205-207 | every member has a symbolic reference with its own id and name |
| Source.CompoundHead | doxyfront/source.py:442-530 | the compound's own definition carries the common fields read and the compound's references, with the body of the class its kind names; only a base without `prot` raises, with `KeyError` |
| Source.CompoundDefsErrors | doxyfront/source.py:74-80 | building a compound raises only `KeyError`, plus `ValueError` as written |
| Source.CompoundBadLineFails | doxyfront/source.py:163-176 | as written, a compound with an unreadable location line raises `ValueError` |
| Source.CompoundDefsShape | doxyfront/source.py:174-209 | a built compound comes first; its references number the members plus the `inner*` children and include every member's |
| Source.MissingMemberKindFails | doxyfront/source.py:188 | a `memberdef` without `kind` in any section makes the whole compound fail |
| Source.Parse | doxyfront/source.py:543-563 | the result is empty exactly when there is no `compounddef` or its kind is unknown; a missing kind raises `TypeError`; any other exception is one the reading lets escape; otherwise the first definition is the compound, of the class the kind names, with the node's common fields |
| Source.ParseBadLine | doxyfront/source.py:79-86 | a file compound whose location line is `12a` makes `parse` raise `ValueError` as written, and parses as intended |
| Source.ParseShape | doxyfront/source.py:548-560 | a parsed compound's references number its members plus its `inner*` children and include every member's, and a class-like compound has a variant |
| Depgraph.SanIdShape | doxyfront/depgraph.py:8-9 | the sanitised id has no `-`, and is one character longer per `-` of the input |
| Depgraph.SanIdCollides | doxyfront/depgraph.py:8-9 | `a-` and `a__` sanitise to the same id |
| Depgraph.Reach | doxyfront/depgraph.py:12-26 | the directories reachable from a root through resolved directory members: the root and directories no higher than it |
| Depgraph.ReachTransitive | doxyfront/depgraph.py:12-26 | reachability is transitive |
| Depgraph.FilesContained | doxyfront/depgraph.py:12-18 | `_files_contained` yields only files |
| Depgraph.FilesContainedReach | doxyfront/depgraph.py:12-18 | a file is yielded exactly when some directory reachable from the root lists it as a resolved member |
| Depgraph.CollectFolders | doxyfront/depgraph.py:21-26 | `(root, level)` comes first; every level lies between `level` and `max(level, max_level)`; every folder is reachable; at `max_level` only the root is yielded |
| Depgraph.VisibleFolders | doxyfront/depgraph.py:43-50 | the recursion returns the visible set of the reference definition |
| Depgraph.VisibleCharacterization | doxyfront/depgraph.py:43-50 | a folder is visible exactly when it lies below the root and something interesting lies below it, itself included |
| Depgraph.VisibleProperties | doxyfront/depgraph.py:43-50 | nothing interesting gives nothing; the result lies below the root and holds every interesting folder below it; the root is in it exactly when it is interesting or a subdirectory's result is non-empty |
| Depgraph.Roots | doxyfront/depgraph.py:54-61 | the roots are exactly the directories that no directory lists as a resolved member |
| Depgraph.RootsCover | doxyfront/depgraph.py:54-61 | every directory lies below some root |
| Depgraph.SubgraphVisible | doxyfront/depgraph.py:29-37 | a subgraph draws only visible folders below its root, and nothing when the root is not visible |
| Dependencies.CollectAllUnder | doxyfront/depgraph.py:62-63 | every collected folder is a directory below one of the roots |
| Dependencies.FoldersProperties | doxyfront/depgraph.py:62-64 | the sorted folder list holds every collected pair exactly once, shallow levels first |
| Dependencies.AssignAll | doxyfront/depgraph.py:62-66 | building a dictionary sets the listed keys to the value and keeps every other entry |
| Dependencies.AssignLast | doxyfront/depgraph.py:62-66 | the value kept for a key comes from the last block that holds it |
| Dependencies.FileFoldersKeys | doxyfront/depgraph.py:66 | a file has a folder exactly when some listed folder contains it, and every key is a file |
| Dependencies.FileFoldersLast | doxyfront/depgraph.py:66 | a file's folder is the last listed folder that contains it |
| Dependencies.FileFolderDeepest | doxyfront/depgraph.py:64-66 | a file goes to a folder at least as deep as any listed folder containing it |
| Dependencies.FoldersAreDirs | doxyfront/depgraph.py:62-64 | every listed folder is a directory |
| Dependencies.FileFoldersRooted | doxyfront/depgraph.py:63-74 | every folder a file gets has a root in `folder_roots`, so that lookup never fails |
| Dependencies.FolderRootsHas | doxyfront/depgraph.py:63 | every collected folder has an entry in `folder_roots` |
| Dependencies.FolderRootsAbove | doxyfront/depgraph.py:63 | the root recorded for a folder is a root above it |
| Dependencies.CountIncludes | doxyfront/depgraph.py:70-75 | the inner loop counts one file's includes, stopping at the first `KeyError` |
| Dependencies.ComputeDeps | doxyfront/depgraph.py:68-75 | the counting loop computes the edge counts of the reference definition, stopping at the first `KeyError` |
| Dependencies.IncludeEdgesSpec | doxyfront/depgraph.py:70-75 | one file's counting fails exactly when one of its includes fails; otherwise each edge counts once per include that adds to it |
| Dependencies.DepsSpec | doxyfront/depgraph.py:66-75 | the count fails exactly when some include of some file fails; otherwise each edge is counted once per include behind it |
| Dependencies.EdgeShape | doxyfront/depgraph.py:71-75 | a counted edge joins two different folders, is filed under its source folder's root, starts at a file's folder and ends at a folder |
| Dependencies.TotalCountPositive | doxyfront/depgraph.py:71-75 | a positive count has an include behind it |
| Dependencies.ErrIsKeyError | doxyfront/depgraph.py:72 | the only failure is the `KeyError` of the folder lookup |
| Dependencies.FailsExtend | doxyfront/depgraph.py:70-75 | once an include of a file fails, counting all that file's includes fails with `KeyError` |
| Dependencies.ErrExtend | doxyfront/depgraph.py:68-75 | once one file's includes fail, counting all files fails with `KeyError` |
| Dependencies.VisibleAllHas | doxyfront/depgraph.py:80-84 | every interesting folder below some root is visible |
| Dependencies.EdgeEndsVisible | doxyfront/depgraph.py:78-86 | both ends of every counted edge are drawn for its root |
| Doctree.CategoryTable | doxyfront/doctree.py:20-37 | `category` gives the table's pair, and its index is the category's value, at most 8 |
| Doctree.CategoryTableLate | doxyfront/doctree.py:24-37 | typedefs, classes and enums are types, then functions, properties, variables, and anything else is other |
| Doctree.CategoryKeyTable | doxyfront/doctree.py:40-41 | `category_key` agrees with the table and lies in 0..8 |
| Doctree.HeadingsDistinct | doxyfront/doctree.py:49 | different categories get different headings |
| Doctree.Group | doxyfront/doctree.py:46-48 | each category index a member has is a key, mapped to those members in input order, with no repeated key |
| Doctree.GroupStep | doxyfront/doctree.py:47-48 | one more member extends its own group and no other |
| Doctree.Emit | doxyfront/doctree.py:49-53 | the output loop gives one section per sorted key, listing its group |
| Doctree.Render | doxyfront/doctree.py:44-54 | `render` produces the sections of the reference definition |
| Doctree.SortedKeys | doxyfront/doctree.py:49 | the sorted keys are exactly the present category indexes, ascending |
| Doctree.PresentMembers | doxyfront/doctree.py:46-49 | the present keys from i on are exactly the category indexes from i to 8 some member has |
| Doctree.SectionsShape | doxyfront/doctree.py:46-53 | each category some member has gets exactly one section, in ascending order, and none is empty |
| Doctree.SectionNonEmpty | doxyfront/doctree.py:48-53 | the section of a category some member has is not empty |
| Doctree.SectionContents | doxyfront/doctree.py:50-51 | a section holds exactly its category's members, sorted by lowercased name, with ties in input order |
| Doctree.EntriesPermute | doxyfront/doctree.py:46-53 | every member is listed exactly once across the sections |
| Sorting.SortBySorted | doxyfront/doctree.py:49-51 | `sorted` returns a permutation of its input in ascending key order |
| Sorting.SortByStable | doxyfront/doctree.py:51 | elements with equal keys keep their relative order |
| Sorting.SortByPermutes | doxyfront/doctree.py:49-51 | the sorted list holds the same elements, with the same multiplicities, as the input |
| Sorting.KeyFilterMember | doxyfront/doctree.py:47-48 | an element is in a category's group exactly when it is in the input and has that category |
| Sorting.StringOrderTotal | doxyfront/doctree.py:51 | strings compare as a total order, by code point |
| Sorting.LexLeAntisymmetric | doxyfront/doctree.py:51 | two strings each no greater than the other are equal |
| Sorting.LexLeTransitive | doxyfront/doctree.py:51 | string comparison is transitive |
| Sorting.IntOrderTotal | doxyfront/depgraph.py:64 | integers compare as a total order |
| Pages.ResolvedTargets | doxyfront/doctree.py:60-62 | the targets of the resolved references, in order: exactly the resolved targets and nothing else |
| Pages.PageMembers | doxyfront/doctree.py:59-62 | a compound's page lists its resolved members; a non-compound lists nothing |
| Pages.PageMembersClosed | doxyfront/doctree.py:59-62 | in a closed arena every page member is a definition of the arena |
| Pages.CollectMembers | doxyfront/doctree.py:58-64 | the inner loop returns the page members and what is added to `non_global` |
| Pages.MakePage | doxyfront/doctree.py:58-66 | one round returns the definition's page and its contribution to `non_global` |
| Pages.MakePages | doxyfront/doctree.py:57-66 | the loop returns every definition's page and the final `non_global` |
| Pages.MakeDoctree | doxyfront/doctree.py:57-72 | a page per definition, the roots are the definitions outside `non_global`, and the index lists them |
| Pages.NonGlobalAll | doxyfront/doctree.py:58-66 | `non_global` holds exactly the definitions a scope other than a file lists |
| Pages.NonGlobalStep | doxyfront/doctree.py:63-64 | one round adds to `non_global` exactly the members of a scope other than a file |
| Pages.IndexRootsSpec | doxyfront/doctree.py:70 | a definition is an index root exactly when every compound listing it is a file |

## Left out

- The XML parser (`xml.parse`) and its `UnicodeDecodeError` branch are not modelled, nor is the `__main__` block of `source.py`. A document is an `Xml.Element` value.
- Logging is not modelled: `_warning`, `file_name` and every `_log.warning`. It has no effect on the values computed.
- HTML file writing in `doctree` and DOT printing in `depgraph` are not modelled. The model computes the pages, sections, folders and edge counts that get written.
- HTML signatures are not modelled: `signature_html`, `qualified_name_html`, `path_html`, `Param.render_html`, `Attribute.render_html`, and the typedef, function and class `signature_plaintext`. `Fragments.RenderHtml` takes a `targetHtml` parameter to stand for `qualified_name_html`.
- `Markup.render_plaintext`'s whitespace regular expression is a function parameter (`normalize`), not a reimplementation.
- Python `Enum.__dict__` lookups are explicit name tables (`Source.VisibilityOf` and the others). This relies on the enum classes' upper-case dictionary keys being exactly their member names.
- `Strings.Upper` and `Strings.Lower` case-map ASCII letters only. Python's `str.upper` and `str.lower` also map other Unicode letters.
- `Strings.ParseInt` accepts an optional sign and ASCII digits. Python's `int` also accepts surrounding whitespace, `_` separators and other Unicode digits.
- The field loops of `Def.deserialize` and the per-class deserializers (`MacroDef`, `TypedefDef`, `FunctionDef`, `VariableDef`, `PropertyDef`, `EnumDef`, `EnumValueDef`, `FriendDef`, `FileDef`, `CompoundSingleDef`, `ClassDef`) are written as "last child with this tag" and "all children with this tag" functions (`Xml.Last`, `Xml.FindAll`), not as loops. Their loops only reassign fields or append, so the result is the same.
- `Source.MemberOf` keeps an unparsed function type under `returnType` for `VariableDef` and `PropertyDef`, as the code does (it assigns `return_type`, not `type`).
- In `render`, `Doctree.Group` keys `by_cat` by the category index rather than the `(index, category)` pair. The pair is determined by the index, so the grouping and its order are the same.
- Set iteration order is arbitrary in Python. The `depgraph` roots are a sequence in any order, and the `doctree` index takes its enumeration order as the parameter `rootOrder`.
- `Pages.MakeDoctree` requires a closed arena: every resolved reference names a definition in it. `Resolution.Graph.ResolveRefs` keeps an arena closed when the id map it is given points into the arena. That the id map `source.load` builds does so is not part of this model.
- Defs names are `string`, where the Python name may be `None`. So `Defs.QualifiedName`, `Defs.PathName`, `Defs.QualifiedNamePlaintext` and `Defs.PathPlaintext` do not model the `TypeError` a `None` name raises in `model.py:227-229`, nor the `None/...` text of `model.py:244-245`. `Doctree.NameKey` does not model the `AttributeError` of `doctree.py:51`. `Fragments.Text` and `Fragments.Link` hold a `string` too, so the `None` text and URL of `model.py:53-56` are not modelled.
- Defs.MacroSignaturePlaintext: macro parameters are `string`. `MacroDef.deserialize` stores `None` for a `defname` with no text, and the join at `model.py:331` then raises `TypeError`; that case is not modelled (`Source.MacroParams` keeps the `None`).
- `Fragments.RefFragment` always holds a reference. `model.py:79` lets it default to `None`, and resolving it would then raise `AttributeError` at `model.py:91`. No code in this model builds such a fragment.
- Depgraph: `Depgraph.Reach`, `Depgraph.FilesContained`, `Depgraph.CollectFolders` and `Depgraph.VisibleFolders` require `DirsRanked`, meaning directory membership is acyclic. On a cycle, `_files_contained`, `_collect_folders` and `_visible_folders` recurse without end; that behaviour is not modelled.
- `Depgraph.SubgraphVisible` states only what a subgraph may draw, not that every visible folder below the root is drawn.
- The definition merges, parent assignment and id passes that `source.load` would perform are not part of this model. `source.load` is called by the entry points but not defined in the files modelled.
- The command-line entry points (`doxyfront.py`, `doxyfront/__main__.py`) and `setup.py` are not modelled.

## Findings

| source | as written | input that shows it | evidently intended | confidence | as-written member | corrected member |
|---|---|---|---|---|---|---|
| doxyfront/source.py:79 | `except KeyError or ValueError` evaluates the `or` first and catches only `KeyError` | a `location` with `line="12a"`: `int` raises `ValueError`, which escapes `parse` | a non-numeric line gives no line number | high (not executed) | Source.MaybeLinenoAsWritten, Source.LocationOf, Source.ParseBadLine | Source.MaybeLineno, Source.CommonOf (`Intended`) |
| doxyfront/source.py:306 | the second branch tests `'declname'` again, so `defname` is never set | a `param` whose only name child is `<defname>T</defname>`: its name is `None` | a parameter without `declname` is named by its `defname` | high (not executed) | Source.ParamOfAsWrittenName, Source.ParamDefnameLost | Source.ParamOfFields (`Intended`) |
