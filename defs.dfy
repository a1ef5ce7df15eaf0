/** Loaded definitions (doxyfront/model.py:135-647). The definitions of one documentation set
    live in an arena `defs: seq<Def>`; a parent link or a resolved reference is an index into it. */
module Defs {
  import opened Wrappers
  import opened Seqs
  import opened Strings
  import opened Refs
  import opened Fragments

  /** `Visibility`, with the symbol each member stands for. */
  datatype Visibility = Public | Package | Protected | Private

  function VisibilitySymbol(v: Visibility): string
  {
    match v
    case Public => "+"
    case Package => "~"
    case Protected => "#"
    case Private => "-"
  }

  /** `Attribute`, in declaration order (values 0 to 10). */
  datatype Attribute =
    Final | Override | Virtual | Abstract | Constexpr | Explicit | Noexcept | Static | Mutable | Inline | Const

  function AttributeName(a: Attribute): (r: string)
    ensures UpperLetters(r) && |r| > 0
  {
    match a
    case Final => "FINAL"
    case Override => "OVERRIDE"
    case Virtual => "VIRTUAL"
    case Abstract => "ABSTRACT"
    case Constexpr => "CONSTEXPR"
    case Explicit => "EXPLICIT"
    case Noexcept => "NOEXCEPT"
    case Static => "STATIC"
    case Mutable => "MUTABLE"
    case Inline => "INLINE"
    case Const => "CONST"
  }

  /** `Attribute.render_plaintext`: a pure-virtual marker renders as `= 0`, every other
      attribute as its lower-cased name. */
  function AttributePlaintext(a: Attribute): string
  {
    if a == Abstract then "= 0" else Lower(AttributeName(a))
  }

  /** Distinct attributes render distinctly, and only `Abstract` renders as `= 0`; every
      other rendering is a non-empty run of lower-case letters. */
  lemma AttributePlaintextInjective(a: Attribute, b: Attribute)
    ensures AttributePlaintext(a) == AttributePlaintext(b) ==> a == b
    ensures AttributePlaintext(a) == "= 0" <==> a == Abstract
    ensures a != Abstract ==> (|AttributePlaintext(a)| > 0 &&
      forall i :: 0 <= i < |AttributePlaintext(a)| ==> 'a' <= AttributePlaintext(a)[i] <= 'z')
  {
    LowerOfUpperLetters(AttributeName(a));
    LowerOfUpperLetters(AttributeName(b));
    if a != Abstract {
      assert AttributePlaintext(a)[0] != '=';
    }
    if AttributePlaintext(a) == AttributePlaintext(b) && a != Abstract && b != Abstract {
      LowerInjective(AttributeName(a), AttributeName(b));
    }
    if a != Abstract && b == Abstract {
      assert AttributePlaintext(a)[0] != AttributePlaintext(b)[0];
    }
    if a == Abstract && b != Abstract {
      assert AttributePlaintext(a)[0] != AttributePlaintext(b)[0];
    }
  }

  const MayBefore: seq<Attribute> := [Static, Virtual, Constexpr, Mutable, Explicit]
  const MayAfter: seq<Attribute> := [Const, Override, Final, Abstract]

  /** `[a for a in order if a in attrs]`. */
  function Keep(order: seq<Attribute>, attrs: seq<Attribute>): (r: seq<Attribute>)
    ensures forall a :: a in r <==> a in order && a in attrs
    ensures |r| <= |order|
  {
    if order == [] then []
    else (if order[0] in attrs then [order[0]] else []) + Keep(order[1..], attrs)
  }

  /** What is kept has no repetitions. */
  lemma {:induction false} KeepDistinct(order: seq<Attribute>, attrs: seq<Attribute>)
    requires Distinct(order)
    ensures Distinct(Keep(order, attrs))
  {
    if order != [] {
      DistinctHead(order);
      var rest := Keep(order[1..], attrs);
      KeepDistinct(order[1..], attrs);
      if order[0] in attrs {
        var r := Keep(order, attrs);
        assert r == [order[0]] + rest;
        assert order[0] !in rest;
        forall i, j | 0 <= i < j < |r|
          ensures r[i] != r[j]
        {
          assert r[j] == rest[j - 1];
          if i > 0 {
            assert r[i] == rest[i - 1];
          }
        }
      }
    }
  }

  /** What is kept follows `order`. */
  lemma {:induction false} KeepOrdered(order: seq<Attribute>, attrs: seq<Attribute>)
    requires Distinct(order)
    ensures forall i, j :: 0 <= i < j < |Keep(order, attrs)| ==>
      IndexOf(order, Keep(order, attrs)[i]) < IndexOf(order, Keep(order, attrs)[j])
  {
    if order != [] {
      DistinctHead(order);
      var rest := Keep(order[1..], attrs);
      KeepOrdered(order[1..], attrs);
      var r := Keep(order, attrs);
      assert r == (if order[0] in attrs then [order[0]] else []) + rest;
      var off := if order[0] in attrs then 1 else 0;
      forall i | 0 <= i < |rest|
        ensures IndexOf(order, rest[i]) == 1 + IndexOf(order[1..], rest[i])
      {
        assert rest[i] in order[1..];
        IndexOfTail(order, rest[i]);
      }
      forall i, j | 0 <= i < j < |r|
        ensures IndexOf(order, r[i]) < IndexOf(order, r[j])
      {
        assert r[j] == rest[j - off];
        if i >= off {
          assert r[i] == rest[i - off];
        }
      }
    }
  }

  /** The result depends on the set of elements of `attrs` only: permuting or repeating
      them changes nothing. */
  lemma {:induction false} KeepSetOnly(order: seq<Attribute>, attrs: seq<Attribute>, attrs': seq<Attribute>)
    requires forall a :: a in attrs <==> a in attrs'
    ensures Keep(order, attrs) == Keep(order, attrs')
  {
    if order != [] {
      KeepSetOnly(order[1..], attrs, attrs');
    }
  }

  /** `cpp_order_attributes`: the attributes written before a declaration and those
      written after it. */
  function CppOrderAttributes(attrs: seq<Attribute>): (r: (seq<Attribute>, seq<Attribute>))
    ensures forall a :: a in r.0 <==> a in MayBefore && a in attrs
    ensures forall a :: a in r.1 <==> a in MayAfter && a in attrs
    ensures Noexcept !in r.0 && Noexcept !in r.1 && Inline !in r.0 && Inline !in r.1
  {
    (Keep(MayBefore, attrs), Keep(MayAfter, attrs))
  }

  /** Both groups follow the fixed C++ order without repetitions, and neither depends on
      the order or multiplicity of the input. */
  lemma CppOrderAttributesProperties(attrs: seq<Attribute>, attrs': seq<Attribute>)
    ensures Distinct(CppOrderAttributes(attrs).0) && Distinct(CppOrderAttributes(attrs).1)
    ensures forall i, j :: 0 <= i < j < |CppOrderAttributes(attrs).0| ==>
      IndexOf(MayBefore, CppOrderAttributes(attrs).0[i]) < IndexOf(MayBefore, CppOrderAttributes(attrs).0[j])
    ensures forall i, j :: 0 <= i < j < |CppOrderAttributes(attrs).1| ==>
      IndexOf(MayAfter, CppOrderAttributes(attrs).1[i]) < IndexOf(MayAfter, CppOrderAttributes(attrs).1[j])
    ensures (forall a :: a in attrs <==> a in attrs') ==> CppOrderAttributes(attrs) == CppOrderAttributes(attrs')
  {
    KeepDistinct(MayBefore, attrs);
    KeepDistinct(MayAfter, attrs);
    KeepOrdered(MayBefore, attrs);
    KeepOrdered(MayAfter, attrs);
    if forall a :: a in attrs <==> a in attrs' {
      KeepSetOnly(MayBefore, attrs, attrs');
      KeepSetOnly(MayAfter, attrs, attrs');
    }
  }

  /** `FunctionDef.Variant` and `ClassDef.Variant`. */
  datatype FunctionVariant = Function | Signal | Slot | Constructor | Destructor
  datatype ClassVariant = Class | Struct | Union | Protocol | Interface | Category

  function FunctionVariantName(v: FunctionVariant): (r: string)
    ensures UpperLetters(r)
  {
    match v
    case Function => "FUNCTION"
    case Signal => "SIGNAL"
    case Slot => "SLOT"
    case Constructor => "CONSTRUCTOR"
    case Destructor => "DESTRUCTOR"
  }

  function ClassVariantName(v: ClassVariant): (r: string)
    ensures UpperLetters(r)
  {
    match v
    case Class => "CLASS"
    case Struct => "STRUCT"
    case Union => "UNION"
    case Protocol => "PROTOCOL"
    case Interface => "INTERFACE"
    case Category => "CATEGORY"
  }

  /** `Param`: optional name, type and default value. */
  datatype Param = Param(name: Option<string>, paramType: Option<Markup>, default: Option<Markup>)

  /** `Include`: an optional reference to the included file and whether it is a local include. */
  datatype Include = Include(file: Option<Ref>, local: Option<bool>)

  /** `Inheritance`: one base of a class. */
  datatype Inheritance = Inheritance(ref: Option<Ref>, visibility: Option<Visibility>, isVirtual: Option<bool>)

  /** What kind of definition, with the fields of its class. Compounds share `members`. */
  datatype Kind =
    | Macro(params: seq<string>, substitution: Option<Markup>)
    | Typedef(templateParams: seq<Param>, typeMarkup: Option<Markup>, definition: Option<Markup>)
    | FunctionDef(functionVariant: Option<FunctionVariant>, returnType: Option<Markup>,
                  templateParams: seq<Param>, parameters: seq<Param>)
    | Variable(typeMarkup: Option<Markup>, initializer: Option<Markup>)
    | Property(typeMarkup: Option<Markup>)
    | EnumValue(initializer: Option<Markup>)
    | Enum(underlyingType: Option<Markup>, strong: Option<bool>, values: seq<Def>)
    | Friend(definition: Option<Markup>)
    | Directory(members: seq<Ref>)
    | File(members: seq<Ref>, includes: seq<Include>)
    | Namespace(members: seq<Ref>)
    | Group(members: seq<Ref>)
    | Page(members: seq<Ref>)
    | ClassDef(members: seq<Ref>, classVariant: Option<ClassVariant>, templateParams: seq<Param>,
               bases: seq<Inheritance>)

  /** `Def`: the fields every definition has, and its kind. */
  datatype Def = Def(
    id: string,
    name: string,
    brief: Option<Markup>,
    detailed: Option<Markup>,
    inBody: Option<Markup>,
    attributes: seq<Attribute>,
    scopeParent: Option<nat>,
    fileParent: Option<nat>,
    kind: Kind)

  /** `isinstance(d, CompoundDef)`. */
  predicate IsCompound(d: Def)
  {
    d.kind.Directory? || d.kind.File? || d.kind.Namespace? || d.kind.Group? || d.kind.Page? || d.kind.ClassDef?
  }

  /** Every resolved member of a compound is a loaded definition (in Python a `ResolvedRef`
      always holds a definition object). */
  predicate Closed(defs: seq<Def>)
  {
    forall i :: 0 <= i < |defs| && IsCompound(defs[i]) ==>
      forall j :: 0 <= j < |defs[i].kind.members| && defs[i].kind.members[j].Resolved? ==>
        defs[i].kind.members[j].target < |defs|
  }

  /** `isinstance(d, PathDef)`: directories and files are named by path. */
  predicate IsPath(d: Def)
  {
    d.kind.Directory? || d.kind.File?
  }

  /** `Def.kind()`: `None` only for a function or class whose variant is unknown. */
  function KindName(d: Def): Option<string>
  {
    match d.kind
    case Macro(_, _) => Some("macro")
    case Typedef(_, _, _) => Some("typedef")
    case FunctionDef(v, _, _, _) => if v.Some? then Some(Lower(FunctionVariantName(v.value))) else None
    case Variable(_, _) => Some("variable")
    case Property(_) => Some("property")
    case EnumValue(_) => Some("enum value")
    case Enum(_, _, _) => Some("enum")
    case Friend(_) => Some("friend")
    case Directory(_) => Some("directory")
    case File(_, _) => Some("file")
    case Namespace(_) => Some("namespace")
    case Group(_) => Some("group")
    case Page(_) => Some("page")
    case ClassDef(_, v, _, _) => if v.Some? then Some(Lower(ClassVariantName(v.value))) else None
  }

  /** A function's or class's kind name is its lower-cased variant name; different variants
      give different names and no variant is nameless. */
  lemma VariantKindNames(d: Def, e: Def)
    requires d.kind.FunctionDef? && e.kind.FunctionDef?
    ensures KindName(d).Some? <==> d.kind.functionVariant.Some?
    ensures KindName(d).Some? && KindName(d) == KindName(e) ==> d.kind.functionVariant == e.kind.functionVariant
  {
    if KindName(d).Some? && KindName(d) == KindName(e) {
      LowerInjective(FunctionVariantName(d.kind.functionVariant.value), FunctionVariantName(e.kind.functionVariant.value));
    }
  }

  lemma ClassVariantKindNames(d: Def, e: Def)
    requires d.kind.ClassDef? && e.kind.ClassDef?
    ensures KindName(d).Some? <==> d.kind.classVariant.Some?
    ensures KindName(d).Some? && KindName(d) == KindName(e) ==> d.kind.classVariant == e.kind.classVariant
  {
    if KindName(d).Some? && KindName(d) == KindName(e) {
      LowerInjective(ClassVariantName(d.kind.classVariant.value), ClassVariantName(e.kind.classVariant.value));
    }
  }

  /** `str.format` of an optional value: `None` prints as `None`. */
  function Show(s: Option<string>): string
  {
    if s.Some? then s.value else "None"
  }

  // ----- parent chains -----

  /** Which parent link a walk follows: `scope_parent` or `file_parent`. */
  datatype Hierarchy = Scope | FileTree

  function Parent(d: Def, h: Hierarchy): Option<nat>
  {
    if h.Scope? then d.scopeParent else d.fileParent
  }

  /** The parent links of `h` stay inside the arena and strictly decrease `rank`, so
      they are acyclic and every walk up them ends. */
  predicate Ranked(defs: seq<Def>, h: Hierarchy, rank: seq<nat>)
  {
    |rank| == |defs| &&
    forall i :: 0 <= i < |defs| && Parent(defs[i], h).Some? ==>
      Parent(defs[i], h).value < |defs| && rank[Parent(defs[i], h).value] < rank[i]
  }

  /** The ancestors met walking up from `p` until there is no parent or one in `stop`,
      innermost first. */
  function Chain(defs: seq<Def>, h: Hierarchy, p: Option<nat>, stop: set<nat>, ghost rank: seq<nat>): (c: seq<nat>)
    requires Ranked(defs, h, rank)
    requires p.Some? ==> p.value < |defs|
    ensures forall i :: 0 <= i < |c| ==> c[i] < |defs|
    decreases if p.Some? then rank[p.value] + 1 else 0
  {
    if p.None? || p.value in stop then []
    else [p.value] + Chain(defs, h, Parent(defs[p.value], h), stop, rank)
  }

  /** A chain starts at `p`, links each element to the next by the parent relation, keeps
      out of `stop`, and ends where the parent is absent or in `stop`: it is the run of
      consecutive ancestors outside `stop`. */
  lemma {:induction false} ChainShape(defs: seq<Def>, h: Hierarchy, p: Option<nat>, stop: set<nat>, rank: seq<nat>)
    requires Ranked(defs, h, rank)
    requires p.Some? ==> p.value < |defs|
    ensures var c := Chain(defs, h, p, stop, rank);
      && (forall i :: 0 <= i < |c| ==> c[i] !in stop)
      && (c == [] <==> p.None? || p.value in stop)
      && (c != [] ==> p == Some(c[0]))
      && (forall i :: 0 <= i < |c| - 1 ==> Parent(defs[c[i]], h) == Some(c[i + 1]))
      && (c != [] ==> Parent(defs[c[|c| - 1]], h).None? || Parent(defs[c[|c| - 1]], h).value in stop)
    decreases if p.Some? then rank[p.value] + 1 else 0
  {
    if p.Some? && p.value !in stop {
      var q := Parent(defs[p.value], h);
      ChainShape(defs, h, q, stop, rank);
      var c := Chain(defs, h, p, stop, rank);
      var c' := Chain(defs, h, q, stop, rank);
      assert c == [p.value] + c';
      forall i | 0 <= i < |c| - 1
        ensures Parent(defs[c[i]], h) == Some(c[i + 1])
      {
        if i > 0 {
          assert c[i] == c'[i - 1] && c[i + 1] == c'[i];
        }
      }
    }
  }

  /** One step up a chain. */
  lemma ChainStep(defs: seq<Def>, h: Hierarchy, p: nat, stop: set<nat>, rank: seq<nat>)
    requires Ranked(defs, h, rank) && p < |defs| && p !in stop
    ensures Chain(defs, h, Some(p), stop, rank) == [p] + Chain(defs, h, Parent(defs[p], h), stop, rank)
  {
  }

  /** The names along a chain, outermost first, each followed by `sep`. */
  function Prefix(defs: seq<Def>, c: seq<nat>, sep: string): string
    requires forall i :: 0 <= i < |c| ==> c[i] < |defs|
  {
    if c == [] then "" else Prefix(defs, c[1..], sep) + defs[c[0]].name + sep
  }

  /** One more ancestor moves its name and the separator from the prefix into the text. */
  lemma PrefixStep(defs: seq<Def>, h: Hierarchy, p: nat, stop: set<nat>, rank: seq<nat>, sep: string, text: string)
    requires Ranked(defs, h, rank) && p < |defs| && p !in stop
    ensures Prefix(defs, Chain(defs, h, Some(p), stop, rank), sep) + text
         == Prefix(defs, Chain(defs, h, Parent(defs[p], h), stop, rank), sep) + (defs[p].name + sep + text)
  {
    var c := Chain(defs, h, Parent(defs[p], h), stop, rank);
    ChainStep(defs, h, p, stop, rank);
    assert ([p] + c)[1..] == c;
    assert Prefix(defs, [p] + c, sep) == Prefix(defs, c, sep) + defs[p].name + sep;
  }

  /** The qualified name relative to `context`: the scopes not in `context`, then the name. */
  function QualifiedName(defs: seq<Def>, k: nat, context: set<nat>, ghost rank: seq<nat>): string
    requires k < |defs| && Ranked(defs, Scope, rank)
  {
    Prefix(defs, Chain(defs, Scope, defs[k].scopeParent, context, rank), "::") + defs[k].name
  }

  /** The path: the name alone when short, otherwise every file parent, then the name. */
  function PathName(defs: seq<Def>, k: nat, short: bool, ghost rank: seq<nat>): string
    requires k < |defs| && Ranked(defs, FileTree, rank)
  {
    if short then defs[k].name
    else Prefix(defs, Chain(defs, FileTree, defs[k].fileParent, {}, rank), "/") + defs[k].name
  }

  /** A qualified name always ends with the definition's own name, and is that name alone
      when the scope parent is absent or part of the context. */
  lemma QualifiedNameShape(defs: seq<Def>, k: nat, context: set<nat>, rank: seq<nat>)
    requires k < |defs| && Ranked(defs, Scope, rank)
    ensures defs[k].name <= QualifiedName(defs, k, context, rank)[|QualifiedName(defs, k, context, rank)| - |defs[k].name|..]
    ensures defs[k].scopeParent.None? || defs[k].scopeParent.value in context ==>
      QualifiedName(defs, k, context, rank) == defs[k].name
  {
    var q := QualifiedName(defs, k, context, rank);
    var pre := Prefix(defs, Chain(defs, Scope, defs[k].scopeParent, context, rank), "::");
    assert q[|q| - |defs[k].name|..] == q[|pre|..] == defs[k].name;
  }

  /** A qualified name with an outer scope starts with that scope's qualified name and `::`;
      the empty context gives the fully qualified name. */
  lemma QualifiedNameStep(defs: seq<Def>, k: nat, context: set<nat>, rank: seq<nat>)
    requires k < |defs| && Ranked(defs, Scope, rank)
    requires defs[k].scopeParent.Some? && defs[k].scopeParent.value !in context
    ensures QualifiedName(defs, k, context, rank)
         == QualifiedName(defs, defs[k].scopeParent.value, context, rank) + "::" + defs[k].name
  {
  }

  /** A path is the parent's path, `/` and the name. */
  lemma PathNameStep(defs: seq<Def>, k: nat, rank: seq<nat>)
    requires k < |defs| && Ranked(defs, FileTree, rank)
    requires defs[k].fileParent.Some?
    ensures PathName(defs, k, false, rank) == PathName(defs, defs[k].fileParent.value, false, rank) + "/" + defs[k].name
  {
  }

  /** `Def.qualified_name_plaintext`: prepend each scope parent's name and `::` while the
      parent exists and is not in the context. */
  method QualifiedNamePlaintext(defs: seq<Def>, k: nat, context: set<nat>, ghost rank: seq<nat>) returns (text: string)
    requires k < |defs| && Ranked(defs, Scope, rank)
    ensures text == QualifiedName(defs, k, context, rank)
  {
    var scopeParent: Option<nat> := defs[k].scopeParent;
    text := "";
    while scopeParent.Some? && scopeParent.value !in context
      invariant scopeParent.Some? ==> scopeParent.value < |defs|
      invariant Prefix(defs, Chain(defs, Scope, defs[k].scopeParent, context, rank), "::")
             == Prefix(defs, Chain(defs, Scope, scopeParent, context, rank), "::") + text
      decreases if scopeParent.Some? then rank[scopeParent.value] + 1 else 0
    {
      PrefixStep(defs, Scope, scopeParent.value, context, rank, "::", text);
      text := defs[scopeParent.value].name + "::" + text;
      scopeParent := defs[scopeParent.value].scopeParent;
    }
    text := text + defs[k].name;
  }

  /** `Def.path_plaintext`: unless short, prepend each file parent's name and `/`. */
  method PathPlaintext(defs: seq<Def>, k: nat, short: bool, ghost rank: seq<nat>) returns (text: string)
    requires k < |defs| && Ranked(defs, FileTree, rank)
    ensures text == PathName(defs, k, short, rank)
  {
    var fileParent: Option<nat> := defs[k].fileParent;
    text := defs[k].name;
    while !short && fileParent.Some?
      invariant fileParent.Some? ==> fileParent.value < |defs|
      invariant !short ==> (PathName(defs, k, short, rank)
             == Prefix(defs, Chain(defs, FileTree, fileParent, {}, rank), "/") + text)
      invariant short ==> text == defs[k].name
      decreases if fileParent.Some? then rank[fileParent.value] + 1 else 0
    {
      PrefixStep(defs, FileTree, fileParent.value, {}, rank, "/", text);
      text := defs[fileParent.value].name + "/" + text;
      fileParent := defs[fileParent.value].fileParent;
    }
  }

  // ----- signatures -----

  /** `MacroDef.signature_plaintext`: `#define NAME(p1, p2)`; context and qualification
      are accepted and ignored. */
  function MacroSignaturePlaintext(d: Def, context: set<nat>, fullyQualified: bool): (r: string)
    requires d.kind.Macro?
    ensures "#define " + d.name + "(" <= r && r[|r| - 1] == ')'
    ensures r[|"#define " + d.name + "("|..|r| - 1] == Join(d.kind.params, ", ")
    ensures d.kind.params == [] ==> r == "#define " + d.name + "()"
  {
    var head := "#define " + d.name + "(";
    var r := head + Join(d.kind.params, ", ") + ")";
    assert r[|head|..|r| - 1] == Join(d.kind.params, ", ");
    r
  }

  /** The parameter list reads back from a macro's signature when no parameter has a comma. */
  lemma MacroSignatureParams(d: Def, context: set<nat>, fullyQualified: bool)
    requires d.kind.Macro? && |d.kind.params| > 0
    requires forall i :: 0 <= i < |d.kind.params| ==> ',' !in d.kind.params[i]
    ensures var r := MacroSignaturePlaintext(d, context, fullyQualified);
      SplitList(r[|"#define " + d.name + "("|..|r| - 1]) == d.kind.params
  {
    SplitJoin(d.kind.params);
  }

  /** `EnumDef.signature_plaintext`: `enum` or `enum class`, the qualified name (relative to
      the context unless fully qualified) and `: ` with the underlying type when there is one.
      `normalize` is the whitespace normalisation of `Markup.render_plaintext`. */
  function EnumSignaturePlaintext(defs: seq<Def>, k: nat, context: set<nat>, fullyQualified: bool,
                                  normalize: string -> string, ghost rank: seq<nat>): string
    requires k < |defs| && Ranked(defs, Scope, rank) && defs[k].kind.Enum?
  {
    var d := defs[k];
    (if d.kind.strong == Some(true) then "enum class" else "enum") + " "
    + QualifiedName(defs, k, if fullyQualified then {} else context, rank)
    + (if d.kind.underlyingType.Some? then ": " + MarkupPlaintext(d.kind.underlyingType.value, normalize) else "")
  }

  /** An enum's signature starts with `enum class ` exactly for a strong enum (an unknown
      strength renders as a plain enum), and the fully qualified form ignores the context. */
  lemma EnumSignatureProperties(defs: seq<Def>, k: nat, c1: set<nat>, c2: set<nat>,
                                normalize: string -> string, rank: seq<nat>)
    requires k < |defs| && Ranked(defs, Scope, rank) && defs[k].kind.Enum?
    ensures defs[k].kind.strong == Some(true) ==> "enum class " <= EnumSignaturePlaintext(defs, k, c1, false, normalize, rank)
    ensures defs[k].kind.strong != Some(true) ==> "enum " <= EnumSignaturePlaintext(defs, k, c1, false, normalize, rank)
    ensures EnumSignaturePlaintext(defs, k, c1, true, normalize, rank) == EnumSignaturePlaintext(defs, k, c2, true, normalize, rank)
    ensures defs[k].kind.underlyingType.None? ==>
      EnumSignaturePlaintext(defs, k, c1, true, normalize, rank)
      == (if defs[k].kind.strong == Some(true) then "enum class " else "enum ") + QualifiedName(defs, k, {}, rank)
    ensures defs[k].kind.underlyingType.None? ==>
      EnumSignaturePlaintext(defs, k, c1, false, normalize, rank)
      == (if defs[k].kind.strong == Some(true) then "enum class " else "enum ") + QualifiedName(defs, k, c1, rank)
  {
  }

  /** With an underlying type, the signature ends with a colon and the type's text. */
  lemma EnumSignatureUnderlying(defs: seq<Def>, k: nat, context: set<nat>, fullyQualified: bool,
                                normalize: string -> string, rank: seq<nat>)
    requires k < |defs| && Ranked(defs, Scope, rank) && defs[k].kind.Enum? && defs[k].kind.underlyingType.Some?
    ensures var suffix := ": " + MarkupPlaintext(defs[k].kind.underlyingType.value, normalize);
      var s := EnumSignaturePlaintext(defs, k, context, fullyQualified, normalize, rank);
      |suffix| <= |s| && s[|s| - |suffix|..] == suffix
  {
    var d := defs[k];
    var suffix := ": " + MarkupPlaintext(d.kind.underlyingType.value, normalize);
    var front := (if d.kind.strong == Some(true) then "enum class" else "enum") + " "
                 + QualifiedName(defs, k, if fullyQualified then {} else context, rank);
    assert EnumSignaturePlaintext(defs, k, context, fullyQualified, normalize, rank) == front + suffix;
    assert (front + suffix)[|front + suffix| - |suffix|..] == suffix;
  }

  /** `Def.signature_plaintext`, which the other definitions inherit: the kind, a space, and
      the path (short unless fully qualified) for directories and files, the qualified name
      otherwise. */
  function DefaultSignaturePlaintext(defs: seq<Def>, k: nat, context: set<nat>, fullyQualified: bool,
                                     ghost scopeRank: seq<nat>, ghost fileRank: seq<nat>): string
    requires k < |defs| && Ranked(defs, Scope, scopeRank) && Ranked(defs, FileTree, fileRank)
  {
    Show(KindName(defs[k])) + " "
    + if IsPath(defs[k]) then PathName(defs, k, !fullyQualified, fileRank)
      else QualifiedName(defs, k, if fullyQualified then {} else context, scopeRank)
  }

  /** A directory or file not fully qualified shows its bare name; fully qualified, a symbol
      shows the same name whatever the context. */
  lemma DefaultSignatureProperties(defs: seq<Def>, k: nat, c1: set<nat>, c2: set<nat>,
                                   scopeRank: seq<nat>, fileRank: seq<nat>)
    requires k < |defs| && Ranked(defs, Scope, scopeRank) && Ranked(defs, FileTree, fileRank)
    ensures IsPath(defs[k]) ==>
      DefaultSignaturePlaintext(defs, k, c1, false, scopeRank, fileRank) == Show(KindName(defs[k])) + " " + defs[k].name
    ensures DefaultSignaturePlaintext(defs, k, c1, true, scopeRank, fileRank)
         == DefaultSignaturePlaintext(defs, k, c2, true, scopeRank, fileRank)
  {
  }
}
