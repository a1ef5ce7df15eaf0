/** `doxyfront/source.py`: the records built from the element tree of one Doxygen XML file.
    Every deserializer reads a tree that already exists (see module Xml); logging is left out,
    and an exception that escapes `parse` is an `Err`. */
module Source {
  import opened Wrappers
  import opened Strings
  import opened Xml

  /** The class of a Python exception that escapes the deserializers. */
  datatype Failure = KeyError(key: string) | ValueError(text: string) | TypeError

  // ----- yes/no and the enumerations -----

  /** `yesno_to_bool`: `'yes'` and `'no'` map to booleans, anything else (`None` included) to
      `None`. */
  function YesNo(yesno: Option<string>): (r: Option<bool>)
    ensures r == Some(true) <==> yesno == Some("yes")
    ensures r == Some(false) <==> yesno == Some("no")
  {
    if yesno == Some("yes") then Some(true)
    else if yesno == Some("no") then Some(false)
    else None
  }

  /** `source.Visibility`, with each member's name. */
  datatype Visibility = Public | Package | Protected | Private

  function VisibilityName(v: Visibility): (r: string)
    ensures UpperLetters(r)
  {
    match v
    case Public => "PUBLIC"
    case Package => "PACKAGE"
    case Protected => "PROTECTED"
    case Private => "PRIVATE"
  }

  /** `Visibility.deserialize`: the member whose name is the upper-cased input, if any. */
  function VisibilityOf(name: string): (r: Option<Visibility>)
    ensures forall v :: r == Some(v) <==> Upper(name) == VisibilityName(v)
  {
    var u := Upper(name);
    if u == "PUBLIC" then Some(Public)
    else if u == "PACKAGE" then Some(Package)
    else if u == "PROTECTED" then Some(Protected)
    else if u == "PRIVATE" then Some(Private)
    else None
  }

  /** The lower-case spelling Doxygen writes (`prot="public"`) reads back as the member. */
  lemma VisibilityRoundTrip(v: Visibility)
    ensures VisibilityOf(Lower(VisibilityName(v))) == Some(v)
  {
    UpperOfLower(VisibilityName(v));
  }

  /** `source.Attribute`: ten members, without the `CONST` of the loaded model. */
  datatype Attribute =
    Final | Override | Virtual | Abstract | Constexpr | Explicit | Noexcept | Static | Mutable | Inline

  function AttributeName(a: Attribute): (r: string)
    ensures UpperLetters(r)
  {
    match a
    case Final => "FINAL"
    case Override => "OVERRIDE"
    case Virtual => "VIRTUAL"
    case Abstract => "ABSTRACT"
    case Constexpr => "CONSTEXPR"
    case Explicit => "EXPLICIT"
    case Noexcept => "NOEXCEPT"
    case Static => "STATIC"
    case Mutable => "MUTABLE"
    case Inline => "INLINE"
  }

  /** `Attribute.__dict__[k.upper()]`: the member whose name is the upper-cased key, if any. */
  function AttributeOf(key: string): (r: Option<Attribute>)
    ensures forall a :: r == Some(a) <==> Upper(key) == AttributeName(a)
  {
    var u := Upper(key);
    if u == "FINAL" then Some(Final)
    else if u == "OVERRIDE" then Some(Override)
    else if u == "VIRTUAL" then Some(Virtual)
    else if u == "ABSTRACT" then Some(Abstract)
    else if u == "CONSTEXPR" then Some(Constexpr)
    else if u == "EXPLICIT" then Some(Explicit)
    else if u == "NOEXCEPT" then Some(Noexcept)
    else if u == "STATIC" then Some(Static)
    else if u == "MUTABLE" then Some(Mutable)
    else if u == "INLINE" then Some(Inline)
    else None
  }

  lemma AttributeRoundTrip(a: Attribute)
    ensures AttributeOf(Lower(AttributeName(a))) == Some(a)
  {
    UpperOfLower(AttributeName(a));
  }

  /** `FunctionDef.Variant`. `source.py` declares its own enum, apart from the one in
      `model.py` that `Defs` models, so the name table is kept here too. */
  datatype FunctionVariant = Function | Signal | Slot

  function FunctionVariantName(v: FunctionVariant): (r: string)
    ensures UpperLetters(r)
  {
    match v
    case Function => "FUNCTION"
    case Signal => "SIGNAL"
    case Slot => "SLOT"
  }

  /** `FunctionDef.Variant.deserialize`. */
  function FunctionVariantOf(repr: string): (r: Option<FunctionVariant>)
    ensures forall v :: r == Some(v) <==> Upper(repr) == FunctionVariantName(v)
  {
    var u := Upper(repr);
    if u == "FUNCTION" then Some(Function)
    else if u == "SIGNAL" then Some(Signal)
    else if u == "SLOT" then Some(Slot)
    else None
  }

  /** `ClassDef.Variant`, `source.py`'s own enum beside the one in `model.py`. */
  datatype ClassVariant = Class | Struct | Union | Protocol | Interface | Category

  function ClassVariantName(v: ClassVariant): (r: string)
    ensures UpperLetters(r)
  {
    match v
    case Class => "CLASS"
    case Struct => "STRUCT"
    case Union => "UNION"
    case Protocol => "PROTOCOL"
    case Interface => "INTERFACE"
    case Category => "CATEGORY"
  }

  /** `ClassDef.Variant.deserialize`. */
  function ClassVariantOf(repr: string): (r: Option<ClassVariant>)
    ensures forall v :: r == Some(v) <==> Upper(repr) == ClassVariantName(v)
  {
    var u := Upper(repr);
    if u == "CLASS" then Some(Class)
    else if u == "STRUCT" then Some(Struct)
    else if u == "UNION" then Some(Union)
    else if u == "PROTOCOL" then Some(Protocol)
    else if u == "INTERFACE" then Some(Interface)
    else if u == "CATEGORY" then Some(Category)
    else None
  }

  /** The member kinds `CompoundDef.deserialize` hands to `FunctionDef`, and the compound
      kinds `parse` hands to `ClassDef`, always name a variant. */
  lemma FunctionKindsNameVariants(kind: string)
    requires kind in FunctionKinds
    ensures FunctionVariantOf(kind).Some?
  {
    if kind == "function" {
      UpperLiteral(kind, "FUNCTION");
    } else if kind == "signal" {
      UpperLiteral(kind, "SIGNAL");
    } else {
      UpperLiteral(kind, "SLOT");
    }
  }

  lemma ClassKindsNameVariants(kind: string)
    requires kind in ClassKinds
    ensures ClassVariantOf(kind).Some?
  {
    if kind == "class" {
      UpperLiteral(kind, "CLASS");
    } else if kind == "struct" {
      UpperLiteral(kind, "STRUCT");
    } else if kind == "union" {
      UpperLiteral(kind, "UNION");
    } else if kind == "protocol" {
      UpperLiteral(kind, "PROTOCOL");
    } else if kind == "interface" {
      UpperLiteral(kind, "INTERFACE");
    } else {
      UpperLiteral(kind, "CATEGORY");
    }
  }

  // ----- attributes -----

  /** What one XML attribute contributes to `deserialize_attributes`. */
  function AttributeEntry(item: (string, string)): seq<Attribute>
  {
    match AttributeOf(item.0)
    case Some(a) => if YesNo(Some(item.1)) == Some(true) then [a] else []
    case None => []
  }

  function AttributesOf(items: seq<(string, string)>): seq<Attribute>
  {
    if items == [] then [] else AttributesOf(items[..|items| - 1]) + AttributeEntry(items[|items| - 1])
  }

  /** `deserialize_attributes`: walk the XML attributes in order and append the attribute a
      key names whenever its value says `yes`. */
  method DeserializeAttributes(node: Element) returns (attrs: seq<Attribute>)
    ensures attrs == AttributesOf(node.attrib)
  {
    var items := node.attrib;
    attrs := [];
    for k := 0 to |items|
      invariant attrs == AttributesOf(items[..k])
    {
      assert items[..k + 1][..k] == items[..k];
      var (key, v) := items[k];
      var a := AttributeOf(key);
      if a.Some? && YesNo(Some(v)) == Some(true) {
        attrs := attrs + [a.value];
      }
    }
    assert items[..|items|] == items;
  }

  /** The XML attribute names the attribute and says `yes`. */
  predicate Sets(item: (string, string), a: Attribute)
  {
    AttributeOf(item.0) == Some(a) && item.1 == "yes"
  }

  lemma EntrySets(item: (string, string), a: Attribute)
    ensures a in AttributeEntry(item) <==> Sets(item, a)
  {
  }

  /** The result holds an attribute exactly when some XML attribute whose upper-cased key is
      its name has the value `yes`. */
  lemma {:induction false} AttributesOfMember(items: seq<(string, string)>, a: Attribute)
    ensures a in AttributesOf(items) <==> exists i :: 0 <= i < |items| && Sets(items[i], a)
  {
    if items != [] {
      var n := |items|;
      var front := items[..n - 1];
      assert a in AttributesOf(items) <==> a in AttributesOf(front) || Sets(items[n - 1], a) by {
        EntrySets(items[n - 1], a);
      }
      AttributesOfMember(front, a);
      if i :| 0 <= i < |front| && Sets(front[i], a) {
        assert items[i] == front[i];
      }
      if i :| 0 <= i < n && Sets(items[i], a) {
        if i < n - 1 {
          assert front[i] == items[i];
        }
      }
    }
  }

  /** The result follows attribute order: the attributes of a concatenation are the two
      results concatenated. */
  lemma {:induction false} AttributesOfAppend(x: seq<(string, string)>, y: seq<(string, string)>)
    ensures AttributesOf(x + y) == AttributesOf(x) + AttributesOf(y)
  {
    if y == [] {
      assert x + y == x;
    } else {
      var n := |y|;
      assert (x + y)[..|x + y| - 1] == x + y[..n - 1];
      assert (x + y)[|x + y| - 1] == y[n - 1];
      AttributesOfAppend(x, y[..n - 1]);
    }
  }

  // ----- the two readings -----

  /** Two slips make `source.py` as written differ from its evident intent:
      `Location.maybe_lineno` catches only `KeyError` (line 79), and the second name branch of
      `Param.deserialize` tests `'declname'` again (line 306). Every deserializer below takes
      the reading it follows; `AsWritten` is what the program does. */
  datatype Reading = AsWritten | Intended

  /** The exceptions a deserializer may let escape under a reading: a missing attribute's
      `KeyError`, and, as written, the `ValueError` of an unreadable line number. */
  predicate Raises(e: Failure, rd: Reading)
  {
    e.KeyError? || (rd.AsWritten? && e.ValueError?)
  }

  // ----- line numbers -----

  /** `Location.maybe_lineno`, as intended: a missing key, a value `int` rejects, and a line
      number that is not positive all give `None`. */
  function MaybeLineno(attrib: seq<(string, string)>, key: string): (r: Option<int>)
    ensures r.Some? ==> r.value > 0 && Attr(attrib, key).Some?
  {
    match Attr(attrib, key)
    case None => None
    case Some(s) =>
      match ParseInt(s)
      case None => None
      case Some(line) => if line > 0 then Some(line) else None
  }

  /** Doxygen writes line numbers with `str`: a positive one reads back, zero and negative
      ones give `None`. */
  lemma MaybeLinenoDecimal(n: nat, key: string)
    ensures n > 0 ==> MaybeLineno([(key, Decimal(n))], key) == Some(n)
    ensures MaybeLineno([(key, "-" + Decimal(n))], key).None?
    ensures MaybeLineno([(key, Decimal(0))], key).None?
  {
    ParseDecimal(n);
    ParseDecimal(0);
  }

  /** `Location.maybe_lineno` as written: `except KeyError or ValueError` evaluates the
      `or` first and so catches only `KeyError`; a value `int` rejects escapes as
      `ValueError`. */
  function MaybeLinenoAsWritten(attrib: seq<(string, string)>, key: string): (r: Result<Option<int>, Failure>)
    ensures r.Err? <==> Attr(attrib, key).Some? && ParseInt(Attr(attrib, key).value).None?
    ensures r.Ok? ==> r.value == MaybeLineno(attrib, key)
  {
    match Attr(attrib, key)
    case None => Ok(None)
    case Some(s) =>
      match ParseInt(s)
      case None => Err(ValueError(s))
      case Some(line) => Ok(if line > 0 then Some(line) else None)
  }

  /** A non-numeric `line` attribute makes the code as written raise, where the handler was
      meant to give `None`. */
  lemma MaybeLinenoRaises()
    ensures MaybeLinenoAsWritten([("line", "12a")], "line") == Err(ValueError("12a"))
    ensures MaybeLineno([("line", "12a")], "line") == None
  {
    assert !IsDigit("12a"[2]) && !IsDigit("2a"[1]);
  }

  // ----- references, includes, inheritance -----

  /** The references `source.py` builds: a symbolic one carries a Doxygen id (absent when a
      member had none) and the link text; an unresolved one only the text. */
  datatype Ref = Symbolic(id: Option<string>, text: Option<string>) | Unresolved(name: string)

  /** `deserialize_ref`: with a `refid` the reference is symbolic, text or no text; without
      one the (non-empty) text makes an unresolved reference, and without that there is
      none. */
  function DeserializeRef(e: Element): (r: Option<Ref>)
    ensures r.None? <==> Attr(e.attrib, "refid").None? && MaybeText(e).None?
    ensures r.Some? && r.value.Symbolic? <==> Attr(e.attrib, "refid").Some?
    ensures r.Some? && r.value.Symbolic? ==> r.value.id == Attr(e.attrib, "refid") && r.value.text == MaybeText(e)
    ensures r.Some? && r.value.Unresolved? ==> MaybeText(e) == Some(r.value.name)
  {
    var id := Attr(e.attrib, "refid");
    var name := MaybeText(e);
    if id.None? then
      if name.None? then None else Some(Unresolved(name.value))
    else Some(Symbolic(id, name))
  }

  datatype Include = Include(file: Option<Ref>, local: Option<bool>)

  /** `Include.deserialize`. */
  function IncludeOf(e: Element): Include
  {
    Include(DeserializeRef(e), YesNo(Attr(e.attrib, "local")))
  }

  datatype Inheritance = Inheritance(ref: Option<Ref>, visibility: Option<Visibility>, isVirtual: bool)

  /** `Inheritance.deserialize`: `root.attrib['prot']` raises `KeyError` when the base has no
      `prot`; `virt="virtual"` marks a virtual base. */
  function InheritanceOf(e: Element): (r: Result<Inheritance, Failure>)
    ensures r.Err? <==> Attr(e.attrib, "prot").None?
    ensures r.Ok? ==> (r.value.isVirtual <==> Attr(e.attrib, "virt") == Some("virtual"))
  {
    match Attr(e.attrib, "prot")
    case None => Err(KeyError("prot"))
    case Some(prot) =>
      Ok(Inheritance(DeserializeRef(e), VisibilityOf(prot), Attr(e.attrib, "virt") == Some("virtual")))
  }

  // ----- text, listings, locations -----

  /** `Markup` and `Listing` both keep the element text as it is, empty or absent. */
  datatype Markup = Markup(text: Option<string>)
  datatype Listing = Listing(code: Option<string>)
  datatype Location = Location(file: Option<string>, line: Option<int>)

  /** `Location.maybe_lineno` under a reading. */
  function Lineno(attrib: seq<(string, string)>, key: string, rd: Reading): Result<Option<int>, Failure>
  {
    if rd.AsWritten? then MaybeLinenoAsWritten(attrib, key) else Ok(MaybeLineno(attrib, key))
  }

  /** The location a `location` element describes, its line read as intended. */
  function LocationFields(e: Element): Location
  {
    Location(Attr(e.attrib, "file"), MaybeLineno(e.attrib, "line"))
  }

  /** A `location` child whose `line` the code as written cannot read. */
  predicate BadLine(e: Element)
  {
    e.tag == "location" && Attr(e.attrib, "line").Some? && ParseInt(Attr(e.attrib, "line").value).None?
  }

  /** `Location.deserialize`: the file is required, the line optional; as written an
      unreadable line raises. */
  function LocationOf(e: Element, rd: Reading): (r: Result<Location, Failure>)
    ensures r.Err? <==> rd.AsWritten? && Attr(e.attrib, "line").Some? && ParseInt(Attr(e.attrib, "line").value).None?
    ensures r.Err? ==> r.error.ValueError?
    ensures r.Ok? ==> r.value == LocationFields(e)
  {
    match Lineno(e.attrib, "line", rd)
    case Err(x) => Err(x)
    case Ok(line) => Ok(Location(Attr(e.attrib, "file"), line))
  }

  /** The `location` branch of `Def.deserialize`'s loop: every `location` child is read in
      order, the first exception escapes, and the last one read stays. */
  function Locations(children: seq<Element>, rd: Reading): (r: Result<Option<Location>, Failure>)
    ensures r.Err? <==> rd.AsWritten? && exists i :: 0 <= i < |children| && BadLine(children[i])
    ensures r.Err? ==> r.error.ValueError?
    ensures r.Ok? ==> r.value == if Last(children, {"location"}).Some? then Some(LocationFields(Last(children, {"location"}).value)) else None
  {
    if children == [] then Ok(None)
    else
      var n := |children|;
      var last := children[n - 1];
      assert forall i :: 0 <= i < n - 1 ==> children[..n - 1][i] == children[i];
      match Locations(children[..n - 1], rd)
      case Err(x) => Err(x)
      case Ok(prev) =>
        if last.tag == "location" then
          match LocationOf(last, rd)
          case Err(x) => Err(x)
          case Ok(l) => Ok(Some(l))
        else Ok(prev)
  }

  /** The text of the last child with the tag, as `require_text` reads it. */
  function LastText(children: seq<Element>, tag: string): Option<string>
  {
    match Last(children, {tag})
    case None => None
    case Some(x) => MaybeText(x)
  }

  function LastListing(children: seq<Element>, tag: string): Option<Listing>
  {
    match Last(children, {tag})
    case None => None
    case Some(x) => Some(Listing(x.text))
  }

  function LastMarkup(children: seq<Element>, tag: string): Option<Markup>
  {
    match Last(children, {tag})
    case None => None
    case Some(x) => Some(Markup(x.text))
  }

  // ----- parameters -----

  datatype Param = Param(name: Option<string>, paramType: Option<Listing>, default: Option<string>)

  /** The variables `Param.deserialize` updates as it walks the children. */
  datatype ParamScan = ParamScan(paramType: Option<Listing>, declname: Option<string>,
                                 defname: Option<string>, default: Option<string>)

  /** The tag the branch that sets `defname` tests: `declname` again as written, `defname` as
      intended. */
  function DefnameTag(rd: Reading): string
  {
    if rd.AsWritten? then "declname" else "defname"
  }

  /** One child, with the `defname` branch testing for `second`. */
  function ParamStep(s: ParamScan, e: Element, second: string): ParamScan
  {
    if e.tag == "type" then s.(paramType := Some(Listing(e.text)))
    else if e.tag == "declname" then s.(declname := MaybeText(e))
    else if e.tag == second then s.(defname := MaybeText(e))
    else if e.tag == "defval" then s.(default := MaybeText(e))
    else s
  }

  function ScanParam(children: seq<Element>, second: string): ParamScan
  {
    if children == [] then ParamScan(None, None, None, None)
    else ParamStep(ScanParam(children[..|children| - 1], second), children[|children| - 1], second)
  }

  /** `declname if declname else defname`: `require_text` never yields an empty string. */
  function ParamOfScan(s: ParamScan): Param
  {
    Param(if s.declname.Some? then s.declname else s.defname, s.paramType, s.default)
  }

  /** `Param.deserialize` under a reading. */
  function ParamOf(e: Element, rd: Reading): Param
  {
    ParamOfScan(ScanParam(e.children, DefnameTag(rd)))
  }

  /** `Param.deserialize`: one pass over the children, the last child of each tag winning. */
  method ParamDeserialize(e: Element, rd: Reading) returns (p: Param)
    ensures p == ParamOf(e, rd)
  {
    var cs := e.children;
    var second := DefnameTag(rd);
    var paramType: Option<Listing> := None;
    var declname: Option<string> := None;
    var defname: Option<string> := None;
    var default: Option<string> := None;
    for k := 0 to |cs|
      invariant ParamScan(paramType, declname, defname, default) == ScanParam(cs[..k], second)
    {
      assert cs[..k + 1][..k] == cs[..k];
      var elem := cs[k];
      if elem.tag == "type" {
        paramType := Some(Listing(elem.text));
      } else if elem.tag == "declname" {
        declname := MaybeText(elem);
      } else if elem.tag == second {
        defname := MaybeText(elem);
      } else if elem.tag == "defval" {
        default := MaybeText(elem);
      }
    }
    assert cs[..|cs|] == cs;
    p := Param(if declname.Some? then declname else defname, paramType, default);
  }

  /** Whatever the second branch tests (short of `defval`), the type, the `declname` and the
      default come from the last child of their tag. */
  lemma {:induction false} ScanParamCommon(children: seq<Element>, second: string)
    requires second != "defval"
    ensures ScanParam(children, second).declname == LastText(children, "declname")
    ensures ScanParam(children, second).default == LastText(children, "defval")
    ensures ScanParam(children, second).paramType == LastListing(children, "type")
  {
    if children != [] {
      ScanParamCommon(children[..|children| - 1], second);
    }
  }

  /** As intended, `defname` too comes from the last child of its tag. */
  lemma {:induction false} ScanParamLast(children: seq<Element>)
    ensures ScanParam(children, "defname").defname == LastText(children, "defname")
  {
    if children != [] {
      ScanParamLast(children[..|children| - 1]);
    }
  }

  /** As intended, the name is the last `declname` text, or failing that the last `defname`
      text; the type is the last `type` child and the default the last `defval` text. */
  lemma ParamOfFields(e: Element)
    ensures ParamOf(e, Intended).name == if LastText(e.children, "declname").Some? then LastText(e.children, "declname")
                                         else LastText(e.children, "defname")
    ensures ParamOf(e, Intended).paramType == LastListing(e.children, "type")
    ensures ParamOf(e, Intended).default == LastText(e.children, "defval")
  {
    ScanParamCommon(e.children, "defname");
    ScanParamLast(e.children);
  }

  /** As written the repeated test never fires: `defname` stays unset. */
  lemma {:induction false} ScanParamAsWrittenIgnoresDefname(children: seq<Element>)
    ensures ScanParam(children, "declname").defname == None
  {
    if children != [] {
      ScanParamAsWrittenIgnoresDefname(children[..|children| - 1]);
    }
  }

  /** As written, the name is the last `declname` text and nothing else; the type and the
      default are as intended. */
  lemma ParamOfAsWrittenName(e: Element)
    ensures ParamOf(e, AsWritten).name == LastText(e.children, "declname")
    ensures ParamOf(e, AsWritten).paramType == ParamOf(e, Intended).paramType
    ensures ParamOf(e, AsWritten).default == ParamOf(e, Intended).default
  {
    ScanParamAsWrittenIgnoresDefname(e.children);
    ScanParamCommon(e.children, "declname");
    ScanParamCommon(e.children, "defname");
  }

  /** A parameter with only a `defname` loses its name as written and keeps it as intended. */
  lemma ParamDefnameLost()
    ensures ParamOf(Element("param", [], None, [Element("defname", [], Some("T"), [])]), AsWritten).name == None
    ensures ParamOf(Element("param", [], None, [Element("defname", [], Some("T"), [])]), Intended).name == Some("T")
  {
    var d := Element("defname", [], Some("T"), []);
    assert [d][..0] == [];
  }

  function Params(es: seq<Element>, rd: Reading): (r: seq<Param>)
    ensures |r| == |es|
  {
    seq(|es|, i requires 0 <= i < |es| => ParamOf(es[i], rd))
  }

  /** The children of every `templateparamlist` child, each read as a parameter, in order. */
  function TemplateParams(children: seq<Element>, rd: Reading): seq<Param>
  {
    if children == [] then []
    else TemplateParams(children[..|children| - 1], rd) +
         (if children[|children| - 1].tag == "templateparamlist" then Params(children[|children| - 1].children, rd) else [])
  }

  // ----- definitions -----

  /** The fields `Def.deserialize` fills in for every definition. */
  datatype Common = Common(
    id: Option<string>,
    name: Option<string>,
    brief: Option<Markup>,
    detail: Option<Markup>,
    inBody: Option<Markup>,
    location: Option<Location>,
    visibility: Option<Visibility>,
    attributes: seq<Attribute>)

  /** The common fields read from an element's attributes and children, each line number read
      as intended. */
  function CommonFields(e: Element): Common
  {
    var prot := Attr(e.attrib, "prot");
    var location := Last(e.children, {"location"});
    Common(
      Attr(e.attrib, "id"),
      match Last(e.children, {"name", "compoundname"}) case None => None case Some(x) => MaybeText(x),
      LastMarkup(e.children, "briefdescription"),
      LastMarkup(e.children, "detaileddescription"),
      LastMarkup(e.children, "inbodydescription"),
      if location.Some? then Some(LocationFields(location.value)) else None,
      if prot.Some? then VisibilityOf(prot.value) else None,
      AttributesOf(e.attrib))
  }

  /** `Def.deserialize`: the id is required; `prot` is read when present; for each field the
      last child with its tag wins. Only a `location` child can raise, and only as written. */
  function CommonOf(e: Element, rd: Reading): (r: Result<Common, Failure>)
    ensures r.Err? <==> rd.AsWritten? && exists i :: 0 <= i < |e.children| && BadLine(e.children[i])
    ensures r.Err? ==> r.error.ValueError?
    ensures r.Ok? ==> r.value == CommonFields(e)
  {
    var prot := Attr(e.attrib, "prot");
    match Locations(e.children, rd)
    case Err(x) => Err(x)
    case Ok(location) =>
      Ok(Common(
        Attr(e.attrib, "id"),
        match Last(e.children, {"name", "compoundname"}) case None => None case Some(x) => MaybeText(x),
        LastMarkup(e.children, "briefdescription"),
        LastMarkup(e.children, "detaileddescription"),
        LastMarkup(e.children, "inbodydescription"),
        location,
        if prot.Some? then VisibilityOf(prot.value) else None,
        AttributesOf(e.attrib)))
  }

  /** A compound's own fields: `language` and the `definitions` list of references. */
  datatype Compound = Compound(language: Option<string>, definitions: seq<Option<Ref>>)

  /** What each deserializer adds to the common fields. `VariableDef` and `PropertyDef` store
      their `type` child in an attribute named `return_type`, as the code does. */
  datatype Body =
    | MacroDef(params: seq<Option<string>>, substitution: Option<Listing>)
    | TypedefDef(typedefType: Option<Listing>, definition: Option<Listing>)
    | FunctionDef(variant: Option<FunctionVariant>, returnType: Option<Listing>,
                  templateParams: seq<Param>, parameters: seq<Param>)
    | VariableDef(returnType: Option<Listing>, initializer: Option<Listing>)
    | PropertyDef(returnType: Option<Listing>)
    | EnumValueDef(initializer: Option<Listing>)
    | EnumDef(underlyingType: Option<Listing>, strong: Option<bool>, values: seq<Def>)
    | FriendDef(definition: Option<Listing>)
    | DirectoryDef(compound: Compound)
    | FileDef(compound: Compound, includes: seq<Include>)
    | NamespaceDef(compound: Compound)
    | GroupDef(compound: Compound)
    | PageDef(compound: Compound)
    | ClassDef(compound: Compound, header: Option<Include>, classVariant: Option<ClassVariant>,
               templateParams: seq<Param>, bases: seq<Inheritance>)

  datatype Def = Def(common: Common, body: Body)

  /** `defname` texts of every `param` child, in order (`MacroDef.deserialize`). */
  function MacroParams(children: seq<Element>): seq<Option<string>>
  {
    if children == [] then []
    else
      var last := children[|children| - 1];
      var names := FindAll(last.children, "defname");
      MacroParams(children[..|children| - 1]) +
      (if last.tag == "param" then seq(|names|, i requires 0 <= i < |names| => MaybeText(names[i])) else [])
  }

  /** `EnumValueDef.deserialize`. */
  function EnumValueOf(e: Element, rd: Reading): (r: Result<Def, Failure>)
    ensures r.Err? <==> CommonOf(e, rd).Err?
    ensures r.Ok? ==> r.value.common == CommonFields(e) && r.value.body.EnumValueDef?
  {
    match CommonOf(e, rd)
    case Err(x) => Err(x)
    case Ok(c) => Ok(Def(c, EnumValueDef(LastListing(e.children, "initializer"))))
  }

  /** The `enumvalue` branch of `EnumDef.deserialize`'s loop: each value is read in order and
      the first exception escapes. */
  function EnumValues(children: seq<Element>, rd: Reading): (r: Result<seq<Def>, Failure>)
    ensures r.Err? ==> rd.AsWritten? && r.error.ValueError?
    ensures rd.Intended? ==> r.Ok?
    ensures r.Ok? ==> |r.value| == |FindAll(children, "enumvalue")|
    ensures r.Ok? ==> forall i :: 0 <= i < |r.value| ==> r.value[i].body.EnumValueDef?
  {
    if children == [] then Ok([])
    else
      var n := |children|;
      var last := children[n - 1];
      FindAllAppend(children[..n - 1], [last], "enumvalue");
      FindAllOne(last, "enumvalue");
      assert children[..n - 1] + [last] == children;
      match EnumValues(children[..n - 1], rd)
      case Err(x) => Err(x)
      case Ok(front) =>
        if last.tag == "enumvalue" then
          match EnumValueOf(last, rd)
          case Err(x) => Err(x)
          case Ok(v) => Ok(front + [v])
        else Ok(front)
  }

  /** `EnumDef.deserialize`: `strong` is read only when the attribute is a non-empty string. */
  function EnumOf(e: Element, rd: Reading): (r: Result<Body, Failure>)
    ensures r.Err? <==> EnumValues(e.children, rd).Err?
    ensures r.Ok? ==> r.value.EnumDef?
  {
    var strong := Attr(e.attrib, "strong");
    match EnumValues(e.children, rd)
    case Err(x) => Err(x)
    case Ok(values) =>
      Ok(EnumDef(
        LastListing(e.children, "type"),
        if strong.Some? && strong.value != "" then YesNo(strong) else None,
        values))
  }

  const FunctionKinds: set<string> := {"function", "signal", "slot"}

  const MemberKinds: set<string> := {"define", "typedef", "function", "signal", "slot", "variable", "property", "enum", "friend"}

  /** The deserializer `CompoundDef.deserialize` picks for a member kind. */
  predicate MemberBodyHasKind(b: Body, kind: string)
  {
    match b
    case MacroDef(_, _) => kind == "define"
    case TypedefDef(_, _) => kind == "typedef"
    case FunctionDef(v, _, _, _) => kind in FunctionKinds && v == FunctionVariantOf(kind)
    case VariableDef(_, _) => kind == "variable"
    case PropertyDef(_) => kind == "property"
    case EnumDef(_, _, _) => kind == "enum"
    case FriendDef(_) => kind == "friend"
    case _ => false
  }

  /** What the deserializer of a member kind adds to the common fields; an enum reads its
      values, which as written may raise. */
  function MemberBody(m: Element, kind: string, rd: Reading): (r: Result<Body, Failure>)
    requires kind in MemberKinds
    ensures r.Err? ==> rd.AsWritten? && r.error.ValueError?
    ensures r.Ok? ==> MemberBodyHasKind(r.value, kind)
  {
    var cs := m.children;
    if kind == "define" then Ok(MacroDef(MacroParams(cs), LastListing(cs, "initializer")))
    else if kind == "typedef" then Ok(TypedefDef(LastListing(cs, "type"), LastListing(cs, "definition")))
    else if kind in FunctionKinds then
      Ok(FunctionDef(FunctionVariantOf(kind), LastListing(cs, "type"), TemplateParams(cs, rd), Params(FindAll(cs, "param"), rd)))
    else if kind == "variable" then Ok(VariableDef(LastListing(cs, "type"), LastListing(cs, "initializer")))
    else if kind == "property" then Ok(PropertyDef(LastListing(cs, "type")))
    else if kind == "enum" then EnumOf(m, rd)
    else Ok(FriendDef(LastListing(cs, "definition")))
  }

  /** The part of `CompoundDef.deserialize` that reads one `memberdef`: `member.attrib['kind']`
      raises `KeyError` when the kind is missing, an unknown kind gives no child, and a known
      one is read by its class's `deserialize`, which as written raises on an unreadable line
      number. */
  function MemberOf(m: Element, rd: Reading): (r: Result<Option<Def>, Failure>)
    ensures Attr(m.attrib, "kind").None? ==> r == Err(KeyError("kind"))
    ensures r.Err? ==> Raises(r.error, rd)
    ensures r.Ok? ==> Attr(m.attrib, "kind").Some? && (r.value.Some? <==> Attr(m.attrib, "kind").value in MemberKinds)
    ensures r.Ok? && r.value.Some? ==>
      r.value.value.common == CommonFields(m) && MemberBodyHasKind(r.value.value.body, Attr(m.attrib, "kind").value)
    ensures rd.Intended? ==> (r.Err? <==> Attr(m.attrib, "kind").None?)
    ensures Attr(m.attrib, "kind").Some? && Attr(m.attrib, "kind").value in MemberKinds && CommonOf(m, rd).Err? ==> r.Err?
  {
    match Attr(m.attrib, "kind")
    case None => Err(KeyError("kind"))
    case Some(kind) =>
      if kind !in MemberKinds then Ok(None)
      else
        match CommonOf(m, rd)
        case Err(x) => Err(x)
        case Ok(c) =>
          match MemberBody(m, kind, rd)
          case Err(x) => Err(x)
          case Ok(b) => Ok(Some(Def(c, b)))
  }

  // ----- compounds -----

  /** Collect what `f` makes of each element, in order, stopping at the first exception. */
  function Gather<T>(xs: seq<Element>, f: Element -> Result<seq<T>, Failure>): Result<seq<T>, Failure>
  {
    if xs == [] then Ok([])
    else
      match Gather(xs[..|xs| - 1], f)
      case Err(e) => Err(e)
      case Ok(front) =>
        match f(xs[|xs| - 1])
        case Err(e) => Err(e)
        case Ok(last) => Ok(front + last)
  }

  /** Gathering fails exactly when some element fails. */
  lemma {:induction false} GatherOk<T>(xs: seq<Element>, f: Element -> Result<seq<T>, Failure>)
    ensures Gather(xs, f).Ok? <==> forall i :: 0 <= i < |xs| ==> f(xs[i]).Ok?
  {
    if xs != [] {
      var n := |xs|;
      GatherOk(xs[..n - 1], f);
      assert forall i :: 0 <= i < n - 1 ==> xs[..n - 1][i] == xs[i];
    }
  }

  /** Once a prefix has failed, so has the whole. */
  lemma {:induction false} GatherPrefixErr<T>(xs: seq<Element>, f: Element -> Result<seq<T>, Failure>, j: nat)
    requires j <= |xs| && Gather(xs[..j], f).Err?
    ensures Gather(xs, f) == Gather(xs[..j], f)
    decreases |xs| - j
  {
    if j < |xs| {
      assert xs[..j + 1][..j] == xs[..j];
      GatherPrefixErr(xs, f, j + 1);
    } else {
      assert xs[..j] == xs;
    }
  }

  /** One more element: gathering continues with what it makes, or fails with its exception. */
  lemma GatherSnoc<T>(xs: seq<Element>, f: Element -> Result<seq<T>, Failure>, k: nat)
    requires k < |xs| && Gather(xs[..k], f).Ok?
    ensures f(xs[k]).Ok? ==> Gather(xs[..k + 1], f) == Ok(Gather(xs[..k], f).value + f(xs[k]).value)
    ensures f(xs[k]).Err? ==> Gather(xs[..k + 1], f) == Err(f(xs[k]).error)
  {
    assert xs[..k + 1][..k] == xs[..k];
  }

  /** One entry of a compound's loop: an `inner*` reference, or a member read from a
      `sectiondef`. */
  datatype Entry = Inner(ref: Option<Ref>) | Member(def: Def)

  /** The reference an entry appends to `definitions`: a member's is `SymbolicRef(child.id,
      child.name)`. */
  function EntryRef(x: Entry): Option<Ref>
  {
    match x
    case Inner(r) => r
    case Member(d) => Some(Symbolic(d.common.id, d.common.name))
  }

  function EntryRefs(xs: seq<Entry>): (r: seq<Option<Ref>>)
    ensures |r| == |xs|
  {
    seq(|xs|, i requires 0 <= i < |xs| => EntryRef(xs[i]))
  }

  function EntryDefs(xs: seq<Entry>): seq<Def>
  {
    if xs == [] then [] else EntryDefs(xs[..|xs| - 1]) + (if xs[|xs| - 1].Member? then [xs[|xs| - 1].def] else [])
  }

  function CountInner(xs: seq<Entry>): nat
  {
    if xs == [] then 0 else CountInner(xs[..|xs| - 1]) + (if xs[|xs| - 1].Inner? then 1 else 0)
  }

  lemma EntriesSnoc(xs: seq<Entry>, x: Entry)
    ensures EntryRefs(xs + [x]) == EntryRefs(xs) + [EntryRef(x)]
    ensures EntryDefs(xs + [x]) == EntryDefs(xs) + (if x.Member? then [x.def] else [])
    ensures CountInner(xs + [x]) == CountInner(xs) + (if x.Inner? then 1 else 0)
  {
    assert (xs + [x])[..|xs|] == xs;
  }

  lemma {:induction false} EntriesAppend(xs: seq<Entry>, ys: seq<Entry>)
    ensures EntryRefs(xs + ys) == EntryRefs(xs) + EntryRefs(ys)
    ensures EntryDefs(xs + ys) == EntryDefs(xs) + EntryDefs(ys)
    ensures CountInner(xs + ys) == CountInner(xs) + CountInner(ys)
  {
    if ys == [] {
      assert xs + ys == xs;
    } else {
      var n := |ys|;
      EntriesAppend(xs, ys[..n - 1]);
      assert xs + ys == (xs + ys[..n - 1]) + [ys[n - 1]];
      assert ys == ys[..n - 1] + [ys[n - 1]];
      EntriesSnoc(xs + ys[..n - 1], ys[n - 1]);
      EntriesSnoc(ys[..n - 1], ys[n - 1]);
    }
  }

  /** Every entry is an inner reference or makes one member, so the references number the
      members plus the inner references. */
  lemma {:induction false} EntriesCount(xs: seq<Entry>)
    ensures |EntryRefs(xs)| == |EntryDefs(xs)| + CountInner(xs)
  {
    if xs != [] {
      EntriesCount(xs[..|xs| - 1]);
    }
  }

  /** Every member's reference is in the list, carrying the member's id and name. */
  lemma {:induction false} EntriesReferenced(xs: seq<Entry>, d: Def)
    requires d in EntryDefs(xs)
    ensures Some(Symbolic(d.common.id, d.common.name)) in EntryRefs(xs)
  {
    var n := |xs|;
    var front := xs[..n - 1];
    EntriesSnoc(front, xs[n - 1]);
    assert xs == front + [xs[n - 1]];
    if d in EntryDefs(front) {
      EntriesReferenced(front, d);
    }
  }

  function MemberEntry(m: Element, rd: Reading): Result<seq<Entry>, Failure>
  {
    match MemberOf(m, rd)
    case Err(e) => Err(e)
    case Ok(child) => Ok(if child.Some? then [Member(child.value)] else [])
  }

  /** `MemberEntry` under a reading, as the function `Gather` applies. */
  function MemberStep(rd: Reading): Element -> Result<seq<Entry>, Failure>
  {
    m => MemberEntry(m, rd)
  }

  /** What one child of the compound element contributes. */
  function ChildEntries(c: Element, rd: Reading): Result<seq<Entry>, Failure>
  {
    if StartsWith(c.tag, "inner") then Ok([Inner(DeserializeRef(c))])
    else if c.tag == "sectiondef" then Gather(FindAll(c.children, "memberdef"), MemberStep(rd))
    else Ok([])
  }

  function ChildStep(rd: Reading): Element -> Result<seq<Entry>, Failure>
  {
    c => ChildEntries(c, rd)
  }

  /** The `definitions` list and the member definitions `CompoundDef.deserialize` builds. */
  function CompoundItems(node: Element, rd: Reading): Result<(seq<Option<Ref>>, seq<Def>), Failure>
  {
    match Gather(node.children, ChildStep(rd))
    case Err(e) => Err(e)
    case Ok(xs) => Ok((EntryRefs(xs), EntryDefs(xs)))
  }

  /** The members and references one `sectiondef` contributes. */
  function SectionItems(ms: seq<Element>, rd: Reading): Result<(seq<Option<Ref>>, seq<Def>), Failure>
  {
    match Gather(ms, MemberStep(rd))
    case Err(e) => Err(e)
    case Ok(xs) => Ok((EntryRefs(xs), EntryDefs(xs)))
  }

  /** The inner loop of `CompoundDef.deserialize`, over the `memberdef` children of one
      `sectiondef`: each recognised member is appended with a symbolic reference to it. */
  method DeserializeSection(ms: seq<Element>, rd: Reading) returns (r: Result<(seq<Option<Ref>>, seq<Def>), Failure>)
    ensures r == SectionItems(ms, rd)
  {
    var definitions: seq<Option<Ref>> := [];
    var defs: seq<Def> := [];
    ghost var xs: seq<Entry> := [];
    for j := 0 to |ms|
      invariant Gather(ms[..j], MemberStep(rd)) == Ok(xs)
      invariant definitions == EntryRefs(xs) && defs == EntryDefs(xs)
    {
      GatherSnoc(ms, MemberStep(rd), j);
      var child := MemberOf(ms[j], rd);
      if child.Err? {
        GatherPrefixErr(ms, MemberStep(rd), j + 1);
        return Err(child.error);
      }
      if child.value.Some? {
        var d := child.value.value;
        EntriesSnoc(xs, Member(d));
        defs := defs + [d];
        definitions := definitions + [Some(Symbolic(d.common.id, d.common.name))];
        xs := xs + [Member(d)];
      } else {
        assert xs + [] == xs;
      }
    }
    assert ms[..|ms|] == ms;
    r := Ok((definitions, defs));
  }

  /** `CompoundDef.deserialize`, the loop over the children: an `inner*` child appends its
      reference, a `sectiondef` what its members contribute. */
  method DeserializeCompound(node: Element, rd: Reading) returns (r: Result<(seq<Option<Ref>>, seq<Def>), Failure>)
    ensures r == CompoundItems(node, rd)
  {
    var cs := node.children;
    var definitions: seq<Option<Ref>> := [];
    var defs: seq<Def> := [];
    ghost var xs: seq<Entry> := [];
    for k := 0 to |cs|
      invariant Gather(cs[..k], ChildStep(rd)) == Ok(xs)
      invariant definitions == EntryRefs(xs) && defs == EntryDefs(xs)
    {
      GatherSnoc(cs, ChildStep(rd), k);
      var elem := cs[k];
      if StartsWith(elem.tag, "inner") {
        var ref := DeserializeRef(elem);
        assert ChildStep(rd)(elem) == Ok([Inner(ref)]);
        EntriesSnoc(xs, Inner(ref));
        definitions := definitions + [ref];
        xs := xs + [Inner(ref)];
      } else if elem.tag == "sectiondef" {
        var section := DeserializeSection(FindAll(elem.children, "memberdef"), rd);
        if section.Err? {
          GatherPrefixErr(cs, ChildStep(rd), k + 1);
          return Err(section.error);
        }
        assert ChildStep(rd)(elem) == Gather(FindAll(elem.children, "memberdef"), MemberStep(rd));
        ghost var ys := Gather(FindAll(elem.children, "memberdef"), MemberStep(rd)).value;
        EntriesAppend(xs, ys);
        definitions := definitions + section.value.0;
        defs := defs + section.value.1;
        xs := xs + ys;
      } else {
        assert ChildStep(rd)(elem) == Ok([]);
        assert xs + [] == xs;
      }
    }
    assert cs[..|cs|] == cs;
    r := Ok((definitions, defs));
  }

  /** When every exception the gathered elements raise is one the reading allows, so is the
      gathering's. */
  lemma {:induction false} GatherRaises<T>(xs: seq<Element>, f: Element -> Result<seq<T>, Failure>, rd: Reading)
    requires forall x :: f(x).Err? ==> Raises(f(x).error, rd)
    ensures Gather(xs, f).Err? ==> Raises(Gather(xs, f).error, rd)
  {
    if xs != [] {
      GatherRaises(xs[..|xs| - 1], f, rd);
    }
  }

  /** Building a compound raises only a `KeyError` (a member or a base without the attribute it
      needs) or, as written, the `ValueError` of an unreadable line number. */
  lemma CompoundDefsErrors(node: Element, kind: string, rd: Reading)
    ensures CompoundDefs(node, kind, rd).Err? ==> Raises(CompoundDefs(node, kind, rd).error, rd)
  {
    forall m
      ensures MemberStep(rd)(m).Err? ==> Raises(MemberStep(rd)(m).error, rd)
    {
    }
    forall c
      ensures ChildStep(rd)(c).Err? ==> Raises(ChildStep(rd)(c).error, rd)
    {
      GatherRaises(FindAll(c.children, "memberdef"), MemberStep(rd), rd);
    }
    GatherRaises(node.children, ChildStep(rd), rd);
  }

  /** As written, one `location` child with an unreadable line makes the whole compound fail. */
  lemma CompoundBadLineFails(node: Element, kind: string, i: nat)
    requires i < |node.children| && BadLine(node.children[i])
    ensures CompoundDefs(node, kind, AsWritten).Err?
    ensures CompoundDefs(node, kind, AsWritten).error.ValueError?
  {
  }

  function BaseEntry(e: Element): Result<seq<Inheritance>, Failure>
  {
    match InheritanceOf(e)
    case Err(x) => Err(x)
    case Ok(b) => Ok([b])
  }

  const ClassKinds: set<string> := {"class", "struct", "union", "protocol", "interface", "category"}

  predicate KnownKind(kind: string)
  {
    kind in {"file", "dir", "namespace", "group", "page"} || kind in ClassKinds
  }

  /** The definitions `{File,Directory,Namespace,Group,Page,Class}Def.deserialize` add to the
      common fields: a file's includes, a class's header, variant, template parameters and
      bases, whose missing `prot` raises `KeyError`. */
  function CompoundHead(node: Element, kind: string, rd: Reading, common: Common, compound: Compound): (r: Result<Def, Failure>)
    ensures r.Err? ==> r.error.KeyError?
    ensures r.Ok? ==> r.value.common == common && CompoundBody(r.value.body) && r.value.body.compound == compound
    ensures r.Ok? && KnownKind(kind) ==> BodyHasKind(r.value.body, kind)
  {
    var cs := node.children;
    var includes := FindAll(cs, "includes");
    var header := Last(cs, {"includes"});
    if kind == "file" then
      Ok(Def(common, FileDef(compound, seq(|includes|, i requires 0 <= i < |includes| => IncludeOf(includes[i])))))
    else if kind == "dir" then Ok(Def(common, DirectoryDef(compound)))
    else if kind == "namespace" then Ok(Def(common, NamespaceDef(compound)))
    else if kind == "group" then Ok(Def(common, GroupDef(compound)))
    else if kind == "page" then Ok(Def(common, PageDef(compound)))
    else
      GatherRaises(FindAll(cs, "basecompoundref"), BaseEntry, Intended);
      match Gather(FindAll(cs, "basecompoundref"), BaseEntry)
      case Err(e) => Err(e)
      case Ok(bases) =>
        Ok(Def(common, ClassDef(compound, if header.Some? then Some(IncludeOf(header.value)) else None,
                                ClassVariantOf(kind), TemplateParams(cs, rd), bases)))
  }

  /** The compound's own definition followed by its members, as
      `{File,Directory,Class,Namespace,Group,Page}Def.deserialize(node)[1]` returns them: the
      common fields are read first, then the children, then what the kind adds. */
  function CompoundDefs(node: Element, kind: string, rd: Reading): Result<seq<Def>, Failure>
  {
    match CommonOf(node, rd)
    case Err(e) => Err(e)
    case Ok(common) =>
      match CompoundItems(node, rd)
      case Err(e) => Err(e)
      case Ok(items) =>
        match CompoundHead(node, kind, rd, common, Compound(Attr(node.attrib, "language"), items.0))
        case Err(e) => Err(e)
        case Ok(head) => Ok([head] + items.1)
  }

  /** The bodies of compounds, which carry the `Compound` fields. */
  predicate CompoundBody(b: Body)
  {
    b.DirectoryDef? || b.FileDef? || b.NamespaceDef? || b.GroupDef? || b.PageDef? || b.ClassDef?
  }

  /** The Doxygen kind string a compound body stands for; class-like ones by their variant. */
  predicate BodyHasKind(b: Body, kind: string)
  {
    match b
    case FileDef(_, _) => kind == "file"
    case DirectoryDef(_) => kind == "dir"
    case NamespaceDef(_) => kind == "namespace"
    case GroupDef(_) => kind == "group"
    case PageDef(_) => kind == "page"
    case ClassDef(_, _, v, _, _) => kind in ClassKinds && v == ClassVariantOf(kind)
    case _ => false
  }

  function CompoundNode(doc: Element): Option<Element>
  {
    Find(doc.children, "compounddef")
  }

  function NodeKind(doc: Element): Option<string>
  {
    if CompoundNode(doc).Some? then Attr(CompoundNode(doc).value.attrib, "kind") else None
  }

  /** `parse`, once the tree exists: the first `compounddef` child, dispatched on its kind. A
      missing `kind` makes the warning `'...' + kind` raise `TypeError`. */
  function Parse(doc: Element, rd: Reading): (r: Result<seq<Def>, Failure>)
    ensures r == Ok([]) <==> CompoundNode(doc).None? || (NodeKind(doc).Some? && !KnownKind(NodeKind(doc).value))
    ensures r == Err(TypeError) <==> CompoundNode(doc).Some? && NodeKind(doc).None?
    ensures r.Err? && r != Err(TypeError) ==> Raises(r.error, rd)
    ensures r.Ok? && r.value != [] ==> BodyHasKind(r.value[0].body, NodeKind(doc).value)
    ensures r.Ok? && r.value != [] ==> r.value[0].common == CommonFields(CompoundNode(doc).value)
  {
    match Find(doc.children, "compounddef")
    case None => Ok([])
    case Some(node) =>
      match Attr(node.attrib, "kind")
      case None => Err(TypeError)
      case Some(kind) =>
        if KnownKind(kind) then CompoundDefsErrors(node, kind, rd); CompoundDefs(node, kind, rd) else Ok([])
  }

  /** A file compound whose location line is not a number: as written `parse` raises
      `ValueError`, while the intended handler reads the file with no line. */
  lemma ParseBadLine()
    ensures var doc := Element("doxygen", [], None, [Element("compounddef", [("kind", "file"), ("id", "x")], None,
                                 [Element("location", [("file", "a.h"), ("line", "12a")], None, [])])]);
      Parse(doc, AsWritten) == Err(ValueError("12a")) && Parse(doc, Intended).Ok?
  {
    var loc := Element("location", [("file", "a.h"), ("line", "12a")], None, []);
    var node := Element("compounddef", [("kind", "file"), ("id", "x")], None, [loc]);
    var doc := Element("doxygen", [], None, [node]);
    BadLineCompound(loc, node);
    assert Find(doc.children, "compounddef") == Some(node);
    assert Attr(node.attrib, "kind") == Some("file");
  }

  /** The compound of `ParseBadLine`, read under both readings. */
  lemma BadLineCompound(loc: Element, node: Element)
    requires loc == Element("location", [("file", "a.h"), ("line", "12a")], None, [])
    requires node == Element("compounddef", [("kind", "file"), ("id", "x")], None, [loc])
    ensures CompoundDefs(node, "file", AsWritten) == Err(ValueError("12a"))
    ensures CompoundDefs(node, "file", Intended).Ok?
  {
    MaybeLinenoRaises();
    assert [loc][..0] == [];
    assert Locations([loc], AsWritten) == Err(ValueError("12a"));
    assert ChildStep(Intended)(loc) == Ok([]) by {
      assert "location"[0] != "inner"[0];
    }
    GatherSnoc([loc], ChildStep(Intended), 0);
    assert [loc][..1] == [loc];
  }

  /** The compound's references number its members plus its `inner*` children, and each member
      is referenced by its id and name. */
  lemma CompoundDefsShape(node: Element, kind: string, rd: Reading)
    requires CompoundDefs(node, kind, rd).Ok?
    ensures CompoundDefs(node, kind, rd).value != [] && CompoundBody(CompoundDefs(node, kind, rd).value[0].body)
    ensures |CompoundDefs(node, kind, rd).value[0].body.compound.definitions|
         == |CompoundDefs(node, kind, rd).value| - 1 + InnerChildren(node.children)
    ensures forall d :: d in CompoundDefs(node, kind, rd).value[1..] ==>
              Some(Symbolic(d.common.id, d.common.name)) in CompoundDefs(node, kind, rd).value[0].body.compound.definitions
  {
    var xs := Gather(node.children, ChildStep(rd)).value;
    GatherInner(node.children, rd);
    EntriesCount(xs);
    var defs := CompoundDefs(node, kind, rd).value;
    assert defs[1..] == EntryDefs(xs);
    forall d | d in defs[1..]
      ensures Some(Symbolic(d.common.id, d.common.name)) in EntryRefs(xs)
    {
      EntriesReferenced(xs, d);
    }
  }

  /** What `parse` returns for a known kind: the compound, whose references number its
      members plus its `inner*` children and include each member's, and, for a class-like
      kind, a class variant. */
  lemma ParseShape(doc: Element, rd: Reading)
    requires Parse(doc, rd).Ok? && Parse(doc, rd).value != []
    ensures var defs := Parse(doc, rd).value;
      && |defs[0].body.compound.definitions| == |defs| - 1 + InnerChildren(CompoundNode(doc).value.children)
      && (forall d :: d in defs[1..] ==> Some(Symbolic(d.common.id, d.common.name)) in defs[0].body.compound.definitions)
      && (defs[0].body.ClassDef? ==> defs[0].body.classVariant.Some?)
  {
    var node := CompoundNode(doc).value;
    var kind := NodeKind(doc).value;
    assert Parse(doc, rd) == CompoundDefs(node, kind, rd);
    CompoundDefsShape(node, kind, rd);
    if kind in ClassKinds {
      ClassKindsNameVariants(kind);
    }
  }

  /** A function, signal or slot member always gets its variant. */
  lemma MemberFunctionVariant(m: Element, rd: Reading)
    requires MemberOf(m, rd).Ok? && MemberOf(m, rd).value.Some? && MemberOf(m, rd).value.value.body.FunctionDef?
    ensures MemberOf(m, rd).value.value.body.variant.Some?
  {
    FunctionKindsNameVariants(Attr(m.attrib, "kind").value);
  }

  /** How many children are `inner*` references. */
  function InnerChildren(children: seq<Element>): nat
  {
    if children == [] then 0
    else InnerChildren(children[..|children| - 1]) + (if StartsWith(children[|children| - 1].tag, "inner") then 1 else 0)
  }

  lemma {:induction false} SectionNoInner(ms: seq<Element>, rd: Reading)
    requires Gather(ms, MemberStep(rd)).Ok?
    ensures CountInner(Gather(ms, MemberStep(rd)).value) == 0
  {
    if ms != [] {
      var n := |ms|;
      SectionNoInner(ms[..n - 1], rd);
      var front := Gather(ms[..n - 1], MemberStep(rd)).value;
      var last := MemberEntry(ms[n - 1], rd).value;
      EntriesAppend(front, last);
      if last != [] {
        assert last == [] + [last[0]];
        EntriesSnoc([], last[0]);
      }
    }
  }

  lemma {:induction false} GatherInner(children: seq<Element>, rd: Reading)
    requires Gather(children, ChildStep(rd)).Ok?
    ensures CountInner(Gather(children, ChildStep(rd)).value) == InnerChildren(children)
  {
    if children != [] {
      var n := |children|;
      var c := children[n - 1];
      GatherInner(children[..n - 1], rd);
      var front := Gather(children[..n - 1], ChildStep(rd)).value;
      var last := ChildEntries(c, rd).value;
      EntriesAppend(front, last);
      if StartsWith(c.tag, "inner") {
        EntriesSnoc([], Inner(DeserializeRef(c)));
        assert [] + [Inner(DeserializeRef(c))] == last;
      } else if c.tag == "sectiondef" {
        SectionNoInner(FindAll(c.children, "memberdef"), rd);
      }
    }
  }

  /** A `memberdef` without a `kind` in any `sectiondef` makes the whole compound fail. */
  lemma MissingMemberKindFails(node: Element, kind: string, rd: Reading, s: nat, m: nat)
    requires s < |node.children| && node.children[s].tag == "sectiondef"
    requires m < |FindAll(node.children[s].children, "memberdef")|
    requires Attr(FindAll(node.children[s].children, "memberdef")[m].attrib, "kind").None?
    ensures CompoundDefs(node, kind, rd).Err?
  {
    var ms := FindAll(node.children[s].children, "memberdef");
    GatherOk(ms, MemberStep(rd));
    assert MemberStep(rd)(ms[m]).Err?;
    assert ChildStep(rd)(node.children[s]).Err? by {
      assert "sectiondef"[0] != "inner"[0];
    }
    GatherOk(node.children, ChildStep(rd));
  }
}
