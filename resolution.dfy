/** Reference resolution over loaded definitions (doxyfront/model.py:208-211, 306-308,
    547-550, 566-569, 594-596 and every `resolve_refs` between them). */
module Resolution {
  import opened Wrappers
  import opened Refs
  import opened Fragments
  import opened Defs

  /** `Include.resolve_refs`: a present file reference is resolved. */
  function ResolveInclude(inc: Include, ids: map<string, nat>): (r: Include)
    ensures r.local == inc.local && r.file.Some? == inc.file.Some?
    ensures OptTerminal(r.file)
  {
    inc.(file := ResolveOpt(inc.file, ids))
  }

  /** `Inheritance.resolve_refs`: a present base reference is resolved. */
  function ResolveInheritance(b: Inheritance, ids: map<string, nat>): (r: Inheritance)
    ensures r.visibility == b.visibility && r.isVirtual == b.isVirtual && r.ref.Some? == b.ref.Some?
    ensures OptTerminal(r.ref)
  {
    b.(ref := ResolveOpt(b.ref, ids))
  }

  /** `Param.resolve_refs`: the type and the default value. */
  function ResolveParam(p: Param, ids: map<string, nat>): Param
  {
    p.(paramType := ResolveMarkup(p.paramType, ids), default := ResolveMarkup(p.default, ids))
  }

  function ResolveParams(ps: seq<Param>, ids: map<string, nat>): seq<Param>
  {
    seq(|ps|, i requires 0 <= i < |ps| => ResolveParam(ps[i], ids))
  }

  /** `Def.resolve_refs` and its overrides: the three descriptions, then the fields of the kind. */
  function ResolveDef(d: Def, ids: map<string, nat>): Def
    decreases d, 2
  {
    d.(brief := ResolveMarkup(d.brief, ids),
       detailed := ResolveMarkup(d.detailed, ids),
       inBody := ResolveMarkup(d.inBody, ids),
       kind := ResolveKind(d.kind, ids))
  }

  /** A compound's members are resolved element by element (`CompoundDef.resolve_refs`);
      everything else as `ResolveOthers` says. */
  function ResolveKind(k: Kind, ids: map<string, nat>): Kind
    decreases k, 1
  {
    var o := ResolveOthers(k, ids);
    if IsCompoundKind(k) then WithMembers(o, ResolveAll(k.members, ids)) else o
  }

  /** A compound kind with its member list replaced; other kinds are returned unchanged. */
  function WithMembers(k: Kind, ms: seq<Ref>): (r: Kind)
    ensures IsCompoundKind(k) ==> IsCompoundKind(r) && r.members == ms
  {
    match k
    case Directory(_) => Directory(ms)
    case File(_, incs) => File(ms, incs)
    case Namespace(_) => Namespace(ms)
    case Group(_) => Group(ms)
    case Page(_) => Page(ms)
    case ClassDef(_, v, tps, bases) => ClassDef(ms, v, tps, bases)
    case _ => k
  }

  predicate IsCompoundKind(k: Kind)
  {
    k.Directory? || k.File? || k.Namespace? || k.Group? || k.Page? || k.ClassDef?
  }

  /** What each subclass's `resolve_refs` resolves besides the member list; the members are
      left as they are. */
  function ResolveOthers(k: Kind, ids: map<string, nat>): (o: Kind)
    ensures IsCompoundKind(k) ==> IsCompoundKind(o) && o.members == k.members
    decreases k, 0
  {
    match k
    case Macro(ps, sub) => Macro(ps, ResolveMarkup(sub, ids))
    case Typedef(tps, t, df) => Typedef(ResolveParams(tps, ids), ResolveMarkup(t, ids), ResolveMarkup(df, ids))
    case FunctionDef(v, rt, tps, ps) =>
      FunctionDef(v, ResolveMarkup(rt, ids), ResolveParams(tps, ids), ResolveParams(ps, ids))
    case Variable(t, init) => Variable(ResolveMarkup(t, ids), ResolveMarkup(init, ids))
    case Property(t) => Property(ResolveMarkup(t, ids))
    case EnumValue(init) => EnumValue(ResolveMarkup(init, ids))
    case Enum(u, strong, values) =>
      Enum(ResolveMarkup(u, ids), strong, seq(|values|, i requires 0 <= i < |values| => ResolveDef(values[i], ids)))
    case Friend(df) => Friend(ResolveMarkup(df, ids))
    case Directory(_) => k
    case File(ms, incs) => File(ms, seq(|incs|, i requires 0 <= i < |incs| => ResolveInclude(incs[i], ids)))
    case Namespace(_) => k
    case Group(_) => k
    case Page(_) => k
    case ClassDef(ms, v, tps, bases) =>
      ClassDef(ms, v, ResolveParams(tps, ids), seq(|bases| , i requires 0 <= i < |bases| => ResolveInheritance(bases[i], ids)))
  }

  // ----- terminal definitions -----

  predicate ParamTerminal(p: Param)
  {
    MarkupTerminal(p.paramType) && MarkupTerminal(p.default)
  }

  predicate ParamsTerminal(ps: seq<Param>)
  {
    forall i :: 0 <= i < |ps| ==> ParamTerminal(ps[i])
  }

  /** No reference anywhere in the definition is symbolic. */
  predicate DefTerminal(d: Def)
    decreases d, 1
  {
    MarkupTerminal(d.brief) && MarkupTerminal(d.detailed) && MarkupTerminal(d.inBody) && KindTerminal(d.kind)
  }

  predicate KindTerminal(k: Kind)
    decreases k, 0
  {
    match k
    case Macro(_, sub) => MarkupTerminal(sub)
    case Typedef(tps, t, df) => ParamsTerminal(tps) && MarkupTerminal(t) && MarkupTerminal(df)
    case FunctionDef(_, rt, tps, ps) => MarkupTerminal(rt) && ParamsTerminal(tps) && ParamsTerminal(ps)
    case Variable(t, init) => MarkupTerminal(t) && MarkupTerminal(init)
    case Property(t) => MarkupTerminal(t)
    case EnumValue(init) => MarkupTerminal(init)
    case Enum(u, _, values) => MarkupTerminal(u) && forall i :: 0 <= i < |values| ==> DefTerminal(values[i])
    case Friend(df) => MarkupTerminal(df)
    case Directory(ms) => NoSymbolic(ms)
    case File(ms, incs) => NoSymbolic(ms) && forall i :: 0 <= i < |incs| ==> OptTerminal(incs[i].file)
    case Namespace(ms) => NoSymbolic(ms)
    case Group(ms) => NoSymbolic(ms)
    case Page(ms) => NoSymbolic(ms)
    case ClassDef(ms, _, tps, bases) =>
      NoSymbolic(ms) && ParamsTerminal(tps) && forall i :: 0 <= i < |bases| ==> OptTerminal(bases[i].ref)
  }

  lemma MarkupResolveTerminal(m: Option<Markup>, ids: map<string, nat>, ids': map<string, nat>)
    ensures MarkupTerminal(ResolveMarkup(m, ids))
    ensures ResolveMarkup(ResolveMarkup(m, ids), ids') == ResolveMarkup(m, ids)
  {
    if m.Some? {
      ResolveFragmentTerminal(m.value.root, ids);
      ResolveFragmentIdempotent(m.value.root, ids, ids');
    }
  }

  lemma ParamsResolveTerminal(ps: seq<Param>, ids: map<string, nat>, ids': map<string, nat>)
    ensures ParamsTerminal(ResolveParams(ps, ids))
    ensures ResolveParams(ResolveParams(ps, ids), ids') == ResolveParams(ps, ids)
  {
    var rs := ResolveParams(ps, ids);
    forall i | 0 <= i < |ps|
      ensures ParamTerminal(rs[i]) && ResolveParam(rs[i], ids') == rs[i]
    {
      MarkupResolveTerminal(ps[i].paramType, ids, ids');
      MarkupResolveTerminal(ps[i].default, ids, ids');
    }
  }

  /** After `resolve_refs` no reference in the definition is symbolic. */
  lemma {:induction false} ResolveDefTerminal(d: Def, ids: map<string, nat>)
    ensures DefTerminal(ResolveDef(d, ids))
    decreases d, 1
  {
    MarkupResolveTerminal(d.brief, ids, ids);
    MarkupResolveTerminal(d.detailed, ids, ids);
    MarkupResolveTerminal(d.inBody, ids, ids);
    ResolveKindTerminal(d.kind, ids);
  }

  lemma {:induction false} ResolveKindTerminal(k: Kind, ids: map<string, nat>)
    ensures KindTerminal(ResolveKind(k, ids))
    decreases k, 0
  {
    var r := ResolveKind(k, ids);
    if IsCompoundKind(k) {
      ResolveAllTerminal(k.members, ids, ids);
    }
    match k
    case Macro(_, sub) => MarkupResolveTerminal(sub, ids, ids);
    case Typedef(tps, t, df) =>
      ParamsResolveTerminal(tps, ids, ids);
      MarkupResolveTerminal(t, ids, ids);
      MarkupResolveTerminal(df, ids, ids);
    case FunctionDef(_, rt, tps, ps) =>
      MarkupResolveTerminal(rt, ids, ids);
      ParamsResolveTerminal(tps, ids, ids);
      ParamsResolveTerminal(ps, ids, ids);
    case Variable(t, init) =>
      MarkupResolveTerminal(t, ids, ids);
      MarkupResolveTerminal(init, ids, ids);
    case Property(t) => MarkupResolveTerminal(t, ids, ids);
    case EnumValue(init) => MarkupResolveTerminal(init, ids, ids);
    case Enum(u, strong, values) =>
      MarkupResolveTerminal(u, ids, ids);
      assert r == ResolveOthers(k, ids) && r.Enum? && |r.values| == |values|;
      forall i | 0 <= i < |values|
        ensures DefTerminal(r.values[i])
      {
        assert r.values[i] == ResolveDef(values[i], ids);
        ResolveDefTerminal(values[i], ids);
      }
    case Friend(df) => MarkupResolveTerminal(df, ids, ids);
    case Directory(_) =>
    case File(_, _) =>
    case Namespace(_) =>
    case Group(_) =>
    case Page(_) =>
    case ClassDef(_, _, tps, _) => ParamsResolveTerminal(tps, ids, ids);
  }

  /** Resolving a resolved definition again, with any id map, changes nothing. */
  lemma {:induction false} ResolveDefIdempotent(d: Def, ids: map<string, nat>, ids': map<string, nat>)
    ensures ResolveDef(ResolveDef(d, ids), ids') == ResolveDef(d, ids)
    decreases d, 1
  {
    MarkupResolveTerminal(d.brief, ids, ids');
    MarkupResolveTerminal(d.detailed, ids, ids');
    MarkupResolveTerminal(d.inBody, ids, ids');
    ResolveKindIdempotent(d.kind, ids, ids');
  }

  lemma {:induction false} ResolveKindIdempotent(k: Kind, ids: map<string, nat>, ids': map<string, nat>)
    ensures ResolveKind(ResolveKind(k, ids), ids') == ResolveKind(k, ids)
    decreases k, 1
  {
    if k.Enum? {
      EnumResolveIdempotent(k, ids, ids');
    } else if k.File? {
      FileResolveIdempotent(k, ids, ids');
    } else if k.ClassDef? {
      ClassResolveIdempotent(k, ids, ids');
    } else if IsCompoundKind(k) {
      ResolveAllTerminal(k.members, ids, ids');
    } else {
      LeafResolveIdempotent(k, ids, ids');
    }
  }

  /** The kinds that hold neither members nor nested definitions. */
  lemma LeafResolveIdempotent(k: Kind, ids: map<string, nat>, ids': map<string, nat>)
    requires !IsCompoundKind(k) && !k.Enum?
    ensures ResolveKind(ResolveKind(k, ids), ids') == ResolveKind(k, ids)
  {
    match k
    case Macro(_, sub) => MarkupResolveTerminal(sub, ids, ids');
    case Typedef(tps, t, df) =>
      ParamsResolveTerminal(tps, ids, ids');
      MarkupResolveTerminal(t, ids, ids');
      MarkupResolveTerminal(df, ids, ids');
    case FunctionDef(_, rt, tps, ps) =>
      MarkupResolveTerminal(rt, ids, ids');
      ParamsResolveTerminal(tps, ids, ids');
      ParamsResolveTerminal(ps, ids, ids');
    case Variable(t, init) =>
      MarkupResolveTerminal(t, ids, ids');
      MarkupResolveTerminal(init, ids, ids');
    case Property(t) => MarkupResolveTerminal(t, ids, ids');
    case EnumValue(init) => MarkupResolveTerminal(init, ids, ids');
    case Friend(df) => MarkupResolveTerminal(df, ids, ids');
  }

  lemma {:induction false} EnumResolveIdempotent(k: Kind, ids: map<string, nat>, ids': map<string, nat>)
    requires k.Enum?
    ensures ResolveKind(ResolveKind(k, ids), ids') == ResolveKind(k, ids)
    decreases k, 0
  {
    var r := ResolveKind(k, ids);
    var rr := ResolveKind(r, ids');
    MarkupResolveTerminal(k.underlyingType, ids, ids');
    assert r == ResolveOthers(k, ids) && r.Enum? && |r.values| == |k.values|;
    assert rr == ResolveOthers(r, ids') && rr.Enum? && |rr.values| == |k.values|;
    forall i | 0 <= i < |k.values|
      ensures rr.values[i] == r.values[i]
    {
      assert r.values[i] == ResolveDef(k.values[i], ids);
      assert rr.values[i] == ResolveDef(r.values[i], ids');
      ResolveDefIdempotent(k.values[i], ids, ids');
    }
    assert rr.values == r.values;
  }

  lemma FileResolveIdempotent(k: Kind, ids: map<string, nat>, ids': map<string, nat>)
    requires k.File?
    ensures ResolveKind(ResolveKind(k, ids), ids') == ResolveKind(k, ids)
  {
    var r := ResolveKind(k, ids);
    var rr := ResolveKind(r, ids');
    var incs := k.includes;
    ResolveAllTerminal(k.members, ids, ids');
    var o := ResolveOthers(k, ids);
    assert o.includes == seq(|incs|, i requires 0 <= i < |incs| => ResolveInclude(incs[i], ids));
    assert r == WithMembers(o, ResolveAll(k.members, ids));
    assert r.File? && |r.includes| == |incs|;
    var o' := ResolveOthers(r, ids');
    assert o'.includes == seq(|r.includes|, i requires 0 <= i < |r.includes| => ResolveInclude(r.includes[i], ids'));
    assert rr == WithMembers(o', ResolveAll(r.members, ids'));
    assert rr.File? && |rr.includes| == |incs|;
    forall i | 0 <= i < |incs|
      ensures rr.includes[i] == r.includes[i]
    {
      assert r.includes[i] == ResolveInclude(incs[i], ids);
      assert rr.includes[i] == ResolveInclude(r.includes[i], ids');
    }
    assert rr.includes == r.includes;
  }

  lemma ClassResolveIdempotent(k: Kind, ids: map<string, nat>, ids': map<string, nat>)
    requires k.ClassDef?
    ensures ResolveKind(ResolveKind(k, ids), ids') == ResolveKind(k, ids)
  {
    var r := ResolveKind(k, ids);
    var rr := ResolveKind(r, ids');
    var bases := k.bases;
    ResolveAllTerminal(k.members, ids, ids');
    ParamsResolveTerminal(k.templateParams, ids, ids');
    var o := ResolveOthers(k, ids);
    assert o.bases == seq(|bases|, i requires 0 <= i < |bases| => ResolveInheritance(bases[i], ids));
    assert r == WithMembers(o, ResolveAll(k.members, ids));
    assert r.ClassDef? && |r.bases| == |bases|;
    var o' := ResolveOthers(r, ids');
    assert o'.bases == seq(|r.bases|, i requires 0 <= i < |r.bases| => ResolveInheritance(r.bases[i], ids'));
    assert rr == WithMembers(o', ResolveAll(r.members, ids'));
    assert rr.ClassDef? && |rr.bases| == |bases|;
    forall i | 0 <= i < |bases|
      ensures rr.bases[i] == r.bases[i]
    {
      assert r.bases[i] == ResolveInheritance(bases[i], ids);
      assert rr.bases[i] == ResolveInheritance(r.bases[i], ids');
    }
    assert rr.bases == r.bases;
  }

  // ----- resolution in place -----

  /** Every id maps to a definition of an arena of size `n`, as the dictionary of loaded
      definitions does. */
  predicate IdsInside(ids: map<string, nat>, n: nat)
  {
    forall id :: id in ids ==> ids[id] < n
  }

  /** A resolved reference points where it pointed before or where the id map sends it. */
  lemma ResolveTarget(r: Ref, ids: map<string, nat>, n: nat)
    requires IdsInside(ids, n) && (r.Resolved? ==> r.target < n)
    ensures Resolve(r, ids).Resolved? ==> Resolve(r, ids).target < n
  {
  }

  /** Resolution keeps a kind compound or not, and resolves a compound's members. */
  lemma ResolveKindCompound(k: Kind, ids: map<string, nat>)
    ensures IsCompoundKind(ResolveKind(k, ids)) <==> IsCompoundKind(k)
    ensures IsCompoundKind(k) ==> ResolveKind(k, ids).members == ResolveAll(k.members, ids)
  {
    match k
    case Macro(_, _) =>
    case Typedef(_, _, _) =>
    case FunctionDef(_, _, _, _) =>
    case Variable(_, _) =>
    case Property(_) =>
    case EnumValue(_) =>
    case Enum(_, _, _) =>
    case Friend(_) =>
    case _ =>
  }

  /** Resolving one definition against an id map into the arena keeps the arena closed: no
      member reference points outside it. */
  lemma ResolveDefClosed(defs: seq<Def>, k: nat, ids: map<string, nat>)
    requires k < |defs| && Closed(defs) && IdsInside(ids, |defs|)
    ensures Closed(defs[k := ResolveDef(defs[k], ids)])
  {
    var d := defs[k];
    var e := ResolveDef(d, ids);
    var defs' := defs[k := e];
    ResolveKindCompound(d.kind, ids);
    if IsCompound(e) {
      forall j | 0 <= j < |e.kind.members| && e.kind.members[j].Resolved?
        ensures e.kind.members[j].target < |defs|
      {
        assert e.kind.members[j] == Resolve(d.kind.members[j], ids);
        ResolveTarget(d.kind.members[j], ids, |defs|);
      }
    }
    forall i | 0 <= i < |defs'| && IsCompound(defs'[i])
      ensures forall j :: 0 <= j < |defs'[i].kind.members| && defs'[i].kind.members[j].Resolved? ==>
                defs'[i].kind.members[j].target < |defs'|
    {
      if i != k {
        assert defs'[i] == defs[i];
      }
    }
  }

  /** The loaded definitions, updated in place by `resolve_refs`. */
  class Graph {
    var defs: seq<Def>

    constructor(defs: seq<Def>)
      ensures this.defs == defs
    {
      this.defs := defs;
    }

    /** `defs[k].resolve_refs(ids)`: the descriptions and the kind's own fields are resolved,
        and a compound's member list is overwritten element by element. No other definition
        changes. */
    method ResolveRefs(k: nat, ids: map<string, nat>)
      requires k < |defs|
      modifies this
      ensures defs == old(defs)[k := ResolveDef(old(defs)[k], ids)]
      ensures DefTerminal(defs[k])
      ensures Closed(old(defs)) && IdsInside(ids, |old(defs)|) ==> Closed(defs)
    {
      var d := defs[k];
      var kind := ResolveOthers(d.kind, ids);
      if IsCompoundKind(d.kind) {
        var members := kind.members;
        var i := 0;
        while i < |members|
          invariant 0 <= i <= |members| == |d.kind.members|
          invariant forall j :: 0 <= j < i ==> members[j] == Resolve(d.kind.members[j], ids)
          invariant forall j :: i <= j < |members| ==> members[j] == d.kind.members[j]
        {
          members := members[i := Resolve(members[i], ids)];
          i := i + 1;
        }
        assert members == ResolveAll(d.kind.members, ids);
        kind := WithMembers(kind, members);
      }
      defs := defs[k := d.(brief := ResolveMarkup(d.brief, ids),
                           detailed := ResolveMarkup(d.detailed, ids),
                           inBody := ResolveMarkup(d.inBody, ids),
                           kind := kind)];
      ResolveDefTerminal(d, ids);
      if Closed(old(defs)) && IdsInside(ids, |old(defs)|) {
        ResolveDefClosed(old(defs), k, ids);
      }
    }
  }
}
