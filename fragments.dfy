/** The inline-markup tree (doxyfront/model.py:32-126): every fragment has children; text,
    format, cross-reference, external-link and section fragments add one field each. */
module Fragments {
  import opened Wrappers
  import opened Strings
  import opened Refs
  import opened HtmlEscape

  /** `FormatFragment.Variant`; `Tag` gives each member's value, the HTML tag it renders as. */
  datatype FormatVariant = Paragraph | Code | Strong | Emphasis | Itemize | Enumerate | Item

  function Tag(v: FormatVariant): string
  {
    match v
    case Paragraph => "p"
    case Code => "code"
    case Strong => "strong"
    case Emphasis => "em"
    case Itemize => "ul"
    case Enumerate => "ol"
    case Item => "li"
  }

  datatype Fragment =
    | Plain(children: seq<Fragment>)                        // `Fragment` itself
    | Text(text: string, children: seq<Fragment>)           // `TextFragment`
    | Format(variant: FormatVariant, children: seq<Fragment>)
    | RefFragment(ref: Ref, children: seq<Fragment>)
    | Link(url: string, children: seq<Fragment>)
    | Section(sectionKind: string, children: seq<Fragment>)

  /** `Markup`: a root fragment. */
  datatype Markup = Markup(root: Fragment)

  /** `render_plaintext`: a text fragment gives its text, every other fragment the
      space-joined plaintext of its children. */
  function RenderPlaintext(f: Fragment): string
    decreases f
  {
    if f.Text? then f.text
    else Join(seq(|f.children|, i requires 0 <= i < |f.children| => RenderPlaintext(f.children[i])), " ")
  }

  /** The space-joined HTML of the children: `Fragment.render_html`, which the subclasses
      call through `super()`. */
  function ChildrenHtml(f: Fragment, targetHtml: nat -> string): string
    decreases f, 0
  {
    Join(seq(|f.children|, i requires 0 <= i < |f.children| => RenderHtml(f.children[i], targetHtml)), " ")
  }

  /** `render_html`. A resolved cross-reference renders its target's `qualified_name_html`,
      which is not part of this model: `targetHtml` stands for it. */
  function RenderHtml(f: Fragment, targetHtml: nat -> string): string
    decreases f, 1
  {
    match f
    case Plain(_) => ChildrenHtml(f, targetHtml)
    case Text(text, _) => Escape(text)
    case Format(v, _) => "<" + Tag(v) + ">" + ChildrenHtml(f, targetHtml) + "</" + Tag(v) + ">"
    case RefFragment(r, _) => if r.Resolved? then targetHtml(r.target) else ChildrenHtml(f, targetHtml)
    case Link(url, _) => "<a class=\"external\" href=\"" + url + "\">" + ChildrenHtml(f, targetHtml) + "</a>"
    case Section(kind, _) => "<section><h3>" + kind + "</h3>" + ChildrenHtml(f, targetHtml) + "</section>"
  }

  /** `resolve_refs`: every child is resolved, and a cross-reference replaces its reference
      by the resolved one. The source updates the tree in place; here the new tree is returned. */
  function ResolveFragment(f: Fragment, ids: map<string, nat>): (g: Fragment)
    decreases f
  {
    var cs := seq(|f.children|, i requires 0 <= i < |f.children| => ResolveFragment(f.children[i], ids));
    match f
    case RefFragment(r, _) => RefFragment(Resolve(r, ids), cs)
    case _ => f.(children := cs)
  }

  /** No symbolic reference anywhere in the tree. */
  predicate Terminal(f: Fragment)
    decreases f
  {
    (f.RefFragment? ==> !f.ref.Symbolic?) &&
    forall i :: 0 <= i < |f.children| ==> Terminal(f.children[i])
  }

  /** After resolution no cross-reference in the tree is symbolic. */
  lemma {:induction false} ResolveFragmentTerminal(f: Fragment, ids: map<string, nat>)
    ensures Terminal(ResolveFragment(f, ids))
    decreases f
  {
    var g := ResolveFragment(f, ids);
    forall i | 0 <= i < |g.children|
      ensures Terminal(g.children[i])
    {
      ResolveFragmentTerminal(f.children[i], ids);
    }
  }

  /** Resolving a resolved tree again changes nothing. */
  lemma {:induction false} ResolveFragmentIdempotent(f: Fragment, ids: map<string, nat>, ids': map<string, nat>)
    ensures ResolveFragment(ResolveFragment(f, ids), ids') == ResolveFragment(f, ids)
    decreases f
  {
    var g := ResolveFragment(f, ids);
    var h := ResolveFragment(g, ids');
    forall i | 0 <= i < |g.children|
      ensures h.children[i] == g.children[i]
    {
      ResolveFragmentIdempotent(f.children[i], ids, ids');
    }
    assert h.children == g.children;
  }

  /** Plaintext ignores references: resolution does not change it. */
  lemma {:induction false} PlaintextIgnoresResolution(f: Fragment, ids: map<string, nat>)
    ensures RenderPlaintext(ResolveFragment(f, ids)) == RenderPlaintext(f)
    decreases f
  {
    var g := ResolveFragment(f, ids);
    if !f.Text? {
      forall i | 0 <= i < |f.children|
        ensures RenderPlaintext(g.children[i]) == RenderPlaintext(f.children[i])
      {
        PlaintextIgnoresResolution(f.children[i], ids);
      }
      var a := seq(|g.children|, i requires 0 <= i < |g.children| => RenderPlaintext(g.children[i]));
      var b := seq(|f.children|, i requires 0 <= i < |f.children| => RenderPlaintext(f.children[i]));
      assert a == b;
    }
  }

  /** A tree of plain and text fragments only: no markup of its own. */
  predicate TextOnly(f: Fragment)
    decreases f
  {
    (f.Plain? || f.Text?) && forall i :: 0 <= i < |f.children| ==> TextOnly(f.children[i])
  }

  /** Escaping a space-joined list is joining the escaped elements. */
  lemma EscapeJoin(xs: seq<string>, ys: seq<string>)
    requires |xs| == |ys| && forall i :: 0 <= i < |xs| ==> ys[i] == Escape(xs[i])
    ensures Escape(Join(xs, " ")) == Join(ys, " ")
  {
    forall i | 0 <= i < |xs|
      ensures ys[i] == EntityWise(xs[i])
    {
      EscapeIsEntityWise(xs[i]);
    }
    EntityWiseJoin(xs, ys);
    EscapeIsEntityWise(Join(xs, " "));
  }

  lemma {:induction false} EntityWiseJoin(xs: seq<string>, ys: seq<string>)
    requires |xs| == |ys| && forall i :: 0 <= i < |xs| ==> ys[i] == EntityWise(xs[i])
    ensures EntityWise(Join(xs, " ")) == Join(ys, " ")
  {
    if |xs| > 1 {
      var tail, tail' := Join(xs[1..], " "), Join(ys[1..], " ");
      assert Join(xs, " ") == xs[0] + (" " + tail);
      assert Join(ys, " ") == ys[0] + (" " + tail');
      assert EntityWise(tail) == tail' by {
        EntityWiseJoin(xs[1..], ys[1..]);
      }
      assert EntityWise(" " + tail) == " " + EntityWise(tail) by {
        EntityWiseAppend(" ", tail);
        assert EntityWise(" ") == " ";
      }
      EntityWiseAppend(xs[0], " " + tail);
    }
  }

  /** For a tree without markup, the HTML is the escaped plaintext. */
  lemma {:induction false} TextOnlyHtmlIsEscapedPlaintext(f: Fragment, targetHtml: nat -> string)
    requires TextOnly(f)
    ensures RenderHtml(f, targetHtml) == Escape(RenderPlaintext(f))
    decreases f
  {
    if f.Plain? {
      var hs := seq(|f.children|, i requires 0 <= i < |f.children| => RenderHtml(f.children[i], targetHtml));
      var ps := seq(|f.children|, i requires 0 <= i < |f.children| => RenderPlaintext(f.children[i]));
      forall i | 0 <= i < |f.children|
        ensures hs[i] == Escape(ps[i])
      {
        TextOnlyHtmlIsEscapedPlaintext(f.children[i], targetHtml);
      }
      EscapeJoin(ps, hs);
    }
  }

  /** A cross-reference: resolved, it renders its target's name HTML; otherwise it renders
      exactly as a plain fragment with the same children. */
  lemma RefFragmentHtml(r: Ref, cs: seq<Fragment>, targetHtml: nat -> string)
    ensures r.Resolved? ==> RenderHtml(RefFragment(r, cs), targetHtml) == targetHtml(r.target)
    ensures !r.Resolved? ==> RenderHtml(RefFragment(r, cs), targetHtml) == RenderHtml(Plain(cs), targetHtml)
  {
    assert ChildrenHtml(RefFragment(r, cs), targetHtml) == ChildrenHtml(Plain(cs), targetHtml);
  }

  /** A format fragment over unformatted text wraps the escaped plaintext in its tag. */
  lemma FormatHtmlOfText(v: FormatVariant, cs: seq<Fragment>, targetHtml: nat -> string)
    requires forall i :: 0 <= i < |cs| ==> TextOnly(cs[i])
    ensures RenderHtml(Format(v, cs), targetHtml)
         == "<" + Tag(v) + ">" + Escape(RenderPlaintext(Format(v, cs))) + "</" + Tag(v) + ">"
  {
    assert ChildrenHtml(Format(v, cs), targetHtml) == RenderHtml(Plain(cs), targetHtml);
    assert RenderPlaintext(Format(v, cs)) == RenderPlaintext(Plain(cs));
    TextOnlyHtmlIsEscapedPlaintext(Plain(cs), targetHtml);
  }

  /** Fragments in a tree without resolved cross-references never consult the target renderer. */
  predicate NoResolved(f: Fragment)
    decreases f
  {
    (f.RefFragment? ==> !f.ref.Resolved?) && forall i :: 0 <= i < |f.children| ==> NoResolved(f.children[i])
  }

  lemma {:induction false} ChildrenHtmlIgnoresTargets(f: Fragment, t1: nat -> string, t2: nat -> string)
    requires forall i :: 0 <= i < |f.children| ==> NoResolved(f.children[i])
    ensures ChildrenHtml(f, t1) == ChildrenHtml(f, t2)
    decreases f, 0
  {
    forall i | 0 <= i < |f.children|
      ensures RenderHtml(f.children[i], t1) == RenderHtml(f.children[i], t2)
    {
      HtmlIgnoresTargets(f.children[i], t1, t2);
    }
    var a := seq(|f.children|, i requires 0 <= i < |f.children| => RenderHtml(f.children[i], t1));
    var b := seq(|f.children|, i requires 0 <= i < |f.children| => RenderHtml(f.children[i], t2));
    assert a == b;
  }

  lemma {:induction false} HtmlIgnoresTargets(f: Fragment, t1: nat -> string, t2: nat -> string)
    requires NoResolved(f)
    ensures RenderHtml(f, t1) == RenderHtml(f, t2)
    decreases f, 1
  {
    ChildrenHtmlIgnoresTargets(f, t1, t2);
  }

  /** A cross-reference to an id that was never defined degrades to its text: after
      resolution its HTML is the escaped plaintext of its children, not a link. */
  lemma MissingTargetRendersAsText(id: string, name: Option<string>, cs: seq<Fragment>,
                                   ids: map<string, nat>, targetHtml: nat -> string)
    requires id !in ids
    requires forall i :: 0 <= i < |cs| ==> TextOnly(cs[i])
    ensures RenderHtml(ResolveFragment(RefFragment(Symbolic(id, name), cs), ids), targetHtml)
         == Escape(RenderPlaintext(Plain(cs)))
  {
    var f := RefFragment(Symbolic(id, name), cs);
    var g := ResolveFragment(f, ids);
    assert g.ref == Unresolved(name);
    forall i | 0 <= i < |cs|
      ensures g.children[i] == cs[i]
    {
      TextOnlyResolvesToItself(cs[i], ids);
    }
    assert g.children == cs;
    assert ChildrenHtml(g, targetHtml) == ChildrenHtml(Plain(cs), targetHtml);
    TextOnlyHtmlIsEscapedPlaintext(Plain(cs), targetHtml);
  }

  lemma {:induction false} TextOnlyResolvesToItself(f: Fragment, ids: map<string, nat>)
    requires TextOnly(f)
    ensures ResolveFragment(f, ids) == f
    decreases f
  {
    var g := ResolveFragment(f, ids);
    forall i | 0 <= i < |f.children|
      ensures g.children[i] == f.children[i]
    {
      TextOnlyResolvesToItself(f.children[i], ids);
    }
    assert g.children == f.children;
  }

  /** `Markup.render_plaintext` applies a whitespace normalisation (a regular-expression
      substitution) to the root's plaintext; the normaliser is passed in. */
  function MarkupPlaintext(m: Markup, normalize: string -> string): string
  {
    normalize(RenderPlaintext(m.root))
  }

  function MarkupHtml(m: Markup, targetHtml: nat -> string): string
  {
    RenderHtml(m.root, targetHtml)
  }

  function ResolveMarkup(m: Option<Markup>, ids: map<string, nat>): Option<Markup>
  {
    if m.Some? then Some(Markup(ResolveFragment(m.value.root, ids))) else None
  }

  predicate MarkupTerminal(m: Option<Markup>)
  {
    m.None? || Terminal(m.value.root)
  }
}
