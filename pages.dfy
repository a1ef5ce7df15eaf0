/** The page tree `doctree` writes (doxyfront/doctree.py:57-72): one page per definition
    listing its resolved members, and an index listing the definitions that no scope other
    than a file claims. */
module Pages {
  import opened Wrappers
  import opened Seqs
  import opened Refs
  import opened Defs
  import opened Doctree


  /** A rendered page: its title and its sections. */
  datatype HtmlPage = HtmlPage(title: string, sections: seq<Section>)

  /** The title of a definition's page, `'{} {}'.format(d.kind(), d.name)`. */
  function PageTitle(d: Def): string
  {
    Show(KindName(d)) + " " + d.name
  }

  /** The targets of the resolved references among `ms`, in order. */
  function ResolvedTargets(ms: seq<Ref>): (r: seq<nat>)
    ensures |r| <= |ms|
    ensures forall x :: x in r <==> exists j :: 0 <= j < |ms| && ms[j] == Resolved(x)
  {
    if ms == [] then []
    else
      var init := ms[..|ms| - 1];
      var r := ResolvedTargets(init);
      assert forall j :: 0 <= j < |init| ==> init[j] == ms[j];
      r + if ms[|ms| - 1].Resolved? then [ms[|ms| - 1].target] else []
  }

  /** The definitions a page lists: a compound's resolved members, nothing for the rest. */
  function PageMembers(d: Def): (r: seq<nat>)
    ensures !IsCompound(d) ==> r == []
    ensures IsCompound(d) ==> forall x :: x in r <==> exists j :: 0 <= j < |d.kind.members| && d.kind.members[j] == Resolved(x)
  {
    if IsCompound(d) then ResolvedTargets(d.kind.members) else []
  }

  function Lookup(defs: seq<Def>, ts: seq<nat>): seq<Def>
    requires forall k :: 0 <= k < |ts| ==> ts[k] < |defs|
  {
    seq(|ts|, k requires 0 <= k < |ts| => defs[ts[k]])
  }

  function PageOf(defs: seq<Def>, i: nat): HtmlPage
    requires Closed(defs) && i < |defs|
  {
    var ts := PageMembers(defs[i]);
    PageMembersClosed(defs, i);
    HtmlPage(PageTitle(defs[i]), Sections(Lookup(defs, ts)))
  }

  lemma PageMembersClosed(defs: seq<Def>, i: nat)
    requires Closed(defs) && i < |defs|
    ensures forall k :: 0 <= k < |PageMembers(defs[i])| ==> PageMembers(defs[i])[k] < |defs|
  {
    var ts := PageMembers(defs[i]);
    forall k | 0 <= k < |ts|
      ensures ts[k] < |defs|
    {
      assert ts[k] in ts;
    }
  }

  /** A compound other than a file: its members are not global. */
  predicate Scoping(d: Def)
  {
    IsCompound(d) && !d.kind.File?
  }

  /** `non_global` after the first `n` definitions. */
  function NonGlobalIn(defs: seq<Def>, n: nat): set<nat>
    requires n <= |defs|
  {
    set i, j | 0 <= i < n && Scoping(defs[i]) && 0 <= j < |defs[i].kind.members| && defs[i].kind.members[j].Resolved?
             :: defs[i].kind.members[j].target
  }

  /** Some compound other than a file lists `x` as a resolved member. */
  ghost predicate ScopedMember(defs: seq<Def>, x: nat)
  {
    exists i, j :: 0 <= i < |defs| && Scoping(defs[i]) && 0 <= j < |defs[i].kind.members| &&
                   defs[i].kind.members[j] == Resolved(x)
  }

  /** The index roots: every definition that no compound other than a file lists. */
  ghost function IndexRoots(defs: seq<Def>): set<nat>
  {
    set x | 0 <= x < |defs| && !ScopedMember(defs, x)
  }

  /** The inner loop of `doctree` for one definition: its page members, and what it adds to
      `non_global`. */
  method CollectMembers(d: Def) returns (members: seq<nat>, scoped: set<nat>)
    ensures members == PageMembers(d)
    ensures scoped == if Scoping(d) then ScopedBy(d) else {}
  {
    members := [];
    scoped := {};
    if IsCompound(d) {
      var ms := d.kind.members;
      for j := 0 to |ms|
        invariant members == ResolvedTargets(ms[..j])
        invariant scoped == if Scoping(d) then (set x | x in members) else {}
      {
        assert ms[..j + 1][..j] == ms[..j];
        if ms[j].Resolved? {
          members := members + [ms[j].target];
          if !d.kind.File? {
            scoped := scoped + {ms[j].target};
          }
        }
      }
      assert ms[..|ms|] == ms;
      if Scoping(d) {
        forall x
          ensures x in ScopedBy(d) <==> x in members
        {
          if x in ScopedBy(d) {
            var j :| 0 <= j < |ms| && ms[j].Resolved? && ms[j].target == x;
            assert ms[j] == Resolved(x);
          }
        }
      }
    }
  }

  /** The resolved members of a compound. */
  function ScopedBy(d: Def): set<nat>
    requires IsCompound(d)
  {
    set j | 0 <= j < |d.kind.members| && d.kind.members[j].Resolved? :: d.kind.members[j].target
  }

  /** `doctree`: one page per definition listing its resolved members, and the index listing
      the roots in the order `rootOrder` enumerates the root set. */
  method MakeDoctree(defs: seq<Def>, rootOrder: seq<nat>) returns (pages: seq<HtmlPage>, roots: set<nat>, index: HtmlPage)
    requires Closed(defs)
    requires forall k :: 0 <= k < |rootOrder| ==> rootOrder[k] in IndexRoots(defs)
    requires forall x :: x in IndexRoots(defs) ==> x in rootOrder
    ensures |pages| == |defs| && forall i :: 0 <= i < |defs| ==> pages[i] == PageOf(defs, i)
    ensures forall x: nat :: x in roots <==> x < |defs| && !ScopedMember(defs, x)
    ensures index == HtmlPage("Index", Sections(Lookup(defs, rootOrder)))
  {
    var nonGlobal;
    pages, nonGlobal := MakePages(defs);
    roots := set x | 0 <= x < |defs| && x !in nonGlobal;
    NonGlobalAll(defs);
    var listing := Render(Lookup(defs, rootOrder));
    index := HtmlPage("Index", listing);
  }

  /** `doctree`'s loop: every definition's page, and the final `non_global`. */
  method MakePages(defs: seq<Def>) returns (pages: seq<HtmlPage>, nonGlobal: set<nat>)
    requires Closed(defs)
    ensures |pages| == |defs| && forall i :: 0 <= i < |defs| ==> pages[i] == PageOf(defs, i)
    ensures nonGlobal == NonGlobalIn(defs, |defs|)
  {
    ghost var page := (i: nat) requires Closed(defs) && i < |defs| => PageOf(defs, i);
    nonGlobal := {};
    pages := [];
    for i := 0 to |defs|
      invariant pages == Tabulate(page, i)
      invariant nonGlobal == NonGlobalIn(defs, i)
    {
      var p, scoped := MakePage(defs, i);
      nonGlobal := nonGlobal + scoped;
      NonGlobalStep(defs, i);
      pages := pages + [p];
    }
  }

  /** One round of `doctree`'s loop: the page of `defs[i]`, and what it adds to `non_global`. */
  method MakePage(defs: seq<Def>, i: nat) returns (page: HtmlPage, scoped: set<nat>)
    requires Closed(defs) && i < |defs|
    ensures page == PageOf(defs, i)
    ensures scoped == if Scoping(defs[i]) then ScopedBy(defs[i]) else {}
  {
    var d := defs[i];
    var members;
    members, scoped := CollectMembers(d);
    PageMembersClosed(defs, i);
    var sections := Render(Lookup(defs, members));
    page := HtmlPage(PageTitle(d), sections);
  }

  /** After the loop, `non_global` holds exactly the definitions a scope other than a file
      lists. */
  lemma NonGlobalAll(defs: seq<Def>)
    ensures forall x: nat :: x < |defs| ==> (x in NonGlobalIn(defs, |defs|) <==> ScopedMember(defs, x))
  {
    forall x: nat | x < |defs| && ScopedMember(defs, x)
      ensures x in NonGlobalIn(defs, |defs|)
    {
      var i, j :| 0 <= i < |defs| && Scoping(defs[i]) && 0 <= j < |defs[i].kind.members| &&
                  defs[i].kind.members[j] == Resolved(x);
    }
  }

  lemma NonGlobalStep(defs: seq<Def>, i: nat)
    requires i < |defs|
    ensures NonGlobalIn(defs, i + 1) == NonGlobalIn(defs, i) + if Scoping(defs[i]) then ScopedBy(defs[i]) else {}
  {
  }

  /** A definition that only files list (or nothing lists) stays an index root, and a
      definition a namespace, class, group, page or directory lists is not one. */
  lemma IndexRootsSpec(defs: seq<Def>, x: nat)
    requires x < |defs|
    ensures x in IndexRoots(defs) <==>
      forall i :: 0 <= i < |defs| && IsCompound(defs[i]) && x in PageMembers(defs[i]) ==> defs[i].kind.File?
  {
    if x !in IndexRoots(defs) {
      var i, j :| 0 <= i < |defs| && Scoping(defs[i]) && 0 <= j < |defs[i].kind.members| &&
                  defs[i].kind.members[j] == Resolved(x);
      assert x in PageMembers(defs[i]);
    }
  }
}
