/** Directory traversals behind the include-dependency graph (doxyfront/depgraph.py:8-50):
    the DOT id sanitiser, the files below a directory, the folders down to a depth, the
    folders worth drawing, the root directories and the visibility guard of a subgraph. */
module Depgraph {
  import opened Strings
  import opened Refs
  import opened Defs

  // ----- _san_id -----

  /** `_san_id`: every `-` becomes `__`. */
  function SanId(id: string): string
  {
    Replace(id, "-", "__")
  }

  /** The sanitised id has no `-` and is one character longer per `-` of the input. */
  lemma {:induction false} SanIdShape(id: string)
    ensures '-' !in SanId(id)
    ensures |SanId(id)| == |id| + Count(id, '-')
  {
    if id != [] {
      SanIdShape(id[1..]);
      if id[0] == '-' {
        assert "-" <= id;
        assert SanId(id) == "__" + SanId(id[1..]);
      } else {
        assert !("-" <= id);
      }
    }
  }

  /** Distinct ids can share a sanitised form: the sanitiser is not injective. */
  lemma SanIdCollides()
    ensures SanId("a-") == SanId("a__") == "a__"
  {
    assert "a-"[1..] == "-";
    assert "-"[1..] == "";
    assert "a__"[1..] == "__" && "__"[1..] == "_" && "_"[1..] == "";
  }

  // ----- the directory graph -----

  predicate IsDir(defs: seq<Def>, t: nat)
  {
    t < |defs| && defs[t].kind.Directory?
  }

  predicate IsFile(defs: seq<Def>, t: nat)
  {
    t < |defs| && defs[t].kind.File?
  }

  /** Every resolved reference in `ms` names a definition of rank below `bound`. */
  predicate MembersBelow(defs: seq<Def>, ms: seq<Ref>, bound: nat, rank: seq<nat>)
    requires |rank| == |defs|
  {
    forall j :: 0 <= j < |ms| && ms[j].Resolved? ==> ms[j].target < |defs| && rank[ms[j].target] < bound
  }

  /** A directory's resolved members are loaded definitions below it: the directory graph
      is acyclic. */
  predicate DirsRanked(defs: seq<Def>, rank: seq<nat>)
  {
    |rank| == |defs| &&
    forall i :: 0 <= i < |defs| && defs[i].kind.Directory? ==> MembersBelow(defs, defs[i].kind.members, rank[i], rank)
  }

  lemma MembersBelowPrefix(defs: seq<Def>, ms: seq<Ref>, n: nat, bound: nat, rank: seq<nat>)
    requires |rank| == |defs| && MembersBelow(defs, ms, bound, rank) && n <= |ms|
    ensures MembersBelow(defs, ms[..n], bound, rank)
  {
    assert forall j :: 0 <= j < n ==> ms[..n][j] == ms[j];
  }

  /** The directory a member reference leads to, if any. */
  predicate DirMember(defs: seq<Def>, r: Ref)
  {
    r.Resolved? && IsDir(defs, r.target)
  }

  /** The directories reachable from `root` through resolved directory members, `root`
      included: the reference meaning of "below `root`". */
  function Reach(defs: seq<Def>, root: nat, ghost rank: seq<nat>): (r: set<nat>)
    requires DirsRanked(defs, rank) && IsDir(defs, root)
    ensures root in r
    ensures forall d :: d in r ==> IsDir(defs, d) && rank[d] <= rank[root]
    decreases rank[root] + 1, 0
  {
    {root} + ReachIn(defs, defs[root].kind.members, rank[root], rank)
  }

  function ReachIn(defs: seq<Def>, ms: seq<Ref>, ghost bound: nat, ghost rank: seq<nat>): (r: set<nat>)
    requires DirsRanked(defs, rank) && MembersBelow(defs, ms, bound, rank)
    ensures forall d :: d in r ==> IsDir(defs, d) && rank[d] < bound
    decreases bound, |ms|
  {
    if ms == [] then {}
    else
      MembersBelowPrefix(defs, ms, |ms| - 1, bound, rank);
      ReachIn(defs, ms[..|ms| - 1], bound, rank)
      + (if DirMember(defs, ms[|ms| - 1]) then Reach(defs, ms[|ms| - 1].target, rank) else {})
  }

  /** A directory member is reachable. */
  lemma {:induction false} ReachInMember(defs: seq<Def>, ms: seq<Ref>, j: nat, bound: nat, rank: seq<nat>)
    requires DirsRanked(defs, rank) && MembersBelow(defs, ms, bound, rank)
    requires j < |ms| && DirMember(defs, ms[j])
    ensures ms[j].target in ReachIn(defs, ms, bound, rank)
    decreases |ms|
  {
    if j < |ms| - 1 {
      MembersBelowPrefix(defs, ms, |ms| - 1, bound, rank);
      ReachInMember(defs, ms[..|ms| - 1], j, bound, rank);
    }
  }

  /** Reachability is transitive. */
  lemma {:induction false} ReachTransitive(defs: seq<Def>, root: nat, d: nat, rank: seq<nat>)
    requires DirsRanked(defs, rank) && IsDir(defs, root) && d in Reach(defs, root, rank)
    ensures Reach(defs, d, rank) <= Reach(defs, root, rank)
    decreases rank[root] + 1, 0
  {
    if d != root {
      ReachInTransitive(defs, defs[root].kind.members, d, rank[root], rank);
    }
  }

  lemma {:induction false} ReachInTransitive(defs: seq<Def>, ms: seq<Ref>, d: nat, bound: nat, rank: seq<nat>)
    requires DirsRanked(defs, rank) && MembersBelow(defs, ms, bound, rank) && d in ReachIn(defs, ms, bound, rank)
    ensures IsDir(defs, d) && Reach(defs, d, rank) <= ReachIn(defs, ms, bound, rank)
    decreases bound, |ms|
  {
    MembersBelowPrefix(defs, ms, |ms| - 1, bound, rank);
    var init := ms[..|ms| - 1];
    if d in ReachIn(defs, init, bound, rank) {
      ReachInTransitive(defs, init, d, bound, rank);
    } else {
      ReachTransitive(defs, ms[|ms| - 1].target, d, rank);
    }
  }

  // ----- _files_contained -----

  /** `_files_contained(root)`: the files among the resolved members of `root`, with the
      files of each resolved subdirectory spliced in at its place, depth first. */
  function FilesContained(defs: seq<Def>, root: nat, ghost rank: seq<nat>): (fs: seq<nat>)
    requires DirsRanked(defs, rank) && IsDir(defs, root)
    ensures forall i :: 0 <= i < |fs| ==> IsFile(defs, fs[i])
    decreases rank[root] + 1, 0
  {
    FilesIn(defs, defs[root].kind.members, rank[root], rank)
  }

  function FilesIn(defs: seq<Def>, ms: seq<Ref>, ghost bound: nat, ghost rank: seq<nat>): (fs: seq<nat>)
    requires DirsRanked(defs, rank) && MembersBelow(defs, ms, bound, rank)
    ensures forall i :: 0 <= i < |fs| ==> IsFile(defs, fs[i])
    decreases bound, |ms|
  {
    if ms == [] then []
    else
      MembersBelowPrefix(defs, ms, |ms| - 1, bound, rank);
      var m := ms[|ms| - 1];
      FilesIn(defs, ms[..|ms| - 1], bound, rank)
      + (if m.Resolved? && IsFile(defs, m.target) then [m.target]
         else if DirMember(defs, m) then FilesContained(defs, m.target, rank)
         else [])
  }

  /** The files a directory lists directly as resolved members. */
  function FileMembers(defs: seq<Def>, d: nat): set<nat>
    requires IsDir(defs, d)
  {
    FileMembersIn(defs, defs[d].kind.members)
  }

  function FileMembersIn(defs: seq<Def>, ms: seq<Ref>): set<nat>
  {
    set j | 0 <= j < |ms| && ms[j].Resolved? && IsFile(defs, ms[j].target) :: ms[j].target
  }

  /** A file is listed by `_files_contained(root)` exactly when some directory reachable
      from `root` lists it as a resolved member. */
  lemma {:induction false} FilesContainedReach(defs: seq<Def>, root: nat, f: nat, rank: seq<nat>)
    requires DirsRanked(defs, rank) && IsDir(defs, root)
    ensures f in FilesContained(defs, root, rank) <==>
      exists d :: d in Reach(defs, root, rank) && f in FileMembers(defs, d)
    decreases rank[root] + 1, 0
  {
    var ms := defs[root].kind.members;
    FilesInReach(defs, ms, f, rank[root], rank);
    assert FileMembers(defs, root) == FileMembersIn(defs, ms);
    if exists d :: d in Reach(defs, root, rank) && f in FileMembers(defs, d) {
      var d :| d in Reach(defs, root, rank) && f in FileMembers(defs, d);
      if d != root {
        assert d in ReachIn(defs, ms, rank[root], rank);
      }
    }
  }

  lemma {:induction false} FilesInReach(defs: seq<Def>, ms: seq<Ref>, f: nat, bound: nat, rank: seq<nat>)
    requires DirsRanked(defs, rank) && MembersBelow(defs, ms, bound, rank)
    ensures f in FilesIn(defs, ms, bound, rank) <==>
      f in FileMembersIn(defs, ms) || exists d :: d in ReachIn(defs, ms, bound, rank) && f in FileMembers(defs, d)
    decreases bound, |ms|
  {
    if ms != [] {
      MembersBelowPrefix(defs, ms, |ms| - 1, bound, rank);
      var init := ms[..|ms| - 1];
      var m := ms[|ms| - 1];
      FilesInReach(defs, init, f, bound, rank);
      assert ms == init + [m];
      assert FileMembersIn(defs, ms) == FileMembersIn(defs, init) + FileMembersIn(defs, [m]) by {
        forall x | x in FileMembersIn(defs, ms)
          ensures x in FileMembersIn(defs, init) + FileMembersIn(defs, [m])
        {
          var j :| 0 <= j < |ms| && ms[j].Resolved? && IsFile(defs, ms[j].target) && ms[j].target == x;
          if j < |init| {
            assert init[j] == ms[j];
          } else {
            assert [m][0] == ms[j];
          }
        }
        forall x | x in FileMembersIn(defs, init)
          ensures x in FileMembersIn(defs, ms)
        {
          var j :| 0 <= j < |init| && init[j].Resolved? && IsFile(defs, init[j].target) && init[j].target == x;
          assert ms[j] == init[j];
        }
        forall x | x in FileMembersIn(defs, [m])
          ensures x in FileMembersIn(defs, ms)
        {
          assert ms[|ms| - 1] == m;
        }
      }
      if DirMember(defs, m) {
        FilesContainedReach(defs, m.target, f, rank);
        assert FileMembersIn(defs, [m]) == {};
      }
    }
  }

  // ----- _collect_folders -----

  function Max(a: int, b: int): int
  {
    if a < b then b else a
  }

  /** `_collect_folders(root, level, max_level)`: the root at `level`, then, while below
      `max_level`, the folders of each resolved subdirectory one level deeper. */
  function CollectFolders(defs: seq<Def>, root: nat, level: int, maxLevel: int, ghost rank: seq<nat>): (r: seq<(nat, int)>)
    requires DirsRanked(defs, rank) && IsDir(defs, root)
    ensures |r| > 0 && r[0] == (root, level)
    ensures forall i :: 0 <= i < |r| ==> level <= r[i].1 <= Max(level, maxLevel) && r[i].0 in Reach(defs, root, rank)
    ensures level >= maxLevel ==> r == [(root, level)]
    decreases rank[root] + 1, 0
  {
    [(root, level)]
    + if level < maxLevel then CollectIn(defs, defs[root].kind.members, level + 1, maxLevel, rank[root], rank) else []
  }

  function CollectIn(defs: seq<Def>, ms: seq<Ref>, level: int, maxLevel: int, ghost bound: nat, ghost rank: seq<nat>)
    : (r: seq<(nat, int)>)
    requires DirsRanked(defs, rank) && MembersBelow(defs, ms, bound, rank) && level <= maxLevel
    ensures forall i :: 0 <= i < |r| ==> level <= r[i].1 <= maxLevel && r[i].0 in ReachIn(defs, ms, bound, rank)
    decreases bound, |ms|
  {
    if ms == [] then []
    else
      MembersBelowPrefix(defs, ms, |ms| - 1, bound, rank);
      var m := ms[|ms| - 1];
      var init := CollectIn(defs, ms[..|ms| - 1], level, maxLevel, bound, rank);
      if DirMember(defs, m) then
        var sub := CollectFolders(defs, m.target, level, maxLevel, rank);
        assert forall i :: 0 <= i < |sub| ==> sub[i].0 in ReachIn(defs, ms, bound, rank) by {
          ReachTransitive(defs, m.target, m.target, rank);
        }
        init + sub
      else init
  }

  // ----- _visible_folders -----

  /** The folders worth drawing below `root`: a directory is kept when it is interesting or
      something below it is kept. */
  function Visible(defs: seq<Def>, root: nat, interesting: set<nat>, ghost rank: seq<nat>): set<nat>
    requires DirsRanked(defs, rank) && IsDir(defs, root)
    decreases rank[root] + 1, 0
  {
    var below := VisibleIn(defs, defs[root].kind.members, interesting, rank[root], rank);
    if below != {} || root in interesting then below + {root} else below
  }

  function VisibleIn(defs: seq<Def>, ms: seq<Ref>, interesting: set<nat>, ghost bound: nat, ghost rank: seq<nat>): set<nat>
    requires DirsRanked(defs, rank) && MembersBelow(defs, ms, bound, rank)
    decreases bound, |ms|
  {
    if ms == [] then {}
    else
      MembersBelowPrefix(defs, ms, |ms| - 1, bound, rank);
      VisibleIn(defs, ms[..|ms| - 1], interesting, bound, rank)
      + (if DirMember(defs, ms[|ms| - 1]) then Visible(defs, ms[|ms| - 1].target, interesting, rank) else {})
  }

  /** `_visible_folders(root, interesting)`: the union of the subdirectories' results, plus
      `root` when that union is non-empty or `root` is interesting. */
  method VisibleFolders(defs: seq<Def>, root: nat, interesting: set<nat>, ghost rank: seq<nat>) returns (visible: set<nat>)
    requires DirsRanked(defs, rank) && IsDir(defs, root)
    ensures visible == Visible(defs, root, interesting, rank)
    decreases rank[root]
  {
    visible := {};
    var ms := defs[root].kind.members;
    for j := 0 to |ms|
      invariant MembersBelow(defs, ms[..j], rank[root], rank)
      invariant visible == VisibleIn(defs, ms[..j], interesting, rank[root], rank)
    {
      MembersBelowPrefix(defs, ms, j + 1, rank[root], rank);
      assert ms[..j + 1][..j] == ms[..j];
      var m := ms[j];
      if m.Resolved? && m.target < |defs| && defs[m.target].kind.Directory? {
        var sub := VisibleFolders(defs, m.target, interesting, rank);
        visible := visible + sub;
      }
    }
    assert ms[..|ms|] == ms;
    if visible != {} || root in interesting {
      visible := visible + {root};
    }
  }

  /** A folder is drawn exactly when it lies below `root` and something interesting lies
      below it (itself included). */
  lemma {:induction false} VisibleCharacterization(defs: seq<Def>, root: nat, interesting: set<nat>, d: nat, rank: seq<nat>)
    requires DirsRanked(defs, rank) && IsDir(defs, root)
    ensures d in Visible(defs, root, interesting, rank) <==>
      d in Reach(defs, root, rank) && Reach(defs, d, rank) * interesting != {}
    decreases rank[root] + 1, 1
  {
    if d in Visible(defs, root, interesting, rank) {
      VisibleForward(defs, root, interesting, d, rank);
    }
    if d in Reach(defs, root, rank) && Reach(defs, d, rank) * interesting != {} {
      VisibleBackward(defs, root, interesting, d, rank);
    }
  }

  lemma {:induction false} VisibleForward(defs: seq<Def>, root: nat, interesting: set<nat>, d: nat, rank: seq<nat>)
    requires DirsRanked(defs, rank) && IsDir(defs, root) && d in Visible(defs, root, interesting, rank)
    ensures d in Reach(defs, root, rank) && Reach(defs, d, rank) * interesting != {}
    decreases rank[root] + 1, 0
  {
    var ms := defs[root].kind.members;
    var below := VisibleIn(defs, ms, interesting, rank[root], rank);
    if d in below {
      VisibleInForward(defs, ms, interesting, d, rank[root], rank);
    } else if root !in interesting {
      var e :| e in below;
      VisibleInForward(defs, ms, interesting, e, rank[root], rank);
      ReachTransitive(defs, root, e, rank);
    }
  }

  lemma {:induction false} VisibleInForward(defs: seq<Def>, ms: seq<Ref>, interesting: set<nat>, d: nat, bound: nat, rank: seq<nat>)
    requires DirsRanked(defs, rank) && MembersBelow(defs, ms, bound, rank)
    requires d in VisibleIn(defs, ms, interesting, bound, rank)
    ensures d in ReachIn(defs, ms, bound, rank) && IsDir(defs, d) && Reach(defs, d, rank) * interesting != {}
    decreases bound, |ms|
  {
    MembersBelowPrefix(defs, ms, |ms| - 1, bound, rank);
    var init := ms[..|ms| - 1];
    if d in VisibleIn(defs, init, interesting, bound, rank) {
      VisibleInForward(defs, init, interesting, d, bound, rank);
    } else {
      VisibleForward(defs, ms[|ms| - 1].target, interesting, d, rank);
    }
  }

  lemma {:induction false} VisibleBackward(defs: seq<Def>, root: nat, interesting: set<nat>, d: nat, rank: seq<nat>)
    requires DirsRanked(defs, rank) && IsDir(defs, root)
    requires d in Reach(defs, root, rank) && Reach(defs, d, rank) * interesting != {}
    ensures d in Visible(defs, root, interesting, rank)
    decreases rank[root] + 1, 0
  {
    var ms := defs[root].kind.members;
    if d == root {
      var x :| x in Reach(defs, root, rank) * interesting;
      if x != root {
        VisibleInNonEmpty(defs, ms, interesting, x, rank[root], rank);
      }
    } else {
      VisibleInBackward(defs, ms, interesting, d, rank[root], rank);
    }
  }

  lemma {:induction false} VisibleInBackward(defs: seq<Def>, ms: seq<Ref>, interesting: set<nat>, d: nat, bound: nat, rank: seq<nat>)
    requires DirsRanked(defs, rank) && MembersBelow(defs, ms, bound, rank)
    requires d in ReachIn(defs, ms, bound, rank) && IsDir(defs, d) && Reach(defs, d, rank) * interesting != {}
    ensures d in VisibleIn(defs, ms, interesting, bound, rank)
    decreases bound, |ms|
  {
    MembersBelowPrefix(defs, ms, |ms| - 1, bound, rank);
    var init := ms[..|ms| - 1];
    if d in ReachIn(defs, init, bound, rank) {
      VisibleInBackward(defs, init, interesting, d, bound, rank);
    } else {
      VisibleBackward(defs, ms[|ms| - 1].target, interesting, d, rank);
    }
  }

  lemma {:induction false} VisibleInNonEmpty(defs: seq<Def>, ms: seq<Ref>, interesting: set<nat>, x: nat, bound: nat, rank: seq<nat>)
    requires DirsRanked(defs, rank) && MembersBelow(defs, ms, bound, rank)
    requires x in ReachIn(defs, ms, bound, rank) && x in interesting
    ensures VisibleIn(defs, ms, interesting, bound, rank) != {}
    decreases bound, |ms|
  {
    MembersBelowPrefix(defs, ms, |ms| - 1, bound, rank);
    var init := ms[..|ms| - 1];
    if x in ReachIn(defs, init, bound, rank) {
      VisibleInNonEmpty(defs, init, interesting, x, bound, rank);
    } else {
      var t := ms[|ms| - 1].target;
      VisibleBackward(defs, t, interesting, t, rank);
    }
  }

  /** Consequences: nothing interesting, nothing drawn; what is drawn lies below `root`; an
      interesting folder below `root` is drawn; and `root` is drawn exactly when it is
      interesting or a subdirectory's result is non-empty. */
  lemma VisibleProperties(defs: seq<Def>, root: nat, interesting: set<nat>, rank: seq<nat>)
    requires DirsRanked(defs, rank) && IsDir(defs, root)
    ensures interesting == {} ==> Visible(defs, root, interesting, rank) == {}
    ensures Visible(defs, root, interesting, rank) <= Reach(defs, root, rank)
    ensures interesting * Reach(defs, root, rank) <= Visible(defs, root, interesting, rank)
    ensures root in Visible(defs, root, interesting, rank) <==>
      root in interesting || VisibleIn(defs, defs[root].kind.members, interesting, rank[root], rank) != {}
  {
    forall d | d in Visible(defs, root, interesting, rank)
      ensures d in Reach(defs, root, rank) && interesting != {}
    {
      VisibleCharacterization(defs, root, interesting, d, rank);
    }
    forall d | d in interesting * Reach(defs, root, rank)
      ensures d in Visible(defs, root, interesting, rank)
    {
      VisibleCharacterization(defs, root, interesting, d, rank);
    }
    var below := VisibleIn(defs, defs[root].kind.members, interesting, rank[root], rank);
    if root in below {
      VisibleInForward(defs, defs[root].kind.members, interesting, root, rank[root], rank);
      assert false;
    }
  }

  // ----- roots -----

  /** Some directory lists `d` as a resolved member. */
  ghost predicate MemberOfDir(defs: seq<Def>, d: nat)
  {
    exists i, j :: 0 <= i < |defs| && defs[i].kind.Directory? && 0 <= j < |defs[i].kind.members|
                   && defs[i].kind.members[j] == Resolved(d)
  }

  /** The directory members that are themselves directories, among the first `n` definitions. */
  function SeenIn(defs: seq<Def>, n: nat): set<nat>
    requires n <= |defs|
  {
    set i, j | 0 <= i < n && defs[i].kind.Directory? && 0 <= j < |defs[i].kind.members|
               && DirMember(defs, defs[i].kind.members[j]) :: defs[i].kind.members[j].target
  }

  /** The root-finding loop of `depgraph`: the directories minus every directory that some
      directory lists as a resolved member. */
  method Roots(defs: seq<Def>) returns (roots: set<nat>)
    ensures forall d :: d in roots <==> IsDir(defs, d) && !MemberOfDir(defs, d)
  {
    var seen: set<nat> := {};
    for i := 0 to |defs|
      invariant seen == SeenIn(defs, i)
    {
      if defs[i].kind.Directory? {
        var ms := defs[i].kind.members;
        for j := 0 to |ms|
          invariant seen == SeenIn(defs, i) + set j' | 0 <= j' < j && DirMember(defs, ms[j']) :: ms[j'].target
        {
          if ms[j].Resolved? && ms[j].target < |defs| && defs[ms[j].target].kind.Directory? {
            seen := seen + {ms[j].target};
          }
        }
      }
      assert SeenIn(defs, i + 1) == SeenIn(defs, i) + if defs[i].kind.Directory? then
        (set j' | 0 <= j' < |defs[i].kind.members| && DirMember(defs, defs[i].kind.members[j']) :: defs[i].kind.members[j'].target)
        else {};
    }
    roots := (set d | 0 <= d < |defs| && defs[d].kind.Directory?) - seen;
    forall d | IsDir(defs, d) && MemberOfDir(defs, d)
      ensures d in seen
    {
      var i, j :| 0 <= i < |defs| && defs[i].kind.Directory? && 0 <= j < |defs[i].kind.members|
                  && defs[i].kind.members[j] == Resolved(d);
      assert DirMember(defs, defs[i].kind.members[j]);
    }
  }

  function MaxRank(rank: seq<nat>): (m: nat)
    ensures forall i :: 0 <= i < |rank| ==> rank[i] <= m
  {
    if rank == [] then 0 else Max(rank[0], MaxRank(rank[1..]))
  }

  /** Every directory lies below some root, so drawing the roots covers every folder. */
  lemma {:induction false} RootsCover(defs: seq<Def>, d: nat, rank: seq<nat>)
    requires DirsRanked(defs, rank) && IsDir(defs, d)
    ensures exists r :: IsDir(defs, r) && !MemberOfDir(defs, r) && d in Reach(defs, r, rank)
    decreases MaxRank(rank) - rank[d]
  {
    if MemberOfDir(defs, d) {
      var i, j :| 0 <= i < |defs| && defs[i].kind.Directory? && 0 <= j < |defs[i].kind.members|
                  && defs[i].kind.members[j] == Resolved(d);
      assert rank[d] < rank[i];
      ReachInMember(defs, defs[i].kind.members, j, rank[i], rank);
      RootsCover(defs, i, rank);
      var r :| IsDir(defs, r) && !MemberOfDir(defs, r) && i in Reach(defs, r, rank);
      ReachTransitive(defs, r, i, rank);
    } else {
      assert d in Reach(defs, d, rank);
    }
  }

  // ----- _subgraph -----

  /** What `_subgraph` prints, as data: a cluster with the subgraphs of its members, or a
      folder node at the depth limit. */
  datatype DotItem = Cluster(dir: nat, items: seq<DotItem>) | FolderNode(dir: nat)

  /** `_subgraph(root, level, max_level, visible)`: nothing for a folder that is not visible. */
  function Subgraph(defs: seq<Def>, root: nat, level: int, maxLevel: int, visible: set<nat>, ghost rank: seq<nat>): seq<DotItem>
    requires DirsRanked(defs, rank) && IsDir(defs, root)
    requires forall v :: v in visible ==> IsDir(defs, v)
    decreases rank[root] + 1, 0
  {
    if root !in visible then []
    else if level < maxLevel then
      [Cluster(root, SubgraphIn(defs, defs[root].kind.members, level + 1, maxLevel, visible, rank[root], rank))]
    else [FolderNode(root)]
  }

  function SubgraphIn(defs: seq<Def>, ms: seq<Ref>, level: int, maxLevel: int, visible: set<nat>,
                      ghost bound: nat, ghost rank: seq<nat>): seq<DotItem>
    requires DirsRanked(defs, rank) && MembersBelow(defs, ms, bound, rank)
    requires forall v :: v in visible ==> IsDir(defs, v)
    decreases bound, |ms|
  {
    if ms == [] then []
    else
      MembersBelowPrefix(defs, ms, |ms| - 1, bound, rank);
      var m := ms[|ms| - 1];
      SubgraphIn(defs, ms[..|ms| - 1], level, maxLevel, visible, bound, rank)
      + if m.Resolved? && m.target in visible then Subgraph(defs, m.target, level, maxLevel, visible, rank) else []
  }

  /** Every folder a drawing names. */
  function ItemDirs(items: seq<DotItem>): set<nat>
    decreases items
  {
    if items == [] then {}
    else (ItemDirs(items[..|items| - 1])
          + match items[|items| - 1] case Cluster(d, sub) => {d} + ItemDirs(sub) case FolderNode(d) => {d})
  }

  lemma {:induction false} ItemDirsAppend(a: seq<DotItem>, b: seq<DotItem>)
    ensures ItemDirs(a + b) == ItemDirs(a) + ItemDirs(b)
    decreases b
  {
    if b == [] {
      assert a + b == a;
    } else {
      assert (a + b)[..|a + b| - 1] == a + b[..|b| - 1];
      ItemDirsAppend(a, b[..|b| - 1]);
    }
  }

  /** A subgraph draws only visible folders below `root`, and nothing at all when `root`
      is not visible. */
  lemma {:induction false} SubgraphVisible(defs: seq<Def>, root: nat, level: int, maxLevel: int, visible: set<nat>, rank: seq<nat>)
    requires DirsRanked(defs, rank) && IsDir(defs, root)
    requires forall v :: v in visible ==> IsDir(defs, v)
    ensures ItemDirs(Subgraph(defs, root, level, maxLevel, visible, rank)) <= visible * Reach(defs, root, rank)
    ensures root !in visible ==> Subgraph(defs, root, level, maxLevel, visible, rank) == []
    decreases rank[root] + 1, 0
  {
    var g := Subgraph(defs, root, level, maxLevel, visible, rank);
    if root in visible && level < maxLevel {
      var ms := defs[root].kind.members;
      var sub := SubgraphIn(defs, ms, level + 1, maxLevel, visible, rank[root], rank);
      SubgraphInVisible(defs, ms, level + 1, maxLevel, visible, rank[root], rank);
      assert g == [Cluster(root, sub)];
      assert ItemDirs(g) == ItemDirs([]) + ({root} + ItemDirs(sub));
    } else if root in visible {
      assert ItemDirs(g) == ItemDirs([]) + {root};
    }
  }

  lemma {:induction false} SubgraphInVisible(defs: seq<Def>, ms: seq<Ref>, level: int, maxLevel: int, visible: set<nat>,
                                             bound: nat, rank: seq<nat>)
    requires DirsRanked(defs, rank) && MembersBelow(defs, ms, bound, rank)
    requires forall v :: v in visible ==> IsDir(defs, v)
    ensures ItemDirs(SubgraphIn(defs, ms, level, maxLevel, visible, bound, rank)) <= visible * ReachIn(defs, ms, bound, rank)
    decreases bound, |ms|
  {
    if ms != [] {
      MembersBelowPrefix(defs, ms, |ms| - 1, bound, rank);
      var m := ms[|ms| - 1];
      SubgraphInVisible(defs, ms[..|ms| - 1], level, maxLevel, visible, bound, rank);
      var init := SubgraphIn(defs, ms[..|ms| - 1], level, maxLevel, visible, bound, rank);
      if m.Resolved? && m.target in visible {
        var tail := Subgraph(defs, m.target, level, maxLevel, visible, rank);
        SubgraphVisible(defs, m.target, level, maxLevel, visible, rank);
        ItemDirsAppend(init, tail);
      } else {
        assert init + [] == init;
      }
    }
  }
}
