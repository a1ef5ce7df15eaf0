/** The data half of `depgraph` (doxyfront/depgraph.py:53-90): which folders are drawn, which
    folder each file belongs to, and how many includes cross from one folder to another. */
module Dependencies {
  import opened Wrappers
  import opened Seqs
  import opened Refs
  import opened Defs
  import opened Sorting
  import opened Depgraph

  // ----- Python dictionaries built from generators -----

  function Dirs(ps: seq<(nat, int)>): (r: seq<nat>)
    ensures |r| == |ps| && forall i :: 0 <= i < |ps| ==> r[i] == ps[i].0
  {
    seq(|ps|, i requires 0 <= i < |ps| => ps[i].0)
  }

  // ----- folders -----

  predicate AllDirs(defs: seq<Def>, roots: seq<nat>)
  {
    forall j :: 0 <= j < |roots| ==> IsDir(defs, roots[j])
  }

  /** `_collect_folders(r, 0, depth)` for each root `r` in turn. */
  function Collections(defs: seq<Def>, roots: seq<nat>, depth: int, ghost rank: seq<nat>): (cs: seq<seq<(nat, int)>>)
    requires DirsRanked(defs, rank) && AllDirs(defs, roots)
    ensures |cs| == |roots|
  {
    seq(|roots|, j requires 0 <= j < |roots| => CollectFolders(defs, roots[j], 0, depth, rank))
  }

  /** `for r in roots for f in _collect_folders(r, 0, depth)`. */
  function CollectAll(defs: seq<Def>, roots: seq<nat>, depth: int, ghost rank: seq<nat>): seq<(nat, int)>
    requires DirsRanked(defs, rank) && AllDirs(defs, roots)
  {
    Concat(Collections(defs, roots, depth, rank))
  }

  /** Every collected folder is a directory under one of the roots. */
  lemma CollectAllUnder(defs: seq<Def>, roots: seq<nat>, depth: int, rank: seq<nat>, x: (nat, int))
    requires DirsRanked(defs, rank) && AllDirs(defs, roots) && x in CollectAll(defs, roots, depth, rank)
    ensures exists j :: 0 <= j < |roots| && x in Collections(defs, roots, depth, rank)[j] &&
                        x.0 in Reach(defs, roots[j], rank)
    ensures IsDir(defs, x.0)
  {
    var cs := Collections(defs, roots, depth, rank);
    ConcatHas(cs, x);
    var j :| 0 <= j < |cs| && x in cs[j];
    assert cs[j] == CollectFolders(defs, roots[j], 0, depth, rank);
  }

  /** `folders`: the keys of `folder_roots_l` (distinct `(folder, level)` pairs in first
      occurrence order), sorted by level. */
  function Folders(defs: seq<Def>, roots: seq<nat>, depth: int, ghost rank: seq<nat>): seq<(nat, int)>
    requires DirsRanked(defs, rank) && AllDirs(defs, roots)
  {
    SortBy(Dedup(CollectAll(defs, roots, depth, rank)), (p: (nat, int)) => p.1, IntLe)
  }

  /** The folder list holds every collected pair exactly once, shallow levels first. */
  lemma FoldersProperties(defs: seq<Def>, roots: seq<nat>, depth: int, rank: seq<nat>)
    requires DirsRanked(defs, rank) && AllDirs(defs, roots)
    ensures var fs := Folders(defs, roots, depth, rank);
      (forall x :: x in fs <==> x in CollectAll(defs, roots, depth, rank)) &&
      Distinct(fs) &&
      (forall i, j :: 0 <= i <= j < |fs| ==> fs[i].1 <= fs[j].1)
  {
    var d := Dedup(CollectAll(defs, roots, depth, rank));
    var key := (p: (nat, int)) => p.1;
    var fs := SortBy(d, key, IntLe);
    IntOrderTotal();
    SortBySorted(d, key, IntLe);
    assert forall x :: x in fs <==> x in d by {
      forall x
        ensures x in fs <==> x in d
      {
        assert x in fs <==> x in multiset(fs);
        assert x in d <==> x in multiset(d);
      }
    }
    DistinctPermutation(d, fs);
    forall i, j | 0 <= i <= j < |fs|
      ensures fs[i].1 <= fs[j].1
    {
      SortedByGlobal(fs, key, IntLe, i, j);
    }
  }

  // ----- folder_roots and file_folders -----

  /** `for k in keys: m[k] = v`. */
  function AssignAll<K(!new,==), V>(m: map<K, V>, keys: seq<K>, v: V): (r: map<K, V>)
    ensures forall k :: k in r <==> k in m || k in keys
    ensures forall k :: k in keys ==> r[k] == v
    ensures forall k :: k in m && k !in keys ==> r[k] == m[k]
  {
    if keys == [] then m
    else
      var init := keys[..|keys| - 1];
      assert forall k :: k in keys <==> k in init || k == keys[|keys| - 1];
      AssignAll(m, init, v)[keys[|keys| - 1] := v]
  }

  /** `dict((k, vals[j]) for j in ... for k in blocks[j])`: a later block overwrites an
      earlier one. */
  function Assign<K(!new,==), V>(blocks: seq<seq<K>>, vals: seq<V>): map<K, V>
    requires |blocks| == |vals|
  {
    if blocks == [] then map[]
    else
      var n := |blocks| - 1;
      AssignAll(Assign(blocks[..n], vals[..n]), blocks[n], vals[n])
  }

  lemma {:induction false} AssignKeys<K(!new), V>(blocks: seq<seq<K>>, vals: seq<V>, k: K)
    requires |blocks| == |vals|
    ensures k in Assign(blocks, vals) <==> k in Concat(blocks)
  {
    if blocks != [] {
      var n := |blocks| - 1;
      AssignKeys(blocks[..n], vals[..n], k);
    }
  }

  /** The value kept for a key is the one of the last block that holds it. */
  lemma {:induction false} AssignLast<K(!new), V>(blocks: seq<seq<K>>, vals: seq<V>, k: K)
    requires |blocks| == |vals| && k in Assign(blocks, vals)
    ensures exists j :: 0 <= j < |blocks| && Assign(blocks, vals)[k] == vals[j] && k in blocks[j] &&
                        forall j' :: j < j' < |blocks| ==> k !in blocks[j']
  {
    var n := |blocks| - 1;
    if k !in blocks[n] {
      var bi, vi := blocks[..n], vals[..n];
      AssignLast(bi, vi, k);
      var j :| 0 <= j < |bi| && Assign(bi, vi)[k] == vi[j] && k in bi[j] &&
               forall j' :: j < j' < |bi| ==> k !in bi[j'];
      assert bi[j] == blocks[j] && vi[j] == vals[j];
      forall j' | j < j' < |blocks|
        ensures k !in blocks[j']
      {
        if j' < n {
          assert bi[j'] == blocks[j'];
        }
      }
    }
  }

  /** `folder_roots`: each collected folder mapped to the root it was collected under, the
      last root winning. */
  function FolderRoots(defs: seq<Def>, roots: seq<nat>, depth: int, ghost rank: seq<nat>): map<nat, nat>
    requires DirsRanked(defs, rank) && AllDirs(defs, roots)
  {
    var cs := Collections(defs, roots, depth, rank);
    Assign(seq(|roots|, j requires 0 <= j < |roots| => Dirs(cs[j])), roots)
  }

  predicate FolderPairs(defs: seq<Def>, folders: seq<(nat, int)>)
  {
    forall i :: 0 <= i < |folders| ==> IsDir(defs, folders[i].0)
  }

  /** `_files_contained(o)` for each listed folder `o` in turn. */
  function FileBlocks(defs: seq<Def>, folders: seq<(nat, int)>, ghost rank: seq<nat>): (bs: seq<seq<nat>>)
    requires DirsRanked(defs, rank) && FolderPairs(defs, folders)
    ensures |bs| == |folders|
  {
    seq(|folders|, i requires 0 <= i < |folders| => FilesContained(defs, folders[i].0, rank))
  }

  /** `file_folders`: each file mapped to a folder containing it, a later folder in the list
      overwriting an earlier one. */
  function FileFolders(defs: seq<Def>, folders: seq<(nat, int)>, ghost rank: seq<nat>): map<nat, nat>
    requires DirsRanked(defs, rank) && FolderPairs(defs, folders)
  {
    Assign(FileBlocks(defs, folders, rank), Dirs(folders))
  }

  /** `file_folders.keys()` in insertion order. */
  function FilesAll(defs: seq<Def>, folders: seq<(nat, int)>, ghost rank: seq<nat>): seq<nat>
    requires DirsRanked(defs, rank) && FolderPairs(defs, folders)
  {
    Dedup(Concat(FileBlocks(defs, folders, rank)))
  }

  /** A file has a folder exactly when some listed folder contains it, and then it is in the
      key order; every key is a file. */
  lemma FileFoldersKeys(defs: seq<Def>, folders: seq<(nat, int)>, rank: seq<nat>, f: nat)
    requires DirsRanked(defs, rank) && FolderPairs(defs, folders)
    ensures f in FileFolders(defs, folders, rank) <==>
      exists i :: 0 <= i < |folders| && f in FilesContained(defs, folders[i].0, rank)
    ensures f in FilesAll(defs, folders, rank) <==> f in FileFolders(defs, folders, rank)
    ensures f in FileFolders(defs, folders, rank) ==> IsFile(defs, f)
  {
    var bs := FileBlocks(defs, folders, rank);
    AssignKeys(bs, Dirs(folders), f);
    ConcatHas(bs, f);
    if exists i :: 0 <= i < |folders| && f in FilesContained(defs, folders[i].0, rank) {
      var i :| 0 <= i < |folders| && f in FilesContained(defs, folders[i].0, rank);
      assert f in bs[i];
    }
    if f in Concat(bs) {
      var i :| 0 <= i < |bs| && f in bs[i];
      var fc := FilesContained(defs, folders[i].0, rank);
      assert bs[i] == fc;
      var p :| 0 <= p < |fc| && fc[p] == f;
    }
  }

  /** The folder a file gets is the last listed folder that contains it. */
  lemma FileFoldersLast(defs: seq<Def>, folders: seq<(nat, int)>, rank: seq<nat>, f: nat)
    requires DirsRanked(defs, rank) && FolderPairs(defs, folders)
    requires f in FileFolders(defs, folders, rank)
    ensures exists i :: 0 <= i < |folders| && folders[i].0 == FileFolders(defs, folders, rank)[f] &&
                        f in FilesContained(defs, folders[i].0, rank) &&
                        forall j :: i < j < |folders| ==> f !in FilesContained(defs, folders[j].0, rank)
  {
    var bs := FileBlocks(defs, folders, rank);
    AssignLast(bs, Dirs(folders), f);
    var i :| 0 <= i < |bs| && Assign(bs, Dirs(folders))[f] == Dirs(folders)[i] && f in bs[i] &&
             forall j' :: i < j' < |bs| ==> f !in bs[j'];
    forall j | i < j < |folders|
      ensures f !in FilesContained(defs, folders[j].0, rank)
    {
      assert bs[j] == FilesContained(defs, folders[j].0, rank);
    }
  }

  /** Since the folders are sorted by level, a file goes to a deepest collected folder that
      contains it. */
  lemma FileFolderDeepest(defs: seq<Def>, roots: seq<nat>, depth: int, rank: seq<nat>, f: nat, i: nat)
    requires DirsRanked(defs, rank) && AllDirs(defs, roots)
    requires FolderPairs(defs, Folders(defs, roots, depth, rank))
    requires var fs := Folders(defs, roots, depth, rank);
      i < |fs| && f in FilesContained(defs, fs[i].0, rank)
    ensures var fs := Folders(defs, roots, depth, rank);
      f in FileFolders(defs, fs, rank) &&
      exists k :: 0 <= k < |fs| && fs[k].0 == FileFolders(defs, fs, rank)[f] && fs[i].1 <= fs[k].1
  {
    var fs := Folders(defs, roots, depth, rank);
    FoldersProperties(defs, roots, depth, rank);
    FileFoldersKeys(defs, fs, rank, f);
    FileFoldersLast(defs, fs, rank, f);
    var k :| 0 <= k < |fs| && fs[k].0 == FileFolders(defs, fs, rank)[f] &&
             f in FilesContained(defs, fs[k].0, rank) &&
             forall j :: k < j < |fs| ==> f !in FilesContained(defs, fs[j].0, rank);
    assert i <= k;
  }

  /** Every listed folder is a directory. */
  lemma FoldersAreDirs(defs: seq<Def>, roots: seq<nat>, depth: int, rank: seq<nat>)
    requires DirsRanked(defs, rank) && AllDirs(defs, roots)
    ensures FolderPairs(defs, Folders(defs, roots, depth, rank))
  {
    var fs := Folders(defs, roots, depth, rank);
    FoldersProperties(defs, roots, depth, rank);
    forall i | 0 <= i < |fs|
      ensures IsDir(defs, fs[i].0)
    {
      CollectAllUnder(defs, roots, depth, rank, fs[i]);
    }
  }

  // ----- the include counters -----

  /** `deps[root][on][to]` as one counted triple. */
  datatype Edge = Edge(root: nat, on: nat, to: nat)

  /** The include is of a loaded file (`isinstance(include.file, ResolvedRef)`). */
  predicate ResolvedInclude(inc: Include)
  {
    inc.file.Some? && inc.file.value.Resolved?
  }

  /** Counting `inc` for a file in `folder` raises `KeyError`. */
  predicate Fails(inc: Include, folder: nat, fileFolders: map<nat, nat>, folderRoots: map<nat, nat>)
  {
    ResolvedInclude(inc) &&
    (inc.file.value.target !in fileFolders ||
     (fileFolders[inc.file.value.target] != folder && folder !in folderRoots))
  }

  /** Counting `inc` for a file in `folder` adds one to edge `e`. */
  predicate Adds(inc: Include, folder: nat, fileFolders: map<nat, nat>, folderRoots: map<nat, nat>, e: Edge)
  {
    ResolvedInclude(inc) && inc.file.value.target in fileFolders &&
    fileFolders[inc.file.value.target] != folder && folder in folderRoots &&
    e == Edge(folderRoots[folder], folder, fileFolders[inc.file.value.target])
  }

  /** The counts contributed by one file's includes. */
  function IncludeEdges(incs: seq<Include>, folder: nat, fileFolders: map<nat, nat>, folderRoots: map<nat, nat>)
    : Result<multiset<Edge>, string>
  {
    if incs == [] then Ok(multiset{})
    else
      var acc :- IncludeEdges(incs[..|incs| - 1], folder, fileFolders, folderRoots);
      var inc := incs[|incs| - 1];
      if !ResolvedInclude(inc) then Ok(acc)
      else if inc.file.value.target !in fileFolders then Err("KeyError")
      else
        var to := fileFolders[inc.file.value.target];
        if to == folder then Ok(acc)
        else if folder !in folderRoots then Err("KeyError")
        else Ok(acc + multiset{Edge(folderRoots[folder], folder, to)})
  }

  predicate FilesIndexed(defs: seq<Def>, files: seq<nat>, fileFolders: map<nat, nat>)
  {
    forall i :: 0 <= i < |files| ==> IsFile(defs, files[i]) && files[i] in fileFolders
  }

  function Includes(defs: seq<Def>, f: nat): seq<Include>
    requires IsFile(defs, f)
  {
    defs[f].kind.includes
  }

  /** `deps`: the counts over every file of `file_folders`, in the given order. */
  function DepsOf(defs: seq<Def>, files: seq<nat>, fileFolders: map<nat, nat>, folderRoots: map<nat, nat>)
    : Result<multiset<Edge>, string>
    requires FilesIndexed(defs, files, fileFolders)
  {
    if files == [] then Ok(multiset{})
    else
      var f := files[|files| - 1];
      var acc :- DepsOf(defs, files[..|files| - 1], fileFolders, folderRoots);
      var es :- IncludeEdges(Includes(defs, f), fileFolders[f], fileFolders, folderRoots);
      Ok(acc + es)
  }

  /** The number of includes `e` counts: one per include that adds to it. */
  function AddCount(incs: seq<Include>, folder: nat, fileFolders: map<nat, nat>, folderRoots: map<nat, nat>, e: Edge): nat
  {
    |set k | 0 <= k < |incs| && Adds(incs[k], folder, fileFolders, folderRoots, e)|
  }

  /** The same, summed over the files. */
  function TotalCount(defs: seq<Def>, files: seq<nat>, fileFolders: map<nat, nat>, folderRoots: map<nat, nat>, e: Edge): nat
    requires FilesIndexed(defs, files, fileFolders)
  {
    if files == [] then 0
    else
      var f := files[|files| - 1];
      TotalCount(defs, files[..|files| - 1], fileFolders, folderRoots, e)
      + AddCount(Includes(defs, f), fileFolders[f], fileFolders, folderRoots, e)
  }

  /** One file's counting fails exactly when one of its includes fails, and otherwise counts
      each edge once per include that adds to it. */
  lemma {:induction false} IncludeEdgesSpec(incs: seq<Include>, folder: nat, fileFolders: map<nat, nat>, folderRoots: map<nat, nat>, e: Edge)
    ensures IncludeEdges(incs, folder, fileFolders, folderRoots).Err? <==>
      exists k :: 0 <= k < |incs| && Fails(incs[k], folder, fileFolders, folderRoots)
    ensures IncludeEdges(incs, folder, fileFolders, folderRoots).Ok? ==>
      IncludeEdges(incs, folder, fileFolders, folderRoots).value[e] == AddCount(incs, folder, fileFolders, folderRoots, e)
  {
    if incs != [] {
      var n := |incs| - 1;
      var init := incs[..n];
      IncludeEdgesSpec(init, folder, fileFolders, folderRoots, e);
      assert forall k :: 0 <= k < n ==> init[k] == incs[k];
      var s0 := set k | 0 <= k < n && Adds(init[k], folder, fileFolders, folderRoots, e);
      var s1 := set k | 0 <= k < |incs| && Adds(incs[k], folder, fileFolders, folderRoots, e);
      if Adds(incs[n], folder, fileFolders, folderRoots, e) {
        assert s1 == s0 + {n};
      } else {
        assert s1 == s0;
      }
    }
  }

  /** The whole count fails exactly when some include of some file fails, and otherwise holds
      the exact number of includes behind each edge. */
  lemma {:induction false} DepsSpec(defs: seq<Def>, files: seq<nat>, fileFolders: map<nat, nat>, folderRoots: map<nat, nat>, e: Edge)
    requires FilesIndexed(defs, files, fileFolders)
    ensures DepsOf(defs, files, fileFolders, folderRoots).Err? <==>
      exists i, k :: 0 <= i < |files| && 0 <= k < |Includes(defs, files[i])| &&
                     Fails(Includes(defs, files[i])[k], fileFolders[files[i]], fileFolders, folderRoots)
    ensures DepsOf(defs, files, fileFolders, folderRoots).Ok? ==>
      DepsOf(defs, files, fileFolders, folderRoots).value[e] == TotalCount(defs, files, fileFolders, folderRoots, e)
  {
    if files != [] {
      var n := |files| - 1;
      var init := files[..n];
      var f := files[n];
      DepsSpec(defs, init, fileFolders, folderRoots, e);
      IncludeEdgesSpec(Includes(defs, f), fileFolders[f], fileFolders, folderRoots, e);
      assert forall i :: 0 <= i < n ==> init[i] == files[i];
    }
  }

  /** What every counted edge looks like: it joins two different folders, the first being
      the folder of some file and the second the folder of a file it includes, and it is
      filed under the first folder's root. */
  lemma EdgeShape(defs: seq<Def>, files: seq<nat>, fileFolders: map<nat, nat>, folderRoots: map<nat, nat>, e: Edge)
    requires FilesIndexed(defs, files, fileFolders)
    requires DepsOf(defs, files, fileFolders, folderRoots).Ok? && e in DepsOf(defs, files, fileFolders, folderRoots).value
    ensures e.on != e.to && e.on in folderRoots && e.root == folderRoots[e.on]
    ensures exists i :: 0 <= i < |files| && fileFolders[files[i]] == e.on
    ensures e.to in fileFolders.Values
  {
    DepsSpec(defs, files, fileFolders, folderRoots, e);
    TotalCountPositive(defs, files, fileFolders, folderRoots, e);
  }

  lemma {:induction false} TotalCountPositive(defs: seq<Def>, files: seq<nat>, fileFolders: map<nat, nat>, folderRoots: map<nat, nat>, e: Edge)
    requires FilesIndexed(defs, files, fileFolders) && TotalCount(defs, files, fileFolders, folderRoots, e) > 0
    ensures exists i, k :: 0 <= i < |files| && 0 <= k < |Includes(defs, files[i])| &&
                           Adds(Includes(defs, files[i])[k], fileFolders[files[i]], fileFolders, folderRoots, e)
    ensures e.on != e.to && e.on in folderRoots && e.root == folderRoots[e.on] && e.to in fileFolders.Values
    ensures exists i :: 0 <= i < |files| && fileFolders[files[i]] == e.on
  {
    var n := |files| - 1;
    var init := files[..n];
    var f := files[n];
    assert forall i :: 0 <= i < n ==> init[i] == files[i];
    var incs := Includes(defs, f);
    if AddCount(incs, fileFolders[f], fileFolders, folderRoots, e) > 0 {
      var s := set k | 0 <= k < |incs| && Adds(incs[k], fileFolders[f], fileFolders, folderRoots, e);
      var k :| k in s;
      var t := incs[k].file.value.target;
      assert fileFolders[t] in fileFolders.Values;
    } else {
      TotalCountPositive(defs, init, fileFolders, folderRoots, e);
    }
  }

  /** The inner counting loop: one file's includes in order, stopping at the first
      `KeyError`. */
  method CountIncludes(incs: seq<Include>, folder: nat, fileFolders: map<nat, nat>, folderRoots: map<nat, nat>)
    returns (r: Result<multiset<Edge>, string>)
    ensures r == IncludeEdges(incs, folder, fileFolders, folderRoots)
  {
    var added: multiset<Edge> := multiset{};
    for k := 0 to |incs|
      invariant IncludeEdges(incs[..k], folder, fileFolders, folderRoots) == Ok(added)
    {
      var inc := incs[k];
      assert incs[..k + 1][..k] == incs[..k];
      if inc.file.Some? && inc.file.value.Resolved? {
        var t := inc.file.value.target;
        if t !in fileFolders {
          FailsExtend(incs, k + 1, folder, fileFolders, folderRoots);
          return Err("KeyError");
        }
        var to := fileFolders[t];
        if to != folder {
          if folder !in folderRoots {
            FailsExtend(incs, k + 1, folder, fileFolders, folderRoots);
            return Err("KeyError");
          }
          added := added + multiset{Edge(folderRoots[folder], folder, to)};
        }
      }
    }
    assert incs[..|incs|] == incs;
    r := Ok(added);
  }

  /** The counting loop of `depgraph`: every file of `file_folders` in order, stopping at the
      first `KeyError`. */
  method ComputeDeps(defs: seq<Def>, files: seq<nat>, fileFolders: map<nat, nat>, folderRoots: map<nat, nat>)
    returns (r: Result<multiset<Edge>, string>)
    requires FilesIndexed(defs, files, fileFolders)
    ensures r == DepsOf(defs, files, fileFolders, folderRoots)
  {
    var deps: multiset<Edge> := multiset{};
    for i := 0 to |files|
      invariant DepsOf(defs, files[..i], fileFolders, folderRoots) == Ok(deps)
    {
      var f := files[i];
      assert files[..i + 1][..i] == files[..i];
      var added := CountIncludes(Includes(defs, f), fileFolders[f], fileFolders, folderRoots);
      if added.Err? {
        ErrIsKeyError(Includes(defs, f), fileFolders[f], fileFolders, folderRoots);
        ErrExtend(defs, files, i + 1, fileFolders, folderRoots);
        return Err("KeyError");
      }
      deps := deps + added.value;
    }
    assert files[..|files|] == files;
    r := Ok(deps);
  }

  /** A failure in a prefix of the includes is a failure of all of them. */
  lemma {:induction false} FailsExtend(incs: seq<Include>, k: nat, folder: nat, fileFolders: map<nat, nat>, folderRoots: map<nat, nat>)
    requires k <= |incs| && IncludeEdges(incs[..k], folder, fileFolders, folderRoots).Err?
    ensures IncludeEdges(incs, folder, fileFolders, folderRoots) == Err("KeyError")
    decreases |incs| - k
  {
    if k < |incs| {
      assert incs[..k + 1][..k] == incs[..k];
      FailsExtend(incs, k + 1, folder, fileFolders, folderRoots);
    } else {
      assert incs[..k] == incs;
      ErrIsKeyError(incs, folder, fileFolders, folderRoots);
    }
  }

  lemma {:induction false} ErrIsKeyError(incs: seq<Include>, folder: nat, fileFolders: map<nat, nat>, folderRoots: map<nat, nat>)
    ensures IncludeEdges(incs, folder, fileFolders, folderRoots).Err? ==>
      IncludeEdges(incs, folder, fileFolders, folderRoots) == Err("KeyError")
  {
    if incs != [] {
      ErrIsKeyError(incs[..|incs| - 1], folder, fileFolders, folderRoots);
    }
  }

  /** A failure while counting the files of a prefix is a failure of the whole count. */
  lemma {:induction false} ErrExtend(defs: seq<Def>, files: seq<nat>, i: nat, fileFolders: map<nat, nat>, folderRoots: map<nat, nat>)
    requires FilesIndexed(defs, files, fileFolders) && 0 < i <= |files|
    requires DepsOf(defs, files[..i - 1], fileFolders, folderRoots).Ok?
    requires IncludeEdges(Includes(defs, files[i - 1]), fileFolders[files[i - 1]], fileFolders, folderRoots) == Err("KeyError")
    ensures DepsOf(defs, files, fileFolders, folderRoots) == Err("KeyError")
    decreases |files|
  {
    if i < |files| {
      var n := |files| - 1;
      assert files[..n][..i - 1] == files[..i - 1];
      assert files[..n][i - 1] == files[i - 1];
      ErrExtend(defs, files[..n], i, fileFolders, folderRoots);
    } else {
      assert files[..i] == files;
    }
  }

  // ----- putting the pieces together -----

  /** The folders `depgraph` computes for the roots listed in `roots`, its two maps and its
      counts. */
  function Deps(defs: seq<Def>, roots: seq<nat>, depth: int, ghost rank: seq<nat>): Result<multiset<Edge>, string>
    requires DirsRanked(defs, rank) && AllDirs(defs, roots)
  {
    var folders := Folders(defs, roots, depth, rank);
    FoldersAreDirs(defs, roots, depth, rank);
    var fileFolders := FileFolders(defs, folders, rank);
    var files := FilesAll(defs, folders, rank);
    assert FilesIndexed(defs, files, fileFolders) by {
      forall i | 0 <= i < |files|
        ensures IsFile(defs, files[i]) && files[i] in fileFolders
      {
        FileFoldersKeys(defs, folders, rank, files[i]);
      }
    }
    DepsOf(defs, files, fileFolders, FolderRoots(defs, roots, depth, rank))
  }

  /** Every value of `file_folders` has an entry in `folder_roots`, so the only `KeyError`
      comes from an include of a file that no collected folder contains. */
  lemma FileFoldersRooted(defs: seq<Def>, roots: seq<nat>, depth: int, rank: seq<nat>, f: nat)
    requires DirsRanked(defs, rank) && AllDirs(defs, roots)
    requires FolderPairs(defs, Folders(defs, roots, depth, rank))
    requires f in FileFolders(defs, Folders(defs, roots, depth, rank), rank)
    ensures FileFolders(defs, Folders(defs, roots, depth, rank), rank)[f] in FolderRoots(defs, roots, depth, rank)
    ensures exists j :: (0 <= j < |roots| &&
      FileFolders(defs, Folders(defs, roots, depth, rank), rank)[f] in Reach(defs, roots[j], rank))
  {
    var fs := Folders(defs, roots, depth, rank);
    FileFoldersLast(defs, fs, rank, f);
    var i :| 0 <= i < |fs| && fs[i].0 == FileFolders(defs, fs, rank)[f] && f in FilesContained(defs, fs[i].0, rank);
    FoldersProperties(defs, roots, depth, rank);
    FolderRootsHas(defs, roots, depth, rank, fs[i]);
    CollectAllUnder(defs, roots, depth, rank, fs[i]);
  }

  /** Every collected folder has a root in `folder_roots`. */
  lemma FolderRootsHas(defs: seq<Def>, roots: seq<nat>, depth: int, rank: seq<nat>, x: (nat, int))
    requires DirsRanked(defs, rank) && AllDirs(defs, roots) && x in CollectAll(defs, roots, depth, rank)
    ensures x.0 in FolderRoots(defs, roots, depth, rank)
  {
    var cs := Collections(defs, roots, depth, rank);
    var blocks := seq(|roots|, j requires 0 <= j < |roots| => Dirs(cs[j]));
    ConcatHas(cs, x);
    var j :| 0 <= j < |cs| && x in cs[j];
    var p :| 0 <= p < |cs[j]| && cs[j][p] == x;
    assert blocks[j][p] == x.0;
    ConcatHas(blocks, x.0);
    AssignKeys(blocks, roots, x.0);
  }

  /** The root `folder_roots` gives a folder is one of the roots above it. */
  lemma FolderRootsAbove(defs: seq<Def>, roots: seq<nat>, depth: int, rank: seq<nat>, o: nat)
    requires DirsRanked(defs, rank) && AllDirs(defs, roots) && o in FolderRoots(defs, roots, depth, rank)
    ensures exists j :: 0 <= j < |roots| && FolderRoots(defs, roots, depth, rank)[o] == roots[j] &&
                        o in Reach(defs, roots[j], rank)
  {
    var cs := Collections(defs, roots, depth, rank);
    var blocks := seq(|roots|, j requires 0 <= j < |roots| => Dirs(cs[j]));
    AssignLast(blocks, roots, o);
    var j :| 0 <= j < |blocks| && Assign(blocks, roots)[o] == roots[j] && o in blocks[j] &&
             forall j' :: j < j' < |blocks| ==> o !in blocks[j'];
    var p :| 0 <= p < |blocks[j]| && blocks[j][p] == o;
    assert cs[j] == CollectFolders(defs, roots[j], 0, depth, rank);
    assert cs[j][p].0 == o;
  }

  /** The union of the folders `_visible_folders` keeps under each root. */
  function VisibleAll(defs: seq<Def>, roots: seq<nat>, interesting: set<nat>, ghost rank: seq<nat>): set<nat>
    requires DirsRanked(defs, rank) && AllDirs(defs, roots)
  {
    if roots == [] then {}
    else VisibleAll(defs, roots[..|roots| - 1], interesting, rank) + Visible(defs, roots[|roots| - 1], interesting, rank)
  }

  lemma {:induction false} VisibleAllHas(defs: seq<Def>, roots: seq<nat>, interesting: set<nat>, rank: seq<nat>, j: nat, d: nat)
    requires DirsRanked(defs, rank) && AllDirs(defs, roots)
    requires j < |roots| && d in interesting && d in Reach(defs, roots[j], rank)
    ensures d in VisibleAll(defs, roots, interesting, rank)
  {
    var n := |roots| - 1;
    if j < n {
      assert roots[..n][j] == roots[j];
      VisibleAllHas(defs, roots[..n], interesting, rank, j, d);
    } else {
      VisibleProperties(defs, roots[j], interesting, rank);
    }
  }

  /** The folders one root's edges mention (`interesting`). */
  function Interesting(deps: multiset<Edge>, root: nat): set<nat>
  {
    (set e | e in deps && e.root == root :: e.on) + (set e | e in deps && e.root == root :: e.to)
  }

  /** Both ends of every counted edge are among the folders drawn for its root. */
  lemma EdgeEndsVisible(defs: seq<Def>, roots: seq<nat>, depth: int, rank: seq<nat>, e: Edge)
    requires DirsRanked(defs, rank) && AllDirs(defs, roots)
    requires Deps(defs, roots, depth, rank).Ok? && e in Deps(defs, roots, depth, rank).value
    ensures var deps := Deps(defs, roots, depth, rank).value;
      e.on in VisibleAll(defs, roots, Interesting(deps, e.root), rank) &&
      e.to in VisibleAll(defs, roots, Interesting(deps, e.root), rank)
  {
    var folders := Folders(defs, roots, depth, rank);
    FoldersAreDirs(defs, roots, depth, rank);
    var ff := FileFolders(defs, folders, rank);
    var files := FilesAll(defs, folders, rank);
    assert FilesIndexed(defs, files, ff) by {
      forall i | 0 <= i < |files|
        ensures IsFile(defs, files[i]) && files[i] in ff
      {
        FileFoldersKeys(defs, folders, rank, files[i]);
      }
    }
    var fr := FolderRoots(defs, roots, depth, rank);
    var deps := Deps(defs, roots, depth, rank).value;
    assert DepsOf(defs, files, ff, fr).Ok? && deps == DepsOf(defs, files, ff, fr).value;
    EdgeShape(defs, files, ff, fr, e);
    var I := Interesting(deps, e.root);
    assert e.on in I && e.to in I;
    var i :| 0 <= i < |files| && ff[files[i]] == e.on;
    FileFoldersRooted(defs, roots, depth, rank, files[i]);
    var j :| 0 <= j < |roots| && e.on in Reach(defs, roots[j], rank);
    VisibleAllHas(defs, roots, I, rank, j, e.on);
    var t :| t in ff && ff[t] == e.to;
    FileFoldersRooted(defs, roots, depth, rank, t);
    var j' :| 0 <= j' < |roots| && e.to in Reach(defs, roots[j'], rank);
    VisibleAllHas(defs, roots, I, rank, j', e.to);
  }
}
