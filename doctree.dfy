/** The page and index structure of the HTML tree (doxyfront/doctree.py): which definitions a
    page lists, how a listing is grouped by symbol category and ordered by name, and which
    definitions the index lists. */
module Doctree {
  import opened Wrappers
  import opened Seqs
  import opened Strings
  import opened Refs
  import opened Defs
  import opened Sorting

  // ----- categories -----

  /** `SymbolCategory`, with the enum's own member names. */
  datatype SymbolCategory = DIRECTORY | FILE | NAMESPACE | MACRO | TYPE | FUNCTION | PROPERTY | VARIABLE | OTHER

  /** The enum value of a category. */
  function Value(c: SymbolCategory): nat
  {
    match c
    case DIRECTORY => 0
    case FILE => 1
    case NAMESPACE => 2
    case MACRO => 3
    case TYPE => 4
    case FUNCTION => 5
    case PROPERTY => 6
    case VARIABLE => 7
    case OTHER => 8
  }

  /** `cat.name`. */
  function CategoryName(c: SymbolCategory): (r: string)
    ensures UpperLetters(r)
  {
    match c
    case DIRECTORY => "DIRECTORY"
    case FILE => "FILE"
    case NAMESPACE => "NAMESPACE"
    case MACRO => "MACRO"
    case TYPE => "TYPE"
    case FUNCTION => "FUNCTION"
    case PROPERTY => "PROPERTY"
    case VARIABLE => "VARIABLE"
    case OTHER => "OTHER"
  }

  /** The heading of a section, `cat.name.lower() + 's'`: different categories get different
      headings. */
  function Heading(c: SymbolCategory): string
  {
    Lower(CategoryName(c)) + "s"
  }

  lemma HeadingsDistinct(c: SymbolCategory, c': SymbolCategory)
    requires Heading(c) == Heading(c')
    ensures c == c'
  {
    var n, n' := CategoryName(c), CategoryName(c');
    assert Lower(n) == Heading(c)[..|n|];
    assert |Heading(c)| == |n| + 1 && |Heading(c')| == |n'| + 1;
    assert Lower(n') == Heading(c')[..|n'|];
    LowerInjective(n, n');
  }

  /** The definition classes `CATEGORIES` tests with `isinstance`. */
  datatype DefClass = DirectoryClass | FileClass | NamespaceClass | MacroClass | TypedefClass
                    | ClassClass | EnumClass | FunctionClass | PropertyClass | VariableClass

  predicate IsInstance(d: Def, c: DefClass)
  {
    match c
    case DirectoryClass => d.kind.Directory?
    case FileClass => d.kind.File?
    case NamespaceClass => d.kind.Namespace?
    case MacroClass => d.kind.Macro?
    case TypedefClass => d.kind.Typedef?
    case ClassClass => d.kind.ClassDef?
    case EnumClass => d.kind.Enum?
    case FunctionClass => d.kind.FunctionDef?
    case PropertyClass => d.kind.Property?
    case VariableClass => d.kind.Variable?
  }

  /** `CATEGORIES`: the tests in the order `category` tries them. */
  const Categories: seq<(seq<DefClass>, SymbolCategory)> := [
    ([DirectoryClass], DIRECTORY),
    ([FileClass], FILE),
    ([NamespaceClass], NAMESPACE),
    ([MacroClass], MACRO),
    ([TypedefClass, ClassClass, EnumClass], TYPE),
    ([FunctionClass], FUNCTION),
    ([PropertyClass], PROPERTY),
    ([VariableClass], VARIABLE)
  ]

  /** `any(isinstance(d, c) for c in classes)`, the inner loop of `category`. */
  predicate AnyInstance(d: Def, classes: seq<DefClass>)
  {
    classes != [] && (IsInstance(d, classes[0]) || AnyInstance(d, classes[1..]))
  }

  /** `category(d)`: the index and category of the first entry that accepts `d`, or
      `(len(CATEGORIES), OTHER)`. */
  function CategoryOf(d: Def): (nat, SymbolCategory)
  {
    CategoryFrom(d, 0)
  }

  function CategoryFrom(d: Def, i: nat): (r: (nat, SymbolCategory))
    requires i <= |Categories|
    decreases |Categories| - i
  {
    if i == |Categories| then (|Categories|, OTHER)
    else if AnyInstance(d, Categories[i].0) then (i, Categories[i].1)
    else CategoryFrom(d, i + 1)
  }

  /** The category each kind of definition gets. */
  function KindCategory(k: Kind): SymbolCategory
  {
    match k
    case Directory(_) => DIRECTORY
    case File(_, _) => FILE
    case Namespace(_) => NAMESPACE
    case Macro(_, _) => MACRO
    case Typedef(_, _, _) => TYPE
    case ClassDef(_, _, _, _) => TYPE
    case Enum(_, _, _) => TYPE
    case FunctionDef(_, _, _, _) => FUNCTION
    case Property(_) => PROPERTY
    case Variable(_, _) => VARIABLE
    case _ => OTHER
  }

  /** The table `category` computes, and its index is the category's enum value, at most 8. */
  lemma CategoryTable(d: Def)
    ensures CategoryOf(d) == (Value(KindCategory(d.kind)), KindCategory(d.kind))
    ensures CategoryOf(d).0 == Value(CategoryOf(d).1) <= 8
  {
    var k := d.kind;
    CategoryTableLate(d);
    assert Categories[3].0 == [MacroClass] && AnyInstance(d, [MacroClass]) == k.Macro?;
    assert CategoryFrom(d, 3) == if k.Macro? then (3, MACRO) else CategoryFrom(d, 4);
    assert Categories[2].0 == [NamespaceClass] && AnyInstance(d, [NamespaceClass]) == k.Namespace?;
    assert CategoryFrom(d, 2) == if k.Namespace? then (2, NAMESPACE) else CategoryFrom(d, 3);
    assert Categories[1].0 == [FileClass] && AnyInstance(d, [FileClass]) == k.File?;
    assert CategoryFrom(d, 1) == if k.File? then (1, FILE) else CategoryFrom(d, 2);
    assert Categories[0].0 == [DirectoryClass] && AnyInstance(d, [DirectoryClass]) == k.Directory?;
    assert CategoryFrom(d, 0) == if k.Directory? then (0, DIRECTORY) else CategoryFrom(d, 1);
  }

  /** The last five entries of the table. */
  lemma CategoryTableLate(d: Def)
    ensures var k := d.kind;
      CategoryFrom(d, 4) ==
        if k.Typedef? || k.ClassDef? || k.Enum? then (4, TYPE)
        else if k.FunctionDef? then (5, FUNCTION)
        else if k.Property? then (6, PROPERTY)
        else if k.Variable? then (7, VARIABLE)
        else (8, OTHER)
  {
    var k := d.kind;
    assert CategoryFrom(d, 8) == (8, OTHER);
    assert Categories[7].0 == [VariableClass] && AnyInstance(d, [VariableClass]) == k.Variable?;
    assert CategoryFrom(d, 7) == if k.Variable? then (7, VARIABLE) else CategoryFrom(d, 8);
    assert Categories[6].0 == [PropertyClass] && AnyInstance(d, [PropertyClass]) == k.Property?;
    assert CategoryFrom(d, 6) == if k.Property? then (6, PROPERTY) else CategoryFrom(d, 7);
    assert Categories[5].0 == [FunctionClass] && AnyInstance(d, [FunctionClass]) == k.FunctionDef?;
    assert CategoryFrom(d, 5) == if k.FunctionDef? then (5, FUNCTION) else CategoryFrom(d, 6);
    var types := [TypedefClass, ClassClass, EnumClass];
    assert Categories[4].0 == types;
    assert types[1..] == [ClassClass, EnumClass] && types[1..][1..] == [EnumClass];
    assert AnyInstance(d, [EnumClass]) == k.Enum?;
    assert AnyInstance(d, types) == (k.Typedef? || k.ClassDef? || k.Enum?);
  }

  /** `category_key(d)`. */
  function CategoryKey(d: Def): nat
  {
    CategoryOf(d).0
  }

  /** The enum value of a definition's category, read off the table. */
  function TableKey(d: Def): (r: nat)
    ensures r <= 8
  {
    Value(KindCategory(d.kind))
  }

  /** `category_key` agrees with the table. */
  lemma CategoryKeyTable(d: Def)
    ensures CategoryKey(d) == TableKey(d) <= 8
  {
    CategoryTable(d);
  }

  /** The category whose enum value is `i`. */
  function CategoryAt(i: nat): (c: SymbolCategory)
    ensures i <= 8 ==> Value(c) == i
  {
    if i == 0 then DIRECTORY else if i == 1 then FILE else if i == 2 then NAMESPACE
    else if i == 3 then MACRO else if i == 4 then TYPE else if i == 5 then FUNCTION
    else if i == 6 then PROPERTY else if i == 7 then VARIABLE else OTHER
  }

  // ----- render -----

  // The listing is specified for any category key `key: Def -> nat`; `render` uses
  // `TableKey`, which is `category_key` (CategoryKeyTable).

  /** One `<h2>` section of a page: its category and its entries in listing order. */
  datatype Section = Section(category: SymbolCategory, entries: seq<Def>)

  /** The sort key of a listing entry, `m.name.lower()`. */
  function NameKey(m: Def): string
  {
    Lower(m.name)
  }

  /** Some member has category index `i`. */
  predicate Has(members: seq<Def>, key: Def -> nat, i: nat)
  {
    exists k :: 0 <= k < |members| && key(members[k]) == i
  }

  /** A category index is present exactly when its group is not empty. */
  lemma HasGroup(members: seq<Def>, key: Def -> nat, i: nat)
    ensures Has(members, key, i) <==> KeyFilter(members, key, i) != []
  {
    var f := KeyFilter(members, key, i);
    if Has(members, key, i) {
      var k :| 0 <= k < |members| && key(members[k]) == i;
      KeyFilterMember(members, key, i, members[k]);
    }
    if f != [] {
      KeyFilterMember(members, key, i, f[0]);
      var k :| 0 <= k < |members| && members[k] == f[0];
    }
  }

  /** The section of category index `i`: the members with that index sorted by name. */
  function SectionFor(members: seq<Def>, key: Def -> nat, i: nat): Section
  {
    Section(CategoryAt(i), SortBy(KeyFilter(members, key, i), NameKey, LexLe))
  }

  /** The category indexes from `i` on that some member has, ascending. */
  function Present(members: seq<Def>, key: Def -> nat, i: nat): seq<nat>
    decreases 9 - i
  {
    if i > 8 then []
    else (if Has(members, key, i) then [i] else []) + Present(members, key, i + 1)
  }

  /** The sections for the category indexes `p`, in that order. */
  function SectionsOver(members: seq<Def>, key: Def -> nat, p: seq<nat>): (ss: seq<Section>)
    ensures |ss| == |p|
  {
    seq(|p|, t requires 0 <= t < |p| => SectionFor(members, key, p[t]))
  }

  /** What `render` lists: one section per category some member has, ascending. */
  function Sections(members: seq<Def>): seq<Section>
  {
    SectionsOver(members, TableKey, Present(members, TableKey, 0))
  }

  lemma {:induction false} PresentMembers(members: seq<Def>, key: Def -> nat, i: nat)
    ensures forall x :: x in Present(members, key, i) <==> i <= x <= 8 && Has(members, key, x)
    decreases 9 - i
  {
    if i <= 8 {
      PresentMembers(members, key, i + 1);
      var rest := Present(members, key, i + 1);
      var p := if Has(members, key, i) then [i] + rest else rest;
      assert Present(members, key, i) == p;
      forall x
        ensures x in p <==> i <= x <= 8 && Has(members, key, x)
      {
        if x == i {
          assert x !in rest;
        } else {
          assert x in p <==> x in rest;
        }
      }
    }
  }

  lemma {:induction false} PresentIncreasing(members: seq<Def>, key: Def -> nat, i: nat)
    ensures Increasing(Present(members, key, i))
    decreases 9 - i
  {
    if i <= 8 {
      PresentIncreasing(members, key, i + 1);
      PresentMembers(members, key, i + 1);
      var rest := Present(members, key, i + 1);
      if Has(members, key, i) {
        var p := [i] + rest;
        assert Present(members, key, i) == p;
        forall t | 0 < t < |p|
          ensures p[t - 1] < p[t]
        {
          if t == 1 {
            assert p[1] == rest[0] && rest[0] in rest;
          } else {
            assert p[t - 1] == rest[t - 2] && p[t] == rest[t - 1];
          }
        }
      } else {
        assert Present(members, key, i) == rest;
      }
    }
  }

  lemma TableKeyBounded()
    ensures forall m :: TableKey(m) == CategoryKey(m) && TableKey(m) <= 8
  {
    forall m
      ensures TableKey(m) == CategoryKey(m)
    {
      CategoryKeyTable(m);
    }
  }

  /** `render`'s grouping and sorting: members go into per-category lists in input order,
      then each category that got a member is emitted in ascending order with its list sorted
      by lowercased name. */
  method Render(members: seq<Def>) returns (sections: seq<Section>)
    ensures sections == Sections(members)
  {
    TableKeyBounded();
    var byCat, keys := Group(members, TableKey);
    var order := SortBy(keys, (x: nat) => x as int, IntLe);
    SortedKeys(members, TableKey, keys, order);
    sections := Emit(members, TableKey, byCat, order);
  }

  /** The output loop of `render`: a section per category index of `order`, in that order,
      each listing its group sorted by lowercased name. */
  method Emit(members: seq<Def>, key: Def -> nat, byCat: map<nat, seq<Def>>, order: seq<nat>)
    returns (sections: seq<Section>)
    requires forall t :: 0 <= t < |order| ==> order[t] in byCat
    requires forall i :: i in byCat ==> byCat[i] == KeyFilter(members, key, i)
    ensures sections == SectionsOver(members, key, order)
  {
    sections := [];
    for t := 0 to |order|
      invariant |sections| == t
      invariant forall t' :: 0 <= t' < t ==> sections[t'] == SectionFor(members, key, order[t'])
    {
      var c := order[t];
      sections := sections + [Section(CategoryAt(c), SortBy(byCat[c], NameKey, LexLe))];
    }
  }

  /** The `by_cat` dictionary: each category index a member has, mapped to those members in
      input order; `keys` lists the indexes once each, in order of first appearance. */
  method Group(members: seq<Def>, key: Def -> nat) returns (byCat: map<nat, seq<Def>>, keys: seq<nat>)
    requires forall m :: key(m) == CategoryKey(m)
    ensures forall i :: i in byCat <==> i in keys
    ensures Distinct(keys)
    ensures forall i :: i in byCat ==> byCat[i] == KeyFilter(members, key, i)
    ensures forall i :: i in byCat <==> Has(members, key, i)
  {
    byCat := map[];
    keys := [];
    for k := 0 to |members|
      invariant forall i :: i in byCat <==> i in keys
      invariant Distinct(keys)
      invariant forall i :: i in byCat ==> byCat[i] == KeyFilter(members[..k], key, i)
      invariant forall i :: i in byCat <==> Has(members[..k], key, i)
    {
      var m := members[k];
      var (i, _) := CategoryOf(m);
      assert i == key(m);
      GroupStep(members, key, k);
      if i in byCat {
        byCat := byCat[i := byCat[i] + [m]];
      } else {
        assert !Has(members[..k], key, i);
        assert KeyFilter(members[..k], key, i) == [] by {
          HasGroup(members[..k], key, i);
        }
        byCat := byCat[i := [m]];
        keys := keys + [i];
      }
    }
    assert members[..|members|] == members;
  }

  /** Taking one more member extends its own group and no other. */
  lemma GroupStep(members: seq<Def>, key: Def -> nat, k: nat)
    requires k < |members|
    ensures forall j :: KeyFilter(members[..k + 1], key, j) ==
                        KeyFilter(members[..k], key, j) + (if key(members[k]) == j then [members[k]] else [])
    ensures forall j: nat :: Has(members[..k + 1], key, j) <==> Has(members[..k], key, j) || key(members[k]) == j
  {
    var m := members[k];
    assert members[..k + 1] == members[..k] + [m];
    forall j
      ensures KeyFilter(members[..k + 1], key, j) ==
              KeyFilter(members[..k], key, j) + (if key(m) == j then [m] else [])
    {
      KeyFilterAppend(members[..k], [m], key, j);
    }
    forall j: nat
      ensures Has(members[..k + 1], key, j) <==> Has(members[..k], key, j) || key(members[k]) == j
    {
      HasSnoc(members, key, k, j);
    }
  }

  lemma HasSnoc(members: seq<Def>, key: Def -> nat, k: nat, j: nat)
    requires k < |members|
    ensures Has(members[..k + 1], key, j) <==> Has(members[..k], key, j) || key(members[k]) == j
  {
    var pre, post := members[..k], members[..k + 1];
    assert post[k] == members[k];
    if Has(post, key, j) {
      var q :| 0 <= q < |post| && key(post[q]) == j;
      if q < k {
        assert pre[q] == post[q];
        assert 0 <= q < |pre| && key(pre[q]) == j;
      }
    }
    if Has(pre, key, j) {
      var q :| 0 <= q < |pre| && key(pre[q]) == j;
      assert post[q] == pre[q];
      assert 0 <= q < |post| && key(post[q]) == j;
    }
    if key(members[k]) == j {
      assert 0 <= k < |post| && key(post[k]) == j;
    }
  }

  /** The sorted keys of the grouping are exactly the present category indexes. */
  lemma SortedKeys(members: seq<Def>, key: Def -> nat, keys: seq<nat>, order: seq<nat>)
    requires forall m :: key(m) <= 8
    requires Distinct(keys)
    requires forall i :: i in keys <==> Has(members, key, i)
    requires order == SortBy(keys, (x: nat) => x as int, IntLe)
    ensures order == Present(members, key, 0)
    ensures forall t :: 0 <= t < |order| ==> order[t] in keys
  {
    var p := Present(members, key, 0);
    SortDistinct(keys, order);
    PresentMembers(members, key, 0);
    PresentIncreasing(members, key, 0);
    forall x
      ensures x in order <==> x in p
    {
      if Has(members, key, x) {
        var k :| 0 <= k < |members| && key(members[k]) == x;
      }
    }
    IncreasingUnique(order, p);
  }

  /** Sorting distinct naturals gives them in strictly ascending order. */
  lemma SortDistinct(keys: seq<nat>, order: seq<nat>)
    requires Distinct(keys)
    requires order == SortBy(keys, (x: nat) => x as int, IntLe)
    ensures Increasing(order)
    ensures forall x :: x in order <==> x in keys
  {
    var toInt := (x: nat) => x as int;
    IntOrderTotal();
    SortBySorted(keys, toInt, IntLe);
    DistinctPermutation(keys, order);
    forall t | 0 < t < |order|
      ensures order[t - 1] < order[t]
    {
      assert IntLe(toInt(order[t - 1]), toInt(order[t]));
    }
    forall x
      ensures x in order <==> x in keys
    {
      assert x in order <==> x in multiset(order);
      assert x in keys <==> x in multiset(keys);
    }
  }

  /** Some section has category `c`. */
  predicate HasSection(ss: seq<Section>, c: SymbolCategory)
  {
    exists t :: 0 <= t < |ss| && ss[t].category == c
  }

  /** Some member has category `c`. */
  predicate HasMember(members: seq<Def>, c: SymbolCategory)
  {
    exists k :: 0 <= k < |members| && CategoryOf(members[k]).1 == c
  }

  /** For any key: no section is empty, sections ascend by category, and a category has a
      section exactly when some member has its index. */
  lemma SectionsShapeBy(members: seq<Def>, key: Def -> nat)
    ensures var ss := SectionsOver(members, key, Present(members, key, 0));
      (forall t :: 0 <= t < |ss| ==> ss[t].entries != []) &&
      (forall t, t' :: 0 <= t < t' < |ss| ==> Value(ss[t].category) < Value(ss[t'].category)) &&
      (forall c :: HasSection(ss, c) <==> Has(members, key, Value(c)))
  {
    var p := Present(members, key, 0);
    var ss := SectionsOver(members, key, p);
    PresentMembers(members, key, 0);
    PresentIncreasing(members, key, 0);
    forall t | 0 <= t < |ss|
      ensures ss[t].entries != [] && Value(ss[t].category) == p[t]
    {
      assert p[t] in p;
      SectionNonEmpty(members, key, p[t]);
    }
    forall t, t' | 0 <= t < t' < |ss|
      ensures Value(ss[t].category) < Value(ss[t'].category)
    {
      IncreasingGlobal(p, t, t');
    }
    forall c
      ensures HasSection(ss, c) <==> Has(members, key, Value(c))
    {
      if HasSection(ss, c) {
        var t :| 0 <= t < |ss| && ss[t].category == c;
        assert p[t] in p;
      }
      if Has(members, key, Value(c)) {
        assert Value(c) in p;
        var t :| 0 <= t < |p| && p[t] == Value(c);
        ValueInjective(ss[t].category, c);
      }
    }
  }

  /** Each category that some member has gets exactly one section, the sections come in
      ascending category order, and none is empty. */
  lemma SectionsShape(members: seq<Def>)
    ensures var ss := Sections(members);
      (forall t :: 0 <= t < |ss| ==> ss[t].entries != []) &&
      (forall t, t' :: 0 <= t < t' < |ss| ==> Value(ss[t].category) < Value(ss[t'].category)) &&
      (forall c :: HasSection(ss, c) <==> HasMember(members, c))
  {
    SectionsShapeBy(members, TableKey);
    forall c
      ensures Has(members, TableKey, Value(c)) <==> HasMember(members, c)
    {
      if Has(members, TableKey, Value(c)) {
        var k :| 0 <= k < |members| && TableKey(members[k]) == Value(c);
        CategoryTable(members[k]);
        ValueInjective(CategoryOf(members[k]).1, c);
      }
      if HasMember(members, c) {
        var k :| 0 <= k < |members| && CategoryOf(members[k]).1 == c;
        CategoryTable(members[k]);
      }
    }
  }

  lemma SectionNonEmpty(members: seq<Def>, key: Def -> nat, i: nat)
    requires Has(members, key, i)
    ensures SectionFor(members, key, i).entries != []
  {
    var f := KeyFilter(members, key, i);
    HasGroup(members, key, i);
    SortByPermutes(f, NameKey, LexLe);
    assert f[0] in multiset(f);
  }

  lemma ValueInjective(c: SymbolCategory, c': SymbolCategory)
    requires Value(c) == Value(c')
    ensures c == c'
  {
  }

  /** A section holds exactly the members of its category, ordered by lowercased name, and
      members with equal names keep their input order. */
  lemma SectionContents(members: seq<Def>, key: Def -> nat, i: nat)
    requires i <= 8
    ensures var s := SectionFor(members, key, i).entries;
      Value(SectionFor(members, key, i).category) == i &&
      multiset(s) == multiset(KeyFilter(members, key, i)) &&
      (forall m :: m in s <==> m in members && key(m) == i) &&
      SortedBy(s, NameKey, LexLe) &&
      (forall n :: KeyFilter(s, NameKey, n) == KeyFilter(KeyFilter(members, key, i), NameKey, n))
  {
    var f := KeyFilter(members, key, i);
    var s := SectionFor(members, key, i).entries;
    StringOrderTotal();
    SortBySorted(f, NameKey, LexLe);
    TotalOrderReflexive(LexLe);
    forall n
      ensures KeyFilter(s, NameKey, n) == KeyFilter(f, NameKey, n)
    {
      SortByStable(f, NameKey, LexLe, n);
    }
    forall m
      ensures m in s <==> m in members && key(m) == i
    {
      assert m in s <==> m in multiset(s);
      assert m in f <==> m in multiset(f);
      KeyFilterMember(members, key, i, m);
    }
  }

  /** All entries of all sections, in page order. */
  function Entries(ss: seq<Section>): seq<Def>
  {
    if ss == [] then [] else ss[0].entries + Entries(ss[1..])
  }

  /** The members whose category index is at least `i`. */
  function AtLeast(members: seq<Def>, key: Def -> nat, i: nat): seq<Def>
  {
    if members == [] then []
    else (if key(members[0]) >= i then [members[0]] else []) + AtLeast(members[1..], key, i)
  }

  lemma {:induction false} AtLeastSplit(members: seq<Def>, key: Def -> nat, i: nat)
    ensures multiset(AtLeast(members, key, i)) ==
            multiset(KeyFilter(members, key, i)) + multiset(AtLeast(members, key, i + 1))
  {
    if members != [] {
      AtLeastSplit(members[1..], key, i);
      var h := members[0];
      if key(h) == i {
        assert AtLeast(members, key, i) == [h] + AtLeast(members[1..], key, i);
        assert AtLeast(members, key, i + 1) == AtLeast(members[1..], key, i + 1);
        assert KeyFilter(members, key, i) == [h] + KeyFilter(members[1..], key, i);
      } else if key(h) > i {
        assert AtLeast(members, key, i) == [h] + AtLeast(members[1..], key, i);
        assert AtLeast(members, key, i + 1) == [h] + AtLeast(members[1..], key, i + 1);
        assert KeyFilter(members, key, i) == KeyFilter(members[1..], key, i);
      } else {
        assert AtLeast(members, key, i) == AtLeast(members[1..], key, i);
        assert AtLeast(members, key, i + 1) == AtLeast(members[1..], key, i + 1);
        assert KeyFilter(members, key, i) == KeyFilter(members[1..], key, i);
      }
    }
  }

  lemma {:induction false} AtLeastBounds(members: seq<Def>, key: Def -> nat, i: nat)
    requires forall m :: key(m) <= 8
    ensures AtLeast(members, key, 0) == members
    ensures i > 8 ==> AtLeast(members, key, i) == []
  {
    if members != [] {
      AtLeastBounds(members[1..], key, i);
    }
  }

  lemma {:induction false} EntriesFrom(members: seq<Def>, key: Def -> nat, i: nat)
    requires forall m :: key(m) <= 8
    ensures multiset(Entries(SectionsOver(members, key, Present(members, key, i)))) ==
            multiset(AtLeast(members, key, i))
    decreases 9 - i
  {
    if i > 8 {
      AtLeastBounds(members, key, i);
    } else {
      EntriesFrom(members, key, i + 1);
      AtLeastSplit(members, key, i);
      HasGroup(members, key, i);
      var rest := Present(members, key, i + 1);
      var f := KeyFilter(members, key, i);
      if Has(members, key, i) {
        assert Present(members, key, i) == [i] + rest;
        SectionsOverCons(members, key, i, rest);
        SortByPermutes(f, NameKey, LexLe);
      } else {
        assert Present(members, key, i) == rest;
      }
    }
  }

  lemma SectionsOverCons(members: seq<Def>, key: Def -> nat, i: nat, p: seq<nat>)
    ensures Entries(SectionsOver(members, key, [i] + p)) ==
            SectionFor(members, key, i).entries + Entries(SectionsOver(members, key, p))
  {
    var ss := SectionsOver(members, key, [i] + p);
    assert ss[0] == SectionFor(members, key, i);
    assert ss[1..] == SectionsOver(members, key, p);
  }

  /** Every member is listed exactly once: the entries of all sections are a permutation of
      the members. */
  lemma EntriesPermute(members: seq<Def>)
    ensures multiset(Entries(Sections(members))) == multiset(members)
  {
    EntriesFrom(members, TableKey, 0);
    AtLeastBounds(members, TableKey, 0);
  }
}
