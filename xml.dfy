/** The element tree `xml.etree.ElementTree` hands to the deserializers
    (doxyfront/source.py:9-34, 185, 543). The parser itself is not modelled: a document is an
    `Element` value. */
module Xml {
  import opened Wrappers

  /** An element: its tag, its attributes in document order (the parser's dictionary, so the
      keys are distinct), the text before its first child (`None` when there is none) and its
      children in document order. */
  datatype Element = Element(tag: string, attrib: seq<(string, string)>, text: Option<string>, children: seq<Element>)

  /** The parser never repeats an attribute key. */
  predicate DistinctKeys(attrib: seq<(string, string)>)
  {
    forall i, j :: 0 <= i < j < |attrib| ==> attrib[i].0 != attrib[j].0
  }

  /** `attrs[key]`, with a missing key as `None`: `maybe_attr`, and `require_attr`, which
      differs only by logging a warning. */
  function Attr(attrib: seq<(string, string)>, key: string): (r: Option<string>)
    ensures r.Some? <==> exists i :: 0 <= i < |attrib| && attrib[i].0 == key
    ensures r.Some? ==> exists i :: 0 <= i < |attrib| && attrib[i] == (key, r.value)
  {
    if attrib == [] then None
    else if attrib[0].0 == key then Some(attrib[0].1)
    else Attr(attrib[1..], key)
  }

  /** With distinct keys the lookup finds the value stored under the key, wherever it is. */
  lemma {:induction false} AttrAt(attrib: seq<(string, string)>, i: nat)
    requires DistinctKeys(attrib) && i < |attrib|
    ensures Attr(attrib, attrib[i].0) == Some(attrib[i].1)
  {
    if i > 0 {
      assert attrib[0].0 != attrib[i].0;
      assert attrib[1..][i - 1] == attrib[i];
      AttrAt(attrib[1..], i - 1);
    }
  }

  /** `maybe_text` and `require_text`: the text when it is present and not empty. */
  function MaybeText(e: Element): (r: Option<string>)
    ensures r.Some? <==> e.text.Some? && |e.text.value| > 0
    ensures r.Some? ==> r.value == e.text.value
  {
    if e.text.Some? && e.text.value != "" then e.text else None
  }

  /** `e.findall(tag)`: the children with that tag, in document order. */
  function FindAll(children: seq<Element>, tag: string): (r: seq<Element>)
    ensures |r| <= |children|
    ensures forall i :: 0 <= i < |r| ==> r[i].tag == tag && r[i] in children
    ensures forall i :: 0 <= i < |children| && children[i].tag == tag ==> children[i] in r
  {
    if children == [] then []
    else
      var rest := FindAll(children[1..], tag);
      assert forall i :: 1 <= i < |children| ==> children[i] == children[1..][i - 1];
      (if children[0].tag == tag then [children[0]] else []) + rest
  }

  /** `findall` keeps document order: the matches of two runs of children are the matches of
      the first followed by those of the second. */
  lemma {:induction false} FindAllAppend(a: seq<Element>, b: seq<Element>, tag: string)
    ensures FindAll(a + b, tag) == FindAll(a, tag) + FindAll(b, tag)
  {
    if a != [] {
      var h := if a[0].tag == tag then [a[0]] else [];
      calc {
        FindAll(a + b, tag);
      == { assert (a + b)[0] == a[0]; assert (a + b)[1..] == a[1..] + b; }
        h + FindAll(a[1..] + b, tag);
      == { FindAllAppend(a[1..], b, tag); }
        h + (FindAll(a[1..], tag) + FindAll(b, tag));
      ==
        (h + FindAll(a[1..], tag)) + FindAll(b, tag);
      }
    } else {
      assert a + b == b;
    }
  }

  /** A single child is found exactly when it has the tag. */
  lemma FindAllOne(e: Element, tag: string)
    ensures FindAll([e], tag) == if e.tag == tag then [e] else []
  {
    assert [e][1..] == [];
  }

  /** `e.find(tag)`: the first child with that tag. */
  function Find(children: seq<Element>, tag: string): (r: Option<Element>)
    ensures r.Some? ==> r.value.tag == tag && r.value in children
  {
    if children == [] then None
    else if children[0].tag == tag then Some(children[0])
    else Find(children[1..], tag)
  }

  /** `find` is the head of `findall`, and it finds nothing exactly when no child has the tag. */
  lemma {:induction false} FindFirstOfFindAll(children: seq<Element>, tag: string)
    ensures Find(children, tag) == (if FindAll(children, tag) == [] then None else Some(FindAll(children, tag)[0]))
    ensures Find(children, tag).None? <==> forall i :: 0 <= i < |children| ==> children[i].tag != tag
  {
    if children != [] {
      FindFirstOfFindAll(children[1..], tag);
      if children[0].tag != tag {
        assert forall i :: 1 <= i < |children| ==> children[i] == children[1..][i - 1];
      }
    }
  }

  /** The last child whose tag is one of `tags`: what a loop over the children that
      reassigns a field on each such child leaves behind. */
  function Last(children: seq<Element>, tags: set<string>): (r: Option<Element>)
    ensures r.Some? ==> r.value.tag in tags && r.value in children
    ensures r.None? ==> forall i :: 0 <= i < |children| ==> children[i].tag !in tags
  {
    if children == [] then None
    else if children[|children| - 1].tag in tags then Some(children[|children| - 1])
    else Last(children[..|children| - 1], tags)
  }

  /** A later match overrides every earlier one. */
  lemma {:induction false} LastAppend(a: seq<Element>, b: seq<Element>, tags: set<string>)
    ensures Last(a + b, tags) == if Last(b, tags).Some? then Last(b, tags) else Last(a, tags)
  {
    if b == [] {
      assert a + b == a;
    } else {
      var n := |b|;
      assert (a + b)[|a + b| - 1] == b[n - 1];
      assert (a + b)[..|a + b| - 1] == a + b[..n - 1];
      LastAppend(a, b[..n - 1], tags);
    }
  }

  /** The tag has the given prefix, like `tag.startswith(prefix)`. */
  predicate StartsWith(tag: string, prefix: string)
  {
    prefix <= tag
  }
}
