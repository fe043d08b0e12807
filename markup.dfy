/** The hierarchy document as an already-parsed element tree, and the three
    forward-only reader moves the parser uses on it (ReadToDescendant,
    ReadToNextSibling and a fresh ReadSubtree), written as searches. */
module Markup {

  datatype Option<+T> = None | Some(value: T)

  /** One element of the hierarchy markup: its qualified tag name (such as
      "one:Section"), its attributes, and its child elements in document order. */
  datatype Element = Element(tag: string, attributes: map<string, string>, children: seq<Element>)

  /** XmlReader.GetAttribute: the attribute's value, or null (None) when the
      element does not carry it. */
  function GetAttribute(e: Element, name: string): Option<string>
  {
    if name in e.attributes then Some(e.attributes[name]) else None
  }

  /** A reader position on an element: the element siblings[index], among the
      children of its parent (or among the top-level elements). */
  datatype Cursor = Cursor(siblings: seq<Element>, index: nat) {
    predicate Valid() { index < |siblings| }

    function Current(): Element
      requires Valid()
    {
      siblings[index]
    }
  }

  /** The element a search stopped on, if any. */
  function ElementAt(c: Option<Cursor>): Option<Element>
    requires c.Some? ==> c.value.Valid()
  {
    match c
    case None => None
    case Some(k) => Some(k.Current())
  }

  /** Every element of forest[i..] and of their subtrees, in document order
      (an element before its descendants, its descendants before its next
      sibling). This is the order in which a forward-only reader meets them. */
  function PreorderFrom(forest: seq<Element>, i: nat): seq<Element>
    requires i <= |forest|
    decreases forest, |forest| - i
  {
    if i == |forest| then []
    else [forest[i]] + PreorderFrom(forest[i].children, 0) + PreorderFrom(forest, i + 1)
  }

  /** The first element of s carrying the tag. */
  function FirstTagged(s: seq<Element>, tag: string): (r: Option<Element>)
    ensures r.None? <==> forall k | 0 <= k < |s| :: s[k].tag != tag
    ensures r.Some? ==> exists k | 0 <= k < |s| :: s[k] == r.value && s[k].tag == tag &&
                          forall j | 0 <= j < k :: s[j].tag != tag
  {
    if s == [] then None
    else if s[0].tag == tag then Some(s[0])
    else
      var r := FirstTagged(s[1..], tag);
      assert forall k | 1 <= k < |s| :: s[k] == s[1..][k - 1];
      r
  }

  /** ReadToDescendant(tag), searching forest[i..] and their subtrees in
      document order and stopping on the first element with that tag. */
  function FindFrom(forest: seq<Element>, i: nat, tag: string): (r: Option<Cursor>)
    requires i <= |forest|
    ensures r.Some? ==> r.value.Valid() && r.value.Current().tag == tag
    decreases forest, |forest| - i
  {
    if i == |forest| then None
    else if forest[i].tag == tag then Some(Cursor(forest, i))
    else
      match FindFrom(forest[i].children, 0, tag)
      case Some(c) => Some(c)
      case None => FindFrom(forest, i + 1, tag)
  }

  /** Where ReadToDescendant(tag) over forest[i..] and their subtrees finds
      its element, told by that element's parent: nothing found, an element
      of forest itself, or a child of the element under the cursor. */
  datatype Hit = Missing | TopLevel | Inside(parent: Cursor)

  /** The parent of the element FindFrom(forest, i, tag) stops on. When a
      forward-only reader has visited that element's sibling chain, it is
      left on the end tag of this parent. */
  function ParentOfFirst(forest: seq<Element>, i: nat, tag: string): (r: Hit)
    requires i <= |forest|
    ensures r.Missing? <==> FindFrom(forest, i, tag).None?
    ensures r.TopLevel? ==> FindFrom(forest, i, tag).value.siblings == forest
    ensures r.Inside? ==> r.parent.Valid() && FindFrom(forest, i, tag).value.siblings == r.parent.Current().children
    ensures r.Inside? ==> |PreorderFrom(r.parent.siblings, r.parent.index)| <= |PreorderFrom(forest, i)|
    decreases forest, |forest| - i
  {
    if i == |forest| then Missing
    else if forest[i].tag == tag then TopLevel
    else
      match ParentOfFirst(forest[i].children, 0, tag)
      case TopLevel => Inside(Cursor(forest, i))
      case Inside(p) => Inside(p)
      case Missing => ParentOfFirst(forest, i + 1, tag)
  }

  /** Every later position among the same siblings leaves strictly less of
      the document to read. */
  lemma {:induction false} LaterSiblingLeavesLess(s: seq<Element>, i: nat, j: nat)
    requires i < j <= |s|
    ensures |PreorderFrom(s, j)| < |PreorderFrom(s, i)|
    decreases j - i
  {
    if i + 1 < j {
      LaterSiblingLeavesLess(s, i + 1, j);
    }
  }

  /** ReadToNextSibling(tag): the next element after the cursor's, under the
      same parent, that carries the tag. */
  function NextSibling(c: Cursor, tag: string): (r: Option<Cursor>)
    requires c.Valid()
    ensures r.Some? ==> r.value.siblings == c.siblings && c.index < r.value.index < |c.siblings|
    ensures r.Some? ==> r.value.Current().tag == tag
    ensures r.Some? ==> forall k | c.index < k < r.value.index :: c.siblings[k].tag != tag
    ensures r.None? ==> forall k | c.index < k < |c.siblings| :: c.siblings[k].tag != tag
    decreases |c.siblings| - c.index
  {
    if c.index + 1 == |c.siblings| then None
    else if c.siblings[c.index + 1].tag == tag then Some(Cursor(c.siblings, c.index + 1))
    else NextSibling(Cursor(c.siblings, c.index + 1), tag)
  }

  /** The elements of s that carry the tag, in order. */
  function Tagged(s: seq<Element>, tag: string): seq<Element>
  {
    if s == [] then []
    else (if s[0].tag == tag then [s[0]] else []) + Tagged(s[1..], tag)
  }

  /** The sibling chain a do/ReadToNextSibling loop visits from a cursor that
      is on an element with the tag: that element, then every later sibling
      with the same tag. */
  function Run(c: Cursor, tag: string): seq<Element>
    requires c.Valid()
  {
    [c.Current()] + Tagged(c.siblings[c.index + 1..], tag)
  }

  /** What is left of a sibling chain from an optional position. */
  function RunFrom(c: Option<Cursor>, tag: string): seq<Element>
    requires c.Some? ==> c.value.Valid()
  {
    match c
    case None => []
    case Some(k) => Run(k, tag)
  }

  lemma {:induction false} FirstTaggedAppend(a: seq<Element>, b: seq<Element>, tag: string)
    ensures FirstTagged(a + b, tag) == if FirstTagged(a, tag).Some? then FirstTagged(a, tag) else FirstTagged(b, tag)
  {
    if a != [] {
      assert (a + b)[1..] == a[1..] + b;
      FirstTaggedAppend(a[1..], b, tag);
    } else {
      assert a + b == b;
    }
  }

  /** ReadToDescendant stops on the first element with the tag in document
      order, and finds nothing exactly when no element in document order has
      the tag. */
  lemma {:induction false} FindFromIsFirstInDocumentOrder(forest: seq<Element>, i: nat, tag: string)
    requires i <= |forest|
    ensures ElementAt(FindFrom(forest, i, tag)) == FirstTagged(PreorderFrom(forest, i), tag)
    decreases forest, |forest| - i
  {
    if i < |forest| {
      var e := forest[i];
      var inner := PreorderFrom(e.children, 0);
      var rest := PreorderFrom(forest, i + 1);
      assert PreorderFrom(forest, i) == [e] + (inner + rest);
      FirstTaggedAppend([e], inner + rest, tag);
      if e.tag != tag {
        FindFromIsFirstInDocumentOrder(e.children, 0, tag);
        FindFromIsFirstInDocumentOrder(forest, i + 1, tag);
        FirstTaggedAppend(inner, rest, tag);
      }
    }
  }

  lemma {:induction false} TaggedAppend(a: seq<Element>, b: seq<Element>, tag: string)
    ensures Tagged(a + b, tag) == Tagged(a, tag) + Tagged(b, tag)
  {
    if a == [] {
      assert a + b == b;
    } else {
      var head := if a[0].tag == tag then [a[0]] else [];
      assert (a + b)[0] == a[0] && (a + b)[1..] == a[1..] + b;
      assert Tagged(a + b, tag) == head + Tagged(a[1..] + b, tag);
      TaggedAppend(a[1..], b, tag);
      assert Tagged(a, tag) == head + Tagged(a[1..], tag);
    }
  }

  /** Tagged keeps exactly the elements with the tag, in order. */
  lemma {:induction false} TaggedMembers(s: seq<Element>, tag: string)
    ensures forall e | e in Tagged(s, tag) :: e in s && e.tag == tag
    ensures forall k | 0 <= k < |s| && s[k].tag == tag :: s[k] in Tagged(s, tag)
  {
    if s != [] {
      TaggedMembers(s[1..], tag);
      assert forall k | 1 <= k < |s| :: s[k] == s[1..][k - 1];
    }
  }

  lemma {:induction false} TaggedEmpty(s: seq<Element>, tag: string)
    requires forall k | 0 <= k < |s| :: s[k].tag != tag
    ensures Tagged(s, tag) == []
  {
    if s != [] {
      TaggedEmpty(s[1..], tag);
    }
  }

  /** One ReadToNextSibling step: the chain after a cursor is empty when the
      step finds nothing, and is the chain from the next cursor otherwise. */
  lemma NextSiblingAdvancesRun(c: Cursor, tag: string)
    requires c.Valid()
    ensures Tagged(c.siblings[c.index + 1..], tag) == RunFrom(NextSibling(c, tag), tag)
  {
    var s := c.siblings;
    match NextSibling(c, tag)
    case None =>
      TaggedEmpty(s[c.index + 1..], tag);
    case Some(d) =>
      assert s[c.index + 1..] == s[c.index + 1..d.index] + ([s[d.index]] + s[d.index + 1..]);
      TaggedAppend(s[c.index + 1..d.index], [s[d.index]] + s[d.index + 1..], tag);
      TaggedEmpty(s[c.index + 1..d.index], tag);
      TaggedAppend([s[d.index]], s[d.index + 1..], tag);
      assert Tagged([s[d.index]], tag) == [s[d.index]] by {
        assert [s[d.index]][1..] == [];
      }
  }
}
