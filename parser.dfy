/** NotebookParser: one forward pass over the hierarchy document that reads
    the notebook's nickname and fills the ordered lists of sections and pages. */
module Parser {
  import opened Markup
  import opened Nodes

  const NotebookTag: string := "one:Notebook"
  const SectionTag: string := "one:Section"
  const PageTag: string := "one:Page"

  /** The element ReadToDescendant("one:Notebook") stops on when the reader
      has not moved yet: the first one in the whole document, root included. */
  function NotebookOf(doc: Element): Option<Element>
  {
    ElementAt(FindFrom([doc], 0, NotebookTag))
  }

  /** The sections ParseSectionNodes visits from the notebook element:
      ReadToDescendant("one:Section"), then, after each section's page walk,
      ReadToNextSibling("one:Section") until it finds nothing. */
  function SectionChain(notebook: Element): seq<Element>
  {
    SectionsFrom(FindFrom(notebook.children, 0, SectionTag))
  }

  /** Where ReadToNextSibling("one:Section") goes on from, once the page walk
      over the section at c has moved the shared reader. The walk leaves the
      reader on the end tag of the first page's parent, or on the section
      itself when it holds no page. From an end tag, ReadToNextSibling
      searches the later siblings of that element: the search goes on from
      the page's parent when it lies inside the section, and from the section
      otherwise. */
  function ResumeAt(c: Cursor): (r: Cursor)
    requires c.Valid()
    ensures r.Valid()
    ensures |PreorderFrom(r.siblings, r.index)| <= |PreorderFrom(c.siblings, c.index)|
  {
    match ParentOfFirst(c.Current().children, 0, PageTag)
    case Inside(p) => p
    case _ => c
  }

  /** The sections the do/ReadToNextSibling loop visits from a position on a
      section: that section, then those found from where its page walk left
      the reader. */
  function SectionsFrom(c: Option<Cursor>): seq<Element>
    requires c.Some? ==> c.value.Valid()
    decreases if c.Some? then |PreorderFrom(c.value.siblings, c.value.index)| else 0
  {
    match c
    case None => []
    case Some(k) =>
      ResumeAdvances(k);
      [k.Current()] + SectionsFrom(NextSibling(ResumeAt(k), SectionTag))
  }

  /** Each turn of the section loop leaves strictly less of the document. */
  lemma ResumeAdvances(c: Cursor)
    requires c.Valid()
    ensures 0 < |PreorderFrom(c.siblings, c.index)|
    ensures match NextSibling(ResumeAt(c), SectionTag)
            case None => true
            case Some(d) => |PreorderFrom(d.siblings, d.index)| < |PreorderFrom(c.siblings, c.index)|
  {
    var r := ResumeAt(c);
    match NextSibling(r, SectionTag)
    case None =>
    case Some(d) => LaterSiblingLeavesLess(r.siblings, r.index, d.index);
  }

  /** The section's first page, if it has one, is a child of the section, as
      in the page hierarchy OneNote produces. The page walk then leaves the
      reader at the section's end. */
  predicate PagesAtTop(section: Element)
  {
    !ParentOfFirst(section.children, 0, PageTag).Inside?
  }

  /** The pages ParsePageNodes visits on a fresh ReadSubtree of a section
      (a reader over the section and its descendants): ReadToDescendant("one:Page"),
      then ReadToNextSibling("one:Page") until it finds nothing. */
  function PageChain(section: Element): seq<Element>
  {
    RunFrom(FindFrom([section], 0, PageTag), PageTag)
  }

  /** The sections a first Parse records, in order. */
  function SectionElements(doc: Element): seq<Element>
  {
    match NotebookOf(doc)
    case None => []
    case Some(nb) => SectionChain(nb)
  }

  /** The pages recorded for a run of sections: each section's page chain,
      in section order. */
  function PagesOf(sections: seq<Element>): seq<Element>
  {
    if sections == [] then [] else PageChain(sections[0]) + PagesOf(sections[1..])
  }

  /** One node constructed per element, in order. */
  function NodesOf(es: seq<Element>, slugger: Slugger): seq<Node>
  {
    if es == [] then [] else [NewNode(es[0], slugger)] + NodesOf(es[1..], slugger)
  }

  predicate AllKeyed(ns: seq<Node>)
  {
    forall i | 0 <= i < |ns| :: Keyed(ns[i])
  }

  lemma {:induction false} NodesOfAppend(es: seq<Element>, e: Element, slugger: Slugger)
    ensures NodesOf(es + [e], slugger) == NodesOf(es, slugger) + [NewNode(e, slugger)]
  {
    if es == [] {
      assert NodesOf([e], slugger) == [NewNode(e, slugger)] + NodesOf([], slugger);
    } else {
      assert (es + [e])[1..] == es[1..] + [e];
      NodesOfAppend(es[1..], e, slugger);
    }
  }

  /** Appending one constructed node keeps every node keyed. */
  lemma AppendKeyed(ns: seq<Node>, e: Element, slugger: Slugger)
    requires AllKeyed(ns)
    ensures AllKeyed(ns + [NewNode(e, slugger)])
  {
  }

  class NotebookParser {
    /** The sections, in the order they were visited. */
    var sections: seq<Node>
    /** The pages, section by section. */
    var pages: seq<Node>
    /** The notebook's nickname attribute; null until Parse finds the notebook. */
    var displayname: Value
    /** The raw hierarchy markup. */
    const xml: string
    /** The hierarchy markup as the reader sees it. */
    const document: Element
    /** UrlSlugger.ToUrlSlug. */
    const slugger: Slugger
    /** Whether the forward-only reader over the document has been used. */
    var readerUsed: bool

    ghost predicate Valid()
      reads this
    {
      AllKeyed(sections) && AllKeyed(pages)
    }

    /** NotebookParser(xml) once the markup is known: empty lists, no display
        name, a reader at the start of the document. */
    constructor (xml: string, document: Element, slugger: Slugger)
      ensures Valid()
      ensures this.xml == xml && this.document == document && this.slugger == slugger
      ensures sections == [] && pages == [] && displayname == None && !readerUsed
    {
      this.xml := xml;
      this.document := document;
      this.slugger := slugger;
      sections := [];
      pages := [];
      displayname := None;
      readerUsed := false;
    }

    method Parse()
      requires Valid()
      modifies this
      ensures Valid() && readerUsed
      ensures old(readerUsed) ==>
        sections == old(sections) && pages == old(pages) && displayname == old(displayname)
      ensures !old(readerUsed) ==>
        && displayname == (match NotebookOf(document)
                           case Some(nb) => GetAttribute(nb, "nickname")
                           case None => old(displayname))
        && sections == old(sections) + NodesOf(SectionElements(document), slugger)
        && pages == old(pages) + NodesOf(PagesOf(SectionElements(document)), slugger)
    {
      ParseNotebookNode();
    }

    method ParseNotebookNode()
      requires Valid()
      modifies this
      ensures Valid() && readerUsed
      ensures old(readerUsed) ==>
        sections == old(sections) && pages == old(pages) && displayname == old(displayname)
      ensures !old(readerUsed) ==>
        && displayname == (match NotebookOf(document)
                           case Some(nb) => GetAttribute(nb, "nickname")
                           case None => old(displayname))
        && sections == old(sections) + NodesOf(SectionElements(document), slugger)
        && pages == old(pages) + NodesOf(PagesOf(SectionElements(document)), slugger)
    {
      // A reader that has already been moved past the notebook finds nothing.
      var notebook := if readerUsed then None else FindFrom([document], 0, NotebookTag);
      readerUsed := true;
      if notebook.Some? {
        var nb := notebook.value.Current();
        displayname := GetAttribute(nb, "nickname");
        ParseSectionNodes(nb);
      }
    }

    method ParseSectionNodes(notebook: Element)
      requires Valid()
      modifies this`sections, this`pages
      ensures Valid()
      ensures sections == old(sections) + NodesOf(SectionChain(notebook), slugger)
      ensures pages == old(pages) + NodesOf(PagesOf(SectionChain(notebook)), slugger)
    {
      var section := FindFrom(notebook.children, 0, SectionTag);
      ghost var done: seq<Element> := [];
      while section.Some?
        invariant section.Some? ==> section.value.Valid()
        invariant done + SectionsFrom(section) == SectionChain(notebook)
        invariant sections == old(sections) + NodesOf(done, slugger)
        invariant pages == old(pages) + NodesOf(PagesOf(done), slugger)
        invariant Valid()
        decreases if section.Some? then |PreorderFrom(section.value.siblings, section.value.index)| else 0
      {
        var c := section.value;
        var s := c.Current();
        ParsePageNodes(s);
        // The page walk has moved the shared reader; the next search starts there.
        var resume := ResumeAt(c);
        AppendKeyed(sections, s, slugger);
        sections := sections + [NewNode(s, slugger)];
        ResumeAdvances(c);
        AppendAssoc(done, [s], SectionsFrom(NextSibling(resume, SectionTag)));
        assert sections == old(sections) + NodesOf(done + [s], slugger) by {
          NodesOfAppend(done, s, slugger);
          AppendAssoc(old(sections), NodesOf(done, slugger), [NewNode(s, slugger)]);
        }
        assert pages == old(pages) + NodesOf(PagesOf(done + [s]), slugger) by {
          PageNodesStep(done, s, slugger);
          AppendAssoc(old(pages), NodesOf(PagesOf(done), slugger), NodesOf(PageChain(s), slugger));
        }
        done := done + [s];
        section := NextSibling(resume, SectionTag);
      }
      assert done + SectionsFrom(section) == done;
    }

    method ParsePageNodes(section: Element)
      requires Valid()
      modifies this`pages
      ensures Valid()
      ensures pages == old(pages) + NodesOf(PageChain(section), slugger)
    {
      var page := FindFrom([section], 0, PageTag);
      ghost var done: seq<Element> := [];
      while page.Some?
        invariant page.Some? ==> page.value.Valid()
        invariant done + RunFrom(page, PageTag) == PageChain(section)
        invariant pages == old(pages) + NodesOf(done, slugger)
        invariant Valid()
        decreases if page.Some? then |page.value.siblings| - page.value.index else 0
      {
        var c := page.value;
        AppendKeyed(pages, c.Current(), slugger);
        pages := pages + [NewNode(c.Current(), slugger)];
        ChainStep(done, c, PageTag);
        NodesOfAppend(done, c.Current(), slugger);
        done := done + [c.Current()];
        page := NextSibling(c, PageTag);
      }
      assert done + RunFrom(page, PageTag) == done;
    }
  }

  /** One turn of a do/ReadToNextSibling loop moves the current element from
      the rest of the chain to the visited part. */
  lemma ChainStep(done: seq<Element>, c: Cursor, tag: string)
    requires c.Valid()
    ensures done + RunFrom(Some(c), tag) == (done + [c.Current()]) + RunFrom(NextSibling(c, tag), tag)
  {
    NextSiblingAdvancesRun(c, tag);
  }

  lemma AppendAssoc<T>(a: seq<T>, b: seq<T>, c: seq<T>)
    ensures (a + b) + c == a + (b + c)
  {
  }

  /** Visiting one more section appends the nodes of its page chain. */
  lemma PageNodesStep(done: seq<Element>, s: Element, slugger: Slugger)
    ensures NodesOf(PagesOf(done + [s]), slugger) == NodesOf(PagesOf(done), slugger) + NodesOf(PageChain(s), slugger)
  {
    PagesOfAppend(done, s);
    NodesOfConcat(PagesOf(done), PageChain(s), slugger);
  }

  lemma {:induction false} NodesOfConcat(a: seq<Element>, b: seq<Element>, slugger: Slugger)
    ensures NodesOf(a + b, slugger) == NodesOf(a, slugger) + NodesOf(b, slugger)
  {
    if a == [] {
      assert a + b == b;
    } else {
      assert (a + b)[1..] == a[1..] + b;
      NodesOfConcat(a[1..], b, slugger);
    }
  }

  /** Appending a section appends its page chain: the pages list is the
      concatenation of the sections' page chains, in section order. */
  lemma {:induction false} PagesOfAppend(ss: seq<Element>, s: Element)
    ensures PagesOf(ss + [s]) == PagesOf(ss) + PageChain(s)
  {
    if ss == [] {
      assert PagesOf([s]) == PageChain(s) + PagesOf([]);
    } else {
      assert (ss + [s])[1..] == ss[1..] + [s];
      PagesOfAppend(ss[1..], s);
    }
  }

  /** Parse finds no notebook exactly when no element of the document is a
      one:Notebook element; then it records no section and no page. */
  lemma NoNotebookNoSections(doc: Element)
    ensures NotebookOf(doc).None? <==> forall e | e in PreorderFrom([doc], 0) :: e.tag != NotebookTag
    ensures NotebookOf(doc).None? ==> SectionElements(doc) == [] && PagesOf(SectionElements(doc)) == []
  {
    FindFromIsFirstInDocumentOrder([doc], 0, NotebookTag);
    var s := PreorderFrom([doc], 0);
    assert (forall e | e in s :: e.tag != NotebookTag) <==> (forall k | 0 <= k < |s| :: s[k].tag != NotebookTag);
  }

  /** The notebook Parse reads is the first one:Notebook element in document
      order. */
  lemma NotebookIsFirstInDocument(doc: Element)
    ensures NotebookOf(doc) == FirstTagged(PreorderFrom([doc], 0), NotebookTag)
  {
    FindFromIsFirstInDocumentOrder([doc], 0, NotebookTag);
  }

  /** The section chain is empty exactly when the notebook has no section
      descendant; otherwise it starts at the first one in document order, and
      every member is a section. When every section from the first one on
      keeps its pages at its top level, the chain is the first section and
      every later section sibling of it. */
  lemma SectionChainShape(notebook: Element)
    ensures SectionChain(notebook) == [] <==>
      forall e | e in PreorderFrom(notebook.children, 0) :: e.tag != SectionTag
    ensures SectionChain(notebook) != [] ==>
      Some(SectionChain(notebook)[0]) == FirstTagged(PreorderFrom(notebook.children, 0), SectionTag)
    ensures forall e | e in SectionChain(notebook) :: e.tag == SectionTag
    ensures match FindFrom(notebook.children, 0, SectionTag)
            case None => true
            case Some(c) =>
              (forall k | c.index <= k < |c.siblings| && c.siblings[k].tag == SectionTag :: PagesAtTop(c.siblings[k])) ==>
                && SectionChain(notebook) == Run(c, SectionTag)
                && forall k | c.index <= k < |c.siblings| && c.siblings[k].tag == SectionTag ::
                     c.siblings[k] in SectionChain(notebook)
  {
    var f := FindFrom(notebook.children, 0, SectionTag);
    ChainStart(notebook.children, SectionTag);
    SectionsFromTagged(f);
    match f
    case None =>
    case Some(c) =>
      if forall k | c.index <= k < |c.siblings| && c.siblings[k].tag == SectionTag :: PagesAtTop(c.siblings[k]) {
        SectionsFromRun(c);
        RunMembers(c, SectionTag);
      }
  }

  /** Every position the section loop stops on holds a section. */
  lemma {:induction false} SectionsFromTagged(c: Option<Cursor>)
    requires c.Some? ==> c.value.Valid() && c.value.Current().tag == SectionTag
    ensures forall e | e in SectionsFrom(c) :: e.tag == SectionTag
    decreases if c.Some? then |PreorderFrom(c.value.siblings, c.value.index)| else 0
  {
    match c
    case None =>
    case Some(k) =>
      ResumeAdvances(k);
      SectionsFromTagged(NextSibling(ResumeAt(k), SectionTag));
  }

  /** When every section from c on keeps its pages at its top level, each page
      walk leaves the reader at its section's end, and the loop visits the
      plain sibling chain. */
  lemma {:induction false} SectionsFromRun(c: Cursor)
    requires c.Valid() && c.Current().tag == SectionTag
    requires forall k | c.index <= k < |c.siblings| && c.siblings[k].tag == SectionTag :: PagesAtTop(c.siblings[k])
    ensures SectionsFrom(Some(c)) == Run(c, SectionTag)
    decreases |c.siblings| - c.index
  {
    assert ResumeAt(c) == c;
    NextSiblingAdvancesRun(c, SectionTag);
    match NextSibling(c, SectionTag)
    case None =>
    case Some(d) => SectionsFromRun(d);
  }

  /** A section whose first page sits one level down leaves the reader inside
      the section, so the next ReadToNextSibling("one:Section") meets the
      section's end tag and the loop ends: a later section is not visited. */
  lemma NestedFirstPageEndsSectionLoop()
    ensures var p := Element(PageTag, map[], []);
            var g := Element("G", map[], [p]);
            var s1 := Element(SectionTag, map["ID" := "{A}"], [g]);
            var s2 := Element(SectionTag, map["ID" := "{B}"], []);
            var nb := Element(NotebookTag, map[], [s1, s2]);
            && !PagesAtTop(s1)
            && SectionChain(nb) == [s1]
            && PageChain(s1) == [p]
  {
    var p := Element(PageTag, map[], []);
    var g := Element("G", map[], [p]);
    var s1 := Element(SectionTag, map["ID" := "{A}"], [g]);
    var s2 := Element(SectionTag, map["ID" := "{B}"], []);
    var nb := Element(NotebookTag, map[], [s1, s2]);
    assert g.tag != PageTag && g.tag != SectionTag by { assert |g.tag| == 1; }
    assert SectionTag != PageTag by { assert SectionTag[4] != PageTag[4]; }
    assert FindFrom([s1, s2], 0, SectionTag) == Some(Cursor([s1, s2], 0));
    assert ParentOfFirst([p], 0, PageTag) == TopLevel;
    assert ParentOfFirst([g], 0, PageTag) == Inside(Cursor([g], 0));
    assert ResumeAt(Cursor([s1, s2], 0)) == Cursor([g], 0);
    assert NextSibling(Cursor([g], 0), SectionTag) == None;
    assert SectionsFrom(Some(Cursor([s1, s2], 0))) == [s1] + SectionsFrom(None);
    assert FindFrom([p], 0, PageTag) == Some(Cursor([p], 0));
    assert FindFrom([g], 0, PageTag) == Some(Cursor([p], 0));
    assert FindFrom([s1], 0, PageTag) == Some(Cursor([p], 0));
    assert Tagged([p][1..], PageTag) == [];
  }

  /** A section's page chain is empty exactly when the section has no page
      descendant; otherwise it starts at the first one in document order, every
      member is a page, and every later page sibling of the first one is in it. */
  lemma PageChainShape(section: Element)
    requires section.tag == SectionTag
    ensures PageChain(section) == [] <==>
      forall e | e in PreorderFrom(section.children, 0) :: e.tag != PageTag
    ensures PageChain(section) != [] ==>
      Some(PageChain(section)[0]) == FirstTagged(PreorderFrom(section.children, 0), PageTag)
    ensures forall e | e in PageChain(section) :: e.tag == PageTag
    ensures match FindFrom(section.children, 0, PageTag)
            case None => true
            case Some(c) => forall k | c.index <= k < |c.siblings| && c.siblings[k].tag == PageTag ::
                              c.siblings[k] in PageChain(section)
  {
    // The fresh subtree reader starts on the section itself, which is no page.
    assert FindFrom([section], 0, PageTag) == FindFrom(section.children, 0, PageTag) by {
      assert FindFrom([section], 1, PageTag) == None;
    }
    ChainShape(section.children, PageTag);
  }

  lemma ChainShape(forest: seq<Element>, tag: string)
    ensures RunFrom(FindFrom(forest, 0, tag), tag) == [] <==>
      forall e | e in PreorderFrom(forest, 0) :: e.tag != tag
    ensures RunFrom(FindFrom(forest, 0, tag), tag) != [] ==>
      Some(RunFrom(FindFrom(forest, 0, tag), tag)[0]) == FirstTagged(PreorderFrom(forest, 0), tag)
    ensures forall e | e in RunFrom(FindFrom(forest, 0, tag), tag) :: e.tag == tag
    ensures match FindFrom(forest, 0, tag)
            case None => true
            case Some(c) => forall k | c.index <= k < |c.siblings| && c.siblings[k].tag == tag ::
                              c.siblings[k] in RunFrom(FindFrom(forest, 0, tag), tag)
  {
    ChainStart(forest, tag);
    match FindFrom(forest, 0, tag)
    case None =>
    case Some(c) => RunMembers(c, tag);
  }

  /** Where a chain starts: nowhere when no element has the tag, else at the
      first one in document order. */
  lemma ChainStart(forest: seq<Element>, tag: string)
    ensures RunFrom(FindFrom(forest, 0, tag), tag) == [] <==>
      forall e | e in PreorderFrom(forest, 0) :: e.tag != tag
    ensures RunFrom(FindFrom(forest, 0, tag), tag) != [] ==>
      Some(RunFrom(FindFrom(forest, 0, tag), tag)[0]) == FirstTagged(PreorderFrom(forest, 0), tag)
  {
    FindFromIsFirstInDocumentOrder(forest, 0, tag);
    var s := PreorderFrom(forest, 0);
    assert (forall e | e in s :: e.tag != tag) <==> (forall k | 0 <= k < |s| :: s[k].tag != tag);
  }

  /** A chain holds only elements with the tag, and every sibling after its
      start that has the tag. */
  lemma RunMembers(c: Cursor, tag: string)
    requires c.Valid() && c.Current().tag == tag
    ensures forall e | e in Run(c, tag) :: e.tag == tag
    ensures forall k | c.index <= k < |c.siblings| && c.siblings[k].tag == tag :: c.siblings[k] in Run(c, tag)
  {
    var after := c.siblings[c.index + 1..];
    TaggedMembers(after, tag);
    forall k | c.index < k < |c.siblings| && c.siblings[k].tag == tag
      ensures c.siblings[k] in Tagged(after, tag)
    {
      assert after[k - c.index - 1] == c.siblings[k];
    }
  }

  /** A node the reader can stand on: an element's start tag, or the end tag
      of an element with the given name. */
  datatype ReaderNode = StartTag(element: Element) | EndTag(tag: string)

  /** The node the shared reader is on once the page walk over a section's
      subtree is over: the end tag of the first page's parent, the section's
      end tag when it holds no page, and its start tag when it has no child
      element at all (such a section is taken to be written as an empty
      element, which the subtree reader leaves without moving the reader). */
  function AfterPageWalk(section: Element): ReaderNode
  {
    match ParentOfFirst(section.children, 0, PageTag)
    case Inside(p) => EndTag(p.Current().tag)
    case TopLevel => EndTag(section.tag)
    case Missing => if section.children == [] then StartTag(section) else EndTag(section.tag)
  }

  /** The attributes GetAttribute sees on a node: the element's own on a start
      tag, none on an end tag. */
  function AttributesSeen(n: ReaderNode): Element
  {
    match n
    case StartTag(e) => e
    case EndTag(t) => Element(t, map[], [])
  }

  /** new NotebookSection(hierarchy) as written: the node is constructed after
      the page walk, from wherever that walk left the reader. */
  function SectionNodeAsWritten(section: Element, slugger: Slugger): Node
  {
    NewNode(AttributesSeen(AfterPageWalk(section)), slugger)
  }

  /** As written, a section with child elements gets a node with a null ID
      and name and the slug of null; only a section with no child element
      keeps its own attributes. */
  lemma AsWrittenSectionHeadersAreNull(section: Element, slugger: Slugger)
    ensures section.children != [] ==>
      && Get(SectionNodeAsWritten(section, slugger).header, "ID") == None
      && Get(SectionNodeAsWritten(section, slugger).header, "name") == None
      && Get(SectionNodeAsWritten(section, slugger).header, "slug") == Some(slugger(None))
    ensures section.children != [] && "ID" in section.attributes ==>
      Get(SectionNodeAsWritten(section, slugger).header, "ID") != Get(NewNode(section, slugger).header, "ID")
    ensures section.children == [] ==> SectionNodeAsWritten(section, slugger) == NewNode(section, slugger)
  {
  }

  /** Pages made in sections that hold only pages are all collected: the
      common shape of a hierarchy loses no page and repeats none. */
  lemma FlatSectionKeepsEveryPage(section: Element)
    requires section.tag == SectionTag
    requires forall k | 0 <= k < |section.children| :: section.children[k].tag == PageTag
    ensures PageChain(section) == section.children
  {
    var ch := section.children;
    assert SectionTag != PageTag by { assert SectionTag[4] != PageTag[4]; }
    if ch == [] {
      assert FindFrom([section], 1, PageTag) == None;
      assert FindFrom(ch, 0, PageTag) == None;
      assert FindFrom([section], 0, PageTag) == None;
    } else {
      assert FindFrom(ch, 0, PageTag) == Some(Cursor(ch, 0));
      assert FindFrom([section], 0, PageTag) == Some(Cursor(ch, 0));
      TaggedAll(ch[1..], PageTag);
      assert ch == [ch[0]] + ch[1..];
    }
  }

  /** Sections that are all children of the notebook, each with its pages at
      its top level, are all collected. */
  lemma FlatNotebookKeepsEverySection(notebook: Element)
    requires forall k | 0 <= k < |notebook.children| :: notebook.children[k].tag == SectionTag
    requires forall k | 0 <= k < |notebook.children| :: PagesAtTop(notebook.children[k])
    ensures SectionChain(notebook) == notebook.children
  {
    var ch := notebook.children;
    if ch != [] {
      assert FindFrom(ch, 0, SectionTag) == Some(Cursor(ch, 0));
      SectionsFromRun(Cursor(ch, 0));
      TaggedAll(ch[1..], SectionTag);
      assert ch == [ch[0]] + ch[1..];
    }
  }

  lemma {:induction false} TaggedAll(s: seq<Element>, tag: string)
    requires forall k | 0 <= k < |s| :: s[k].tag == tag
    ensures Tagged(s, tag) == s
  {
    if s != [] {
      TaggedAll(s[1..], tag);
    }
  }

  /** A notebook whose first section holds two pages and whose second
      section holds none: two sections, two pages, both from the first. */
  lemma TwoSectionsTwoPagesExample()
    ensures var p1 := Element(PageTag, map["ID" := "{A}{P1}", "name" := "One"], []);
            var p2 := Element(PageTag, map["ID" := "{A}{P2}", "name" := "Two"], []);
            var s1 := Element(SectionTag, map["ID" := "{A}", "name" := "First"], [p1, p2]);
            var s2 := Element(SectionTag, map["ID" := "{B}", "name" := "Second"], []);
            var doc := Element(NotebookTag, map["nickname" := "Notes"], [s1, s2]);
            && SectionElements(doc) == [s1, s2]
            && PagesOf(SectionElements(doc)) == [p1, p2]
            && PageChain(s1) == [p1, p2] && PageChain(s2) == []
  {
    var p1 := Element(PageTag, map["ID" := "{A}{P1}", "name" := "One"], []);
    var p2 := Element(PageTag, map["ID" := "{A}{P2}", "name" := "Two"], []);
    var s1 := Element(SectionTag, map["ID" := "{A}", "name" := "First"], [p1, p2]);
    var s2 := Element(SectionTag, map["ID" := "{B}", "name" := "Second"], []);
    var doc := Element(NotebookTag, map["nickname" := "Notes"], [s1, s2]);
    assert FindFrom([doc], 0, NotebookTag) == Some(Cursor([doc], 0));
    assert ParentOfFirst([p1, p2], 0, PageTag) == TopLevel;
    assert PagesAtTop(s1) && PagesAtTop(s2);
    FlatNotebookKeepsEverySection(doc);
    FlatSectionKeepsEveryPage(s1);
    FlatSectionKeepsEveryPage(s2);
    assert PagesOf([s1, s2]) == PageChain(s1) + PagesOf([s2]);
    assert PagesOf([s2]) == PageChain(s2) + PagesOf([]);
  }

  /** The page loop follows siblings only: a page nested one level deeper
      than the section's first page is not recorded. */
  lemma NestedPageIsSkipped()
    ensures var p1 := Element(PageTag, map[], []);
            var p2 := Element(PageTag, map[], []);
            var group := Element("one:PageGroup", map[], [p2]);
            var s := Element(SectionTag, map[], [p1, group]);
            PageChain(s) == [p1] && p2 in PreorderFrom(s.children, 0)
  {
    var p1 := Element(PageTag, map[], []);
    var p2 := Element(PageTag, map[], []);
    var group := Element("one:PageGroup", map[], [p2]);
    var s := Element(SectionTag, map[], [p1, group]);
    assert SectionTag != PageTag by { assert SectionTag[4] != PageTag[4]; }
    assert group.tag != PageTag by { assert |group.tag| != |PageTag|; }
    assert FindFrom([s], 0, PageTag) == Some(Cursor([p1, group], 0));
    assert [p1, group][1..] == [group];
    assert Tagged([group], PageTag) == [] by {
      assert [group][1..] == [];
    }
    assert PreorderFrom(s.children, 0) == [p1] + PreorderFrom([], 0) + PreorderFrom(s.children, 1);
    assert PreorderFrom(s.children, 1) == [group] + PreorderFrom([p2], 0) + PreorderFrom(s.children, 2);
    assert PreorderFrom([p2], 0) == [p2] + PreorderFrom([], 0) + PreorderFrom([p2], 1);
  }
}
