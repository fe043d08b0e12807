/** NotebookNode and its header dictionary: the ID, name and slug of a
    section or page, read from the element's attributes. */
module Nodes {
  import opened Markup

  /** A .NET string, which may be null (None). */
  type Value = Option<string>

  /** UrlSlugger.ToUrlSlug, whose definition is not part of this model. */
  type Slugger = Value -> string

  datatype Error = NullReference | ArgumentOutOfRange

  datatype Result<+T> = Ok(value: T) | Err(error: Error)

  datatype Entry = Entry(key: string, value: Value)

  /** A Dictionary<string, string> as the sequence of its entries in
      enumeration order; each key occurs once. */
  type Header = seq<Entry>

  function Keys(h: Header): (ks: seq<string>)
    ensures |ks| == |h| && forall i | 0 <= i < |h| :: ks[i] == h[i].key
  {
    if h == [] then [] else [h[0].key] + Keys(h[1..])
  }

  predicate UniqueKeys(h: Header)
  {
    forall i, j | 0 <= i < j < |h| :: h[i].key != h[j].key
  }

  /** The dictionary's indexer read, header[key]; it throws
      KeyNotFoundException on an absent key, hence the precondition. */
  function Get(h: Header, key: string): Value
    requires key in Keys(h)
  {
    if h[0].key == key then h[0].value
    else
      assert Keys(h) == [h[0].key] + Keys(h[1..]);
      Get(h[1..], key)
  }

  /** With unique keys, the indexer read gives the value of the one entry
      with the key: an entry is in the header exactly when its key is present
      and reading the key gives its value. */
  lemma {:induction false} GetIsTheEntry(h: Header, key: string, value: Value)
    requires UniqueKeys(h)
    ensures Entry(key, value) in h <==> key in Keys(h) && Get(h, key) == value
  {
    if h != [] {
      TailKeys(h);
      GetIsTheEntry(h[1..], key, value);
      assert Entry(key, value) in h <==> h[0] == Entry(key, value) || Entry(key, value) in h[1..];
    }
  }

  /** The dictionary's indexer write, header[key] = value: it replaces the
      value of an existing key in place and adds a new key at the end. */
  function Put(h: Header, key: string, value: Value): (r: Header)
    requires UniqueKeys(h)
    ensures UniqueKeys(r)
    ensures key in Keys(h) ==> Keys(r) == Keys(h)
    ensures key !in Keys(h) ==> Keys(r) == Keys(h) + [key]
  {
    if h == [] then
      assert Keys([Entry(key, value)]) == [key] by { ConsKeys(Entry(key, value), []); }
      [Entry(key, value)]
    else
      TailKeys(h);
      if h[0].key == key then
        ConsKeys(Entry(key, value), h[1..]);
        ConsUnique(Entry(key, value), h[1..]);
        [Entry(key, value)] + h[1..]
      else
        var t := Put(h[1..], key, value);
        ConsKeys(h[0], t);
        ConsUnique(h[0], t);
        [h[0]] + t
  }

  lemma ConsKeys(x: Entry, t: Header)
    ensures Keys([x] + t) == [x.key] + Keys(t)
  {
    assert ([x] + t)[1..] == t;
  }

  lemma ConsUnique(x: Entry, t: Header)
    requires UniqueKeys(t) && x.key !in Keys(t)
    ensures UniqueKeys([x] + t)
  {
    var r := [x] + t;
    forall i, j | 0 <= i < j < |r| ensures r[i].key != r[j].key {
      assert r[j] == t[j - 1];
      if i > 0 {
        assert r[i] == t[i - 1];
      } else {
        assert Keys(t)[j - 1] == t[j - 1].key;
      }
    }
  }

  /** The tail of a header keeps unique keys, and its keys are the rest of
      the header's keys, none equal to the first. */
  lemma TailKeys(h: Header)
    requires UniqueKeys(h) && h != []
    ensures UniqueKeys(h[1..])
    ensures Keys(h) == [h[0].key] + Keys(h[1..])
    ensures h[0].key !in Keys(h[1..])
  {
    assert forall j | 0 <= j < |h| - 1 :: h[1..][j] == h[j + 1];
  }

  /** Reading a key back after writing it gives the written value, and every
      other key keeps its value. */
  lemma {:induction false} PutThenGet(h: Header, key: string, value: Value, other: string)
    requires UniqueKeys(h)
    ensures Get(Put(h, key, value), key) == value
    ensures other in Keys(h) && other != key ==> Get(Put(h, key, value), other) == Get(h, other)
  {
    if h != [] && h[0].key != key {
      TailKeys(h);
      PutThenGet(h[1..], key, value, other);
      var r := Put(h, key, value);
      assert r[1..] == Put(h[1..], key, value);
    }
  }

  /** A section (NotebookSection) or a page (NotebookPage): only its header
      carries data. */
  datatype Node = Node(header: Header)

  /** The three header keys every node is constructed with, in the order
      they are first written. */
  const HeaderKeys: seq<string> := ["ID", "name", "slug"]

  predicate Keyed(n: Node)
  {
    UniqueKeys(n.header) && Keys(n.header) == HeaderKeys
  }

  /** A node built by the NotebookNode constructor on a fresh header: the
      element's raw ID and name, and the slug of that name, in the order the
      constructor writes them. */
  function NewNode(e: Element, slugger: Slugger): (n: Node)
    ensures Keyed(n)
    ensures Get(n.header, "ID") == GetAttribute(e, "ID")
    ensures Get(n.header, "name") == GetAttribute(e, "name")
    ensures Get(n.header, "slug") == Some(slugger(GetAttribute(e, "name")))
  {
    var name := GetAttribute(e, "name");
    var n := Node([Entry("ID", GetAttribute(e, "ID")), Entry("name", name), Entry("slug", Some(slugger(name)))]);
    assert Keys(n.header) == HeaderKeys;
    var tail := n.header[1..];
    assert tail[1..] == [Entry("slug", Some(slugger(name)))];
    assert Get(tail[1..], "slug") == Some(slugger(name));
    assert Get(tail, "slug") == Get(tail[1..], "slug");
    n
  }

  /** The NotebookNode constructor as written, given the header dictionary
      it finds (None when the auto-property was never assigned):
      header["ID"] and header["name"] from the attributes, then
      header["slug"] = ToUrlSlug(header["name"]). */
  function NewNodeAsWritten(e: Element, slugger: Slugger, header: Option<Header>): (r: Result<Node>)
    requires header.Some? ==> UniqueKeys(header.value)
    ensures header.None? <==> r == Err(NullReference)
    ensures r.Ok? ==> UniqueKeys(r.value.header) && "ID" in Keys(r.value.header) && "name" in Keys(r.value.header) && "slug" in Keys(r.value.header)
    ensures r.Ok? ==>
      && Get(r.value.header, "ID") == GetAttribute(e, "ID")
      && Get(r.value.header, "name") == GetAttribute(e, "name")
      && Get(r.value.header, "slug") == Some(slugger(GetAttribute(e, "name")))
  {
    match header
    case None => Err(NullReference)
    case Some(h) =>
      var h1 := Put(h, "ID", GetAttribute(e, "ID"));
      var h2 := Put(h1, "name", GetAttribute(e, "name"));
      var h3 := Put(h2, "slug", Some(slugger(Get(h2, "name"))));
      ThreeWrites(h, GetAttribute(e, "ID"), GetAttribute(e, "name"), slugger);
      Ok(Node(h3))
  }

  /** The constructor's three indexer writes on any header with unique keys:
      each key then reads back the value written to it. */
  lemma ThreeWrites(h: Header, id: Value, name: Value, slugger: Slugger)
    requires UniqueKeys(h)
    ensures var h1 := Put(h, "ID", id);
            var h2 := Put(h1, "name", name);
            var h3 := Put(h2, "slug", Some(slugger(Get(h2, "name"))));
            && UniqueKeys(h3) && "ID" in Keys(h3) && "name" in Keys(h3) && "slug" in Keys(h3)
            && Get(h3, "ID") == id && Get(h3, "name") == name && Get(h3, "slug") == Some(slugger(name))
  {
    var h1 := Put(h, "ID", id);
    var h2 := Put(h1, "name", name);
    PutThenGet(h, "ID", id, "ID");
    PutThenGet(h1, "name", name, "ID");
    var h3 := Put(h2, "slug", Some(slugger(Get(h2, "name"))));
    PutThenGet(h2, "slug", Some(slugger(Get(h2, "name"))), "ID");
    PutThenGet(h2, "slug", Some(slugger(Get(h2, "name"))), "name");
  }

  /** The constructor's three indexer writes, on a fresh (empty) dictionary,
      build exactly NewNode: the raw ID, the raw name and the slug of the
      name, in that order. */
  lemma ConstructorWritesFreshHeader(e: Element, slugger: Slugger)
    ensures NewNodeAsWritten(e, slugger, Some([])) == Ok(NewNode(e, slugger))
  {
    var id := GetAttribute(e, "ID");
    var name := GetAttribute(e, "name");
    var h1 := [Entry("ID", id)];
    var h2 := [Entry("ID", id), Entry("name", name)];
    var h3 := [Entry("ID", id), Entry("name", name), Entry("slug", Some(slugger(name)))];
    assert Put([], "ID", id) == h1 by {
      PutNewKeyAppends([], "ID", id);
      assert [] + [Entry("ID", id)] == h1;
    }
    assert Put(h1, "name", name) == h2 by {
      assert Keys(h1) == ["ID"];
      PutNewKeyAppends(h1, "name", name);
      assert h1 + [Entry("name", name)] == h2;
    }
    assert Get(h2, "name") == name by {
      assert h2[1..] == [Entry("name", name)];
    }
    assert Put(h2, "slug", Some(slugger(name))) == h3 by {
      assert Keys(h2) == ["ID", "name"];
      PutNewKeyAppends(h2, "slug", Some(slugger(name)));
      assert h2 + [Entry("slug", Some(slugger(name)))] == h3;
    }
  }

  /** Writing a key the dictionary does not hold adds it at the end. */
  lemma {:induction false} PutNewKeyAppends(h: Header, key: string, value: Value)
    requires UniqueKeys(h) && key !in Keys(h)
    ensures Put(h, key, value) == h + [Entry(key, value)]
  {
    if h != [] {
      TailKeys(h);
      assert h[0].key != key && key !in Keys(h[1..]);
      PutNewKeyAppends(h[1..], key, value);
      assert Put(h, key, value) == [h[0]] + (h[1..] + [Entry(key, value)]);
      assert h + [Entry(key, value)] == [h[0]] + (h[1..] + [Entry(key, value)]);
    }
  }

  /** Because the header auto-property is never assigned, constructing any
      node as written throws NullReferenceException, whatever the element. */
  lemma HeaderNeverInitialisedThrows(e: Element, slugger: Slugger)
    ensures NewNodeAsWritten(e, slugger, None) == Err(NullReference)
    ensures NewNodeAsWritten(e, slugger, None) != Ok(NewNode(e, slugger))
  {
  }
}
