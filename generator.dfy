/** NotebookGenerator: the output root, one directory per section, and one
    front-matter file per page, over an abstract file system. */
module Generator {
  import opened Markup
  import opened Nodes
  import opened Parser
  import opened FrontMatter

  const DefaultJekyllRoot: string := "C:\\Users\\bsms4079\\Documents\\GitHub\\labradox-onenote\\Setup\\Debug\\"
  const DefaultCollection: string := "notes"

  /** The output root @"{0}\_{1}\{2}" of jekyllroot, collectionname and the
      notebook's display name. */
  function OutputPath(jekyllroot: string, collectionname: string, displayname: Value): (r: string)
    ensures |r| == |jekyllroot| + |collectionname| + |Show(displayname)| + 3
    ensures r[..|jekyllroot|] == jekyllroot
    ensures r[|r| - |Show(displayname)|..] == Show(displayname)
  {
    jekyllroot + "\\_" + collectionname + "\\" + Show(displayname)
  }

  /** The output root as the constructor computes it: before Parse can run,
      while displayname is still null. */
  function PathAtConstruction(jekyllroot: string, collectionname: string): string
  {
    OutputPath(jekyllroot, collectionname, None)
  }

  function XmlFileName(path: string): string
  {
    path + "\\" + "notebook.xml"
  }

  function SectionDir(path: string, slug: string): string
  {
    path + "\\" + slug
  }

  /** The file name stem @"{0}\{1}\{2}" of a page: output root, section slug,
      page slug. */
  function PageFileStem(path: string, sectionSlug: string, pageSlug: string): string
  {
    path + "\\" + sectionSlug + "\\" + pageSlug
  }

  /** WriteYAML as written, or with its two defects corrected. */
  datatype Variant = AsWritten | Corrected

  /** string.Format("%s.yaml", filename) has no {0} placeholder, so as written
      it is the literal "%s.yaml"; the evident intent is filename + ".yaml". */
  function YamlFileName(v: Variant, stem: string): (r: string)
    ensures |r| >= 5 && r[|r| - 5..] == ".yaml"
    ensures v == Corrected ==> |r| == |stem| + 5 && r[..|stem|] == stem
  {
    match v
    case AsWritten => "%s.yaml"
    case Corrected => stem + ".yaml"
  }

  /** Once corrected, two pages share a file exactly when their stems are
      equal; as written, every page shares the one name. */
  lemma YamlFileNamesCollide(v: Variant, a: string, b: string)
    ensures YamlFileName(v, a) == YamlFileName(v, b) <==> v == AsWritten || a == b
  {
    if v == Corrected && YamlFileName(v, a) == YamlFileName(v, b) {
      assert |a| == |b|;
      assert a == YamlFileName(v, a)[..|a|];
    }
  }

  /** The file text: entries written with Write as written, with WriteLine
      once corrected. */
  function YamlText(v: Variant, h: Header): string
  {
    match v
    case AsWritten => FrontMatterAsWritten(h)
    case Corrected => FrontMatterText(h)
  }

  function IdOf(n: Node): Value
    requires Keyed(n)
  {
    Get(n.header, "ID")
  }

  function SlugOf(n: Node): string
    requires Keyed(n)
  {
    Show(Get(n.header, "slug"))
  }

  /** ID.Substring(2, 16): the owning section's ID embedded in a page ID. */
  function SectionKey(id: Value): (r: Result<string>)
    ensures r.Ok? <==> id.Some? && |id.value| >= 18
    ensures id.None? ==> r == Err(NullReference)
    ensures id.Some? && |id.value| < 18 ==> r == Err(ArgumentOutOfRange)
    ensures r.Ok? ==> |r.value| == 16 && id.value == id.value[..2] + r.value + id.value[18..]
  {
    match id
    case None => Err(NullReference)
    case Some(s) => if |s| < 18 then Err(ArgumentOutOfRange) else Ok(s[2..18])
  }

  /** sections.Find(s => s.header["ID"].Equals(key)) from index i: the index
      of the first section whose ID equals the key, none when no section
      matches, and a NullReferenceException when the scan reaches a section
      with a null ID first. */
  function FindSectionFrom(sections: seq<Node>, key: string, i: nat): (r: Result<Option<nat>>)
    requires AllKeyed(sections) && i <= |sections|
    ensures r.Ok? && r.value.Some? ==>
      i <= r.value.value < |sections| && IdOf(sections[r.value.value]) == Some(key)
    ensures r.Ok? ==>
      forall j | i <= j < (if r.value.Some? then r.value.value else |sections|) ::
        IdOf(sections[j]).Some? && IdOf(sections[j]).value != key
    ensures r.Err? ==> r.error == NullReference
    ensures r.Err? ==>
      exists j | i <= j < |sections| ::
        IdOf(sections[j]).None? && forall m | i <= m < j :: IdOf(sections[m]).Some? && IdOf(sections[m]).value != key
    decreases |sections| - i
  {
    if i == |sections| then Ok(None)
    else
      match IdOf(sections[i])
      case None => Err(NullReference)
      case Some(id) => if id == key then Ok(Some(i)) else FindSectionFrom(sections, key, i + 1)
  }

  function FindSection(sections: seq<Node>, key: string): (r: Result<Option<nat>>)
    requires AllKeyed(sections)
    ensures r.Ok? && r.value.Some? ==>
      r.value.value < |sections| && IdOf(sections[r.value.value]) == Some(key) &&
      forall j | 0 <= j < r.value.value :: IdOf(sections[j]) != Some(key)
    ensures r == Ok(None) ==> forall j | 0 <= j < |sections| :: IdOf(sections[j]) != Some(key)
    ensures r.Err? ==> r.error == NullReference && exists j | 0 <= j < |sections| :: IdOf(sections[j]).None?
  {
    FindSectionFrom(sections, key, 0)
  }

  /** The index of the section a page belongs to, by the section ID its own
      ID embeds, or the exception the lookup throws (a missing section leaves
      pSection null, and reading its slug throws). */
  function SectionOf(page: Node, sections: seq<Node>): (r: Result<nat>)
    requires Keyed(page) && AllKeyed(sections)
    ensures r.Ok? ==> r.value < |sections|
    ensures r.Ok? ==> IdOf(sections[r.value]).Some? && SectionKey(IdOf(page)) == Ok(IdOf(sections[r.value]).value)
    ensures SectionKey(IdOf(page)).Err? ==> r == Err(SectionKey(IdOf(page)).error)
  {
    match SectionKey(IdOf(page))
    case Err(e) => Err(e)
    case Ok(key) =>
      match FindSection(sections, key)
      case Err(e) => Err(e)
      case Ok(None) => Err(NullReference)
      case Ok(Some(i)) => Ok(i)
  }

  /** A page resolves to the first section with its key, and, when no
      section ID is null, it resolves exactly when some section has its key;
      otherwise the lookup throws NullReferenceException. */
  lemma SectionOfFirstMatch(page: Node, sections: seq<Node>)
    requires Keyed(page) && AllKeyed(sections)
    ensures SectionOf(page, sections).Ok? ==>
      forall j | 0 <= j < SectionOf(page, sections).value :: IdOf(sections[j]) != IdOf(sections[SectionOf(page, sections).value])
    ensures SectionKey(IdOf(page)).Ok? && (forall j | 0 <= j < |sections| :: IdOf(sections[j]).Some?) ==>
      && (SectionOf(page, sections).Ok? <==> exists j | 0 <= j < |sections| :: IdOf(sections[j]) == Some(SectionKey(IdOf(page)).value))
      && (SectionOf(page, sections).Err? ==> SectionOf(page, sections).error == NullReference)
  {
    if SectionKey(IdOf(page)).Ok? {
      var key := SectionKey(IdOf(page)).value;
      var f := FindSection(sections, key);
      if f.Ok? && f.value.Some? {
        assert IdOf(sections[f.value.value]) == Some(key);
      }
    }
  }

  /** One page of WriteYAML: the file it writes and the text it puts there, or
      the exception it throws. */
  function PageFile(v: Variant, page: Node, sections: seq<Node>, path: string): (r: Result<(string, string)>)
    requires Keyed(page) && AllKeyed(sections)
    ensures r.Ok? <==> SectionOf(page, sections).Ok?
    ensures r.Err? ==> r.error == SectionOf(page, sections).error
    ensures r.Ok? ==> r.value.1 == YamlText(v, page.header)
    ensures r.Ok? && v == AsWritten ==> r.value.0 == "%s.yaml"
    ensures r.Ok? && v == Corrected ==>
      r.value.0 == SectionDir(path, SlugOf(sections[SectionOf(page, sections).value])) + "\\" + SlugOf(page) + ".yaml"
  {
    match SectionOf(page, sections)
    case Err(e) => Err(e)
    case Ok(i) => Ok((YamlFileName(v, PageFileStem(path, SlugOf(sections[i]), SlugOf(page))), YamlText(v, page.header)))
  }

  /** Once corrected, a resolved page's file lies in one of the directories
      CreateDirectoryStructure creates, and is named by the page's slug. */
  lemma PageFileInSectionDir(page: Node, sections: seq<Node>, path: string)
    requires Keyed(page) && AllKeyed(sections)
    requires PageFile(Corrected, page, sections, path).Ok?
    ensures exists d | d in SectionDirs(path, sections) ::
      PageFile(Corrected, page, sections, path).value.0 == d + "\\" + SlugOf(page) + ".yaml"
  {
    var i := SectionOf(page, sections).value;
    assert SectionDir(path, SlugOf(sections[i])) in SectionDirs(path, sections);
  }

  /** What WriteYAML does for each page, in page order. */
  function Outcomes(v: Variant, pages: seq<Node>, sections: seq<Node>, path: string): (rs: seq<Result<(string, string)>>)
    requires AllKeyed(pages) && AllKeyed(sections)
    ensures |rs| == |pages|
    ensures forall i | 0 <= i < |pages| :: rs[i] == PageFile(v, pages[i], sections, path)
  {
    if pages == [] then []
    else
      var rest := Outcomes(v, pages[1..], sections, path);
      assert forall i | 1 <= i < |pages| :: pages[1..][i - 1] == pages[i];
      [PageFile(v, pages[0], sections, path)] + rest
  }

  /** The foreach of WriteYAML: each page's file written in turn until a page
      throws; the files written before it stay written. */
  function YamlWrites(v: Variant, files: map<string, string>, pages: seq<Node>, sections: seq<Node>, path: string)
    : (map<string, string>, Option<Error>)
    requires AllKeyed(pages) && AllKeyed(sections)
  {
    Perform(files, Outcomes(v, pages, sections, path))
  }

  /** WriteYAML reports no exception exactly when every page resolves to a
      section, and otherwise the exception of the first page whose lookup
      fails. */
  lemma YamlWritesReportsFirstFailure(v: Variant, files: map<string, string>, pages: seq<Node>, sections: seq<Node>, path: string)
    requires AllKeyed(pages) && AllKeyed(sections)
    ensures YamlWrites(v, files, pages, sections, path).1.None? <==> forall i | 0 <= i < |pages| :: SectionOf(pages[i], sections).Ok?
    ensures YamlWrites(v, files, pages, sections, path).1.Some? ==> exists n | 0 <= n < |pages| ::
      && SectionOf(pages[n], sections) == Err(YamlWrites(v, files, pages, sections, path).1.value)
      && forall j | 0 <= j < n :: SectionOf(pages[j], sections).Ok?
  {
    var ls := Lookups(pages, sections);
    OutcomesFollowLookups(v, pages, sections, path);
    MirroredFailure(Outcomes(v, pages, sections, path), ls, YamlWrites(v, files, pages, sections, path).1);
  }

  /** Each page's section lookup, in page order. */
  function Lookups(pages: seq<Node>, sections: seq<Node>): (ls: seq<Result<nat>>)
    requires AllKeyed(pages) && AllKeyed(sections)
    ensures |ls| == |pages| && forall i | 0 <= i < |pages| :: ls[i] == SectionOf(pages[i], sections)
  {
    if pages == [] then []
    else
      assert forall i | 1 <= i < |pages| :: pages[1..][i - 1] == pages[i];
      [SectionOf(pages[0], sections)] + Lookups(pages[1..], sections)
  }

  /** Two result sequences that succeed and fail at the same places, with
      the same exceptions, have the same first failure. */
  lemma MirroredFailure<A, B>(rs: seq<Result<A>>, ls: seq<Result<B>>, e: Option<Error>)
    requires |rs| == |ls|
    requires forall i | 0 <= i < |rs| :: rs[i].Ok? <==> ls[i].Ok?
    requires forall i | 0 <= i < |rs| && ls[i].Err? :: rs[i] == Err(ls[i].error)
    requires e.None? <==> forall i | 0 <= i < |rs| :: rs[i].Ok?
    requires e.Some? ==> exists n | 0 <= n < |rs| :: rs[n] == Err(e.value) && forall j | 0 <= j < n :: rs[j].Ok?
    ensures e.None? <==> forall i | 0 <= i < |ls| :: ls[i].Ok?
    ensures e.Some? ==> exists n | 0 <= n < |ls| :: ls[n] == Err(e.value) && forall j | 0 <= j < n :: ls[j].Ok?
  {
    if e.Some? {
      var n :| 0 <= n < |rs| && rs[n] == Err(e.value) && forall j | 0 <= j < n :: rs[j].Ok?;
      assert ls[n] == Err(e.value);
    }
  }

  /** A page's outcome is a write exactly when its lookup resolves, and
      otherwise the lookup's exception. */
  lemma OutcomesFollowLookups(v: Variant, pages: seq<Node>, sections: seq<Node>, path: string)
    requires AllKeyed(pages) && AllKeyed(sections)
    ensures forall i | 0 <= i < |pages| :: Outcomes(v, pages, sections, path)[i].Ok? <==> Lookups(pages, sections)[i].Ok?
    ensures forall i | 0 <= i < |pages| && Lookups(pages, sections)[i].Err? ::
      Outcomes(v, pages, sections, path)[i] == Err(Lookups(pages, sections)[i].error)
  {
    var rs := Outcomes(v, pages, sections, path);
    var ls := Lookups(pages, sections);
    forall i | 0 <= i < |pages|
      ensures rs[i].Ok? <==> ls[i].Ok?
      ensures ls[i].Err? ==> rs[i] == Err(ls[i].error)
    {
      var p := PageFile(v, pages[i], sections, path);
      assert rs[i] == p;
    }
  }

  /** Carries out the writes of a sequence of outcomes in order, stopping at
      the first exception and reporting it. */
  function Perform(files: map<string, string>, rs: seq<Result<(string, string)>>): (r: (map<string, string>, Option<Error>))
    ensures r.1.None? <==> forall i | 0 <= i < |rs| :: rs[i].Ok?
    ensures r.1.Some? ==> exists n | 0 <= n < |rs| :: rs[n] == Err(r.1.value) && forall j | 0 <= j < n :: rs[j].Ok?
    decreases |rs|
  {
    if rs == [] then (files, None)
    else
      match rs[0]
      case Err(e) => (files, Some(e))
      case Ok(w) =>
        var r := Perform(files[w.0 := w.1], rs[1..]);
        FailureShifts(rs, r.1);
        r
  }

  /** A first exception in the rest of the outcomes, after a successful
      first one, is a first exception of the whole. */
  lemma FailureShifts(rs: seq<Result<(string, string)>>, e: Option<Error>)
    requires rs != [] && rs[0].Ok?
    requires e.None? <==> forall i | 0 <= i < |rs[1..]| :: rs[1..][i].Ok?
    requires e.Some? ==> exists n | 0 <= n < |rs[1..]| :: rs[1..][n] == Err(e.value) && forall j | 0 <= j < n :: rs[1..][j].Ok?
    ensures e.None? <==> forall i | 0 <= i < |rs| :: rs[i].Ok?
    ensures e.Some? ==> exists n | 0 <= n < |rs| :: rs[n] == Err(e.value) && forall j | 0 <= j < n :: rs[j].Ok?
  {
    assert forall i | 1 <= i < |rs| :: rs[i] == rs[1..][i - 1];
    if e.Some? {
      var n :| 0 <= n < |rs[1..]| && rs[1..][n] == Err(e.value) && forall j | 0 <= j < n :: rs[1..][j].Ok?;
      assert rs[n + 1] == Err(e.value) && forall j | 0 <= j < n + 1 :: rs[j].Ok?;
    }
  }

  /** The writes of outcomes that are all successful, in order. */
  function Values(rs: seq<Result<(string, string)>>): (ws: seq<(string, string)>)
    requires forall i | 0 <= i < |rs| :: rs[i].Ok?
    ensures |ws| == |rs| && forall i | 0 <= i < |rs| :: ws[i] == rs[i].value
  {
    if rs == [] then []
    else
      assert forall i | 1 <= i < |rs| :: rs[1..][i - 1] == rs[i];
      [rs[0].value] + Values(rs[1..])
  }

  /** A sequence of file writes (File.CreateText truncates: the last write to
      a name wins). */
  function Apply(files: map<string, string>, ws: seq<(string, string)>): map<string, string>
    decreases |ws|
  {
    if ws == [] then files else Apply(files[ws[0].0 := ws[0].1], ws[1..])
  }

  /** The final content of each name a sequence of writes touches. */
  function LastWrites(ws: seq<(string, string)>): map<string, string>
  {
    if ws == [] then map[] else map[ws[0].0 := ws[0].1] + LastWrites(ws[1..])
  }

  /** The directories CreateDirectoryStructure creates: one per section slug. */
  function SectionDirs(path: string, sections: seq<Node>): set<string>
    requires AllKeyed(sections)
  {
    set i | 0 <= i < |sections| :: SectionDir(path, SlugOf(sections[i]))
  }

  // ---- Properties ----

  /** The writes are carried out in order up to the first outcome that is an
      exception, and that exception is reported; every write is carried out
      exactly when none is an exception. */
  lemma {:induction false} PerformStopsAtFirstFailure(files: map<string, string>, rs: seq<Result<(string, string)>>, n: nat)
    requires n <= |rs|
    requires forall i | 0 <= i < n :: rs[i].Ok?
    requires n < |rs| ==> rs[n].Err?
    ensures Perform(files, rs) == (Apply(files, Values(rs[..n])), if n == |rs| then None else Some(rs[n].error))
    decreases |rs|
  {
    if n == 0 {
      assert rs[..0] == [];
    } else {
      var w := rs[0].value;
      var tail := rs[1..];
      assert forall j | 0 <= j < |tail| :: tail[j] == rs[j + 1];
      PerformStopsAtFirstFailure(files[w.0 := w.1], tail, n - 1);
      assert rs[..n] == [rs[0]] + tail[..n - 1];
      assert Values(rs[..n]) == [w] + Values(tail[..n - 1]);
    }
  }

  /** The index of the first exception among rs[i..], or |rs|. */
  function FirstFailure(rs: seq<Result<(string, string)>>, i: nat): (n: nat)
    requires i <= |rs|
    requires forall j | 0 <= j < i :: rs[j].Ok?
    ensures i <= n <= |rs|
    ensures forall j | 0 <= j < n :: rs[j].Ok?
    ensures n < |rs| ==> rs[n].Err?
    decreases |rs| - i
  {
    if i == |rs| || rs[i].Err? then i else FirstFailure(rs, i + 1)
  }

  lemma {:induction false} ApplyIsOverwrite(files: map<string, string>, ws: seq<(string, string)>)
    ensures Apply(files, ws) == files + LastWrites(ws)
    decreases |ws|
  {
    if ws != [] {
      ApplyIsOverwrite(files[ws[0].0 := ws[0].1], ws[1..]);
      assert files[ws[0].0 := ws[0].1] == files + map[ws[0].0 := ws[0].1];
    }
  }

  /** Carrying out the same outcomes a second time changes nothing and
      reports the same exception. */
  lemma PerformTwice(files: map<string, string>, rs: seq<Result<(string, string)>>)
    ensures Perform(Perform(files, rs).0, rs) == Perform(files, rs)
  {
    var n := FirstFailure(rs, 0);
    PerformStopsAtFirstFailure(files, rs, n);
    var once := Apply(files, Values(rs[..n]));
    PerformStopsAtFirstFailure(once, rs, n);
    var last := LastWrites(Values(rs[..n]));
    ApplyIsOverwrite(files, Values(rs[..n]));
    ApplyIsOverwrite(once, Values(rs[..n]));
    assert (files + last) + last == files + last;
  }

  /** Regenerating gives identical files: WriteYAML run twice on the same
      notebook leaves what one run leaves, and reports the same outcome. */
  lemma RegenerationIsIdempotent(v: Variant, files: map<string, string>, pages: seq<Node>, sections: seq<Node>, path: string)
    requires AllKeyed(pages) && AllKeyed(sections)
    ensures YamlWrites(v, YamlWrites(v, files, pages, sections, path).0, pages, sections, path)
            == YamlWrites(v, files, pages, sections, path)
  {
    PerformTwice(files, Outcomes(v, pages, sections, path));
  }

  /** A written name holds the text of its last write. */
  lemma {:induction false} LastWriteWins(ws: seq<(string, string)>, i: nat)
    requires i < |ws|
    requires forall j | i < j < |ws| :: ws[j].0 != ws[i].0
    ensures ws[i].0 in LastWrites(ws) && LastWrites(ws)[ws[i].0] == ws[i].1
  {
    if i > 0 {
      LastWriteWins(ws[1..], i - 1);
    } else {
      LastWritesKeys(ws[1..]);
    }
  }

  lemma {:induction false} LastWritesKeys(ws: seq<(string, string)>)
    ensures LastWrites(ws).Keys == set j | 0 <= j < |ws| :: ws[j].0
  {
    if ws != [] {
      LastWritesKeys(ws[1..]);
      assert forall j | 1 <= j < |ws| :: ws[j] == ws[1..][j - 1];
    }
  }

  /** When every outcome is a write, all are carried out and no exception is
      reported. */
  lemma PerformAllWrites(files: map<string, string>, rs: seq<Result<(string, string)>>)
    requires forall i | 0 <= i < |rs| :: rs[i].Ok?
    ensures Perform(files, rs) == (files + LastWrites(Values(rs)), None)
  {
    PerformStopsAtFirstFailure(files, rs, |rs|);
    assert rs[..|rs|] == rs;
    ApplyIsOverwrite(files, Values(rs));
  }

  /** When every page resolves, WriteYAML (corrected) leaves each page's
      front matter in that page's own file, unless a later page has the same
      file name and overwrites it. */
  lemma EveryResolvedPageIsWritten(files: map<string, string>, pages: seq<Node>, sections: seq<Node>, path: string, i: nat)
    requires AllKeyed(pages) && AllKeyed(sections) && i < |pages|
    requires forall j | 0 <= j < |pages| :: PageFile(Corrected, pages[j], sections, path).Ok?
    requires forall j | i < j < |pages| ::
      PageFile(Corrected, pages[j], sections, path).value.0 != PageFile(Corrected, pages[i], sections, path).value.0
    ensures YamlWrites(Corrected, files, pages, sections, path).1 == None
    ensures PageFile(Corrected, pages[i], sections, path).value.0 in YamlWrites(Corrected, files, pages, sections, path).0
    ensures YamlWrites(Corrected, files, pages, sections, path).0[PageFile(Corrected, pages[i], sections, path).value.0]
            == FrontMatterText(pages[i].header)
  {
    var rs := Outcomes(Corrected, pages, sections, path);
    PerformKeepsLastWrite(files, rs, i);
  }

  /** When every outcome is a write, a name written by no later outcome holds
      that outcome's text. */
  lemma PerformKeepsLastWrite(files: map<string, string>, rs: seq<Result<(string, string)>>, i: nat)
    requires i < |rs| && forall j | 0 <= j < |rs| :: rs[j].Ok?
    requires forall j | i < j < |rs| :: rs[j].value.0 != rs[i].value.0
    ensures Perform(files, rs).1 == None
    ensures rs[i].value.0 in Perform(files, rs).0 && Perform(files, rs).0[rs[i].value.0] == rs[i].value.1
  {
    PerformAllWrites(files, rs);
    LastWriteWins(Values(rs), i);
  }

  /** Every name that carrying out the outcomes leaves was there before or
      is the name of one of the writes. */
  lemma {:induction false} PerformWritesOnlyOutcomeNames(files: map<string, string>, rs: seq<Result<(string, string)>>)
    ensures forall name | name in Perform(files, rs).0 ::
      name in files || exists i | 0 <= i < |rs| :: rs[i].Ok? && rs[i].value.0 == name
    decreases |rs|
  {
    if rs != [] && rs[0].Ok? {
      var w := rs[0].value;
      PerformWritesOnlyOutcomeNames(files[w.0 := w.1], rs[1..]);
      assert forall i | 1 <= i < |rs| :: rs[i] == rs[1..][i - 1];
    }
  }

  /** Every file WriteYAML (corrected) creates lies in a directory that
      CreateDirectoryStructure creates for the same sections, and is named
      by the slug of one of the pages. */
  lemma WrittenFilesLieInSectionDirs(files: map<string, string>, pages: seq<Node>, sections: seq<Node>, path: string)
    requires AllKeyed(pages) && AllKeyed(sections)
    ensures forall name | name in YamlWrites(Corrected, files, pages, sections, path).0 && name !in files ::
      exists i, d | 0 <= i < |pages| && d in SectionDirs(path, sections) :: name == d + "\\" + SlugOf(pages[i]) + ".yaml"
  {
    var rs := Outcomes(Corrected, pages, sections, path);
    PerformWritesOnlyOutcomeNames(files, rs);
    forall name | name in YamlWrites(Corrected, files, pages, sections, path).0 && name !in files
      ensures exists i, d | 0 <= i < |pages| && d in SectionDirs(path, sections) :: name == d + "\\" + SlugOf(pages[i]) + ".yaml"
    {
      var i :| 0 <= i < |rs| && rs[i].Ok? && rs[i].value.0 == name;
      PageFileInSectionDir(pages[i], sections, path);
      var d :| d in SectionDirs(path, sections) && name == d + "\\" + SlugOf(pages[i]) + ".yaml";
    }
  }

  /** The file a resolved page is written to reads back as that page's
      header, once every entry is on its own line. */
  lemma PageFileReadsBack(page: Node, sections: seq<Node>, path: string)
    requires Keyed(page) && AllKeyed(sections) && Plain(page.header)
    requires PageFile(Corrected, page, sections, path).Ok?
    ensures ReadFrontMatter(PageFile(Corrected, page, sections, path).value.1) == Some(Rendered(page.header))
  {
    FrontMatterRoundTrip(page.header);
  }

  /** As written, every page goes to the one file "%s.yaml": after a run in
      which every page resolves, that file holds only the last page's text. */
  lemma AsWrittenEveryPageOverwritesOneFile(files: map<string, string>, pages: seq<Node>, sections: seq<Node>, path: string)
    requires AllKeyed(pages) && AllKeyed(sections) && pages != []
    requires forall j | 0 <= j < |pages| :: PageFile(AsWritten, pages[j], sections, path).Ok?
    ensures YamlWrites(AsWritten, files, pages, sections, path) ==
      (files["%s.yaml" := FrontMatterAsWritten(pages[|pages| - 1].header)], None)
  {
    var rs := Outcomes(AsWritten, pages, sections, path);
    forall j | 0 <= j < |rs|
      ensures rs[j].Ok? && rs[j].value.0 == "%s.yaml"
    {
      assert rs[j] == PageFile(AsWritten, pages[j], sections, path);
    }
    assert rs[|rs| - 1] == PageFile(AsWritten, pages[|pages| - 1], sections, path);
    PerformOneName(files, rs, "%s.yaml");
  }

  /** Writes that all go to one name leave the last one's text there. */
  lemma PerformOneName(files: map<string, string>, rs: seq<Result<(string, string)>>, name: string)
    requires rs != [] && forall j | 0 <= j < |rs| :: rs[j].Ok? && rs[j].value.0 == name
    ensures Perform(files, rs) == (files[name := rs[|rs| - 1].value.1], None)
  {
    PerformAllWrites(files, rs);
    LastWritesOneName(Values(rs), name);
    assert files + map[name := rs[|rs| - 1].value.1] == files[name := rs[|rs| - 1].value.1];
  }

  lemma {:induction false} LastWritesOneName(ws: seq<(string, string)>, name: string)
    requires ws != [] && forall j | 0 <= j < |ws| :: ws[j].0 == name
    ensures LastWrites(ws) == map[name := ws[|ws| - 1].1]
  {
    if |ws| > 1 {
      LastWritesOneName(ws[1..], name);
    }
  }

  /** A page whose section key matches no section throws at the slug lookup
      (pSection is null), and WriteYAML stops there: the pages before it are
      written and none after it. */
  lemma OrphanPageAbortsRun(v: Variant, files: map<string, string>, pages: seq<Node>, sections: seq<Node>, path: string, n: nat)
    requires AllKeyed(pages) && AllKeyed(sections) && n < |pages|
    requires forall i | 0 <= i < n :: PageFile(v, pages[i], sections, path).Ok?
    requires SectionKey(IdOf(pages[n])).Ok?
    requires forall j | 0 <= j < |sections| :: IdOf(sections[j]).Some? && IdOf(sections[j]) != Some(SectionKey(IdOf(pages[n])).value)
    ensures YamlWrites(v, files, pages, sections, path) ==
      (YamlWrites(v, files, pages[..n], sections, path).0, Some(NullReference))
  {
    var key := SectionKey(IdOf(pages[n])).value;
    assert FindSection(sections, key) == Ok(None);
    var rs := Outcomes(v, pages, sections, path);
    assert rs[n] == Err(NullReference);
    OutcomesPrefix(v, pages, sections, path, n);
    forall i | 0 <= i < n
      ensures rs[i].Ok?
    {
      assert rs[i] == PageFile(v, pages[i], sections, path);
    }
    PerformPrefix(files, rs, n);
  }

  lemma OutcomesPrefix(v: Variant, pages: seq<Node>, sections: seq<Node>, path: string, n: nat)
    requires AllKeyed(pages) && AllKeyed(sections) && n <= |pages|
    ensures Outcomes(v, pages[..n], sections, path) == Outcomes(v, pages, sections, path)[..n]
  {
    var a := Outcomes(v, pages[..n], sections, path);
    var b := Outcomes(v, pages, sections, path)[..n];
    forall i | 0 <= i < n
      ensures a[i] == b[i]
    {
      assert pages[..n][i] == pages[i];
    }
  }

  /** When the outcome at n is the first exception, the run leaves the files
      of a run over the outcomes before it. */
  lemma PerformPrefix(files: map<string, string>, rs: seq<Result<(string, string)>>, n: nat)
    requires n < |rs| && rs[n].Err?
    requires forall i | 0 <= i < n :: rs[i].Ok?
    ensures Perform(files, rs) == (Perform(files, rs[..n]).0, Some(rs[n].error))
  {
    PerformStopsAtFirstFailure(files, rs, n);
    PerformStopsAtFirstFailure(files, rs[..n], n);
    assert rs[..n][..n] == rs[..n];
  }

  /** A section list whose first section has a null ID (as a section with
      child elements gets when its node is built after its page walk) makes
      every page lookup throw: each page with a well-formed ID fails with a
      NullReferenceException. */
  lemma NullSectionIdFailsEveryPage(v: Variant, page: Node, sections: seq<Node>, path: string)
    requires Keyed(page) && AllKeyed(sections) && sections != []
    requires IdOf(sections[0]) == None
    requires SectionKey(IdOf(page)).Ok?
    ensures PageFile(v, page, sections, path) == Err(NullReference)
  {
    assert FindSection(sections, SectionKey(IdOf(page)).value) == Err(NullReference);
  }

  lemma SectionDirsAppend(path: string, sections: seq<Node>, s: Node)
    requires AllKeyed(sections) && Keyed(s)
    ensures SectionDirs(path, sections + [s]) == SectionDirs(path, sections) + {SectionDir(path, SlugOf(s))}
  {
    var all := sections + [s];
    assert forall i | 0 <= i < |sections| :: all[i] == sections[i];
    assert all[|sections|] == s;
  }

  /** CreateDirectoryStructure makes at most one directory per section, and
      exactly one per section when the section slugs are distinct. */
  lemma {:induction false} OneDirectoryPerSection(path: string, sections: seq<Node>)
    requires AllKeyed(sections)
    ensures |SectionDirs(path, sections)| <= |sections|
    ensures (forall i, j | 0 <= i < j < |sections| :: SlugOf(sections[i]) != SlugOf(sections[j])) ==>
              |SectionDirs(path, sections)| == |sections|
  {
    if sections != [] {
      var init := sections[..|sections| - 1];
      var last := sections[|sections| - 1];
      assert sections == init + [last];
      assert AllKeyed(init);
      OneDirectoryPerSection(path, init);
      SectionDirsAppend(path, init, last);
      if forall i, j | 0 <= i < j < |sections| :: SlugOf(sections[i]) != SlugOf(sections[j]) {
        assert SectionDir(path, SlugOf(last)) !in SectionDirs(path, init) by {
          forall i | 0 <= i < |init| ensures SectionDir(path, SlugOf(init[i])) != SectionDir(path, SlugOf(last)) {
            SectionDirInjective(path, SlugOf(init[i]), SlugOf(last));
          }
        }
      }
    }
  }

  lemma SectionDirInjective(path: string, a: string, b: string)
    ensures SectionDir(path, a) == SectionDir(path, b) ==> a == b
  {
    if SectionDir(path, a) == SectionDir(path, b) {
      assert a == SectionDir(path, a)[|path| + 1..];
    }
  }

  /** Creating the section directories is create-if-absent: running it a
      second time leaves the same set. */
  lemma CreateDirectoriesTwice(dirs: set<string>, path: string, sections: seq<Node>)
    requires AllKeyed(sections)
    ensures (dirs + SectionDirs(path, sections)) + SectionDirs(path, sections) == dirs + SectionDirs(path, sections)
  {
  }

  /** Distinct notebook display names give distinct output roots. */
  lemma OutputPathSeparatesNotebooks(jekyllroot: string, collectionname: string, a: Value, b: Value)
    ensures OutputPath(jekyllroot, collectionname, a) == OutputPath(jekyllroot, collectionname, b) ==> Show(a) == Show(b)
  {
    var prefix := jekyllroot + "\\_" + collectionname + "\\";
    if OutputPath(jekyllroot, collectionname, a) == OutputPath(jekyllroot, collectionname, b) {
      assert Show(a) == OutputPath(jekyllroot, collectionname, a)[|prefix|..];
    }
  }

  /** As written, the output root is fixed at construction, before Parse has
      read the nickname: it misses the display name of every notebook that
      has a non-empty one, so all notebooks share one root. */
  lemma PathAtConstructionMissesDisplayName(jekyllroot: string, collectionname: string, nickname: string)
    requires nickname != ""
    ensures PathAtConstruction(jekyllroot, collectionname) != OutputPath(jekyllroot, collectionname, Some(nickname))
  {
    assert |OutputPath(jekyllroot, collectionname, Some(nickname))| > |PathAtConstruction(jekyllroot, collectionname)|;
  }

  // ---- State ----

  /** The file system, abstractly: the directories that exist and the text
      of every file. */
  class FileSystem {
    var directories: set<string>
    var files: map<string, string>

    constructor (directories: set<string>, files: map<string, string>)
      ensures this.directories == directories && this.files == files
    {
      this.directories := directories;
      this.files := files;
    }

    /** Directory.CreateDirectory: create if absent. */
    method CreateDirectory(path: string)
      modifies this
      ensures directories == old(directories) + {path}
      ensures files == old(files)
    {
      directories := directories + {path};
    }

    /** File.CreateText or File.WriteAllText followed by the writes: the file
      is created or truncated, then holds exactly the text. */
    method WriteAllText(path: string, text: string)
      modifies this
      ensures files == old(files)[path := text]
      ensures directories == old(directories)
    {
      files := files[path := text];
    }
  }

  class NotebookGenerator {
    /** The NotebookParser this generator extends. */
    const parser: NotebookParser
    var jekyllroot: string
    var collectionname: string

    constructor (xml: string, document: Element, slugger: Slugger)
      ensures fresh(parser) && parser.Valid()
      ensures parser.xml == xml && parser.document == document && parser.slugger == slugger
      ensures parser.sections == [] && parser.pages == [] && parser.displayname == None && !parser.readerUsed
      ensures jekyllroot == DefaultJekyllRoot && collectionname == DefaultCollection
    {
      parser := new NotebookParser(xml, document, slugger);
      jekyllroot := DefaultJekyllRoot;
      collectionname := DefaultCollection;
    }

    /** The output root, from the display name the parser has read. */
    function Path(): string
      reads this, parser
    {
      OutputPath(jekyllroot, collectionname, parser.displayname)
    }

    /** Stores the raw hierarchy markup as notebook.xml under the output root. */
    method WriteXML(fs: FileSystem)
      modifies fs
      ensures fs.files == old(fs.files)[XmlFileName(Path()) := parser.xml]
      ensures fs.directories == old(fs.directories)
    {
      fs.WriteAllText(XmlFileName(Path()), parser.xml);
    }

    /** One directory per section, named by the section's slug. */
    method CreateDirectoryStructure(fs: FileSystem)
      requires parser.Valid()
      modifies fs
      ensures fs.directories == old(fs.directories) + SectionDirs(Path(), parser.sections)
      ensures fs.files == old(fs.files)
    {
      var path := Path();
      var sections := parser.sections;
      for i := 0 to |sections|
        invariant fs.directories == old(fs.directories) + SectionDirs(path, sections[..i])
        invariant fs.files == old(fs.files)
      {
        assert sections[..i + 1] == sections[..i] + [sections[i]];
        SectionDirsAppend(path, sections[..i], sections[i]);
        fs.CreateDirectory(SectionDir(path, SlugOf(sections[i])));
      }
      assert sections[..|sections|] == sections;
    }

    /** One front-matter file per page, in the directory of the section whose
        ID the page's ID embeds; the first page that throws ends the run and
        its exception is returned. */
    method WriteYAML(fs: FileSystem) returns (err: Option<Error>)
      requires parser.Valid()
      modifies fs
      ensures (fs.files, err) == YamlWrites(Corrected, old(fs.files), parser.pages, parser.sections, Path())
      ensures fs.directories == old(fs.directories)
    {
      var path := Path();
      var pages := parser.pages;
      var sections := parser.sections;
      ghost var outcomes := Outcomes(Corrected, pages, sections, path);
      var i := 0;
      while i < |pages|
        invariant 0 <= i <= |pages|
        invariant fs.directories == old(fs.directories)
        invariant Perform(fs.files, outcomes[i..]) == Perform(old(fs.files), outcomes)
      {
        assert outcomes[i..][0] == PageFile(Corrected, pages[i], sections, path);
        assert outcomes[i..][1..] == outcomes[i + 1..];
        var p := pages[i];
        var key := SectionKey(IdOf(p));
        if key.Err? {
          assert SectionOf(p, sections) == Err(key.error);
          return Some(key.error);
        }
        var found := FindSection(sections, key.value);
        if found.Err? {
          assert SectionOf(p, sections) == Err(found.error);
          return Some(found.error);
        }
        if found.value.None? {
          // pSection is null: reading its slug throws.
          assert SectionOf(p, sections) == Err(NullReference);
          return Some(NullReference);
        }
        assert SectionOf(p, sections) == Ok(found.value.value);
        var s := sections[found.value.value];
        var filename := PageFileStem(path, SlugOf(s), SlugOf(p));
        var text := FormatYaml(p.header);
        assert PageFile(Corrected, p, sections, path) == Ok((YamlFileName(Corrected, filename), text));
        fs.WriteAllText(YamlFileName(Corrected, filename), text);
        i := i + 1;
      }
      assert outcomes[i..] == [];
      return None;
    }
  }
}
