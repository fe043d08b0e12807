# OneNote notebook to Jekyll collection, modelled in Dafny

This project models the core of the OneNote toolbar add-in's
`NotebookParser.cs`. It has two parts.

- **Parsing.** `NotebookParser` makes one forward pass over a OneNote
  hierarchy document. It reads the notebook's nickname. It records one
  section node per `one:Section` in the sibling chain under the notebook,
  searching for each next section from where the previous section's page
  walk left the reader.
  Before each section, it records that section's `one:Page` nodes. Each node
  carries a header dictionary with the keys `ID`, `name` and `slug`.
- **Generation.** `NotebookGenerator` turns the parsed notebook into a Jekyll
  collection. It builds an output root from the Jekyll root, the collection
  name and the notebook's display name. It creates one directory per section
  slug and stores the raw markup as `notebook.xml`. For each page, it writes
  a YAML front-matter file into the directory of the section whose ID the
  page's ID embeds.

Modules:

- `Markup` (`markup.dfy`): the hierarchy document as an already-parsed
  element tree. The three reader moves the parser uses become searches:
  `ReadToDescendant`, `ReadToNextSibling`, and a fresh `ReadSubtree`.
- `Nodes` (`nodes.dfy`): a header is an insertion-ordered sequence of
  entries. The dictionary's indexer read and write are `Get` and `Put`, and
  the node constructor is `NewNode`.
- `Parser` (`parser.dfy`): the `NotebookParser` class. Its parse methods are
  loops that append to the `sections` and `pages` sequences. They are proved
  against specification functions of the document: `NotebookOf`,
  `SectionChain`, `PageChain` and `PagesOf`.
- `FrontMatter` (`frontmatter.dfy`): the front-matter text of a page header,
  and a reader for that text that serves as its inverse.
- `Generator` (`generator.dfy`): the output paths and the section lookup. It
  holds the abstract `FileSystem` (a set of directories and a map from file
  name to text), and the `NotebookGenerator` class with `WriteXML`,
  `CreateDirectoryStructure` and `WriteYAML`.

The source has five defects, listed under "## Findings". Each is modelled
twice: once as written, with a lemma that shows its effect, and once
corrected. The classes use the corrected behaviour.

Four behaviours of the code are easy to miss:

- A document without a `one:Notebook` element is not an error. `Parse` then
  leaves every field unchanged (`Parser.NoNotebookNoSections`).
- A page is recorded only if it is the first `one:Page` descendant of its
  section or a later sibling of that page. A page nested deeper is skipped
  (`Parser.NestedPageIsSkipped`).
- The page walk over a section moves the reader that the section loop
  shares. When a section's first page is not its own child, the walk leaves
  the reader on the end tag of that page's parent. The next
  `ReadToNextSibling("one:Section")` then covers only the later siblings of
  that parent, so the later sections of the notebook are not visited
  (`Parser.NestedFirstPageEndsSectionLoop`). OneNote
  places pages directly in their section. For such documents the loop visits
  every section sibling (`Parser.SectionChainShape`).
- `WriteYAML` stops at the first page that throws and reports that one
  exception. It does not collect per-page errors and carry on
  (`Generator.PerformStopsAtFirstFailure`).

## Model

| member | source | states |
|---|---|---|
| Markup.FindFromIsFirstInDocumentOrder | OneNoteToolbar/NotebookParser.cs:178 | ReadToDescendant stops on the first element with the tag in document order. It finds nothing exactly when no element in document order has the tag. |
| Markup.NextSibling | OneNoteToolbar/NotebookParser.cs:188 | ReadToNextSibling moves to a later element under the same parent that has the tag. No sibling in between has the tag. It finds nothing exactly when no later sibling has the tag. |
| Markup.NextSiblingAdvancesRun | OneNoteToolbar/NotebookParser.cs:181-188 | One turn of a do/ReadToNextSibling loop consumes exactly the current element of the chain. The rest of the chain is the chain from the next position. |
| Markup.FindFrom | OneNoteToolbar/NotebookParser.cs:167 | ReadToDescendant stops on an element with the tag, and finds one whenever one lies ahead in document order (see FindFromIsFirstInDocumentOrder). |
| Markup.ParentOfFirst | OneNoteToolbar/NotebookParser.cs:195-202 | The parent of the element ReadToDescendant stops on: nothing is found exactly when the search fails. The element is a top-level one, or a child of the element at the returned position. |
| Markup.FirstTagged | OneNoteToolbar/NotebookParser.cs:167 | The first element with a tag: none exactly when no element has it, else one at an index with no tagged element before it. |
| Markup.TaggedMembers | OneNoteToolbar/NotebookParser.cs:188 | The tagged elements of a sibling list are exactly its elements with that tag. |
| Nodes.GetIsTheEntry | OneNoteToolbar/NotebookParser.cs:32 | The indexer read header[key], on unique keys: a key's entry is in the header exactly when the key is present and the read gives the entry's value. |
| Nodes.NewNodeAsWritten | OneNoteToolbar/NotebookParser.cs:28-33 | The constructor as written on the header it finds: a null header throws NullReferenceException. Any other header ends with ID and name holding the element's attributes and slug holding ToUrlSlug of the name. |
| Nodes.Put | OneNoteToolbar/NotebookParser.cs:30-32 | The dictionary's indexer write keeps keys unique. Writing an existing key keeps the key order; writing a new key appends it at the end. |
| Nodes.PutThenGet | OneNoteToolbar/NotebookParser.cs:30-32 | After header[key] = value, reading the key gives the value. Every other key keeps its value. |
| Nodes.PutNewKeyAppends | OneNoteToolbar/NotebookParser.cs:30-32 | Writing a key that the dictionary does not hold appends exactly that entry. |
| Nodes.NewNode | OneNoteToolbar/NotebookParser.cs:28-33 | A constructed node's header has exactly the keys ID, name and slug. ID and name are the element's attributes (null when absent), and slug is ToUrlSlug of the name. |
| Nodes.ConstructorWritesFreshHeader | OneNoteToolbar/NotebookParser.cs:30-32 | On a fresh dictionary, the constructor's three indexer writes build exactly the header of NewNode, in the order ID, name, slug. |
| Nodes.HeaderNeverInitialisedThrows | OneNoteToolbar/NotebookParser.cs:24-30 | As written, the header property is null, so constructing any node throws NullReferenceException. |
| Parser.NotebookParser.constructor | OneNoteToolbar/NotebookParser.cs:94-105 | A new parser has empty section and page lists, a null display name, and a reader at the start of the document. |
| Parser.NotebookParser.Parse | OneNoteToolbar/NotebookParser.cs:112-115 | A first Parse sets the display name to the first notebook's nickname. It appends one node per section of the section chain, which resumes after each page walk from where that walk left the reader, and each section's page chain, in section order. A second Parse changes nothing, because the reader is forward-only. |
| Parser.NotebookParser.ParseNotebookNode | OneNoteToolbar/NotebookParser.cs:164-173 | Same state change as Parse. With no notebook element, sections, pages and display name stay as they were. |
| Parser.NotebookParser.ParseSectionNodes | OneNoteToolbar/NotebookParser.cs:175-190 | Appends one node per element of the notebook's section chain, where each next section is searched from where the section's page walk left the shared reader. It appends each section's page chain to pages before moving to the next section, so pages grows by the concatenation of the chains in section order. |
| Parser.NotebookParser.ParsePageNodes | OneNoteToolbar/NotebookParser.cs:192-204 | Appends one node per element of the section's page chain, in order. |
| Parser.NoNotebookNoSections | OneNoteToolbar/NotebookParser.cs:167-173 | No notebook is found exactly when no element of the document is a one:Notebook. Then no section and no page is recorded. |
| Parser.NotebookIsFirstInDocument | OneNoteToolbar/NotebookParser.cs:167-169 | The notebook whose nickname is read is the first one:Notebook in document order, the root included. |
| Parser.SectionChainShape | OneNoteToolbar/NotebookParser.cs:178-188 | The section chain is empty exactly when the notebook has no section descendant. Otherwise it starts at the first one in document order and holds only sections. When every section from the first on has its first page as a child, the chain is that first section and every later section sibling of it. |
| Parser.ResumeAt | OneNoteToolbar/NotebookParser.cs:184-188 | By its definition, the search for the next section resumes at the first page's parent when that lies inside the section, and at the section otherwise. The contract states that this position is a valid one and never lies further back in the document than the section. |
| Parser.NestedFirstPageEndsSectionLoop | OneNoteToolbar/NotebookParser.cs:184-188 | A section whose only page sits one level down ends the section loop. The later sibling section is not visited, and the nested page is recorded. |
| Parser.PageChainShape | OneNoteToolbar/NotebookParser.cs:195-202 | The same statement for a section's page chain. A section with no page descendant contributes no page. |
| Parser.PagesOfAppend | OneNoteToolbar/NotebookParser.cs:184-186 | Appending a section appends exactly its page chain to the pages, so pages are grouped by section in section order. |
| Parser.FlatSectionKeepsEveryPage | OneNoteToolbar/NotebookParser.cs:195-202 | When a section's children are all pages, every one of them is recorded once, in order. |
| Parser.FlatNotebookKeepsEverySection | OneNoteToolbar/NotebookParser.cs:178-188 | When the notebook's children are all sections and each has its first page as a child, every section is recorded once, in order. |
| Parser.TwoSectionsTwoPagesExample | OneNoteToolbar/NotebookParser.cs:175-204 | A notebook whose first section holds two pages and whose second holds none gives both sections and both pages, the pages from the first section. |
| Parser.NestedPageIsSkipped | OneNoteToolbar/NotebookParser.cs:197-202 | The page loop follows siblings only. A page one level below a sibling of the first page is in the section's subtree but is not recorded. |
| Parser.AsWrittenSectionHeadersAreNull | OneNoteToolbar/NotebookParser.cs:184-186 | As written, a section with child elements gets a node built on an end tag. Its ID and name are null, and the ID differs from the section's own. A section with no child element keeps its own attributes. |
| FrontMatter.FrontMatterText | OneNoteToolbar/NotebookParser.cs:271-276 | With WriteLine per entry, the text is the lines "---", each "key: value" entry in header order, and "---", each line ending in a line break. |
| FrontMatter.FrontMatterAsWritten | OneNoteToolbar/NotebookParser.cs:271-276 | As written, with Write per entry, the text is just two lines: "---", then all entries run together followed by "---". |
| FrontMatter.FormatYaml | OneNoteToolbar/NotebookParser.cs:271-276 | The text written for a header: a "---" line, one "key: value" line per entry in header order, and a closing "---" line. |
| FrontMatter.ReadEntryText | OneNoteToolbar/NotebookParser.cs:274 | A "key: value" entry text splits back into its key and its formatted value when the key holds no colon. |
| FrontMatter.FrontMatterRoundTrip | OneNoteToolbar/NotebookParser.cs:271-276 | Reading the written text back gives every key with its value, in header order, whenever keys and values fit on one line. |
| FrontMatter.AsWrittenFrontMatterUnreadable | OneNoteToolbar/NotebookParser.cs:274 | As written, with Write, all entries and the closing "---" share one line, so the text of a non-empty header is no front-matter block. |
| Generator.OutputPath | OneNoteToolbar/NotebookParser.cs:230 | The output root starts with the Jekyll root and ends with the display name, a null name shown as empty. Its length is those of the three parts plus the three separator characters. |
| Generator.OutputPathSeparatesNotebooks | OneNoteToolbar/NotebookParser.cs:230 | Output roots of two display names are equal only if the formatted names are equal, so notebooks with different nicknames get different roots. |
| Generator.PathAtConstructionMissesDisplayName | OneNoteToolbar/NotebookParser.cs:230 | As written, the root is built before Parse, while the display name is null. It differs from the root of every notebook with a non-empty nickname. |
| Generator.SectionKey | OneNoteToolbar/NotebookParser.cs:263 | The section key of a page ID is the 16 characters from offset 2. It succeeds exactly when the ID is non-null and at least 18 long. A null ID throws NullReferenceException and a shorter one ArgumentOutOfRangeException. |
| Generator.FindSectionFrom | OneNoteToolbar/NotebookParser.cs:264 | First-match Find: the index of the first section whose ID equals the key, with every section before it non-null and different. None when all IDs differ. NullReferenceException when the scan reaches a null ID first. |
| Generator.FindSection | OneNoteToolbar/NotebookParser.cs:264 | sections.Find over the whole list. It gives the first section whose ID equals the key, or none when no ID equals it. A NullReferenceException means some section has a null ID. |
| Generator.SectionOf | OneNoteToolbar/NotebookParser.cs:263-267 | A page resolves to a section whose ID is the key its own ID embeds. A malformed page ID throws its SectionKey exception. |
| Generator.SectionOfFirstMatch | OneNoteToolbar/NotebookParser.cs:263-267 | The section a page resolves to is the first with that ID. When no section ID is null, a page resolves exactly when some section's ID is its key, and otherwise throws NullReferenceException. |
| Generator.YamlFileName | OneNoteToolbar/NotebookParser.cs:269 | The file name ends in ".yaml". Once corrected, it is the page's stem followed by ".yaml". |
| Generator.YamlFileNamesCollide | OneNoteToolbar/NotebookParser.cs:269 | Once corrected, two pages share a file name exactly when their stems are equal. As written, every page gets the same name. |
| Generator.PageFile | OneNoteToolbar/NotebookParser.cs:263-276 | A page is written exactly when its section lookup succeeds, and otherwise throws that lookup's exception. The text written is the page header's front matter. Once corrected, the file is root\sectionSlug\pageSlug.yaml, in the directory of the section the page resolves to; as written it is always "%s.yaml". |
| Generator.PageFileInSectionDir | OneNoteToolbar/NotebookParser.cs:257-269 | Once corrected, a resolved page's file lies in one of the directories that CreateDirectoryStructure creates, named by the page's slug and ".yaml". |
| Generator.PerformWritesOnlyOutcomeNames | OneNoteToolbar/NotebookParser.cs:261-278 | Carrying out the outcomes leaves no file name that was neither there before nor written by one of them. |
| Generator.WrittenFilesLieInSectionDirs | OneNoteToolbar/NotebookParser.cs:246-278 | Every file that WriteYAML (corrected) creates lies in a directory that CreateDirectoryStructure creates for the same sections, and is named by a page's slug. |
| Generator.Outcomes | OneNoteToolbar/NotebookParser.cs:261-278 | One outcome per page, in page order: each page's file and text, or its exception. |
| Generator.Perform | OneNoteToolbar/NotebookParser.cs:261-278 | Carrying out the outcomes reports no exception exactly when every outcome succeeds. Otherwise it reports the exception of the first outcome that fails. |
| Generator.YamlWritesReportsFirstFailure | OneNoteToolbar/NotebookParser.cs:261-278 | WriteYAML reports no exception exactly when every page resolves to a section. Otherwise it reports the exception of the first page whose lookup fails. |
| Generator.PerformStopsAtFirstFailure | OneNoteToolbar/NotebookParser.cs:261-278 | WriteYAML carries out the writes of the pages before the first page that throws, and reports that page's exception. It writes every page and reports nothing exactly when every page resolves. |
| Generator.PerformTwice | OneNoteToolbar/NotebookParser.cs:261-278 | Carrying out the same writes again leaves the same files and reports the same outcome. |
| Generator.RegenerationIsIdempotent | OneNoteToolbar/NotebookParser.cs:259-279 | Running WriteYAML twice on the same notebook leaves what one run leaves. |
| Generator.LastWriteWins | OneNoteToolbar/NotebookParser.cs:269 | File.CreateText truncates, so a written file holds the text of the last write to its name. |
| Generator.EveryResolvedPageIsWritten | OneNoteToolbar/NotebookParser.cs:267-276 | When every page resolves, WriteYAML reports no exception. Each page's file holds that page's front matter unless a later page has the same file name. |
| Generator.PageFileReadsBack | OneNoteToolbar/NotebookParser.cs:269-276 | The text written for a resolved page reads back as that page's header. |
| Generator.AsWrittenEveryPageOverwritesOneFile | OneNoteToolbar/NotebookParser.cs:269 | As written, when every page resolves, the only file changed is "%s.yaml", and it holds the last page's text. |
| Generator.OrphanPageAbortsRun | OneNoteToolbar/NotebookParser.cs:264-267 | A page whose section key matches no section throws NullReferenceException at the slug lookup. The files are then exactly those a run over the pages before it leaves, so no page after it is written. |
| Generator.NullSectionIdFailsEveryPage | OneNoteToolbar/NotebookParser.cs:264 | When the first section's ID is null, every page with an ID of length 18 or more fails with NullReferenceException. |
| Generator.OneDirectoryPerSection | OneNoteToolbar/NotebookParser.cs:248-253 | CreateDirectoryStructure makes at most one directory per section, and exactly one per section when the slugs are distinct. |
| Generator.CreateDirectoriesTwice | OneNoteToolbar/NotebookParser.cs:248-253 | Creating the section directories is create-if-absent, so doing it twice gives the same set. |
| Generator.FileSystem.CreateDirectory | OneNoteToolbar/NotebookParser.cs:252 | Directory.CreateDirectory adds the directory if absent and changes no file. |
| Generator.FileSystem.WriteAllText | OneNoteToolbar/NotebookParser.cs:240 | Writing a file creates or truncates it, so it then holds exactly the text. No other file and no directory changes. |
| Generator.NotebookGenerator.constructor | OneNoteToolbar/NotebookParser.cs:209-231 | A generator holds a fresh parser and the default Jekyll root and collection name. |
| Generator.NotebookGenerator.WriteXML | OneNoteToolbar/NotebookParser.cs:238-241 | Stores the raw markup as notebook.xml under the output root built from the parsed display name. No other file changes. |
| Generator.NotebookGenerator.CreateDirectoryStructure | OneNoteToolbar/NotebookParser.cs:246-254 | Adds exactly the directory root\slug of every section, and changes no file. |
| Generator.NotebookGenerator.WriteYAML | OneNoteToolbar/NotebookParser.cs:259-279 | Leaves the files and the reported exception that YamlWrites gives for the parsed pages and sections, and changes no directory. Each page's file is thus root\sectionSlug\pageSlug.yaml in its section's directory (PageFile, WrittenFilesLieInSectionDirs). |

## Left out

- OneNoteToolbar/AddIn.cs is not part of this model. It is add-in lifecycle, ribbon and message-box code with no logic of its own.
- OneNote interop is left out: `new Application()`, `GetHierarchy` and the window queries in the parser constructor, and `MicrosoftDevExample`. The constructor takes the hierarchy markup and its parsed element tree as parameters. The early return when the application cannot be created is not modelled.
- `XmlReader` itself is left out, including `XmlReader.Create(this.xml)`, which takes its argument as a URI rather than as markup. The model reads an already-parsed element tree, compares tags by qualified name, and has no text, whitespace or comment nodes.
- The reader's position is modelled where a later step of the source reads it: after the page walk over a section. There it decides where the section search resumes (`Parser.ResumeAt`) and which attributes the section node sees (`Parser.AfterPageWalk`). A search that fails elsewhere ends its loop, and nothing reads the position afterwards.
- `Element` does not tell `<x/>` from `<x></x>`. A section with no child element is taken to be written as an empty element, as serialized hierarchies write it. The subtree walk then leaves the reader on the section's start tag. For `<x></x>` the reader would be on the end tag instead.
- `UrlSlugger.ToUrlSlug` is not part of this model. It is a parameter of type `Option<string> -> string`, so the model assumes that it returns a string for every argument, a null name included, and never throws. Beyond that the model states nothing about it: not idempotence, not non-empty results, not distinct results.
- Generator.SectionKey: counts Unicode scalar values, where .NET's `Substring(2, 16)` counts UTF-16 code units. The two agree on IDs without characters outside the Basic Multilingual Plane, such as OneNote's ASCII IDs.
- File I/O is modelled as a set of directories and a map from file name to text. The model leaves out exceptions from the file system: a missing output directory, permissions, invalid path characters. It also leaves out the intermediate directories that `Directory.CreateDirectory` creates, and the resolution of the relative name "%s.yaml" against the current directory.
- Dead code is left out: `GetSection`, the `PageType` enum, the commented-out `PublishPages` and `PublishPage`, the unused `id` property of a node, and the unused `xml` property of a page.
- Dictionary enumeration order: a header is the sequence of its entries in insertion order (ID, name, slug). .NET does not guarantee that a `Dictionary` enumerates in this order.
- Nodes are values: a node is never changed after its constructor runs, and no two lists share one, so the header writes are modelled on values (`Nodes.NewNodeAsWritten`). `NotebookSection` and `NotebookPage` are both `Node`. `NotebookGenerator`'s inheritance from `NotebookParser` is modelled as a generator holding its parser.
- Environment.NewLine is taken to be "\r\n", as on Windows, where the add-in runs.
- The page-to-section convention (offset 2, length 16 of the page ID) is taken as the code has it. Whether it matches real OneNote IDs is not modelled.
- Generator.NotebookGenerator.WriteYAML: File.CreateText and the writer's disposal are modelled as one write of the whole text. A partly written file after an exception during writing is not modelled.

## Findings

| source | as written | input that shows it | evidently intended | confidence | as-written member | corrected member |
|---|---|---|---|---|---|---|
| OneNoteToolbar/NotebookParser.cs:24-32 | The `header` auto-property is never assigned, so the first indexer write dereferences null. | Any element, for example a section with ID "{A}" | The header starts as an empty dictionary. | high; not executed | Nodes.HeaderNeverInitialisedThrows | Nodes.ConstructorWritesFreshHeader |
| OneNoteToolbar/NotebookParser.cs:230 | The output root is formatted in the constructor, before Parse has read the nickname, so it ends in an empty name. | A notebook with nickname "Notes" | The root ends in the parsed display name. | high; not executed | Generator.PathAtConstructionMissesDisplayName | Generator.NotebookGenerator.WriteXML |
| OneNoteToolbar/NotebookParser.cs:269 | `string.Format("%s.yaml", filename)` has no `{0}` placeholder, so every page writes the file "%s.yaml". | Two pages in one section | Each page writes filename + ".yaml". | high; not executed | Generator.AsWrittenEveryPageOverwritesOneFile | Generator.EveryResolvedPageIsWritten |
| OneNoteToolbar/NotebookParser.cs:274 | Entries are written with `Write`, so they and the closing "---" share one line. | A header with entries ID, name, slug | Each entry is written with `WriteLine`, on its own line. | high; not executed | FrontMatter.AsWrittenFrontMatterUnreadable | FrontMatter.FrontMatterRoundTrip |
| OneNoteToolbar/NotebookParser.cs:184-186 | The section node is built after `ReadSubtree` has walked the section's pages. For a section with child elements, the shared reader is then on an end tag: the section's own, or that of its first page's parent. The section's ID and name read as null. If ToUrlSlug accepts a null name and the first section has child elements, every page lookup with a well-formed ID then throws NullReferenceException (`Generator.NullSectionIdFailsEveryPage`). If ToUrlSlug throws on null, Parse already fails at line 32 on the first section with child elements. A section written as an empty element keeps the reader on its start tag and is read correctly. | A notebook with one section with ID "{A}" holding one page | The section's attributes are read from the section element. | medium, as it rests on XmlReader's position after a subtree walk; not executed | Parser.AsWrittenSectionHeadersAreNull | Parser.NotebookParser.ParseSectionNodes |
