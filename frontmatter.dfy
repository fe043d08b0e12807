/** The YAML front-matter text WriteYAML produces for a page header, and a
    reader for it that serves as the text's inverse. */
module FrontMatter {
  import opened Markup
  import opened Nodes

  /** Environment.NewLine, which StreamWriter.WriteLine appends; the add-in
      runs on Windows. */
  const NewLine: string := "\r\n"

  const Delimiter: string := "---"

  /** string.Format renders a null argument as the empty string. */
  function Show(v: Value): string
  {
    match v
    case None => ""
    case Some(s) => s
  }

  /** The text @"{0}: {1}" of one header entry. */
  function EntryText(e: Entry): string
  {
    e.key + ": " + Show(e.value)
  }

  /** The entries each written with WriteLine. */
  function EntryLines(h: Header): string
  {
    if h == [] then [] else EntryText(h[0]) + NewLine + EntryLines(h[1..])
  }

  /** The entries as written, with Write: no line terminator after any. */
  function EntriesAsWritten(h: Header): string
  {
    if h == [] then [] else EntryText(h[0]) + EntriesAsWritten(h[1..])
  }

  /** The front matter with every entry on its own line. */
  function FrontMatterText(h: Header): (r: string)
    ensures r == JoinLines([Delimiter] + EntryTexts(h) + [Delimiter])
  {
    EntryLinesAreJoined(h);
    JoinAppend([Delimiter] + EntryTexts(h), [Delimiter]);
    JoinAppend([Delimiter], EntryTexts(h));
    assert JoinLines([Delimiter]) == Delimiter + NewLine;
    Delimiter + NewLine + EntryLines(h) + Delimiter + NewLine
  }

  /** The front matter as written: WriteLine("---"), then Write of each
      entry, then WriteLine("---"). */
  function FrontMatterAsWritten(h: Header): (r: string)
    ensures r == JoinLines([Delimiter, EntriesAsWritten(h) + Delimiter])
  {
    var second := EntriesAsWritten(h) + Delimiter;
    assert JoinLines([Delimiter, second]) == Delimiter + NewLine + JoinLines([second]);
    assert [Delimiter, second][1..] == [second];
    assert JoinLines([second]) == second + NewLine + JoinLines([]);
    Delimiter + NewLine + EntriesAsWritten(h) + Delimiter + NewLine
  }

  /** StreamWriter over a growing text: the foreach of WriteYAML that writes
      one page's header (with WriteLine for every entry). */
  method FormatYaml(h: Header) returns (text: string)
    ensures text == FrontMatterText(h)
  {
    text := Delimiter + NewLine;
    var i := 0;
    while i < |h|
      invariant 0 <= i <= |h|
      invariant text + EntryLines(h[i..]) == Delimiter + NewLine + EntryLines(h)
    {
      EntryLinesStep(h, i);
      text := text + EntryText(h[i]) + NewLine;
      i := i + 1;
    }
    assert h[i..] == [];
    text := text + Delimiter + NewLine;
  }

  /** Writing the entry at i moves it from the entries still to write to the
      text written. */
  lemma EntryLinesStep(h: Header, i: nat)
    requires i < |h|
    ensures EntryLines(h[i..]) == EntryText(h[i]) + NewLine + EntryLines(h[i + 1..])
  {
    assert h[i..][1..] == h[i + 1..];
  }

  // ---- Reading the text back ----

  /** The first position at or after k where the two characters a, b occur
      in a row, or |s| when there is none. */
  function FindPair(s: string, a: char, b: char, k: nat): (r: nat)
    requires k <= |s|
    ensures k <= r <= |s|
    ensures r < |s| ==> r + 1 < |s| && s[r] == a && s[r + 1] == b
    ensures forall j | k <= j < r :: !(j + 1 < |s| && s[j] == a && s[j + 1] == b)
    decreases |s| - k
  {
    if k + 1 >= |s| then |s|
    else if s[k] == a && s[k + 1] == b then k
    else FindPair(s, a, b, k + 1)
  }

  /** The lines of a text that ends each line with CR LF; text after the last
      CR LF, if any, is a last line. */
  function SplitLines(s: string): seq<string>
    decreases |s|
  {
    if s == [] then []
    else
      var k := FindPair(s, '\r', '\n', 0);
      if k == |s| then [s] else [s[..k]] + SplitLines(s[k + 2..])
  }

  /** A "key: value" line split at its first ": ". */
  function ReadEntry(line: string): Option<(string, string)>
  {
    var k := FindPair(line, ':', ' ', 0);
    if k == |line| then None else Some((line[..k], line[k + 2..]))
  }

  function ReadEntries(lines: seq<string>): Option<seq<(string, string)>>
  {
    if lines == [] then Some([])
    else
      match ReadEntry(lines[0])
      case None => None
      case Some(kv) =>
        match ReadEntries(lines[1..])
        case None => None
        case Some(rest) => Some([kv] + rest)
  }

  /** A front-matter block: a "---" line, "key: value" lines, a "---" line. */
  function ReadFrontMatter(text: string): Option<seq<(string, string)>>
  {
    var lines := SplitLines(text);
    if |lines| >= 2 && lines[0] == Delimiter && lines[|lines| - 1] == Delimiter then
      ReadEntries(lines[1..|lines| - 1])
    else None
  }

  /** The header as the text shows it: each key with its formatted value. */
  function Rendered(h: Header): seq<(string, string)>
  {
    if h == [] then [] else [(h[0].key, Show(h[0].value))] + Rendered(h[1..])
  }

  /** Headers whose keys and values fit on one line and whose keys hold no
      colon, as the constructed headers ID, name and slug do for
      single-line attribute values. */
  predicate Plain(h: Header)
  {
    forall i | 0 <= i < |h| :: '\n' !in h[i].key && ':' !in h[i].key && '\n' !in Show(h[i].value)
  }

  function JoinLines(ls: seq<string>): string
  {
    if ls == [] then [] else ls[0] + NewLine + JoinLines(ls[1..])
  }

  function EntryTexts(h: Header): seq<string>
  {
    if h == [] then [] else [EntryText(h[0])] + EntryTexts(h[1..])
  }

  lemma {:induction false} FirstCrLfEndsLine(l: string, rest: string)
    requires '\n' !in l
    ensures FindPair(l + NewLine + rest, '\r', '\n', 0) == |l|
  {
    var s := l + NewLine + rest;
    var r := FindPair(s, '\r', '\n', 0);
    assert s[|l|] == '\r' && s[|l| + 1] == '\n';
    assert forall j | 1 <= j <= |l| :: s[j] != '\n';
  }

  lemma {:induction false} SplitJoin(ls: seq<string>)
    requires forall i | 0 <= i < |ls| :: '\n' !in ls[i]
    ensures SplitLines(JoinLines(ls)) == ls
  {
    if ls != [] {
      SplitFirstLine(ls[0], JoinLines(ls[1..]));
      assert forall i | 0 <= i < |ls[1..]| :: ls[1..][i] == ls[i + 1];
      SplitJoin(ls[1..]);
      assert ls == [ls[0]] + ls[1..];
    }
  }

  /** A line without a line feed, followed by a line break, is split off
      as the first line. */
  lemma SplitFirstLine(l: string, rest: string)
    requires '\n' !in l
    ensures SplitLines(l + NewLine + rest) == [l] + SplitLines(rest)
  {
    var s := l + NewLine + rest;
    FirstCrLfEndsLine(l, rest);
    assert s[..|l|] == l;
    assert s[|l| + 2..] == rest;
  }

  lemma {:induction false} JoinAppend(a: seq<string>, b: seq<string>)
    ensures JoinLines(a + b) == JoinLines(a) + JoinLines(b)
  {
    if a == [] {
      assert a + b == b;
    } else {
      assert (a + b)[1..] == a[1..] + b;
      JoinAppend(a[1..], b);
    }
  }

  lemma {:induction false} EntryLinesAreJoined(h: Header)
    ensures EntryLines(h) == JoinLines(EntryTexts(h))
    ensures |EntryTexts(h)| == |h|
    ensures forall i | 0 <= i < |h| :: EntryTexts(h)[i] == EntryText(h[i])
  {
    if h != [] {
      EntryLinesAreJoined(h[1..]);
    }
  }

  lemma ReadEntryText(e: Entry)
    requires ':' !in e.key
    ensures ReadEntry(EntryText(e)) == Some((e.key, Show(e.value)))
  {
    var line := EntryText(e);
    var k := FindPair(line, ':', ' ', 0);
    assert line[|e.key|] == ':' && line[|e.key| + 1] == ' ';
    assert forall j | 0 <= j < |e.key| :: line[j] != ':';
    assert k == |e.key|;
    assert line[..k] == e.key;
    assert line[k + 2..] == Show(e.value);
  }

  lemma {:induction false} ReadEntriesTexts(h: Header)
    requires Plain(h)
    ensures ReadEntries(EntryTexts(h)) == Some(Rendered(h))
  {
    if h != [] {
      ReadEntryText(h[0]);
      assert Plain(h[1..]) by {
        forall i | 0 <= i < |h[1..]|
          ensures '\n' !in h[1..][i].key && ':' !in h[1..][i].key && '\n' !in Show(h[1..][i].value)
        {
          assert h[1..][i] == h[i + 1];
        }
      }
      ReadEntriesTexts(h[1..]);
      assert EntryTexts(h)[1..] == EntryTexts(h[1..]);
    }
  }

  /** Reading the front matter back gives every key with its formatted
      value, in header order: one "key: value" line per entry between the
      two delimiter lines. */
  lemma FrontMatterRoundTrip(h: Header)
    requires Plain(h)
    ensures ReadFrontMatter(FrontMatterText(h)) == Some(Rendered(h))
  {
    EntryLinesAreJoined(h);
    var body := EntryTexts(h);
    var ls := [Delimiter] + body + [Delimiter];
    forall i | 0 <= i < |ls| ensures '\n' !in ls[i] {
      if 0 < i < |ls| - 1 {
        assert ls[i] == EntryText(h[i - 1]);
        assert '\n' !in ": ";
      }
    }
    SplitJoin(ls);
    assert ls[1..|ls| - 1] == body;
    ReadEntriesTexts(h);
  }

  lemma {:induction false} EntriesAsWrittenNoNewline(h: Header)
    requires Plain(h)
    ensures '\n' !in EntriesAsWritten(h)
  {
    if h != [] {
      assert Plain(h[1..]) by {
        forall i | 0 <= i < |h[1..]|
          ensures '\n' !in h[1..][i].key && ':' !in h[1..][i].key && '\n' !in Show(h[1..][i].value)
        {
          assert h[1..][i] == h[i + 1];
        }
      }
      EntriesAsWrittenNoNewline(h[1..]);
      assert '\n' !in ": ";
    }
  }

  /** As written, the entries and the closing delimiter share one line, so
      the text does not read back as a front-matter block for any non-empty
      header. */
  lemma AsWrittenFrontMatterUnreadable(h: Header)
    requires Plain(h) && h != []
    ensures SplitLines(FrontMatterAsWritten(h)) == [Delimiter, EntriesAsWritten(h) + Delimiter]
    ensures ReadFrontMatter(FrontMatterAsWritten(h)) == None
  {
    EntriesAsWrittenNoNewline(h);
    var second := EntriesAsWritten(h) + Delimiter;
    assert '\n' !in second;
    SplitJoin([Delimiter, second]);
    assert |EntriesAsWritten(h)| > 0;
    assert |second| > |Delimiter|;
  }
}
