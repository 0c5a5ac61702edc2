/**
 * The output formatter: the schema check that shapes a report before it is
 * saved, the names of the two saved files, and the Markdown rendering.
 */
module OutputFormatter {
  import opened Values
  import opened Text
  import opened Reports

  // ---------------------------------------------------------------------
  // Schema

  datatype Kind = StrKind | ListKind

  /** The keys of a report. */
  datatype Key = TitleKey | SummaryKey | SectionsKey | KeyFindingsKey | CitedSourcesKey

  /** A value of one of the schema's two kinds. */
  datatype Value = TextValue(text: string) | ListValue(items: seq<string>)

  /** `OUTPUT_SCHEMA`: the kept keys, in order, with the kind of each. */
  const OutputSchema: seq<(Key, Kind)> :=
    [(TitleKey, StrKind), (SummaryKey, StrKind), (KeyFindingsKey, ListKind), (CitedSourcesKey, ListKind)]

  /** The report with no key at all. */
  const EmptyReport := Report(Absent, Absent, Absent, Absent, Absent)

  function TextField(f: Field<string>): Field<Value> {
    match f
    case Absent => Absent
    case Null => Null
    case Val(x) => Val(TextValue(x))
  }

  function ListField(f: Field<seq<string>>): Field<Value> {
    match f
    case Absent => Absent
    case Null => Null
    case Val(xs) => Val(ListValue(xs))
  }

  /** `report.get(key)` for a schema key. */
  function GetField(r: Report, key: Key): Field<Value> {
    match key
    case TitleKey => TextField(r.title)
    case SummaryKey => TextField(r.summary)
    case KeyFindingsKey => ListField(r.keyFindings)
    case CitedSourcesKey => ListField(r.citedSources)
    case SectionsKey => Absent
  }

  /** `validated[key] = value` for a schema key. */
  function PutField(r: Report, key: Key, v: Value): Report {
    match key
    case TitleKey => if v.TextValue? then r.(title := Val(v.text)) else r
    case SummaryKey => if v.TextValue? then r.(summary := Val(v.text)) else r
    case KeyFindingsKey => if v.ListValue? then r.(keyFindings := Val(v.items)) else r
    case CitedSourcesKey => if v.ListValue? then r.(citedSources := Val(v.items)) else r
    case SectionsKey => r
  }

  /** The value kept for a key: the report's own when it is not `None`, else the kind's default. */
  function Defaulted(f: Field<Value>, k: Kind): Value {
    match f
    case Val(v) => v
    case _ => if k == StrKind then TextValue("N/A") else ListValue([])
  }

  /** The validated dict after the first `n` schema keys. */
  function Filled(r: Report, n: nat): Report
    requires n <= |OutputSchema|
  {
    if n == 0 then EmptyReport
    else
      var (key, kind) := OutputSchema[n - 1];
      PutField(Filled(r, n - 1), key, Defaulted(GetField(r, key), kind))
  }

  function TextOr(f: Field<string>, default: string): string {
    match f
    case Val(s) => s
    case _ => default
  }

  function ListOr(f: Field<seq<string>>): seq<string> {
    match f
    case Val(xs) => xs
    case _ => []
  }

  /** The report `_validate_schema` returns, field by field. */
  function Validated(r: Report): Report {
    Report(Val(TextOr(r.title, "N/A")), Val(TextOr(r.summary, "N/A")), Absent,
           Val(ListOr(r.keyFindings)), Val(ListOr(r.citedSources)))
  }

  /** `_validate_schema`: one pass over `OUTPUT_SCHEMA`, filling each key. */
  method ValidateSchema(report: Report) returns (validated: Report)
    ensures validated == Validated(report)
  {
    validated := EmptyReport;
    for i := 0 to |OutputSchema|
      invariant validated == Filled(report, i)
    {
      var (key, kind) := OutputSchema[i];
      var value := Defaulted(GetField(report, key), kind);
      validated := PutField(validated, key, value);
    }
    FilledAll(report);
  }

  lemma FilledAll(r: Report)
    ensures Filled(r, |OutputSchema|) == Validated(r)
  {
    assert OutputSchema[0] == (TitleKey, StrKind);
    assert OutputSchema[1] == (SummaryKey, StrKind);
    assert OutputSchema[2] == (KeyFindingsKey, ListKind);
    assert OutputSchema[3] == (CitedSourcesKey, ListKind);
    var f1 := Filled(r, 1);
    assert Filled(r, 0) == EmptyReport;
    assert Defaulted(GetField(r, TitleKey), StrKind) == TextValue(TextOr(r.title, "N/A"));
    assert f1 == PutField(EmptyReport, TitleKey, TextValue(TextOr(r.title, "N/A")));
    assert f1 == EmptyReport.(title := Val(TextOr(r.title, "N/A")));
    var f2 := Filled(r, 2);
    assert f2 == f1.(summary := Val(TextOr(r.summary, "N/A")));
    var f3 := Filled(r, 3);
    assert f3 == f2.(keyFindings := Val(ListOr(r.keyFindings)));
    assert Filled(r, 4) == f3.(citedSources := Val(ListOr(r.citedSources)));
  }

  /** The keys a report holds. */
  function KeysOf(r: Report): seq<Key> {
    (if r.title.Absent? then [] else [TitleKey])
    + (if r.summary.Absent? then [] else [SummaryKey])
    + (if r.sections.Absent? then [] else [SectionsKey])
    + (if r.keyFindings.Absent? then [] else [KeyFindingsKey])
    + (if r.citedSources.Absent? then [] else [CitedSourcesKey])
  }

  /**
   * The validated report holds exactly the schema's keys, so `sections`
   * is dropped; a value that is not `None` is kept as it is, and a missing
   * or `None` one becomes `"N/A"` or `[]`.
   */
  lemma ValidatedSchema(r: Report)
    ensures KeysOf(Validated(r)) == seq(|OutputSchema|, i requires 0 <= i < |OutputSchema| => OutputSchema[i].0)
    ensures r.title.Val? ==> Validated(r).title == r.title
    ensures r.summary.Val? ==> Validated(r).summary == r.summary
    ensures r.keyFindings.Val? ==> Validated(r).keyFindings == r.keyFindings
    ensures r.citedSources.Val? ==> Validated(r).citedSources == r.citedSources
    ensures !r.title.Val? ==> Validated(r).title == Val("N/A")
    ensures !r.summary.Val? ==> Validated(r).summary == Val("N/A")
    ensures !r.keyFindings.Val? ==> Validated(r).keyFindings == Val([])
    ensures !r.citedSources.Val? ==> Validated(r).citedSources == Val([])
  {
  }

  /** Validating twice is validating once. */
  lemma ValidatedIdempotent(r: Report)
    ensures Validated(Validated(r)) == Validated(r)
  {
  }

  // ---------------------------------------------------------------------
  // File names

  const OutputDir := "data/outputs"

  /**
   * `report.get("title", "untitled_report").replace(" ", "_").lower()`;
   * `None` when the title is null, where `.replace` raises.
   */
  function SafeTitle(r: Report): (stem: Option<string>)
    ensures r.title.Null? <==> stem.None?
    ensures r.title.Absent? ==> stem == Some("untitled_report")
    ensures r.title.Val? ==> |stem.value| == |r.title.value|
    ensures stem.Some? ==> forall i :: 0 <= i < |stem.value| ==> stem.value[i] != ' ' && !('A' <= stem.value[i] <= 'Z')
    ensures r.title.Val? ==>
              forall i :: 0 <= i < |stem.value| && r.title.value[i] != ' ' && !('A' <= r.title.value[i] <= 'Z') ==> stem.value[i] == r.title.value[i]
    ensures r.title.Val? ==> forall i :: 0 <= i < |stem.value| && r.title.value[i] == ' ' ==> stem.value[i] == '_'
    ensures r.title.Val? ==>
              forall i :: 0 <= i < |stem.value| && 'A' <= r.title.value[i] <= 'Z' ==> stem.value[i] as int == r.title.value[i] as int + 32
  {
    match r.title
    case Null => None
    case Absent => Some("untitled_report")  // already free of spaces and capitals
    case Val(t) => Some(Lower(ReplaceChar(t, ' ', '_')))
  }

  datatype Paths = Paths(json: string, md: string)

  /**
   * `os.path.join(dir, name)`: a `name` that starts with `/` replaces the
   * directory; otherwise a `/` is put between the two unless `dir` is empty
   * or already ends with one.
   */
  function PathJoin(dir: string, name: string): (p: string)
    ensures EndsWith(p, name)
    ensures StartsWith(name, "/") ==> p == name
  {
    if StartsWith(name, "/") then name
    else if dir == [] || EndsWith(dir, "/") then dir + name
    else dir + "/" + name
  }

  /**
   * The JSON and Markdown paths: the same stem and timestamp, two
   * extensions. They are inside the output directory unless the stem starts
   * with `/`, which makes `os.path.join` drop the directory.
   */
  function OutputPaths(r: Report, timestamp: string): (p: Option<Paths>)
    ensures p.Some? <==> SafeTitle(r).Some?
    ensures p.Some? ==>
              && EndsWith(p.value.json, ".json") && EndsWith(p.value.md, ".md")
              && p.value.json[..|p.value.json| - 5] == p.value.md[..|p.value.md| - 3]
    ensures p.Some? && StartsWith(SafeTitle(r).value, "/") ==>
              && p.value.json == SafeTitle(r).value + "_" + timestamp + ".json"
              && p.value.md == SafeTitle(r).value + "_" + timestamp + ".md"
    ensures p.Some? && !StartsWith(SafeTitle(r).value, "/") ==>
              && p.value.json == OutputDir + "/" + SafeTitle(r).value + "_" + timestamp + ".json"
              && p.value.md == OutputDir + "/" + SafeTitle(r).value + "_" + timestamp + ".md"
  {
    match SafeTitle(r)
    case None => None
    case Some(stem) =>
      var name := stem + "_" + timestamp;
      var json, md := PathJoin(OutputDir, name + ".json"), PathJoin(OutputDir, name + ".md");
      var base := if StartsWith(stem, "/") then name else OutputDir + "/" + name;
      assert json == base + ".json" && md == base + ".md" by {
        StemJoin(stem, timestamp, ".json");
        StemJoin(stem, timestamp, ".md");
      }
      assert (base + ".json")[..|base|] == base;
      assert (base + ".md")[..|base|] == base;
      Some(Paths(json, md))
  }

  /** The file name `stem_timestamp.ext` starts with `/` exactly when the stem does. */
  lemma StemJoin(stem: string, timestamp: string, ext: string)
    ensures PathJoin(OutputDir, stem + "_" + timestamp + ext)
            == if StartsWith(stem, "/") then stem + "_" + timestamp + ext
               else OutputDir + "/" + stem + "_" + timestamp + ext
  {
    var name := stem + "_" + timestamp + ext;
    if stem == [] {
      assert name[0] == '_';
    } else {
      assert name[0] == stem[0];
    }
    assert StartsWith(name, "/") <==> StartsWith(stem, "/");
    assert !EndsWith(OutputDir, "/");
  }

  /** A title without spaces and capitals is its own file-name stem. */
  lemma PlainTitleKept(r: Report)
    requires r.title.Val?
    requires forall i :: 0 <= i < |r.title.value| ==> r.title.value[i] != ' ' && !('A' <= r.title.value[i] <= 'Z')
    ensures SafeTitle(r) == Some(r.title.value)
  {
    var stem := SafeTitle(r).value;
    assert forall i :: 0 <= i < |stem| ==> stem[i] == r.title.value[i];
    assert stem == r.title.value;
  }

  /** A title that starts with `/` puts both files outside the output directory. */
  lemma AbsoluteTitlePaths(r: Report, timestamp: string)
    requires r.title == Val("/tmp/x")
    ensures OutputPaths(r, timestamp)
            == Some(Paths("/tmp/x_" + timestamp + ".json", "/tmp/x_" + timestamp + ".md"))
  {
    var t := "/tmp/x";
    assert t == ['/', 't', 'm', 'p', '/', 'x'];
    PlainTitleKept(r);
    assert StartsWith(t, "/");
    assert t + "_" == "/tmp/x_";
    var p := OutputPaths(r, timestamp).value;
    assert p.json == "/tmp/x_" + timestamp + ".json";
    assert p.md == "/tmp/x_" + timestamp + ".md";
    StemJoin("/tmp/x", timestamp, ".json");
    StemJoin("/tmp/x", timestamp, ".md");
  }

  // ---------------------------------------------------------------------
  // Markdown

  /** `report.get(key, default)` shown in an f-string: a null value shows as `None`. */
  function Shown(f: Field<string>, default: string): string {
    match f
    case Absent => default
    case Null => "None"
    case Val(s) => s
  }

  /** The title and summary lines. */
  function HeadLines(r: Report): seq<string> {
    ["# " + Shown(r.title, "Untitled Report"), "", "## \U{1F9FE} Summary", Shown(r.summary, "No summary available."), ""]
  }

  /** One section: its heading, its text (`content or 'No details available.'`) and a blank line. */
  function SectionBlock(s: Section): seq<string> {
    var content := if s.text.None? || s.text.value == "" then "No details available." else s.text.value;
    ["### " + ReplaceChar(s.name, '_', ' '), content, ""]
  }

  function SectionBlocks(ss: seq<Section>): seq<string> {
    if ss == [] then [] else SectionBlocks(ss[..|ss| - 1]) + SectionBlock(ss[|ss| - 1])
  }

  /** The sections block, present only when `sections` is an object. */
  function SectionLines(f: Field<seq<Section>>): seq<string> {
    match f
    case Val(ss) => ["## \U{1F9E9} Research Sections"] + SectionBlocks(ss)
    case _ => []
  }

  /** `- item` lines, in order. */
  function Bullets(xs: seq<string>): (ls: seq<string>)
    ensures |ls| == |xs| && forall i :: 0 <= i < |xs| ==> ls[i] == "- " + xs[i]
  {
    seq(|xs|, i requires 0 <= i < |xs| => "- " + xs[i])
  }

  /** The Key Findings block, present only for a non-empty list. */
  function FindingLines(f: Field<seq<string>>): seq<string> {
    if f.Val? && f.value != [] then ["## \U{1F50D} Key Findings"] + Bullets(f.value) + [""] else []
  }

  /** The Cited Sources block, present only for a non-empty list. */
  function SourceLines(f: Field<seq<string>>): seq<string> {
    if f.Val? && f.value != [] then ["## \U{1F310} Cited Sources"] + Bullets(f.value) else []
  }

  /** The lines of the Markdown document, block by block. */
  function MarkdownLines(r: Report): seq<string> {
    HeadLines(r) + SectionLines(r.sections) + FindingLines(r.keyFindings) + SourceLines(r.citedSources)
  }

  /** The Markdown document: every line followed by a newline. */
  function Markdown(r: Report): string {
    Unlines(MarkdownLines(r))
  }

  lemma Unlines2(a: string, b: string)
    ensures Unlines([a, b]) == a + "\n" + b + "\n"
  {
    assert [a, b][1..] == [b];
    assert Unlines([b]) == b + "\n" + Unlines([]);
  }

  lemma Unlines3(a: string, b: string, c: string)
    ensures Unlines([a, b, c]) == a + "\n" + b + "\n" + c + "\n"
  {
    assert [a, b, c][1..] == [b, c];
    Unlines2(b, c);
  }

  /** One section as `_to_markdown` writes it, with one f-string. */
  lemma SectionBlockText(sec: Section)
    ensures Unlines(SectionBlock(sec))
      == "### " + ReplaceChar(sec.name, '_', ' ') + "\n" + SectionBlock(sec)[1] + "\n\n"
  {
    Unlines3(SectionBlock(sec)[0], SectionBlock(sec)[1], "");
  }

  /** The loop over the sections: one block per section, in order. */
  method AppendSections(md0: string, ss: seq<Section>) returns (md: string)
    ensures md == md0 + Unlines(SectionBlocks(ss))
  {
    md := md0;
    for i := 0 to |ss|
      invariant md == md0 + Unlines(SectionBlocks(ss[..i]))
    {
      var heading := ReplaceChar(ss[i].name, '_', ' ');
      var content := if ss[i].text.None? || ss[i].text.value == "" then "No details available." else ss[i].text.value;
      var block := "### " + heading + "\n" + content + "\n\n";
      md := md + block;
      assert ss[..i + 1][..i] == ss[..i];
      ghost var done := SectionBlocks(ss[..i]);
      UnlinesAppend(done, SectionBlock(ss[i]));
      SectionBlockText(ss[i]);
      ConcatAssoc(md0, Unlines(done), block);
    }
    assert ss[..|ss|] == ss;
  }

  /** A loop writing one `- item` line per item, in order. */
  method AppendBullets(md0: string, xs: seq<string>) returns (md: string)
    ensures md == md0 + Unlines(Bullets(xs))
  {
    md := md0;
    for i := 0 to |xs|
      invariant md == md0 + Unlines(Bullets(xs[..i]))
    {
      var line := "- " + xs[i] + "\n";
      md := md + line;
      assert Bullets(xs[..i + 1]) == Bullets(xs[..i]) + ["- " + xs[i]];
      UnlinesSnoc(Bullets(xs[..i]), "- " + xs[i]);
      ConcatAssoc(md0, Unlines(Bullets(xs[..i])), line);
    }
    assert xs[..|xs|] == xs;
  }

  /** `_to_markdown`: the document grown piece by piece. */
  method ToMarkdown(report: Report) returns (md: string)
    ensures md == Markdown(report)
  {
    var title := Shown(report.title, "Untitled Report");
    var summary := Shown(report.summary, "No summary available.");
    md := "# " + title + "\n\n";
    md := md + ("## \U{1F9FE} Summary\n" + summary + "\n\n");
    HeadText(report);
    md := AppendSectionLines(md, report.sections);
    md := AppendFindingLines(md, report.keyFindings);
    md := AppendSourceLines(md, report.citedSources);
    MarkdownParts(report);
  }

  /** The Markdown text is the text of its blocks, one after the other. */
  lemma MarkdownParts(r: Report)
    ensures Markdown(r)
      == Unlines(HeadLines(r)) + Unlines(SectionLines(r.sections))
         + Unlines(FindingLines(r.keyFindings)) + Unlines(SourceLines(r.citedSources))
  {
    var h, s, f, c := HeadLines(r), SectionLines(r.sections), FindingLines(r.keyFindings), SourceLines(r.citedSources);
    UnlinesAppend(h, s);
    UnlinesAppend(h + s, f);
    UnlinesAppend(h + s + f, c);
  }

  /** The sections part of `_to_markdown`: written only when `sections` is an object. */
  method AppendSectionLines(md0: string, f: Field<seq<Section>>) returns (md: string)
    ensures md == md0 + Unlines(SectionLines(f))
  {
    md := md0;
    if f.Val? {
      var header := "## \U{1F9E9} Research Sections";
      var line := header + "\n";
      md := md + line;
      md := AppendSections(md, f.value);
      UnlinesCons(header, SectionBlocks(f.value));
      ConcatAssoc(md0, line, Unlines(SectionBlocks(f.value)));
    }
  }

  /** The Key Findings part of `_to_markdown`: written only for a non-empty list. */
  method AppendFindingLines(md0: string, f: Field<seq<string>>) returns (md: string)
    ensures md == md0 + Unlines(FindingLines(f))
  {
    md := md0;
    if f.Val? && f.value != [] {
      var header := "## \U{1F50D} Key Findings";
      var line := header + "\n";
      md := md + line;
      md := AppendBullets(md, f.value);
      md := md + "\n";
      var bullets := Unlines(Bullets(f.value));
      UnlinesSnoc([header] + Bullets(f.value), "");
      UnlinesCons(header, Bullets(f.value));
      ConcatAssoc(md0, line, bullets);
      ConcatAssoc(md0, line + bullets, "\n");
    }
  }

  /** The Cited Sources part of `_to_markdown`: written only for a non-empty list. */
  method AppendSourceLines(md0: string, f: Field<seq<string>>) returns (md: string)
    ensures md == md0 + Unlines(SourceLines(f))
  {
    md := md0;
    if f.Val? && f.value != [] {
      var header := "## \U{1F310} Cited Sources";
      var line := header + "\n";
      md := md + line;
      md := AppendBullets(md, f.value);
      UnlinesCons(header, Bullets(f.value));
      ConcatAssoc(md0, line, Unlines(Bullets(f.value)));
    }
  }

  /** The head lines as text. */
  lemma HeadText(r: Report)
    ensures Unlines(HeadLines(r))
      == "# " + Shown(r.title, "Untitled Report") + "\n\n" + "## \U{1F9FE} Summary\n" + Shown(r.summary, "No summary available.") + "\n\n"
  {
    var h := HeadLines(r);
    assert h == [h[0], h[1]] + [h[2], h[3], h[4]];
    UnlinesAppend([h[0], h[1]], [h[2], h[3], h[4]]);
    Unlines2(h[0], h[1]);
    Unlines3(h[2], h[3], h[4]);
  }

  /** The Markdown document begins with the title line, a blank line and the summary heading. */
  lemma MarkdownStart(r: Report)
    ensures StartsWith(Markdown(r), "# " + Shown(r.title, "Untitled Report") + "\n\n" + "## \U{1F9FE} Summary\n")
  {
    var prefix := "# " + Shown(r.title, "Untitled Report") + "\n\n" + "## \U{1F9FE} Summary\n";
    var sm := Shown(r.summary, "No summary available.");
    var head := Unlines(HeadLines(r));
    HeadText(r);
    assert head == (prefix + sm) + "\n\n";
    PrefixOfConcat(prefix, sm);
    StartsWithAppend(prefix + sm, prefix, "\n\n");
    MarkdownParts(r);
    var u1, u2, u3 := Unlines(SectionLines(r.sections)), Unlines(FindingLines(r.keyFindings)), Unlines(SourceLines(r.citedSources));
    StartsWithAppend(head, prefix, u1);
    StartsWithAppend(head + u1, prefix, u2);
    StartsWithAppend(head + u1 + u2, prefix, u3);
  }

  /** No newline in any of the report's texts. */
  predicate SingleLineTexts(r: Report) {
    && (r.title.Val? ==> '\n' !in r.title.value)
    && (r.summary.Val? ==> '\n' !in r.summary.value)
    && (r.sections.Val? ==> forall i :: 0 <= i < |r.sections.value| ==>
          '\n' !in r.sections.value[i].name
          && (r.sections.value[i].text.Some? ==> '\n' !in r.sections.value[i].text.value))
    && (r.keyFindings.Val? ==> forall i :: 0 <= i < |r.keyFindings.value| ==> '\n' !in r.keyFindings.value[i])
    && (r.citedSources.Val? ==> forall i :: 0 <= i < |r.citedSources.value| ==> '\n' !in r.citedSources.value[i])
  }

  lemma {:induction false} SectionBlocksNoNewline(ss: seq<Section>)
    requires forall i :: 0 <= i < |ss| ==> '\n' !in ss[i].name && (ss[i].text.Some? ==> '\n' !in ss[i].text.value)
    ensures SingleLines(SectionBlocks(ss))
    decreases |ss|
  {
    if ss != [] {
      var s := ss[|ss| - 1];
      SectionBlocksNoNewline(ss[..|ss| - 1]);
      var h := ReplaceChar(s.name, '_', ' ');
      assert '\n' !in h by {
        forall k | 0 <= k < |h| ensures h[k] != '\n' {
          assert s.name[k] != '\n';
        }
      }
      ConcatNoNewline("### ", h);
      assert SingleLines(SectionBlock(s));
      SingleLinesAppend(SectionBlocks(ss[..|ss| - 1]), SectionBlock(s));
    }
  }

  lemma BulletsNoNewline(xs: seq<string>)
    requires forall i :: 0 <= i < |xs| ==> '\n' !in xs[i]
    ensures SingleLines(Bullets(xs))
  {
    forall i | 0 <= i < |xs| ensures '\n' !in Bullets(xs)[i] {
      ConcatNoNewline("- ", xs[i]);
    }
  }

  lemma HeadLinesSingle(r: Report)
    requires SingleLineTexts(r)
    ensures SingleLines(HeadLines(r))
  {
    ConcatNoNewline("# ", Shown(r.title, "Untitled Report"));
  }

  lemma SectionLinesSingle(f: Field<seq<Section>>)
    requires f.Val? ==> forall i :: 0 <= i < |f.value| ==>
               '\n' !in f.value[i].name && (f.value[i].text.Some? ==> '\n' !in f.value[i].text.value)
    ensures SingleLines(SectionLines(f))
  {
    if f.Val? {
      SectionBlocksNoNewline(f.value);
      SingleLinesAppend(["## \U{1F9E9} Research Sections"], SectionBlocks(f.value));
    }
  }

  lemma FindingLinesSingle(f: Field<seq<string>>)
    requires f.Val? ==> forall i :: 0 <= i < |f.value| ==> '\n' !in f.value[i]
    ensures SingleLines(FindingLines(f))
  {
    if f.Val? && f.value != [] {
      BulletsNoNewline(f.value);
      SingleLinesAppend(["## \U{1F50D} Key Findings"], Bullets(f.value));
      SingleLinesAppend(["## \U{1F50D} Key Findings"] + Bullets(f.value), [""]);
    }
  }

  lemma SourceLinesSingle(f: Field<seq<string>>)
    requires f.Val? ==> forall i :: 0 <= i < |f.value| ==> '\n' !in f.value[i]
    ensures SingleLines(SourceLines(f))
  {
    if f.Val? && f.value != [] {
      BulletsNoNewline(f.value);
      SingleLinesAppend(["## \U{1F310} Cited Sources"], Bullets(f.value));
    }
  }

  /**
   * When no text of the report holds a newline, the document's lines are
   * exactly the block lines: the head, the sections block when `sections`
   * is an object, one `- item` line per finding and per source when those
   * lists are non-empty.
   */
  lemma MarkdownLayout(r: Report)
    requires SingleLineTexts(r)
    ensures Split(Markdown(r), "\n") == MarkdownLines(r) + [""]
  {
    var head, sec := HeadLines(r), SectionLines(r.sections);
    var fin, src := FindingLines(r.keyFindings), SourceLines(r.citedSources);
    HeadLinesSingle(r);
    SectionLinesSingle(r.sections);
    FindingLinesSingle(r.keyFindings);
    SourceLinesSingle(r.citedSources);
    SingleLinesAppend(head, sec);
    SingleLinesAppend(head + sec, fin);
    SingleLinesAppend(head + sec + fin, src);
    SplitUnlines(MarkdownLines(r));
  }

  // ---------------------------------------------------------------------
  // save_output

  /** What `save_output` writes: the two paths, the JSON report and the Markdown text. */
  datatype Saved = Saved(paths: Paths, json: Report, markdown: string)

  /**
   * `save_output`: validates the report and renders the validated one, so
   * the saved Markdown never has a sections block. `None` when the null
   * title makes the file name raise before anything is written.
   */
  method SaveOutput(report: Report, timestamp: string) returns (saved: Option<Saved>)
    ensures saved.None? <==> report.title.Null?
    ensures saved.Some? ==>
              && Some(saved.value.paths) == OutputPaths(report, timestamp)
              && saved.value.json == Validated(report)
              && saved.value.markdown == Markdown(Validated(report))
  {
    var paths := OutputPaths(report, timestamp);
    if paths.None? {
      return None;
    }
    var structured := ValidateSchema(report);
    var md := ToMarkdown(structured);
    saved := Some(Saved(paths.value, structured, md));
  }

  /** The saved Markdown never has a sections block: only the head, the findings and the sources. */
  lemma SavedMarkdownBlocks(r: Report)
    ensures MarkdownLines(Validated(r))
      == HeadLines(Validated(r)) + FindingLines(Val(ListOr(r.keyFindings))) + SourceLines(Val(ListOr(r.citedSources)))
  {
    assert SectionLines(Validated(r).sections) == [];
  }
}
