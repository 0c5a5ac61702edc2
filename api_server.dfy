/**
 * The web server's request handlers, without the web framework: the guard
 * that answers 404 when no source is found, the plain-text copy block the
 * form page shows, and the file name of the PDF returned to the client.
 */
module ApiServer {
  import opened Values
  import opened Text
  import opened Reports
  import opened Retriever
  import opened Synthesizer
  import opened OutputFormatter

  // ---------------------------------------------------------------------
  // The copy block

  /** `f"{report.get('title', '')}"`: empty when missing, `None` when null. */
  function TitleText(f: Field<string>): string {
    match f
    case Absent => ""
    case Null => "None"
    case Val(t) => t
  }

  /** The first five lines: title, blank, summary heading, summary, blank. */
  function HeadCopy(r: Report): seq<string> {
    ["# " + TitleText(r.title), "", "## Summary", TextOr(r.summary, ""), ""]
  }

  /** The three lines of one section: heading, text (`txt or ""`) and a blank line. */
  function SectionCopy(s: Section): seq<string> {
    ["### " + ReplaceChar(s.name, '_', ' '), if s.text.Some? then s.text.value else "", ""]
  }

  function SectionCopies(ss: seq<Section>): seq<string> {
    if ss == [] then [] else SectionCopies(ss[..|ss| - 1]) + SectionCopy(ss[|ss| - 1])
  }

  /** The sections block, written only for a non-empty sections object. */
  function SectionsCopy(f: Field<seq<Section>>): seq<string> {
    if f.Val? && f.value != [] then ["## Sections"] + SectionCopies(f.value) else []
  }

  /** The Key Findings block, written only for a non-empty list. */
  function FindingsCopy(f: Field<seq<string>>): seq<string> {
    if f.Val? && f.value != [] then ["## Key Findings"] + Bullets(f.value) + [""] else []
  }

  /** The Cited Sources block, written only for a non-empty list. */
  function SourcesCopy(f: Field<seq<string>>): seq<string> {
    if f.Val? && f.value != [] then ["## Cited Sources"] + Bullets(f.value) else []
  }

  /** The blocks after the first five lines. */
  function CopyBlocks(r: Report): seq<string> {
    SectionsCopy(r.sections) + FindingsCopy(r.keyFindings) + SourcesCopy(r.citedSources)
  }

  /** `copy_block_lines` once every block is appended. */
  function CopyLines(r: Report): seq<string> {
    HeadCopy(r) + CopyBlocks(r)
  }

  /** The loop over the sections: a heading, the text and a blank line per section. */
  method AppendSectionCopies(lines0: seq<string>, ss: seq<Section>) returns (lines: seq<string>)
    ensures lines == lines0 + SectionCopies(ss)
  {
    lines := lines0;
    for i := 0 to |ss|
      invariant lines == lines0 + SectionCopies(ss[..i])
    {
      lines := lines + ["### " + ReplaceChar(ss[i].name, '_', ' ')];
      lines := lines + [if ss[i].text.Some? then ss[i].text.value else ""];
      lines := lines + [""];
      assert ss[..i + 1][..i] == ss[..i];
    }
    assert ss[..|ss|] == ss;
  }

  /** A loop appending `- item` per item. */
  method AppendBulletLines(lines0: seq<string>, xs: seq<string>) returns (lines: seq<string>)
    ensures lines == lines0 + Bullets(xs)
  {
    lines := lines0;
    for i := 0 to |xs|
      invariant lines == lines0 + Bullets(xs[..i])
    {
      lines := lines + ["- " + xs[i]];
      assert Bullets(xs[..i + 1]) == Bullets(xs[..i]) + ["- " + xs[i]];
    }
    assert xs[..|xs|] == xs;
  }

  /** The sections part: written only for a non-empty sections object. */
  method AppendSectionsCopy(lines0: seq<string>, f: Field<seq<Section>>) returns (lines: seq<string>)
    ensures lines == lines0 + SectionsCopy(f)
  {
    lines := lines0;
    if f.Val? && f.value != [] {
      lines := lines + ["## Sections"];
      lines := AppendSectionCopies(lines, f.value);
    }
  }

  /** The Key Findings part: written only for a non-empty list. */
  method AppendFindingsCopy(lines0: seq<string>, f: Field<seq<string>>) returns (lines: seq<string>)
    ensures lines == lines0 + FindingsCopy(f)
  {
    lines := lines0;
    if f.Val? && f.value != [] {
      lines := lines + ["## Key Findings"];
      lines := AppendBulletLines(lines, f.value);
      lines := lines + [""];
    }
  }

  /** The Cited Sources part: written only for a non-empty list. */
  method AppendSourcesCopy(lines0: seq<string>, f: Field<seq<string>>) returns (lines: seq<string>)
    ensures lines == lines0 + SourcesCopy(f)
  {
    lines := lines0;
    if f.Val? && f.value != [] {
      lines := lines + ["## Cited Sources"];
      lines := AppendBulletLines(lines, f.value);
    }
  }

  /**
   * The loops of `run_from_form` that build `copy_block_lines`, then the
   * join. A null summary puts `None` among the lines, and the join raises.
   */
  method CopyBlock(report: Report) returns (block: Option<string>)
    ensures block.None? <==> report.summary.Null?
    ensures block.Some? ==> block.value == Join(CopyLines(report), "\n")
  {
    var lines := HeadCopy(report);
    lines := AppendSectionsCopy(lines, report.sections);
    lines := AppendFindingsCopy(lines, report.keyFindings);
    lines := AppendSourcesCopy(lines, report.citedSources);
    var h, s, f, c := HeadCopy(report), SectionsCopy(report.sections), FindingsCopy(report.keyFindings),
                      SourcesCopy(report.citedSources);
    ConcatAssoc(h, s, f);
    ConcatAssoc(h, s + f, c);
    assert lines == CopyLines(report);
    if report.summary.Null? {
      return None;
    }
    block := Some(Join(lines, "\n"));
  }

  /** The first five lines as text. */
  lemma HeadCopyText(r: Report)
    ensures Join(HeadCopy(r), "\n")
      == "# " + TitleText(r.title) + "\n" + "" + "\n" + "## Summary" + "\n" + TextOr(r.summary, "") + "\n"
  {
    var h := HeadCopy(r);
    JoinCons(h[3], [h[4]], "\n");
    assert h[2..] == [h[2]] + h[3..] && h[3..] == [h[3], h[4]];
    JoinCons(h[2], h[3..], "\n");
    assert h[1..] == [h[1]] + h[2..];
    JoinCons(h[1], h[2..], "\n");
    assert h == [h[0]] + h[1..];
    JoinCons(h[0], h[1..], "\n");
  }

  /**
   * The copy block begins with the title line, a blank line, the summary
   * heading, the summary and a newline.
   */
  lemma CopyBlockStart(r: Report)
    ensures StartsWith(Join(CopyLines(r), "\n"),
                       "# " + TitleText(r.title) + "\n" + "" + "\n" + "## Summary" + "\n" + TextOr(r.summary, "") + "\n")
  {
    JoinPrefix(HeadCopy(r), CopyBlocks(r), "\n");
    HeadCopyText(r);
  }

  /** The lines of the sections block, three per section, in order. */
  lemma {:induction false} SectionCopiesShape(ss: seq<Section>)
    ensures |SectionCopies(ss)| == 3 * |ss|
    ensures forall k :: 0 <= k < |ss| ==> SectionCopies(ss)[3 * k..3 * k + 3] == SectionCopy(ss[k])
    decreases |ss|
  {
    if ss != [] {
      var init := ss[..|ss| - 1];
      SectionCopiesShape(init);
      var c, c0 := SectionCopies(ss), SectionCopies(init);
      forall k | 0 <= k < |ss| ensures c[3 * k..3 * k + 3] == SectionCopy(ss[k]) {
        if k < |init| {
          assert c[3 * k..3 * k + 3] == c0[3 * k..3 * k + 3];
          assert ss[k] == init[k];
        }
      }
    }
  }

  /**
   * When no text of the report holds a newline, splitting the copy block at
   * newlines gives back exactly its lines.
   */
  lemma CopyBlockLines(r: Report)
    requires SingleLineTexts(r)
    ensures Split(Join(CopyLines(r), "\n"), "\n") == CopyLines(r)
  {
    var head := HeadCopy(r);
    ConcatNoNewline("# ", TitleText(r.title));
    assert SingleLines(head);
    SectionsCopySingle(r.sections);
    FindingsCopySingle(r.keyFindings);
    SourcesCopySingle(r.citedSources);
    var sec, fin, src := SectionsCopy(r.sections), FindingsCopy(r.keyFindings), SourcesCopy(r.citedSources);
    SingleLinesAppend(head, sec);
    SingleLinesAppend(head + sec, fin);
    SingleLinesAppend(head + sec + fin, src);
    SplitJoin(CopyLines(r), '\n');
  }

  lemma {:induction false} SectionCopiesSingle(ss: seq<Section>)
    requires forall i :: 0 <= i < |ss| ==> '\n' !in ss[i].name && (ss[i].text.Some? ==> '\n' !in ss[i].text.value)
    ensures SingleLines(SectionCopies(ss))
    decreases |ss|
  {
    if ss != [] {
      var s := ss[|ss| - 1];
      SectionCopiesSingle(ss[..|ss| - 1]);
      var h := ReplaceChar(s.name, '_', ' ');
      assert '\n' !in h by {
        forall k | 0 <= k < |h| ensures h[k] != '\n' {
          assert s.name[k] != '\n';
        }
      }
      ConcatNoNewline("### ", h);
      assert SingleLines(SectionCopy(s));
      SingleLinesAppend(SectionCopies(ss[..|ss| - 1]), SectionCopy(s));
    }
  }

  lemma SectionsCopySingle(f: Field<seq<Section>>)
    requires f.Val? ==> forall i :: 0 <= i < |f.value| ==>
               '\n' !in f.value[i].name && (f.value[i].text.Some? ==> '\n' !in f.value[i].text.value)
    ensures SingleLines(SectionsCopy(f))
  {
    if f.Val? && f.value != [] {
      SectionCopiesSingle(f.value);
      SingleLinesAppend(["## Sections"], SectionCopies(f.value));
    }
  }

  lemma FindingsCopySingle(f: Field<seq<string>>)
    requires f.Val? ==> forall i :: 0 <= i < |f.value| ==> '\n' !in f.value[i]
    ensures SingleLines(FindingsCopy(f))
  {
    if f.Val? && f.value != [] {
      BulletsNoNewline(f.value);
      SingleLinesAppend(["## Key Findings"], Bullets(f.value));
      SingleLinesAppend(["## Key Findings"] + Bullets(f.value), [""]);
    }
  }

  lemma SourcesCopySingle(f: Field<seq<string>>)
    requires f.Val? ==> forall i :: 0 <= i < |f.value| ==> '\n' !in f.value[i]
    ensures SingleLines(SourcesCopy(f))
  {
    if f.Val? && f.value != [] {
      BulletsNoNewline(f.value);
      SingleLinesAppend(["## Cited Sources"], Bullets(f.value));
    }
  }

  // ---------------------------------------------------------------------
  // The PDF file name

  /** `os.path.basename`: the text after the last `/`. */
  function Basename(path: string): (b: string)
    ensures '/' !in b
    ensures EndsWith(path, b)
    ensures |b| < |path| ==> path[|path| - |b| - 1] == '/'
  {
    if path == [] then []
    else if path[|path| - 1] == '/' then []
    else Basename(path[..|path| - 1]) + [path[|path| - 1]]
  }

  /** Text without a `/` added at the end is kept in the base name. */
  lemma {:induction false} BasenameAppend(p: string, name: string)
    requires '/' !in name
    ensures Basename(p + name) == Basename(p) + name
    decreases |name|
  {
    if name == [] {
      assert p + name == p;
    } else {
      var init, c := name[..|name| - 1], name[|name| - 1];
      assert c != '/' by {
        assert c == name[|name| - 1];
      }
      assert name == init + [c];
      ConcatAssoc(p, init, [c]);
      BasenameSnoc(p + init, c);
      BasenameAppend(p, init);
      ConcatAssoc(Basename(p), init, [c]);
    }
  }

  lemma BasenameSnoc(s: string, c: char)
    requires c != '/'
    ensures Basename(s + [c]) == Basename(s) + [c]
  {
    assert (s + [c])[..|s|] == s;
  }

  /** A path without a `/` is its own base name. */
  lemma BasenamePlain(path: string)
    requires '/' !in path
    ensures Basename(path) == path
  {
    BasenameAppend([], path);
    assert [] + path == path;
  }

  /** The base name of a file inside a directory is the file's own name. */
  lemma BasenameOfJoin(dir: string, name: string)
    requires '/' !in name
    ensures Basename(dir + "/" + name) == name
  {
    BasenameAppend(dir + "/", name);
    assert Basename(dir + "/") == [];
  }

  // ---------------------------------------------------------------------
  // The handlers

  /**
   * The path `generate_pdf` writes to: the title with spaces replaced,
   * joined to the output directory. `None` when the title is missing
   * (`KeyError`) or null (`AttributeError`), which ends the request.
   */
  function PdfPath(r: Report, stamp: string): (p: Option<string>)
    ensures p.Some? <==> r.title.Val?
    ensures p.Some? ==> EndsWith(p.value, ReplaceChar(r.title.value, ' ', '_') + "_" + stamp + ".pdf")
  {
    if r.title.Val? then Some(PathJoin(OutputDir, ReplaceChar(r.title.value, ' ', '_') + "_" + stamp + ".pdf"))
    else None
  }

  /** Without a `/` in the title, the client gets the PDF's own file name. */
  lemma PdfNameOfTitle(r: Report, stamp: string)
    requires r.title.Val? && '/' !in r.title.value && '/' !in stamp
    ensures PdfPath(r, stamp).Some?
    ensures Basename(PdfPath(r, stamp).value) == ReplaceChar(r.title.value, ' ', '_') + "_" + stamp + ".pdf"
  {
    var t := ReplaceChar(r.title.value, ' ', '_');
    var name := t + "_" + stamp + ".pdf";
    assert forall i :: 0 <= i < |t| ==> t[i] != '/';
    assert '/' !in t;
    assert '/' !in name;
    assert !StartsWith(name, "/") by {
      if |name| > 0 { assert name[..1][0] == name[0]; }
    }
    BasenameOfJoin(OutputDir, name);
  }

  /**
   * How a request ends. `ServerError`: the handler raised and the client
   * gets a 500. `Unanswered`: the replies ran out before one was accepted.
   */
  datatype Response<T> = NotFound | ServerError | Unanswered | Answered(value: T)

  /** The form page's content: the report, the PDF's file name and the copy block. */
  datatype Page = Page(report: Report, pdfName: string, copyBlock: string)

  /** The JSON API's body: the report and the PDF's file name. */
  datatype ApiBody = ApiBody(report: Report, pdfName: string)

  /**
   * `run_from_form`, after the retriever has given `sources`: 404 without
   * sources (the model is never asked), else the synthesis loop over the
   * model's `replies` saved at `stamp`, then the PDF written at `pdfStamp`,
   * then the page. The `if not report` guard cannot fire: an accepted
   * report has a summary. A title that is not a string makes the save or
   * the PDF raise, and the client gets a 500; file writes are taken to
   * succeed.
   */
  method RunFromForm(sources: seq<Record>, replies: seq<string>, parse: string -> Option<Report>,
                     stamp: string, pdfStamp: string)
    returns (response: Response<Page>, attempts: nat)
    ensures sources == [] ==> response == NotFound && attempts == 0
    ensures sources != [] ==>
              match SynthesisEnding(replies, parse)
              case Unsettled => response == Unanswered && attempts == |replies|
              case SaveRaised(_) => response == ServerError
              case Returned(r) =>
                if PdfPath(r, pdfStamp).None? then response == ServerError
                else response == Answered(Page(r, Basename(PdfPath(r, pdfStamp).value), Join(CopyLines(r), "\n")))
    ensures response == ServerError <==>
              sources != [] && !SynthesisEnding(replies, parse).Unsettled? && !SynthesisEnding(replies, parse).report.title.Val?
    ensures attempts <= |replies|
  {
    if sources == [] {
      return NotFound, 0;
    }
    var ending, saved;
    ending, attempts, saved := SynthesizeReport(replies, parse, stamp);
    if ending.Unsettled? {
      return Unanswered, attempts;
    }
    if ending.SaveRaised? {
      return ServerError, attempts;
    }
    var report := ending.report;
    var pdfPath := PdfPath(report, pdfStamp);
    if pdfPath.None? {
      return ServerError, attempts;
    }
    assert report.summary.Val?;
    var block := CopyBlock(report);
    response := Answered(Page(report, Basename(pdfPath.value), block.value));
  }

  /** `api_research`: the same guard, loop and PDF, answering with the report and the PDF's file name. */
  method ApiResearch(sources: seq<Record>, replies: seq<string>, parse: string -> Option<Report>,
                     stamp: string, pdfStamp: string)
    returns (response: Response<ApiBody>, attempts: nat)
    ensures sources == [] ==> response == NotFound && attempts == 0
    ensures sources != [] ==>
              match SynthesisEnding(replies, parse)
              case Unsettled => response == Unanswered && attempts == |replies|
              case SaveRaised(_) => response == ServerError
              case Returned(r) =>
                if PdfPath(r, pdfStamp).None? then response == ServerError
                else response == Answered(ApiBody(r, Basename(PdfPath(r, pdfStamp).value)))
    ensures response == ServerError <==>
              sources != [] && !SynthesisEnding(replies, parse).Unsettled? && !SynthesisEnding(replies, parse).report.title.Val?
    ensures attempts <= |replies|
  {
    if sources == [] {
      return NotFound, 0;
    }
    var ending, saved;
    ending, attempts, saved := SynthesizeReport(replies, parse, stamp);
    if ending.Unsettled? {
      return Unanswered, attempts;
    }
    if ending.SaveRaised? {
      return ServerError, attempts;
    }
    var pdfPath := PdfPath(ending.report, pdfStamp);
    if pdfPath.None? {
      return ServerError, attempts;
    }
    response := Answered(ApiBody(ending.report, Basename(pdfPath.value)));
  }
}
