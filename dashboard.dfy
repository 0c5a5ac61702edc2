/**
 * The dashboard generator: which saved files are read back as reports,
 * the one-entry-per-report summary built from them, and its Markdown
 * table.
 */
module Dashboard {
  import opened Values
  import opened Text
  import opened Reports

  // ---------------------------------------------------------------------
  // Loading the saved reports

  /** A file of the output directory: its name and its content. */
  datatype File = File(name: string, content: string)

  /** The file-name filter of `_load_reports`. */
  predicate IsJsonName(name: string) {
    EndsWith(name, ".json")
  }

  /** The content test of `_load_reports`: non-empty once stripped, and starting with `{`. */
  predicate Acceptable(content: string) {
    var c := Strip(content);
    c != [] && StartsWith(c, "{")
  }

  /** The `.json` files, in directory order. */
  function JsonFiles(files: seq<File>): (js: seq<File>)
    ensures |js| <= |files|
    ensures forall k :: 0 <= k < |js| ==> IsJsonName(js[k].name) && js[k] in files
  {
    if files == [] then []
    else
      var rest := JsonFiles(files[..|files| - 1]);
      var f := files[|files| - 1];
      if IsJsonName(f.name) then rest + [f] else rest
  }

  /**
   * The reports read from the given files: a file whose content is not
   * acceptable is skipped, and so is one the parser rejects; the stripped
   * content is what is parsed.
   */
  function Parsed(files: seq<File>, parse: string -> Option<Report>): seq<Report> {
    if files == [] then []
    else
      var rest := Parsed(files[..|files| - 1], parse);
      var f := files[|files| - 1];
      if Acceptable(f.content) && parse(Strip(f.content)).Some? then rest + [parse(Strip(f.content)).value]
      else rest
  }

  /** What `_load_reports` returns for a directory listing. */
  function Loaded(files: seq<File>, parse: string -> Option<Report>): seq<Report> {
    Parsed(JsonFiles(files), parse)
  }

  /** `_load_reports`: a pass over the `.json` files that keeps the reports that load. */
  method LoadReports(files: seq<File>, parse: string -> Option<Report>) returns (reports: seq<Report>)
    ensures reports == Loaded(files, parse)
  {
    var json := JsonFiles(files);
    reports := [];
    for i := 0 to |json|
      invariant reports == Parsed(json[..i], parse)
    {
      assert json[..i + 1][..i] == json[..i];
      var content := Strip(json[i].content);
      if content == [] || !StartsWith(content, "{") {
        continue;
      }
      var data := parse(content);
      if data.None? {
        continue;
      }
      reports := reports + [data.value];
    }
    assert json[..|json|] == json;
  }

  /** A file contributes the report its stripped content parses to, if it is accepted. */
  predicate Loads(f: File, parse: string -> Option<Report>) {
    IsJsonName(f.name) && Acceptable(f.content) && parse(Strip(f.content)).Some?
  }

  lemma {:induction false} ParsedAppend(a: seq<File>, b: seq<File>, parse: string -> Option<Report>)
    ensures Parsed(a + b, parse) == Parsed(a, parse) + Parsed(b, parse)
    decreases |b|
  {
    if b == [] {
      assert a + b == a;
    } else {
      var b' := b[..|b| - 1];
      assert (a + b)[..|a + b| - 1] == a + b';
      assert (a + b)[|a + b| - 1] == b[|b| - 1];
      ParsedAppend(a, b', parse);
    }
  }

  lemma {:induction false} JsonFilesAppend(a: seq<File>, b: seq<File>)
    ensures JsonFiles(a + b) == JsonFiles(a) + JsonFiles(b)
    decreases |b|
  {
    if b == [] {
      assert a + b == a;
    } else {
      var b' := b[..|b| - 1];
      assert (a + b)[..|a + b| - 1] == a + b';
      assert (a + b)[|a + b| - 1] == b[|b| - 1];
      JsonFilesAppend(a, b');
    }
  }

  /** Loading distributes over the directory listing. */
  lemma LoadedAppend(a: seq<File>, b: seq<File>, parse: string -> Option<Report>)
    ensures Loaded(a + b, parse) == Loaded(a, parse) + Loaded(b, parse)
  {
    JsonFilesAppend(a, b);
    ParsedAppend(JsonFiles(a), JsonFiles(b), parse);
  }

  /** One file on its own loads its report exactly when it passes every test. */
  lemma LoadedOne(f: File, parse: string -> Option<Report>)
    ensures Loaded([f], parse) == if Loads(f, parse) then [parse(Strip(f.content)).value] else []
  {
    assert [f][..0] == [];
    if IsJsonName(f.name) {
      assert JsonFiles([f]) == [f];
      assert Parsed([f], parse)
        == if Acceptable(f.content) && parse(Strip(f.content)).Some? then [parse(Strip(f.content)).value] else [];
    } else {
      assert JsonFiles([f]) == [];
    }
  }

  /**
   * A file that is not `.json`, is blank or does not start with `{`, or
   * does not parse, is skipped: the other files load as if it were not there.
   */
  lemma LoadedSkips(a: seq<File>, f: File, b: seq<File>, parse: string -> Option<Report>)
    requires !Loads(f, parse)
    ensures Loaded(a + [f] + b, parse) == Loaded(a + b, parse)
  {
    LoadedAppend(a + [f], b, parse);
    LoadedAppend(a, [f], parse);
    LoadedAppend(a, b, parse);
    LoadedOne(f, parse);
  }

  /** No more reports than files. */
  lemma {:induction false} LoadedBound(files: seq<File>, parse: string -> Option<Report>)
    ensures |Loaded(files, parse)| <= |files|
    decreases |files|
  {
    if files != [] {
      var init, f := files[..|files| - 1], files[|files| - 1];
      assert files == init + [f];
      LoadedBound(init, parse);
      LoadedAppend(init, [f], parse);
      LoadedOne(f, parse);
    }
  }

  /** Every loaded report comes from a file that passes every test. */
  lemma {:induction false} LoadedFrom(files: seq<File>, parse: string -> Option<Report>, k: nat)
    requires k < |Loaded(files, parse)|
    ensures exists i :: 0 <= i < |files| && Loads(files[i], parse)
                        && parse(Strip(files[i].content)) == Some(Loaded(files, parse)[k])
    decreases |files|
  {
    var init, f := files[..|files| - 1], files[|files| - 1];
    assert files == init + [f];
    LoadedAppend(init, [f], parse);
    LoadedOne(f, parse);
    if k < |Loaded(init, parse)| {
      LoadedFrom(init, parse, k);
      var i :| 0 <= i < |init| && Loads(init[i], parse)
               && parse(Strip(init[i].content)) == Some(Loaded(init, parse)[k]);
      assert files[i] == init[i];
    } else {
      assert Loaded(files, parse)[k] == parse(Strip(f.content)).value;
    }
  }

  lemma {:induction false} JsonFilesAll(files: seq<File>)
    requires forall i :: 0 <= i < |files| ==> IsJsonName(files[i].name)
    ensures JsonFiles(files) == files
    decreases |files|
  {
    if files != [] {
      var init := files[..|files| - 1];
      assert forall i :: 0 <= i < |init| ==> init[i] == files[i];
      JsonFilesAll(init);
      assert files == init + [files[|files| - 1]];
    }
  }

  lemma {:induction false} ParsedAll(files: seq<File>, parse: string -> Option<Report>)
    requires forall i :: 0 <= i < |files| ==> Acceptable(files[i].content) && parse(Strip(files[i].content)).Some?
    ensures |Parsed(files, parse)| == |files|
    ensures forall i :: 0 <= i < |files| ==> Some(Parsed(files, parse)[i]) == parse(Strip(files[i].content))
    decreases |files|
  {
    if files != [] {
      var init, f := files[..|files| - 1], files[|files| - 1];
      assert forall i :: 0 <= i < |init| ==> init[i] == files[i];
      ParsedAll(init, parse);
      ParsedLast(files, parse);
      var l, l0 := Parsed(files, parse), Parsed(init, parse);
      forall i | 0 <= i < |files| ensures Some(l[i]) == parse(Strip(files[i].content)) {
        if i < |init| {
          assert l[i] == l0[i] && files[i] == init[i];
        }
      }
    }
  }

  lemma ParsedLast(files: seq<File>, parse: string -> Option<Report>)
    requires files != []
    requires Acceptable(files[|files| - 1].content) && parse(Strip(files[|files| - 1].content)).Some?
    ensures Parsed(files, parse)
            == Parsed(files[..|files| - 1], parse) + [parse(Strip(files[|files| - 1].content)).value]
  {
  }

  /** When every file passes every test, each one yields its report, in order. */
  lemma LoadedAll(files: seq<File>, parse: string -> Option<Report>)
    requires forall i :: 0 <= i < |files| ==> Loads(files[i], parse)
    ensures |Loaded(files, parse)| == |files|
    ensures forall i :: 0 <= i < |files| ==> Some(Loaded(files, parse)[i]) == parse(Strip(files[i].content))
  {
    JsonFilesAll(files);
    ParsedAll(files, parse);
  }

  // ---------------------------------------------------------------------
  // Entries

  /** One line of the dashboard's `topics`; `title` is `None` for a JSON null title. */
  datatype TopicEntry = TopicEntry(title: Option<string>, snippet: string, findingsCount: nat, sourceCount: nat)

  /**
   * `summary.split(".")[0][:200] + "..."`: the first sentence, cut to 200
   * characters when longer, then `...`.
   */
  function Snippet(summary: string): (snip: string)
    ensures EndsWith(snip, "...") && |snip| <= 203
    ensures var first := Split(summary, ".")[0];
            && |snip| == (if |first| < 200 then |first| else 200) + 3
            && StartsWith(first, snip[..|snip| - 3])
  {
    var s := Take(Split(summary, ".")[0], 200) + "...";
    assert s[|s| - 3..] == "...";
    s
  }

  /** The snippet is a period-free prefix of the summary followed by `...`. */
  lemma SnippetShape(summary: string)
    ensures var body := Snippet(summary)[..|Snippet(summary)| - 3];
            StartsWith(summary, body) && '.' !in body
  {
    var first := Split(summary, ".")[0];
    SplitFirstPieces(summary, ".");
    SplitPiecesFree(summary, ".");
    var body := Take(first, 200);
    assert Snippet(summary)[..|Snippet(summary)| - 3] == body;
    assert body == first[..|body|];
    if '.' in body {
      var j :| 0 <= j < |body| && body[j] == '.';
      assert OccursAt(first, ".", j);
    }
  }

  /** A short summary without a period is kept whole. */
  lemma SnippetShort(summary: string)
    requires '.' !in summary && |summary| <= 200
    ensures Snippet(summary) == summary + "..."
  {
    CharAbsent(summary, '.');
  }

  /** The snippet stops at the first period. */
  lemma SnippetStopsAtPeriod(a: string, b: string)
    requires '.' !in a && |a| <= 200
    ensures Snippet(a + "." + b) == a + "..."
  {
    var s := a + "." + b;
    assert OccursAt(s, ".", |a|);
    forall j | 0 <= j < |a| ensures !OccursAt(s, ".", j) {
      assert s[j] == a[j];
    }
    FirstOccurrence(s, ".", |a|);
    assert Split(s, ".")[0] == s[..|a|] == a;
  }

  /**
   * The entry `build_dashboard` makes for a report, or `None` where it
   * raises: a null summary has no `split` and a null list has no `len`.
   */
  function EntryOf(r: Report): Option<TopicEntry> {
    if r.summary.Null? || r.keyFindings.Null? || r.citedSources.Null? then None
    else
      var title := match r.title
        case Absent => Some("Unknown")
        case Null => None
        case Val(t) => Some(t);
      var summary := if r.summary.Val? then r.summary.value else "";
      var findings := if r.keyFindings.Val? then r.keyFindings.value else [];
      var sources := if r.citedSources.Val? then r.citedSources.value else [];
      Some(TopicEntry(title, Snippet(summary), |findings|, |sources|))
  }

  /**
   * A report whose summary and lists are not null gets an entry: its title
   * defaults to `Unknown` and stays `None` when null, its snippet is that of
   * the summary (`""` when missing), and its counts are the list lengths
   * (zero when missing).
   */
  lemma EntryOfFields(r: Report)
    ensures EntryOf(r).Some? <==> !r.summary.Null? && !r.keyFindings.Null? && !r.citedSources.Null?
    ensures EntryOf(r).Some? ==>
              && (r.title.Absent? ==> EntryOf(r).value.title == Some("Unknown"))
              && (r.title.Val? ==> EntryOf(r).value.title == Some(r.title.value))
              && (r.title.Null? ==> EntryOf(r).value.title == None)
              && EntryOf(r).value.snippet == Snippet(if r.summary.Val? then r.summary.value else "")
              && EntryOf(r).value.findingsCount == (if r.keyFindings.Val? then |r.keyFindings.value| else 0)
              && EntryOf(r).value.sourceCount == (if r.citedSources.Val? then |r.citedSources.value| else 0)
              && EndsWith(EntryOf(r).value.snippet, "...")
              && |EntryOf(r).value.snippet| <= 203
  {
  }

  // ---------------------------------------------------------------------
  // The dashboard and its Markdown

  datatype DashboardData = DashboardData(generatedAt: string, totalReports: nat, topics: seq<TopicEntry>)

  /** The table row of one entry. */
  function Row(t: TopicEntry): string {
    "| " + Show(t.title) + " | " + t.snippet + " | " + NatString(t.findingsCount) + " | "
    + NatString(t.sourceCount) + " |"
  }

  function Rows(ts: seq<TopicEntry>): (rs: seq<string>)
    ensures |rs| == |ts| && forall i :: 0 <= i < |ts| ==> rs[i] == Row(ts[i])
  {
    seq(|ts|, i requires 0 <= i < |ts| => Row(ts[i]))
  }

  const DashboardTitle: string := "# \U{1F4CA} DRSA Research Dashboard"
  const TableHeader: string := "| Topic | Summary | Findings | Sources |"
  const TableRule: string := "|---|---|---|---|"

  function TotalLine(n: nat): string {
    "### Total Reports: **" + NatString(n) + "**"
  }

  /** The title, the time stamp, the total and the table's header and separator. */
  function HeaderLines(d: DashboardData): seq<string> {
    [DashboardTitle, "Generated: " + d.generatedAt, "", TotalLine(d.totalReports), "", TableHeader, TableRule]
  }

  function DashboardLines(d: DashboardData): seq<string> {
    HeaderLines(d) + Rows(d.topics)
  }

  function DashboardMarkdown(d: DashboardData): string {
    Unlines(DashboardLines(d))
  }

  /** The header lines as the four writes of `_to_markdown` produce them. */
  lemma HeaderText(d: DashboardData)
    ensures Unlines(HeaderLines(d))
      == DashboardTitle + "\n" + ("Generated: " + d.generatedAt) + "\n\n" + (TotalLine(d.totalReports) + "\n\n")
         + (TableHeader + "\n") + (TableRule + "\n")
  {
    var h := HeaderLines(d);
    var a, b, c, e := [h[0], h[1], h[2]], [h[3], h[4]], [h[5]], [h[6]];
    assert h == a + b + c + e;
    UnlinesAppend(a + b + c, e);
    UnlinesAppend(a + b, c);
    UnlinesAppend(a, b);
    UnlinesTwoBlank(h[0], h[1]);
    UnlinesBlank(h[3]);
    UnlinesCons(h[5], []);
    UnlinesCons(h[6], []);
  }

  /** `_to_markdown`: the header, then one row per entry. */
  method ToMarkdown(d: DashboardData) returns (md: string)
    ensures md == DashboardMarkdown(d)
  {
    md := DashboardTitle + "\n" + ("Generated: " + d.generatedAt) + "\n\n";
    md := md + (TotalLine(d.totalReports) + "\n\n");
    md := md + (TableHeader + "\n");
    md := md + (TableRule + "\n");
    HeaderText(d);
    md := AppendRows(md, d.topics);
    UnlinesAppend(HeaderLines(d), Rows(d.topics));
  }

  /** The loop of `_to_markdown`: one row per entry, in order. */
  method AppendRows(md0: string, ts: seq<TopicEntry>) returns (md: string)
    ensures md == md0 + Unlines(Rows(ts))
  {
    md := md0;
    for i := 0 to |ts|
      invariant md == md0 + Unlines(Rows(ts[..i]))
    {
      var row := Row(ts[i]);
      var line := row + "\n";
      md := md + line;
      RowsStep(ts, i);
      UnlinesSnoc(Rows(ts[..i]), row);
      ConcatAssoc(md0, Unlines(Rows(ts[..i])), line);
    }
    assert ts[..|ts|] == ts;
  }

  lemma RowsStep(ts: seq<TopicEntry>, i: nat)
    requires i < |ts|
    ensures Rows(ts[..i + 1]) == Rows(ts[..i]) + [Row(ts[i])]
  {
    var a, b := Rows(ts[..i + 1]), Rows(ts[..i]) + [Row(ts[i])];
    assert |a| == |b|;
    forall k | 0 <= k < |a| ensures a[k] == b[k] {
      if k < i {
        assert ts[..i + 1][k] == ts[..i][k];
      }
    }
  }

  lemma NumbersNoNewline(n: nat)
    ensures '\n' !in NatString(n)
  {
  }

  lemma HeaderNoNewline(d: DashboardData)
    requires '\n' !in d.generatedAt
    ensures SingleLines(HeaderLines(d))
  {
    NumbersNoNewline(d.totalReports);
    LabelsSingle();
    TableHeadSingle();
    ConcatNoNewline("Generated: ", d.generatedAt);
    ConcatNoNewline("### Total Reports: **", NatString(d.totalReports));
    ConcatNoNewline("### Total Reports: **" + NatString(d.totalReports), "**");
  }

  lemma LabelsSingle()
    ensures '\n' !in DashboardTitle
    ensures '\n' !in "Generated: " && '\n' !in "### Total Reports: **" && '\n' !in "**"
  {
  }

  lemma TableHeadSingle()
    ensures '\n' !in TableHeader && '\n' !in TableRule
  {
  }

  lemma RowsNoNewline(ts: seq<TopicEntry>)
    requires forall i :: 0 <= i < |ts| ==> '\n' !in Show(ts[i].title) && '\n' !in ts[i].snippet
    ensures SingleLines(Rows(ts))
  {
    forall i | 0 <= i < |ts| ensures '\n' !in Rows(ts)[i] {
      RowNoNewline(ts[i]);
    }
  }

  lemma RowNoNewline(t: TopicEntry)
    requires '\n' !in Show(t.title) && '\n' !in t.snippet
    ensures '\n' !in Row(t)
  {
    NumbersNoNewline(t.findingsCount);
    NumbersNoNewline(t.sourceCount);
  }

  /**
   * When neither the time stamp nor any title or snippet holds a newline,
   * the table has its header and separator followed by exactly one row per
   * entry, in order.
   */
  lemma TableLayout(d: DashboardData)
    requires '\n' !in d.generatedAt
    requires forall i :: 0 <= i < |d.topics| ==>
               '\n' !in Show(d.topics[i].title) && '\n' !in d.topics[i].snippet
    ensures Split(DashboardMarkdown(d), "\n") == DashboardLines(d) + [""]
    ensures |DashboardLines(d)| == 7 + |d.topics|
    ensures DashboardLines(d)[5] == TableHeader && DashboardLines(d)[6] == TableRule
    ensures forall i :: 0 <= i < |d.topics| ==> DashboardLines(d)[7 + i] == Row(d.topics[i])
  {
    HeaderNoNewline(d);
    RowsNoNewline(d.topics);
    SingleLinesAppend(HeaderLines(d), Rows(d.topics));
    SplitUnlines(DashboardLines(d));
  }

  /** What `build_dashboard` ends with. */
  datatype Build =
    | NoReports
    | Crashed
    | Built(dashboard: DashboardData, markdown: string)

  /**
   * The loop of `build_dashboard`: one entry per report, in order, or
   * `None` as soon as a report makes it raise.
   */
  method BuildEntries(reports: seq<Report>) returns (topics: Option<seq<TopicEntry>>)
    ensures topics.None? <==> exists i :: 0 <= i < |reports| && EntryOf(reports[i]).None?
    ensures topics.Some? ==>
              && |topics.value| == |reports|
              && forall i :: 0 <= i < |reports| ==> EntryOf(reports[i]) == Some(topics.value[i])
  {
    var ts := [];
    for i := 0 to |reports|
      invariant |ts| == i
      invariant forall k :: 0 <= k < i ==> EntryOf(reports[k]) == Some(ts[k])
    {
      var entry := EntryOf(reports[i]);
      if entry.None? {
        return None;
      }
      ts := ts + [entry.value];
    }
    topics := Some(ts);
  }

  /**
   * `build_dashboard` over a directory listing and the time stamp: nothing
   * without reports; otherwise one entry per loaded report, in order, and
   * the Markdown of that dashboard. A null summary or list raises.
   */
  method BuildDashboard(files: seq<File>, parse: string -> Option<Report>, generatedAt: string)
    returns (b: Build)
    ensures b.NoReports? <==> Loaded(files, parse) == []
    ensures b.Crashed? <==>
              exists i :: 0 <= i < |Loaded(files, parse)| && EntryOf(Loaded(files, parse)[i]).None?
    ensures b.Built? ==>
              && b.dashboard.generatedAt == generatedAt
              && b.dashboard.totalReports == |Loaded(files, parse)|
              && |b.dashboard.topics| == |Loaded(files, parse)|
              && (forall i :: 0 <= i < |b.dashboard.topics| ==>
                    EntryOf(Loaded(files, parse)[i]) == Some(b.dashboard.topics[i]))
              && b.markdown == DashboardMarkdown(b.dashboard)
  {
    var reports := LoadReports(files, parse);
    if reports == [] {
      return NoReports;
    }
    var topics := BuildEntries(reports);
    if topics.None? {
      return Crashed;
    }
    var dashboard := DashboardData(generatedAt, |reports|, topics.value);
    var md := ToMarkdown(dashboard);
    b := Built(dashboard, md);
  }
}
