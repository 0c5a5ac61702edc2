/**
 * The batch driver: the topics read from the user's input, the per-topic
 * research loop, and the file-name rules that choose which saved reports
 * are critiqued and which are absorbed into the knowledge memory.
 */
module Batch {
  import opened Values
  import opened Text
  import opened Reports
  import opened Retriever
  import opened Synthesizer
  import opened Memory
  import opened Dashboard

  // ---------------------------------------------------------------------
  // Topics

  /** `[t.strip() for t in pieces if t.strip()]`. */
  function NonBlank(pieces: seq<string>): (ts: seq<string>)
    ensures |ts| <= |pieces|
    ensures forall i :: 0 <= i < |ts| ==> ts[i] != [] && Stripped(ts[i])
  {
    if pieces == [] then []
    else (if Strip(pieces[0]) != [] then [Strip(pieces[0])] else []) + NonBlank(pieces[1..])
  }

  /** Comma-separated topics: the stripped, non-empty pieces, in input order. */
  function CommaTopics(input: string): seq<string> {
    NonBlank(Split(input, ","))
  }

  /** Topics from a file: one per non-blank line, stripped, in order. */
  function FileTopics(text: string): seq<string> {
    NonBlank(Split(text, "\n"))
  }

  /**
   * The topics of a run. The stripped input names a file when `readFile`
   * gives its content; otherwise it is a comma-separated list.
   */
  function Topics(input: string, readFile: string -> Option<string>): (ts: seq<string>)
    ensures forall i :: 0 <= i < |ts| ==> ts[i] != [] && Stripped(ts[i])
  {
    var user := Strip(input);
    match readFile(user)
    case Some(text) => FileTopics(text)
    case None => CommaTopics(user)
  }

  /** Pieces that are already stripped and non-empty are kept as they are. */
  lemma {:induction false} NonBlankKeeps(pieces: seq<string>)
    requires forall i :: 0 <= i < |pieces| ==> pieces[i] != [] && Stripped(pieces[i])
    ensures NonBlank(pieces) == pieces
    decreases |pieces|
  {
    if pieces != [] {
      StripStripped(pieces[0]);
      NonBlankKeeps(pieces[1..]);
      assert [pieces[0]] + pieces[1..] == pieces;
    }
  }

  lemma {:induction false} NonBlankAppend(a: seq<string>, b: seq<string>)
    ensures NonBlank(a + b) == NonBlank(a) + NonBlank(b)
    decreases |a|
  {
    if a == [] {
      assert a + b == b;
    } else {
      assert (a + b)[1..] == a[1..] + b;
      NonBlankAppend(a[1..], b);
    }
  }

  /** Topics without commas written with commas between them are read back unchanged. */
  lemma CommaRoundTrip(ts: seq<string>)
    requires forall i :: 0 <= i < |ts| ==> ts[i] != [] && Stripped(ts[i]) && ',' !in ts[i]
    ensures CommaTopics(Join(ts, ",")) == ts
  {
    if ts == [] {
      assert Split("", ",") == [""];
      assert Strip("") == "" by { StripStripped(""); }
    } else {
      SplitJoin(ts, ',');
      NonBlankKeeps(ts);
    }
  }

  /** Topics written one per line are read back unchanged. */
  lemma FileRoundTrip(ts: seq<string>)
    requires forall i :: 0 <= i < |ts| ==> ts[i] != [] && Stripped(ts[i]) && '\n' !in ts[i]
    ensures FileTopics(Unlines(ts)) == ts
  {
    SplitUnlines(ts);
    NonBlankAppend(ts, [""]);
    NonBlankKeeps(ts);
    StripStripped("");
    assert NonBlank([""]) == [];
  }

  /** A blank line or a blank comma piece adds no topic. */
  lemma BlankPieceIgnored(a: seq<string>, blank: string, b: seq<string>)
    requires Strip(blank) == []
    ensures NonBlank(a + [blank] + b) == NonBlank(a + b)
  {
    assert NonBlank([blank]) == [] by {
      assert [blank][1..] == [];
    }
    NonBlankAppend(a, [blank]);
    assert NonBlank(a + [blank]) == NonBlank(a);
    NonBlankAppend(a + [blank], b);
    NonBlankAppend(a, b);
  }

  // ---------------------------------------------------------------------
  // The research loop

  /**
   * What became of one topic: no sources (skipped), a completed report,
   * failed (saving the accepted report raised on its null title, and the
   * error was reported and passed over), or stuck in the synthesis loop
   * because no reply was accepted.
   */
  datatype TopicResult =
    | NoSources(topic: string)
    | Completed(topic: string, report: Report)
    | Failed(topic: string)
    | Stuck(topic: string)

  function TopicOutcome(topic: string, sources: seq<Record>, replies: seq<string>, parse: string -> Option<Report>)
    : TopicResult
  {
    if sources == [] then NoSources(topic)
    else match SynthesisEnding(replies, parse)
      case Returned(r) => Completed(topic, r)
      case SaveRaised(_) => Failed(topic)
      case Unsettled => Stuck(topic)
  }

  /** The topics' results in order, up to and including the first topic the loop is stuck on. */
  function Outcomes(topics: seq<string>, sourcesFor: string -> seq<Record>, repliesFor: string -> seq<string>,
                    parse: string -> Option<Report>): seq<TopicResult>
    decreases |topics|
  {
    if topics == [] then []
    else
      var o := TopicOutcome(topics[0], sourcesFor(topics[0]), repliesFor(topics[0]), parse);
      if o.Stuck? then [o] else [o] + Outcomes(topics[1..], sourcesFor, repliesFor, parse)
  }

  /**
   * The `for topic in topics` loop of `main`. `sourcesFor` stands for
   * `fetch_all_sources`, `repliesFor` for the model's replies on a topic
   * and `stampFor` for the time its report is saved at.
   */
  method ProcessTopics(topics: seq<string>, sourcesFor: string -> seq<Record>, repliesFor: string -> seq<string>,
                       parse: string -> Option<Report>, stampFor: string -> string)
    returns (results: seq<TopicResult>)
    ensures results == Outcomes(topics, sourcesFor, repliesFor, parse)
  {
    results := [];
    var i := 0;
    while i < |topics|
      invariant i <= |topics|
      invariant Outcomes(topics, sourcesFor, repliesFor, parse)
                == results + Outcomes(topics[i..], sourcesFor, repliesFor, parse)
    {
      OutcomesStep(topics, i, sourcesFor, repliesFor, parse);
      var r := ProcessTopic(topics[i], sourcesFor(topics[i]), repliesFor(topics[i]), parse, stampFor(topics[i]));
      results := results + [r];
      if r.Stuck? {
        return;
      }
      i := i + 1;
    }
    assert topics[i..] == [];
  }

  /**
   * The body of the loop for one topic: skip it without sources, else
   * synthesize; an error raised by the synthesis is caught.
   */
  method ProcessTopic(topic: string, sources: seq<Record>, replies: seq<string>, parse: string -> Option<Report>,
                      stamp: string)
    returns (result: TopicResult)
    ensures result == TopicOutcome(topic, sources, replies, parse)
  {
    if sources == [] {
      return NoSources(topic);
    }
    var ending, attempts, saved := SynthesizeReport(replies, parse, stamp);
    match ending
    case Unsettled => result := Stuck(topic);
    case SaveRaised(_) => result := Failed(topic);
    case Returned(r) => result := Completed(topic, r);
  }

  lemma OutcomesStep(topics: seq<string>, i: nat, sourcesFor: string -> seq<Record>,
                     repliesFor: string -> seq<string>, parse: string -> Option<Report>)
    requires i < |topics|
    ensures var o := TopicOutcome(topics[i], sourcesFor(topics[i]), repliesFor(topics[i]), parse);
      Outcomes(topics[i..], sourcesFor, repliesFor, parse)
      == if o.Stuck? then [o] else [o] + Outcomes(topics[i + 1..], sourcesFor, repliesFor, parse)
  {
    assert topics[i..][0] == topics[i];
    assert topics[i..][1..] == topics[i + 1..];
  }

  /**
   * One result per topic, in order, until the loop gets stuck: the loop
   * stops at the first stuck topic and at no other.
   */
  lemma {:induction false} OutcomesShape(topics: seq<string>, sourcesFor: string -> seq<Record>,
                                         repliesFor: string -> seq<string>, parse: string -> Option<Report>)
    ensures var rs := Outcomes(topics, sourcesFor, repliesFor, parse);
      && |rs| <= |topics|
      && (forall i :: 0 <= i < |rs| ==>
            rs[i] == TopicOutcome(topics[i], sourcesFor(topics[i]), repliesFor(topics[i]), parse))
      && (forall i :: 0 <= i < |rs| - 1 ==> !rs[i].Stuck?)
      && (|rs| < |topics| ==> rs != [] && rs[|rs| - 1].Stuck?)
    decreases |topics|
  {
    if topics != [] {
      var rest := topics[1..];
      OutcomesShape(rest, sourcesFor, repliesFor, parse);
      var rs := Outcomes(topics, sourcesFor, repliesFor, parse);
      var o := TopicOutcome(topics[0], sourcesFor(topics[0]), repliesFor(topics[0]), parse);
      if !o.Stuck? {
        var rs' := Outcomes(rest, sourcesFor, repliesFor, parse);
        assert rs == [o] + rs';
        forall i | 1 <= i < |rs| ensures rs[i] == rs'[i - 1] && topics[i] == rest[i - 1] {
        }
      }
    }
  }

  /**
   * One topic's result: a topic without sources is skipped; a completed
   * topic's report is accepted, has a title that is not null and comes from
   * the first reply that yields one; a topic fails exactly when that first
   * accepted report has a null title; the loop is stuck on a topic exactly
   * when it has sources and no reply is accepted.
   */
  lemma TopicOutcomeShape(topic: string, sources: seq<Record>, replies: seq<string>, parse: string -> Option<Report>)
    ensures var o := TopicOutcome(topic, sources, replies, parse);
      && o.topic == topic
      && (sources == [] <==> o.NoSources?)
      && (o.Completed? ==>
            && Accepts(o.report) && !o.report.title.Null?
            && exists k :: 0 <= k < |replies| && Candidate(replies[k], parse) == Some(o.report)
                           && forall j :: 0 <= j < k ==> Candidate(replies[j], parse).None?)
      && (o.Failed? <==> sources != [] && Synthesized(replies, parse).Accepted? && Synthesized(replies, parse).report.title.Null?)
      && (o.Stuck? <==> sources != [] && forall k :: 0 <= k < |replies| ==> Candidate(replies[k], parse).None?)
  {
    if sources != [] {
      SynthesizedFirst(replies, parse);
      SynthesizedExhausted(replies, parse);
    }
  }

  /** A topic without sources is skipped, and the topics after it are processed as if it were not there. */
  lemma NoSourcesSkipped(topic: string, rest: seq<string>, sourcesFor: string -> seq<Record>,
                         repliesFor: string -> seq<string>, parse: string -> Option<Report>)
    requires sourcesFor(topic) == []
    ensures Outcomes([topic] + rest, sourcesFor, repliesFor, parse)
            == [NoSources(topic)] + Outcomes(rest, sourcesFor, repliesFor, parse)
  {
    assert ([topic] + rest)[1..] == rest;
  }

  // ---------------------------------------------------------------------
  // Choosing saved reports

  const CritiqueTag: string := "_CRITIQUE"
  const ImprovedTag: string := "_IMPROVED"

  /** The critique loop's filter: neither a critique nor an improved report. */
  predicate CritiqueTarget(path: string) {
    !Contains(path, CritiqueTag) && !Contains(path, ImprovedTag)
  }

  /** The absorption loop's filter: an improved report, or anything but a critique. */
  predicate AbsorbTarget(path: string) {
    Contains(path, ImprovedTag) || !Contains(path, CritiqueTag)
  }

  /**
   * Every report that is critiqued is also absorbed; a pure critique file
   * is neither; an improved report is absorbed but never critiqued again.
   */
  lemma TargetRules(path: string)
    ensures CritiqueTarget(path) ==> AbsorbTarget(path)
    ensures Contains(path, CritiqueTag) && !Contains(path, ImprovedTag) ==> !CritiqueTarget(path) && !AbsorbTarget(path)
    ensures Contains(path, ImprovedTag) ==> AbsorbTarget(path) && !CritiqueTarget(path)
    ensures AbsorbTarget(path) && !CritiqueTarget(path) ==> Contains(path, ImprovedTag)
  {
  }

  /** The reports, in order, that the critique loop hands to the reflection agent. */
  function CritiqueTargets(paths: seq<string>): (ps: seq<string>)
    ensures forall i :: 0 <= i < |ps| ==> CritiqueTarget(ps[i]) && ps[i] in paths
  {
    if paths == [] then []
    else
      var rest := CritiqueTargets(paths[..|paths| - 1]);
      if CritiqueTarget(paths[|paths| - 1]) then rest + [paths[|paths| - 1]] else rest
  }

  /** The critique loop: which paths are critiqued and improved, in order. */
  method CritiqueAll(paths: seq<string>) returns (critiqued: seq<string>)
    ensures critiqued == CritiqueTargets(paths)
  {
    critiqued := [];
    for i := 0 to |paths|
      invariant critiqued == CritiqueTargets(paths[..i])
    {
      assert paths[..i + 1][..i] == paths[..i];
      if !Contains(paths[i], CritiqueTag) && !Contains(paths[i], ImprovedTag) {
        critiqued := critiqued + [paths[i]];
      }
    }
    assert paths[..|paths|] == paths;
  }

  /**
   * The store after the absorption loop: each selected file whose content
   * parses is absorbed in turn; a file that fails to parse is passed over.
   */
  function AbsorbedAll(m: Store, files: seq<File>, parse: string -> Option<Report>): Store
    decreases |files|
  {
    if files == [] then m
    else AbsorbedStep(AbsorbedAll(m, files[..|files| - 1], parse), files[|files| - 1], parse)
  }

  /**
   * The absorption loop of the batch run. A report with a null
   * `key_findings` raises inside `absorb_report`; the error is passed over
   * and the store keeps the topic already added.
   */
  method AbsorbFiles(mem: MemoryEngine, files: seq<File>, parse: string -> Option<Report>)
    modifies mem
    ensures mem.Memory() == AbsorbedAll(old(mem.Memory()), files, parse)
    ensures mem.persisted == PersistedAll(old(mem.Memory()), old(mem.persisted), files, parse)
  {
    ghost var m0, p0 := mem.Memory(), mem.persisted;
    for i := 0 to |files|
      invariant mem.Memory() == AbsorbedAll(m0, files[..i], parse)
      invariant mem.persisted == PersistedAll(m0, p0, files[..i], parse)
    {
      assert files[..i + 1][..i] == files[..i];
      var f := files[i];
      if Contains(f.name, ImprovedTag) || !Contains(f.name, CritiqueTag) {
        var data := parse(f.content);
        if data.Some? {
          var ok := mem.AbsorbReport(data.value);
        }
      }
    }
    assert files[..|files|] == files;
  }

  /** A file whose absorption reaches the save at the end of `absorb_report`. */
  predicate Saves(f: File, parse: string -> Option<Report>) {
    AbsorbTarget(f.name) && parse(f.content).Some? && !parse(f.content).value.keyFindings.Null?
  }

  /**
   * The memory file after the absorption loop, starting from the store `m`
   * whose file holds `p`: each save writes the whole store as it is then.
   */
  function PersistedAll(m: Store, p: Store, files: seq<File>, parse: string -> Option<Report>): Store
    decreases |files|
  {
    if files == [] then p
    else if Saves(files[|files| - 1], parse) then AbsorbedAll(m, files, parse)
    else PersistedAll(m, p, files[..|files| - 1], parse)
  }

  /** When no file saves, the memory file keeps what it held before. */
  lemma {:induction false} PersistedAllNone(m: Store, p: Store, files: seq<File>, parse: string -> Option<Report>)
    requires forall i :: 0 <= i < |files| ==> !Saves(files[i], parse)
    ensures PersistedAll(m, p, files, parse) == p
    decreases |files|
  {
    if files != [] {
      var init := files[..|files| - 1];
      assert forall i :: 0 <= i < |init| ==> init[i] == files[i];
      PersistedAllNone(m, p, init, parse);
    }
  }

  /**
   * The memory file holds the store as it was right after `files[k]`, the
   * last file that saved.
   */
  lemma {:induction false} PersistedAllLast(m: Store, p: Store, files: seq<File>, parse: string -> Option<Report>, k: nat)
    requires k < |files| && Saves(files[k], parse)
    requires forall j :: k < j < |files| ==> !Saves(files[j], parse)
    ensures PersistedAll(m, p, files, parse) == AbsorbedAll(m, files[..k + 1], parse)
    decreases |files|
  {
    var n := |files| - 1;
    if k == n {
      assert files[..k + 1] == files;
    } else {
      var init := files[..n];
      assert !Saves(files[n], parse);
      assert PersistedAll(m, p, files, parse) == PersistedAll(m, p, init, parse);
      assert forall j :: k < j < |init| ==> init[j] == files[j];
      assert init[k] == files[k];
      PersistedAllLast(m, p, init, parse, k);
      assert init[..k + 1] == files[..k + 1];
    }
  }

  /** The loop keeps the store's three lists duplicate-free. */
  lemma {:induction false} AbsorbedAllValid(m: Store, files: seq<File>, parse: string -> Option<Report>)
    requires ValidStore(m)
    ensures ValidStore(AbsorbedAll(m, files, parse))
    decreases |files|
  {
    if files != [] {
      AbsorbedAllValid(m, files[..|files| - 1], parse);
      var f := files[|files| - 1];
      if AbsorbTarget(f.name) && parse(f.content).Some? {
        AbsorbKeepsValid(AbsorbedAll(m, files[..|files| - 1], parse), parse(f.content).value);
      }
    }
  }

  /** Every absorbed report's title ends up among the topics, and old topics stay. */
  lemma {:induction false} AbsorbedAllTopics(m: Store, files: seq<File>, parse: string -> Option<Report>)
    ensures forall t :: t in m.topics ==> t in AbsorbedAll(m, files, parse).topics
    ensures forall i :: 0 <= i < |files| && AbsorbTarget(files[i].name) && parse(files[i].content).Some? ==>
              parse(files[i].content).value.title.Get() in AbsorbedAll(m, files, parse).topics
    decreases |files|
  {
    if files != [] {
      var init := files[..|files| - 1];
      AbsorbedAllTopics(m, init, parse);
      var prev := AbsorbedAll(m, init, parse);
      var f := files[|files| - 1];
      var n := AbsorbedAll(m, files, parse);
      StepKeepsTopics(prev, f, parse);
      forall i | 0 <= i < |files| && AbsorbTarget(files[i].name) && parse(files[i].content).Some?
        ensures parse(files[i].content).value.title.Get() in n.topics
      {
        if i < |init| {
          assert files[i] == init[i];
        }
      }
    }
  }

  /** One file of the absorption loop. */
  function AbsorbedStep(m: Store, f: File, parse: string -> Option<Report>): Store {
    if AbsorbTarget(f.name) && parse(f.content).Some? then Absorb(m, parse(f.content).value) else m
  }

  lemma StepKeepsTopics(m: Store, f: File, parse: string -> Option<Report>)
    ensures forall t :: t in m.topics ==> t in AbsorbedStep(m, f, parse).topics
    ensures AbsorbTarget(f.name) && parse(f.content).Some? ==>
              parse(f.content).value.title.Get() in AbsorbedStep(m, f, parse).topics
  {
    if AbsorbTarget(f.name) && parse(f.content).Some? {
      var n := Absorb(m, parse(f.content).value);
      AbsorbAppendOnly(m, parse(f.content).value);
      forall t | t in m.topics ensures t in n.topics {
        var k :| 0 <= k < |m.topics| && m.topics[k] == t;
        assert n.topics[..|m.topics|][k] == t;
      }
    }
  }

  /**
   * When no absorbed report has a null `key_findings`, a store in which
   * every pair of topics is linked stays so.
   */
  lemma {:induction false} AbsorbedAllLinked(m: Store, files: seq<File>, parse: string -> Option<Report>)
    requires Linked(m)
    requires forall i :: 0 <= i < |files| && parse(files[i].content).Some? ==>
               !parse(files[i].content).value.keyFindings.Null?
    ensures Linked(AbsorbedAll(m, files, parse))
    decreases |files|
  {
    if files != [] {
      var init := files[..|files| - 1];
      assert forall i :: 0 <= i < |init| ==> init[i] == files[i];
      AbsorbedAllLinked(m, init, parse);
      var f := files[|files| - 1];
      if AbsorbTarget(f.name) && parse(f.content).Some? {
        AbsorbKeepsLinked(AbsorbedAll(m, init, parse), parse(f.content).value);
      }
    }
  }
}
