/**
 * The report synthesizer: the context handed to the language model, the
 * clean-up of each reply, the completeness test and the regenerate-until-
 * accepted loop of `Synthesizer.synthesize_report`.
 */
module Synthesizer {
  import opened Values
  import opened Text
  import opened Reports
  import opened Retriever
  import OutputFormatter

  // ---------------------------------------------------------------------
  // Context

  /** How one source is shown to the model: `f"{title} — {snippet}"`. */
  function Entry(r: Record): string {
    Show(r.title) + " \U{2014} " + Show(r.snippet)
  }

  /** The entries of `sources[:10]`, in order. */
  function ContextEntries(sources: seq<Record>): (es: seq<string>)
    ensures |es| == (if |sources| <= 10 then |sources| else 10)
    ensures forall i :: 0 <= i < |es| ==> es[i] == Entry(sources[i])
  {
    var first := if |sources| <= 10 then sources else sources[..10];
    seq(|first|, i requires 0 <= i < |first| => Entry(first[i]))
  }

  /** The context: the entries joined by blank lines, or a placeholder when there are none. */
  function BuildContext(sources: seq<Record>): (c: string)
    ensures sources == [] ==> c == "No available data."
    ensures sources != [] ==> c == Join(ContextEntries(sources), "\n\n")
  {
    var joined := Join(ContextEntries(sources), "\n\n");
    if sources != [] then
      JoinStartsWithFirst(ContextEntries(sources), "\n\n");
      assert |Entry(sources[0])| > 0;
      joined
    else if joined == "" then "No available data." else joined
  }

  /** Only the first ten sources reach the model: whatever follows them is ignored. */
  lemma ContextIgnoresRest(first: seq<Record>, rest: seq<Record>)
    requires |first| >= 10
    ensures BuildContext(first + rest) == BuildContext(first)
  {
    assert ContextEntries(first + rest) == ContextEntries(first);
  }

  /** A non-empty context starts with the first source's entry. */
  lemma ContextStartsWithFirst(sources: seq<Record>)
    requires sources != []
    ensures StartsWith(BuildContext(sources), Entry(sources[0]))
  {
    JoinStartsWithFirst(ContextEntries(sources), "\n\n");
  }

  // ---------------------------------------------------------------------
  // Reply clean-up

  const Fence: string := "```"
  const JsonFence: string := "```json"

  /**
   * `re.sub(r"```json|```", "", s)`: a left-to-right scan that deletes
   * every match, trying the longer alternative first.
   */
  function RemoveFences(s: string): string
    decreases |s|
  {
    if s == [] then []
    else if StartsWith(s, JsonFence) then RemoveFences(s[|JsonFence|..])
    else if StartsWith(s, Fence) then RemoveFences(s[|Fence|..])
    else [s[0]] + RemoveFences(s[1..])
  }

  /** The reply as `generate` returns it: stripped, fences deleted, stripped again. */
  function CleanReply(raw: string): string {
    Strip(RemoveFences(Strip(raw)))
  }

  /** Deleting fences never makes a text start with two backticks unless it already did. */
  lemma {:induction false} RemoveFencesHead(t: string)
    requires !StartsWith(t, "``")
    ensures !StartsWith(RemoveFences(t), "``")
  {
    if t != [] {
      assert !StartsWith(t, Fence) && !StartsWith(t, JsonFence) by {
        if |t| >= 3 { assert t[..2] == t[..3][..2]; }
      }
      if t[0] == '`' && |t| > 1 {
        var u := t[1..];
        assert u[0] != '`';
        assert RemoveFences(u) == [u[0]] + RemoveFences(u[1..]);
      }
    }
  }

  /** Prefixing one character adds an occurrence only at the front. */
  lemma ConsNoOccurrence(c: char, r: string, p: string)
    requires |p| > 0 && !Contains(r, p) && !StartsWith([c] + r, p)
    ensures !Contains([c] + r, p)
  {
    var s := [c] + r;
    forall i | 0 <= i <= |s| - |p| ensures !OccursAt(s, p, i) {
      if i > 0 {
        assert s[i..i + |p|] == r[i - 1..i - 1 + |p|];
        assert !OccursAt(r, p, i - 1);
      }
    }
  }

  /** No fence survives the deletion: the result never contains three backticks in a row. */
  lemma {:induction false} RemoveFencesComplete(s: string)
    ensures !Contains(RemoveFences(s), Fence)
    decreases |s|
  {
    if s == [] {
    } else if StartsWith(s, JsonFence) {
      RemoveFencesComplete(s[|JsonFence|..]);
    } else if StartsWith(s, Fence) {
      RemoveFencesComplete(s[|Fence|..]);
    } else {
      var r := RemoveFences(s[1..]);
      RemoveFencesComplete(s[1..]);
      assert RemoveFences(s) == [s[0]] + r;
      if s[0] == '`' {
        assert !StartsWith(s[1..], "``") by {
          if |s| >= 3 { assert s[..3] == [s[0]] + s[1..][..2]; }
        }
        RemoveFencesHead(s[1..]);
        if |r| >= 2 { assert ([s[0]] + r)[..3] == [s[0]] + r[..2]; }
      }
      ConsNoOccurrence(s[0], r, Fence);
    }
  }

  /** A text without a fence passes through the deletion unchanged. */
  lemma {:induction false} RemoveFencesNone(s: string)
    requires !Contains(s, Fence)
    ensures RemoveFences(s) == s
    decreases |s|
  {
    if s != [] {
      if StartsWith(s, Fence) || StartsWith(s, JsonFence) {
        assert OccursAt(s, Fence, 0);
      }
      SliceKeepsAbsence(s, 1, |s|, Fence);
      assert s[1..|s|] == s[1..];
      RemoveFencesNone(s[1..]);
    }
  }

  /** A cleaned reply has no whitespace at its ends and no fence anywhere. */
  lemma CleanReplyClean(raw: string)
    ensures Stripped(CleanReply(raw)) && !Contains(CleanReply(raw), Fence)
  {
    RemoveFencesComplete(Strip(raw));
    StripKeepsAbsence(RemoveFences(Strip(raw)), Fence);
  }

  /** A reply without fences is only stripped. */
  lemma CleanReplyNoFence(raw: string)
    requires !Contains(raw, Fence)
    ensures CleanReply(raw) == Strip(raw)
  {
    StripKeepsAbsence(raw, Fence);
    RemoveFencesNone(Strip(raw));
    StripStripped(Strip(raw));
  }

  /** Cleaning is idempotent. */
  lemma CleanReplyIdempotent(raw: string)
    ensures CleanReply(CleanReply(raw)) == CleanReply(raw)
  {
    var once := CleanReply(raw);
    CleanReplyClean(raw);
    CleanReplyNoFence(once);
    StripStripped(once);
  }

  // ---------------------------------------------------------------------
  // Completeness

  /** `incomplete(t)`: the text does not end with a full stop, or has fewer than 110 words. */
  predicate Incomplete(t: string) {
    !EndsWith(t, ".") || |Words(t)| < 110
  }

  /**
   * For text made of words separated by single spaces, completeness means
   * at least 110 words and a last word ending with a full stop.
   */
  lemma JoinedWordsComplete(ws: seq<string>)
    requires forall i :: 0 <= i < |ws| ==> IsWord(ws[i])
    ensures !Incomplete(Join(ws, " ")) <==> (|ws| >= 110 && EndsWith(ws[|ws| - 1], "."))
  {
    var t := Join(ws, " ");
    WordsJoin(ws);
    assert |Words(t)| == |ws|;
    if |ws| >= 1 {
      assert IsWord(ws[|ws| - 1]);
      JoinEndsWithDot(ws);
    }
  }

  /** Words joined by spaces end with a full stop exactly when the last word does. */
  lemma JoinEndsWithDot(ws: seq<string>)
    requires |ws| >= 1 && ws[|ws| - 1] != []
    ensures EndsWith(Join(ws, " "), ".") <==> EndsWith(ws[|ws| - 1], ".")
  {
    JoinEndsWithLast(ws, " ");
    SuffixEndsWithDot(Join(ws, " "), ws[|ws| - 1]);
  }

  lemma SuffixEndsWithDot(t: string, w: string)
    requires EndsWith(t, w) && w != []
    ensures EndsWith(t, ".") <==> EndsWith(w, ".")
  {
    assert t[|t| - 1] == t[|t| - |w|..][|w| - 1];
    assert EndsWith(t, ".") <==> t[|t| - 1] == '.';
    assert EndsWith(w, ".") <==> w[|w| - 1] == '.';
  }

  /**
   * The test of the loop: the summary and the sections are present and
   * every one of them is complete. A missing or null summary or sections
   * object, or a null section, raises inside the `try` and so rejects too.
   */
  predicate Accepts(r: Report) {
    && r.summary.Val? && !Incomplete(r.summary.value)
    && r.sections.Val?
    && forall i :: 0 <= i < |r.sections.value| ==>
         r.sections.value[i].text.Some? && !Incomplete(r.sections.value[i].text.value)
  }

  /** The report a raw reply yields when it is accepted. */
  function Candidate(raw: string, parse: string -> Option<Report>): (c: Option<Report>)
    ensures c.Some? ==> Accepts(c.value) && parse(CleanReply(raw)) == c
    ensures c.None? ==> parse(CleanReply(raw)).None? || !Accepts(parse(CleanReply(raw)).value)
  {
    match parse(CleanReply(raw))
    case Some(r) => if Accepts(r) then Some(r) else None
    case None => None
  }

  /** An empty sections object adds nothing to the test. */
  lemma AcceptsNoSections(r: Report)
    requires r.sections == Val([])
    ensures Accepts(r) <==> (r.summary.Val? && !Incomplete(r.summary.value))
  {
  }

  // ---------------------------------------------------------------------
  // The loop

  datatype Outcome = Accepted(report: Report) | Exhausted

  /** The report the loop settles on: the candidate of the first reply that yields one. */
  function Synthesized(replies: seq<string>, parse: string -> Option<Report>): Outcome
    decreases |replies|
  {
    if replies == [] then Exhausted
    else match Candidate(replies[0], parse)
      case Some(r) => Accepted(r)
      case None => Synthesized(replies[1..], parse)
  }

  /** The settled report is accepted, and comes from the first reply that yields one. */
  lemma {:induction false} SynthesizedFirst(replies: seq<string>, parse: string -> Option<Report>)
    ensures Synthesized(replies, parse).Accepted? ==>
              Accepts(Synthesized(replies, parse).report)
              && exists k :: 0 <= k < |replies| && Candidate(replies[k], parse) == Some(Synthesized(replies, parse).report)
                             && forall j :: 0 <= j < k ==> Candidate(replies[j], parse).None?
    decreases |replies|
  {
    if replies != [] {
      SynthesizedFirst(replies[1..], parse);
      var o := Synthesized(replies, parse);
      if Candidate(replies[0], parse).None? && o.Accepted? {
        assert o == Synthesized(replies[1..], parse);
        var k :| 0 <= k < |replies[1..]| && Candidate(replies[1..][k], parse) == Some(o.report)
                 && forall j :: 0 <= j < k ==> Candidate(replies[1..][j], parse).None?;
        assert Candidate(replies[k + 1], parse) == Some(o.report);
        forall j | 0 <= j < k + 1 ensures Candidate(replies[j], parse).None? {
          if j > 0 { assert replies[j] == replies[1..][j - 1]; }
        }
      }
    }
  }

  /** The loop runs out of replies exactly when no reply yields an accepted report. */
  lemma {:induction false} SynthesizedExhausted(replies: seq<string>, parse: string -> Option<Report>)
    ensures Synthesized(replies, parse).Exhausted? <==> forall k :: 0 <= k < |replies| ==> Candidate(replies[k], parse).None?
    decreases |replies|
  {
    if replies != [] {
      SynthesizedExhausted(replies[1..], parse);
      assert forall k :: 1 <= k < |replies| ==> replies[k] == replies[1..][k - 1];
    }
  }

  /**
   * How `synthesize_report` ends: it returns the accepted report, or the
   * `save_output` call after the loop raises on the report's null title
   * (file writes are taken to succeed),
   * or (`Unsettled`) the replies run out while the loop still waits for an
   * accepted report.
   */
  datatype Ending = Returned(report: Report) | SaveRaised(report: Report) | Unsettled

  function SynthesisEnding(replies: seq<string>, parse: string -> Option<Report>): (e: Ending)
    ensures e.Unsettled? <==> forall k :: 0 <= k < |replies| ==> Candidate(replies[k], parse).None?
    ensures !e.Unsettled? ==> && Synthesized(replies, parse) == Accepted(e.report)
                              && Accepts(e.report)
                              && (e.SaveRaised? <==> e.report.title.Null?)
  {
    SynthesizedExhausted(replies, parse);
    SynthesizedFirst(replies, parse);
    match Synthesized(replies, parse)
    case Exhausted => Unsettled
    case Accepted(r) => if r.title.Null? then SaveRaised(r) else Returned(r)
  }

  /**
   * The `while True` loop of `synthesize_report` over the finite list of
   * replies the model gives: each reply is cleaned and parsed; a reply that
   * does not parse or is rejected is replaced by the next one. `attempts`
   * is the number of replies used.
   */
  method SettleReport(replies: seq<string>, parse: string -> Option<Report>)
    returns (outcome: Outcome, attempts: nat)
    ensures attempts <= |replies|
    ensures forall k :: 0 <= k < attempts - 1 ==> Candidate(replies[k], parse).None?
    ensures outcome.Accepted? ==>
              && attempts >= 1
              && Candidate(replies[attempts - 1], parse) == Some(outcome.report)
    ensures outcome.Exhausted? ==>
              && attempts == |replies|
              && (forall k :: 0 <= k < |replies| ==> Candidate(replies[k], parse).None?)
    ensures outcome == Synthesized(replies, parse)
  {
    attempts := 0;
    outcome := Exhausted;
    while attempts < |replies|
      invariant attempts <= |replies|
      invariant forall k :: 0 <= k < attempts ==> Candidate(replies[k], parse).None?
      invariant Synthesized(replies, parse) == Synthesized(replies[attempts..], parse)
      decreases |replies| - attempts
    {
      assert replies[attempts..][1..] == replies[attempts + 1..];
      var raw := CleanReply(replies[attempts]);
      attempts := attempts + 1;
      var data := parse(raw);
      if data.Some? && Accepts(data.value) {
        outcome := Accepted(data.value);
        return;
      }
    }
    assert replies[attempts..] == [];
  }

  /**
   * `synthesize_report`: the loop, then `save_output` on the accepted
   * report at `timestamp`. `saved` holds the files written.
   */
  method SynthesizeReport(replies: seq<string>, parse: string -> Option<Report>, timestamp: string)
    returns (ending: Ending, attempts: nat, saved: seq<OutputFormatter.Saved>)
    ensures attempts <= |replies|
    ensures !ending.Unsettled? ==> attempts >= 1 && Candidate(replies[attempts - 1], parse) == Some(ending.report)
    ensures ending.Unsettled? ==> attempts == |replies|
    ensures ending.Returned? ==>
              && |saved| == 1
              && Some(saved[0].paths) == OutputFormatter.OutputPaths(ending.report, timestamp)
              && saved[0].json == OutputFormatter.Validated(ending.report)
              && saved[0].markdown == OutputFormatter.Markdown(OutputFormatter.Validated(ending.report))
    ensures !ending.Returned? ==> saved == []
    ensures ending == SynthesisEnding(replies, parse)
  {
    var outcome;
    outcome, attempts := SettleReport(replies, parse);
    saved := [];
    if outcome.Exhausted? {
      return Unsettled, attempts, saved;
    }
    var file := OutputFormatter.SaveOutput(outcome.report, timestamp);
    if file.None? {
      ending := SaveRaised(outcome.report);
    } else {
      ending := Returned(outcome.report);
      saved := [file.value];
    }
  }
}
