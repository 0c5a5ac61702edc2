/**
 * The retriever: four source adapters whose HTTP answers are given as
 * inputs, the `_extract` tag helper, and `fetch_all_sources`, which joins
 * the adapters' lists in a fixed order, drops records without a title or
 * snippet and deduplicates them by `title ++ link` through a Python dict.
 */
module Retriever {
  import opened Values
  import opened Text
  import opened Reports

  datatype SourceType = Google | Wikipedia | ArXiv | SemanticScholar

  /**
   * A source record as an adapter builds it. `None` stands for Python's
   * `None`; only Semantic Scholar records carry `year` and `authors`.
   */
  datatype Record = Record(
    title: Option<string>,
    link: Option<string>,
    snippet: Option<string>,
    sourceType: SourceType,
    year: Option<int>,
    authors: Option<seq<Option<string>>>)

  /** The dedup key `f"{title}{link}"`; a `None` renders as "None". */
  function Key(r: Record): string {
    Show(r.title) + Show(r.link)
  }

  /** Python truthiness of a string or `None`. */
  predicate Truthy(x: Option<string>) {
    x.Some? && x.value != ""
  }

  /** The comprehension's filter `item.get("title") and item.get("snippet")`. */
  predicate Usable(r: Record) {
    Truthy(r.title) && Truthy(r.snippet)
  }

  // ---------------------------------------------------------------------
  // Google custom search

  /** One element of the `items` array of a Google answer. */
  datatype GoogleItem = GoogleItem(title: Field<string>, link: Field<string>, snippet: Field<string>)

  function GoogleRecord(i: GoogleItem): Record {
    Record(i.title.GetWithDefault(""), i.link.GetWithDefault(""), i.snippet.GetWithDefault(""),
           Google, None, None)
  }

  /**
   * `_fetch_from_google`. `answer` is the `items` field of the decoded
   * answer, `None` when the request or the decoding failed.
   */
  function FetchFromGoogle(apiKey: Option<string>, cx: Option<string>, answer: Option<Field<seq<GoogleItem>>>)
    : (rs: seq<Record>)
    ensures !Truthy(apiKey) || !Truthy(cx) ==> rs == []
    ensures answer.None? || !answer.value.Val? ==> rs == []
    ensures Truthy(apiKey) && Truthy(cx) && answer.Some? && answer.value.Val? ==>
              |rs| == |answer.value.value|
    ensures forall i :: 0 <= i < |rs| ==>
              rs[i].sourceType == Google && rs[i] == GoogleRecord(answer.value.value[i])
  {
    if !Truthy(apiKey) || !Truthy(cx) then []
    else match answer
      case Some(Val(items)) => seq(|items|, i requires 0 <= i < |items| => GoogleRecord(items[i]))
      case _ => []
  }

  // ---------------------------------------------------------------------
  // Wikipedia page summary

  /**
   * The decoded summary answer: `title`, `extract`, and
   * `content_urls.desktop.page` as three nested optional keys.
   */
  datatype WikiSummary = WikiSummary(
    title: Field<string>,
    contentUrls: Field<Field<Field<string>>>,
    extract: Field<string>)

  /**
   * `data.get("content_urls", {}).get("desktop", {}).get("page", "")`;
   * the outer `None` is the `AttributeError` of calling `.get` on a null.
   */
  function WikiLink(contentUrls: Field<Field<Field<string>>>): (l: Option<Option<string>>)
    ensures l.None? <==> contentUrls.Null? || (contentUrls.Val? && contentUrls.value.Null?)
    ensures contentUrls.Absent? || (contentUrls.Val? && contentUrls.value.Absent?) ==> l == Some(Some(""))
    ensures contentUrls.Val? && contentUrls.value.Val? ==> l == Some(contentUrls.value.value.GetWithDefault(""))
  {
    match contentUrls
    case Absent => Some(Some(""))
    case Null => None
    case Val(desktop) =>
      match desktop
      case Absent => Some(Some(""))
      case Null => None
      case Val(page) => Some(page.GetWithDefault(""))
  }

  /** `_fetch_from_wikipedia`; `answer` is `None` when the request or decoding failed. */
  function FetchFromWikipedia(answer: Option<WikiSummary>): (rs: seq<Record>)
    ensures answer.None? || answer.value.title.Absent? ==> rs == []
    ensures |rs| <= 1
    ensures |rs| == 1 ==> (rs[0].sourceType == Wikipedia
                           && rs[0].title == answer.value.title.Get()
                           && rs[0].snippet == answer.value.extract.GetWithDefault(""))
    ensures answer.Some? && WikiLink(answer.value.contentUrls).None? ==> rs == []
    ensures answer.Some? && !answer.value.title.Absent? && WikiLink(answer.value.contentUrls).Some? ==>
              rs == [Record(answer.value.title.GetWithDefault(""), WikiLink(answer.value.contentUrls).value,
                            answer.value.extract.GetWithDefault(""), Wikipedia, None, None)]
  {
    match answer
    case None => []
    case Some(data) =>
      if data.title.Absent? then []
      else match WikiLink(data.contentUrls)
        case None => []
        case Some(link) =>
          [Record(data.title.GetWithDefault(""), link, data.extract.GetWithDefault(""),
                  Wikipedia, None, None)]
  }

  // ---------------------------------------------------------------------
  // arXiv Atom feed

  function Open(tag: string): string { "<" + tag + ">" }
  function Close(tag: string): string { "</" + tag + ">" }

  /**
   * `_extract`: `text.split("<tag>")[1].split("</tag>")[0]`, or "N/A" when
   * the first split has one piece and indexing it raises.
   */
  function Extract(text: string, tag: string): string {
    var parts := Split(text, Open(tag));
    if |parts| < 2 then "N/A" else Split(parts[1], Close(tag))[0]
  }

  /**
   * Without `<tag>` the answer is "N/A"; otherwise it is the text right
   * after the first `<tag>`, cut before the next `<tag>` and the first
   * `</tag>`, so it contains neither marker.
   */
  lemma ExtractSpec(text: string, tag: string)
    ensures !Contains(text, Open(tag)) ==> Extract(text, tag) == "N/A"
    ensures Contains(text, Open(tag)) ==>
              && IndexOf(text, Open(tag)).Some?
              && StartsWith(text[IndexOf(text, Open(tag)).value + |Open(tag)|..], Extract(text, tag))
              && !Contains(Extract(text, tag), Open(tag))
              && !Contains(Extract(text, tag), Close(tag))
    ensures Contains(text, Open(tag)) ==>
              var rest, e := text[IndexOf(text, Open(tag)).value + |Open(tag)|..], Extract(text, tag);
              rest == e || StartsWith(rest[|e|..], Open(tag)) || StartsWith(rest[|e|..], Close(tag))
  {
    var parts := Split(text, Open(tag));
    SplitFirstPieces(text, Open(tag));
    SplitPiecesFree(text, Open(tag));
    if |parts| >= 2 {
      var rest := text[IndexOf(text, Open(tag)).value + |Open(tag)|..];
      var inner := Split(parts[1], Close(tag));
      var e := inner[0];
      SplitFirstPieces(parts[1], Close(tag));
      SplitPiecesFree(parts[1], Close(tag));
      PrefixKeepsAbsence(parts[1], e, Open(tag));
      StartsWithTrans(rest, parts[1], e);
      assert parts[1] == Split(rest, Open(tag))[0];
      SplitFirstPieces(rest, Open(tag));
      if e != parts[1] {
        StartsWithDrop(rest, parts[1], |e|);
        StartsWithTrans(rest[|e|..], parts[1][|e|..], Close(tag));
      }
    }
  }

  lemma PrefixKeepsAbsence(s: string, t: string, p: string)
    requires StartsWith(s, t) && !Contains(s, p)
    ensures !Contains(t, p)
  {
    forall i | 0 <= i <= |t| - |p| ensures !OccursAt(t, p, i) {
      assert !OccursAt(s, p, i);
      var u, v := s[i..i + |p|], t[i..i + |p|];
      forall k | 0 <= k < |p| ensures u[k] == v[k] {
        assert s[..|t|][i + k] == t[i + k];
      }
      assert u == v;
    }
  }

  lemma StartsWithTrans(a: string, b: string, c: string)
    requires StartsWith(a, b) && StartsWith(b, c)
    ensures StartsWith(a, c)
  {
    assert a[..|c|] == b[..|b|][..|c|];
  }

  /** The record built from one `<entry>` piece of the feed. */
  function EntryRecord(p: string): Record {
    Record(Some(Strip(Extract(p, "title"))), Some(Strip(Extract(p, "id"))),
           Some(Strip(Extract(p, "summary"))), ArXiv, None, None)
  }

  /**
   * One record per feed piece, in order: record `i` holds the stripped
   * `<title>`, `<id>` and `<summary>` extracts of piece `i`.
   */
  function EntryRecords(papers: seq<string>): (rs: seq<Record>)
    ensures |rs| == |papers|
    ensures forall i :: 0 <= i < |papers| ==> rs[i] == EntryRecord(papers[i])
    decreases |papers|
  {
    if papers == [] then []
    else EntryRecords(papers[..|papers| - 1]) + [EntryRecord(papers[|papers| - 1])]
  }

  /** An arXiv record: title, link and snippet present and stripped. */
  predicate IsArxivRecord(r: Record) {
    && r.sourceType == ArXiv
    && r.title.Some? && Stripped(r.title.value)
    && r.link.Some? && Stripped(r.link.value)
    && r.snippet.Some? && Stripped(r.snippet.value)
  }

  /** Every record of a feed is an arXiv record with stripped fields. */
  lemma {:induction false} EntryRecordsShape(papers: seq<string>)
    ensures forall i :: 0 <= i < |EntryRecords(papers)| ==> IsArxivRecord(EntryRecords(papers)[i])
    decreases |papers|
  {
    if papers != [] {
      EntryRecordsShape(papers[..|papers| - 1]);
    }
  }

  /** The records of a feed: one per piece after the first `<entry>` split. */
  function ArxivRecords(answer: Option<string>): seq<Record> {
    match answer
    case None => []
    case Some(text) => EntryRecords(Split(text, "<entry>")[1..])
  }

  /**
   * `_fetch_from_arxiv`: one record per `<entry>` of the feed text, its
   * fields stripped; `answer` is `None` when the request failed.
   */
  method FetchFromArxiv(answer: Option<string>) returns (results: seq<Record>)
    ensures results == ArxivRecords(answer)
    ensures answer.None? ==> results == []
    ensures answer.Some? ==> |results| == |Split(answer.value, "<entry>")| - 1
  {
    match answer
    case None =>
      results := [];
    case Some(text) =>
      var papers := Split(text, "<entry>")[1..];
      results := ParseEntries(papers);
  }

  /** The loop of `_fetch_from_arxiv` over the feed's pieces. */
  method ParseEntries(papers: seq<string>) returns (results: seq<Record>)
    ensures results == EntryRecords(papers)
  {
    results := [];
    for i := 0 to |papers|
      invariant results == EntryRecords(papers[..i])
    {
      results := results + [EntryRecord(papers[i])];
      assert papers[..i + 1][..i] == papers[..i];
    }
    assert papers[..|papers|] == papers;
  }

  // ---------------------------------------------------------------------
  // Semantic Scholar paper search

  datatype Author = Author(name: Field<string>)

  /** One element of the `data` array of a Semantic Scholar answer. */
  datatype Paper = Paper(
    title: Field<string>,
    url: Field<string>,
    paperAbstract: Field<string>,
    year: Field<int>,
    authors: Field<seq<Author>>)

  /** `(p.get("abstract") or "")`. */
  function AbstractText(f: Field<string>): string {
    match f
    case Val(s) => s
    case _ => ""
  }

  /** The record of one paper whose `authors` is not null (a null one raises). */
  function PaperRecord(p: Paper): Record
    requires !p.authors.Null?
  {
    var authors := if p.authors.Val? then p.authors.value else [];
    Record(p.title.GetWithDefault(""), p.url.GetWithDefault(""),
           Some(Take(AbstractText(p.paperAbstract), 800)), SemanticScholar, p.year.Get(),
           Some(seq(|authors|, i requires 0 <= i < |authors| => authors[i].name.Get())))
  }

  /**
   * `_fetch_from_semantic_scholar`. `answer` is the `data` field of the
   * decoded answer, `None` when the request or decoding failed. A paper with
   * `"authors": null` makes the comprehension raise, and the whole list is lost.
   */
  function FetchFromSemanticScholar(answer: Option<Field<seq<Paper>>>): (rs: seq<Record>)
    ensures forall i :: 0 <= i < |rs| ==>
              rs[i].sourceType == SemanticScholar && rs[i].snippet.Some? && |rs[i].snippet.value| <= 800
    ensures answer.None? || !answer.value.Val? ==> rs == []
    ensures answer.Some? && answer.value.Val? ==>
              if exists i :: 0 <= i < |answer.value.value| && answer.value.value[i].authors.Null?
              then rs == []
              else |rs| == |answer.value.value|
                   && forall i :: 0 <= i < |rs| ==>
                        && StartsWith(AbstractText(answer.value.value[i].paperAbstract), rs[i].snippet.value)
                        && rs[i].title == answer.value.value[i].title.GetWithDefault("")
                        && rs[i].link == answer.value.value[i].url.GetWithDefault("")
                        && rs[i].snippet == Some(Take(AbstractText(answer.value.value[i].paperAbstract), 800))
  {
    match answer
    case Some(Val(papers)) =>
      if exists i :: 0 <= i < |papers| && papers[i].authors.Null? then []
      else seq(|papers|, i requires 0 <= i < |papers| => PaperRecord(papers[i]))
    case _ => []
  }

  // ---------------------------------------------------------------------
  // Aggregation and deduplication

  /** The Google credentials (`None` when the environment lacks them). */
  datatype Config = Config(googleApiKey: Option<string>, googleCx: Option<string>)

  /** What each source's endpoint answered for one query. */
  datatype Answers = Answers(
    google: Option<Field<seq<GoogleItem>>>,
    wikipedia: Option<WikiSummary>,
    arxiv: Option<string>,
    scholar: Option<Field<seq<Paper>>>)

  /** The keys of a list of records, position by position. */
  function Keys(d: seq<Record>): (ks: seq<string>)
    ensures |ks| == |d| && forall i :: 0 <= i < |d| ==> ks[i] == Key(d[i])
  {
    seq(|d|, i requires 0 <= i < |d| => Key(d[i]))
  }

  /** The position of key `k` in the dict's entry list, if any. */
  function FindKey(d: seq<Record>, k: string): (r: Option<nat>)
    ensures r.Some? ==> r.value < |d| && Key(d[r.value]) == k
    ensures r.None? ==> forall i :: 0 <= i < |d| ==> Key(d[i]) != k
  {
    if d == [] then None
    else if Key(d[0]) == k then Some(0)
    else match FindKey(d[1..], k)
      case None => None
      case Some(i) => Some(i + 1)
  }

  /**
   * `d[key(r)] = r` on a Python dict kept as its list of values in key
   * order: an existing key keeps its place and takes the new value, a new
   * key goes last.
   */
  function Put(d: seq<Record>, r: Record): seq<Record> {
    match FindKey(d, Key(r))
    case Some(i) => d[i := r]
    case None => d + [r]
  }

  /**
   * `list({key(item): item for item in rs if usable(item)}.values())`.
   */
  function Dedup(rs: seq<Record>): (d: seq<Record>)
    ensures |d| <= |rs|
  {
    if rs == [] then []
    else
      var d := Dedup(rs[..|rs| - 1]);
      var r := rs[|rs| - 1];
      if Usable(r) then Put(d, r) else d
  }

  /** The keys of the usable records, in input order, repeats included. */
  function UsableKeys(rs: seq<Record>): seq<string> {
    if rs == [] then []
    else UsableKeys(rs[..|rs| - 1]) + (if Usable(rs[|rs| - 1]) then [Key(rs[|rs| - 1])] else [])
  }

  /** Reference definition: each value once, at the place it is first seen. */
  function Distinct(ks: seq<string>): seq<string> {
    if ks == [] then []
    else
      var d := Distinct(ks[..|ks| - 1]);
      if ks[|ks| - 1] in d then d else d + [ks[|ks| - 1]]
  }

  /** The last usable record of `rs` with key `k`: the value a dict keeps. */
  function LastUsableWithKey(rs: seq<Record>, k: string): (r: Option<Record>)
    ensures r.Some? ==> r.value in rs && Usable(r.value) && Key(r.value) == k
  {
    if rs == [] then None
    else if Usable(rs[|rs| - 1]) && Key(rs[|rs| - 1]) == k then Some(rs[|rs| - 1])
    else LastUsableWithKey(rs[..|rs| - 1], k)
  }

  /**
   * `fetch_all_sources`: the four adapters' lists joined in the order
   * Google, Wikipedia, arXiv, Semantic Scholar, then filtered and deduplicated.
   */
  method FetchAllSources(config: Config, answers: Answers) returns (cleaned: seq<Record>)
    ensures cleaned == Dedup(FetchFromGoogle(config.googleApiKey, config.googleCx, answers.google)
                             + FetchFromWikipedia(answers.wikipedia)
                             + ArxivRecords(answers.arxiv)
                             + FetchFromSemanticScholar(answers.scholar))
  {
    var google := FetchFromGoogle(config.googleApiKey, config.googleCx, answers.google);
    var wikipedia := FetchFromWikipedia(answers.wikipedia);
    var arxiv := FetchFromArxiv(answers.arxiv);
    var scholar := FetchFromSemanticScholar(answers.scholar);
    var results: seq<Record> := [];
    results := results + google;
    assert results == google;
    results := results + wikipedia;
    results := results + arxiv;
    results := results + scholar;
    cleaned := Dedup(results);
  }

  // ---------------------------------------------------------------------
  // Properties of the deduplication

  /** The dict's keys are the usable keys, each once, in first-seen order. */
  lemma {:induction false} DedupKeys(rs: seq<Record>)
    ensures Keys(Dedup(rs)) == Distinct(UsableKeys(rs))
    decreases |rs|
  {
    if rs != [] {
      var pre := rs[..|rs| - 1];
      var r := rs[|rs| - 1];
      var d := Dedup(pre);
      DedupKeys(pre);
      if Usable(r) {
        assert UsableKeys(rs) == UsableKeys(pre) + [Key(r)];
        assert UsableKeys(rs)[..|UsableKeys(rs)| - 1] == UsableKeys(pre);
        match FindKey(d, Key(r))
        case Some(i) =>
          assert Keys(d[i := r]) == Keys(d);
        case None =>
          assert Key(r) !in Keys(d);
          assert Keys(d + [r]) == Keys(d) + [Key(r)];
      } else {
        assert UsableKeys(rs) == UsableKeys(pre);
      }
    }
  }

  lemma {:induction false} DistinctUnique(ks: seq<string>)
    ensures forall i, j :: 0 <= i < j < |Distinct(ks)| ==> Distinct(ks)[i] != Distinct(ks)[j]
    decreases |ks|
  {
    if ks != [] {
      DistinctUnique(ks[..|ks| - 1]);
    }
  }

  lemma {:induction false} DistinctElements(ks: seq<string>)
    ensures forall x :: x in Distinct(ks) <==> x in ks
    decreases |ks|
  {
    if ks != [] {
      var pre := ks[..|ks| - 1];
      DistinctElements(pre);
      assert ks == pre + [ks[|ks| - 1]];
    }
  }

  /**
   * First-seen order: whenever a later entry's value occurs in the input,
   * every earlier entry's value occurs before it.
   */
  lemma {:induction false} DistinctFirstSeen(ks: seq<string>)
    ensures forall i, j, b :: 0 <= i < j < |Distinct(ks)| && 0 <= b < |ks| && ks[b] == Distinct(ks)[j]
              ==> Distinct(ks)[i] in ks[..b]
    decreases |ks|
  {
    if ks != [] {
      var n := |ks|;
      var pre := ks[..n - 1];
      var x := ks[n - 1];
      var d := Distinct(pre);
      var d' := Distinct(ks);
      DistinctFirstSeen(pre);
      DistinctElements(pre);
      DistinctUnique(ks);
      forall i, j, b | 0 <= i < j < |d'| && 0 <= b < n && ks[b] == d'[j]
        ensures d'[i] in ks[..b]
      {
        if b < n - 1 {
          if j < |d| {
            assert pre[b] == ks[b];
            assert pre[..b] == ks[..b];
          } else {
            assert false;
          }
        } else {
          // b is the last position
          assert d'[i] in d;
          assert d'[i] in pre;
          var a :| 0 <= a < n - 1 && pre[a] == d'[i];
          assert ks[..b][a] == d'[i];
        }
      }
    }
  }

  lemma {:induction false} UsableKeysMembers(rs: seq<Record>)
    ensures forall j :: 0 <= j < |rs| && Usable(rs[j]) ==> Key(rs[j]) in UsableKeys(rs)
    decreases |rs|
  {
    if rs != [] {
      var pre := rs[..|rs| - 1];
      UsableKeysMembers(pre);
      forall j | 0 <= j < |rs| - 1 && Usable(rs[j]) ensures Key(rs[j]) in UsableKeys(rs) {
        assert rs[j] == pre[j];
      }
    }
  }

  /** No two returned records share the key `title ++ link`. */
  lemma DedupKeysUnique(rs: seq<Record>)
    ensures forall i, j :: 0 <= i < j < |Dedup(rs)| ==> Key(Dedup(rs)[i]) != Key(Dedup(rs)[j])
  {
    DedupKeys(rs);
    DistinctUnique(UsableKeys(rs));
    var d := Dedup(rs);
    forall i, j | 0 <= i < j < |d| ensures Key(d[i]) != Key(d[j]) {
      assert Keys(d)[i] == Key(d[i]) && Keys(d)[j] == Key(d[j]);
    }
  }

  /** Every usable input record has its key among the returned records. */
  lemma DedupCovers(rs: seq<Record>)
    ensures forall j :: 0 <= j < |rs| && Usable(rs[j]) ==> Key(rs[j]) in Keys(Dedup(rs))
  {
    DedupKeys(rs);
    UsableKeysMembers(rs);
    DistinctElements(UsableKeys(rs));
  }

  /**
   * Returned keys keep first-seen order: if the record at output position
   * `j` has its key at input position `b`, the record at any earlier output
   * position has its key at a usable input position before `b`.
   */
  lemma DedupFirstSeenOrder(rs: seq<Record>)
    ensures forall i, j, b :: 0 <= i < j < |Dedup(rs)| && 0 <= b < |UsableKeys(rs)|
              && UsableKeys(rs)[b] == Key(Dedup(rs)[j])
              ==> Key(Dedup(rs)[i]) in UsableKeys(rs)[..b]
  {
    DedupKeys(rs);
    DistinctFirstSeen(UsableKeys(rs));
    var d := Dedup(rs);
    forall i, j, b | 0 <= i < j < |d| && 0 <= b < |UsableKeys(rs)| && UsableKeys(rs)[b] == Key(d[j])
      ensures Key(d[i]) in UsableKeys(rs)[..b]
    {
      assert Keys(d)[i] == Key(d[i]) && Keys(d)[j] == Key(d[j]);
    }
  }

  /**
   * Each returned record is the LAST usable input record with its key
   * (the dict keeps the first key position but the last value).
   */
  lemma {:induction false} DedupKeepsLast(rs: seq<Record>)
    ensures forall i :: 0 <= i < |Dedup(rs)| ==> LastUsableWithKey(rs, Key(Dedup(rs)[i])) == Some(Dedup(rs)[i])
    decreases |rs|
  {
    if rs != [] {
      var pre := rs[..|rs| - 1];
      var r := rs[|rs| - 1];
      var d := Dedup(pre);
      DedupKeepsLast(pre);
      if Usable(r) {
        DedupKeysUnique(pre);
        match FindKey(d, Key(r))
        case Some(p) =>
          forall i | 0 <= i < |d| && i != p ensures Key(d[i]) != Key(r) {
            if i < p { assert Key(d[i]) != Key(d[p]); } else { assert Key(d[p]) != Key(d[i]); }
          }
        case None =>
          assert forall i :: 0 <= i < |d| ==> Keys(d)[i] == Key(d[i]);
      }
    }
  }

  /** Every returned record is a usable input record. */
  lemma DedupSound(rs: seq<Record>)
    ensures forall i :: 0 <= i < |Dedup(rs)| ==> Dedup(rs)[i] in rs && Usable(Dedup(rs)[i])
  {
    DedupKeepsLast(rs);
  }

  lemma {:induction false} DedupOfDistinct(d: seq<Record>)
    requires forall i :: 0 <= i < |d| ==> Usable(d[i])
    requires forall i, j :: 0 <= i < j < |d| ==> Key(d[i]) != Key(d[j])
    ensures Dedup(d) == d
    decreases |d|
  {
    if d != [] {
      var pre := d[..|d| - 1];
      DedupOfDistinct(pre);
      assert forall i :: 0 <= i < |pre| ==> Key(pre[i]) != Key(d[|d| - 1]);
      assert pre + [d[|d| - 1]] == d;
    }
  }

  /** Deduplicating an already deduplicated list changes nothing. */
  lemma DedupIdempotent(rs: seq<Record>)
    ensures Dedup(Dedup(rs)) == Dedup(rs)
  {
    DedupSound(rs);
    DedupKeysUnique(rs);
    DedupOfDistinct(Dedup(rs));
  }
}
