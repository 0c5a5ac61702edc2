# DSRA research agent — a Dafny model of its core

DSRA researches a topic in five steps:

1. It pulls candidate sources from Google, Wikipedia, arXiv and Semantic Scholar.
2. It merges those results and removes duplicates.
3. It asks a language model for a JSON research report, and asks again until the report passes a completeness test.
4. It saves the report as JSON and Markdown, and summarises every saved report in a dashboard.
5. It folds each report into a knowledge memory of topics, key facts and cross-topic links.

A web server and a batch driver run this pipeline. This project models the logic between the network calls and proves what that logic guarantees.

One module per source file:

- **`Values`**: `Option` and `Field`. `Field` is `Absent | Null | Val`, so a JSON key that is missing differs from one that holds `null`. This matters to the code: `report.get(k, d)` falls back to `d` only when the key is missing.
- **`Text`**: the Python string operations the code uses, such as `split(sep)`, `split()`, `strip()`, `join`, `startswith`, `endswith`, `in` and ASCII `lower()`, plus lemmas about them.
- **`Reports`**: the report record (`title`, `summary`, `sections`, `key_findings`, `cited_sources`) and the sections map as an ordered list.
- **`Retriever`** (`core/retriever.py`):
  - the record mapping of each adapter;
  - the `<tag>` extractor and the arXiv `<entry>` split;
  - the aggregation in `fetch_all_sources`: a fixed adapter order, a usability filter and dict-based deduplication.
- **`Synthesizer`** (`core/synthesizer.py`):
  - the context string and fence stripping;
  - the `incomplete` test and the acceptance rule;
  - the regenerate-until-accepted loop and the save after it.
- **`Memory`** (`core/memory_engine.py`): the `MemoryEngine` class. It holds three append-only, duplicate-free lists and a persisted snapshot. Its lemmas cover duplicate-freedom, append-only growth, idempotence and cross-linking of every pair of topics.
- **`OutputFormatter`** (`core/output_formatter.py`, `utils/config.py`): schema validation against `OUTPUT_SCHEMA`, the file-name stem and paths, and the Markdown builder.
- **`Dashboard`** (`core/dashboard.py`): report loading, the per-report entry with its snippet, and the Markdown table.
- **`ApiServer`** (`api_server.py`): the no-sources guard, the copyable text block, the PDF basename, and the two research handlers.
- **`Batch`** (`main.py`):
  - topic parsing;
  - the per-topic loop;
  - the file-name filters that choose reports for critique and for absorption;
  - the absorption loop into the memory and what the memory file holds after it.

The services the code calls, and the clock, are parameters. Each becomes one of the following:

- the decoded answer of each search API, or `None` when the request failed;
- the model's replies, as a finite list;
- `json.loads`, as a partial function `parse`;
- the time stamp, as a string;
- the time stamp in the PDF's file name, as a second string;
- the directory listing, as a list of files.

**Deduplication keeps the last record.** One might expect the first record with a key to win. The dict comprehension at `core/retriever.py:40-44` is keyed by `f"{title}{link}"`; a dict keeps the position of the first key but stores the value of the LAST record with that key. `Retriever.Dedup` models the code:

- `DedupFirstSeenOrder` proves the keys come out in first-seen order.
- `DedupKeepsLast` proves that the record kept for each key is the last usable input record with that key.

So two records with the same title and link but different snippets give the later snippet.

**A title that is not a string ends the request.** `synthesize_report` calls `save_output` after its loop, outside the `try`. A null title makes the file-name stem raise there, so `synthesize_report` never returns. `Synthesizer.SynthesisEnding` names this `SaveRaised`. The web handlers then answer 500 (`ApiServer.Response.ServerError`). `main`'s topic loop catches the error and goes on with the next topic (`Batch.TopicResult.Failed`). A missing title passes the save as `untitled_report`, but `generate_pdf` then raises `KeyError`, which is also a 500. These are the failures the model states; a file write that fails is not modelled (see "Left out").

After the topics, `main.py` builds the dashboard; that is `Dashboard.BuildDashboard`.

## Model

| member | source | states |
|---|---|---|
| `Retriever.FetchFromGoogle` | core/retriever.py:52-69 | no key or cx, or a failed request, gives `[]`; otherwise one Google record per item, in order, with missing fields as `""` |
| `Retriever.WikiLink` | core/retriever.py:86 | a null `content_urls` or a null `desktop` raises; a missing one gives `""`; otherwise the link is `page`, `""` when missing and `None` when null |
| `Retriever.FetchFromWikipedia` | core/retriever.py:73-91 | a failed request, an answer without `title`, or a link lookup that raises gives `[]`; otherwise exactly one Wikipedia record holding the title, the link and the extract (`""` when missing) |
| `Retriever.ExtractSpec` | core/retriever.py:124-129 | without `<tag>` the result is `"N/A"`; otherwise it is a prefix of the text after the first `<tag>`, contains neither `<tag>` nor `</tag>`, and is cut only at the end of that text or right before the next `<tag>` or `</tag>` |
| `Retriever.EntryRecords` | core/retriever.py:102-115 | one record per feed piece, in order; record `i` is `EntryRecord` of piece `i`: the stripped `<title>`, `<id>` and `<summary>` extracts as title, link and snippet, with source type arXiv |
| `Retriever.EntryRecordsShape` | core/retriever.py:105-115 | every arXiv record has source type arXiv and stripped title, link and snippet |
| `Retriever.FetchFromArxiv` | core/retriever.py:95-121 | a failed request gives `[]`; otherwise the number of records is the number of `<entry>` splits minus one, each built by `EntryRecords` |
| `Retriever.ParseEntries` | core/retriever.py:105-117 | the append loop over the entries builds exactly `EntryRecords` of the pieces |
| `Retriever.FetchFromSemanticScholar` | core/retriever.py:133-157 | a failed request or a missing `data` gives `[]`; a paper with null `authors` raises, so the result is `[]`; otherwise one record per paper, in order, whose title and link are the paper's `title` and `url` (`""` when missing) and whose snippet is the abstract (`""` for `None`) cut to its first 800 characters |
| `Retriever.FindKey` | core/retriever.py:40-44 | the position of an existing dict key, or none when no entry has that key |
| `Retriever.Dedup` | core/retriever.py:40-46 | the deduplicated list is no longer than the input |
| `Retriever.LastUsableWithKey` | core/retriever.py:40-44 | the record a dict keeps for a key is a usable input record with that key |
| `Retriever.FetchAllSources` | core/retriever.py:28-48 | the result is the dedup of the Google, Wikipedia, arXiv and Semantic Scholar lists concatenated in that order |
| `Retriever.DedupKeys` | core/retriever.py:40-46 | the output keys are the usable keys with repeats removed, each at its first-seen place |
| `Retriever.DistinctUnique` | core/retriever.py:40-46 | the reference "first-seen distinct" list has no repeats |
| `Retriever.DistinctElements` | core/retriever.py:40-46 | the reference list has the same elements as its input |
| `Retriever.DistinctFirstSeen` | core/retriever.py:40-46 | a key earlier in the reference list was first seen before any occurrence of a later one |
| `Retriever.UsableKeysMembers` | core/retriever.py:42-43 | every record passing the filter contributes its key |
| `Retriever.DedupKeysUnique` | core/retriever.py:40-44 | no two output records share the key `title ++ link` |
| `Retriever.DedupCovers` | core/retriever.py:40-46 | every input record with a non-empty title and snippet has its key in the output |
| `Retriever.DedupFirstSeenOrder` | core/retriever.py:40-46 | output keys appear in first-seen order |
| `Retriever.DedupKeepsLast` | core/retriever.py:40-46 | the record kept for each key is the last usable input record with that key |
| `Retriever.DedupSound` | core/retriever.py:40-46 | every output record occurs in the input and has a non-empty title and snippet |
| `Retriever.DedupOfDistinct` | core/retriever.py:40-46 | a list of usable records with distinct keys passes through unchanged |
| `Retriever.DedupIdempotent` | core/retriever.py:40-46 | deduplicating twice gives the same list as once |
| `Synthesizer.ContextEntries` | core/synthesizer.py:16 | at most the first 10 sources, each rendered `title — snippet` |
| `Synthesizer.BuildContext` | core/synthesizer.py:16 | no sources gives `"No available data."`; otherwise the entries joined by a blank line |
| `Synthesizer.ContextIgnoresRest` | core/synthesizer.py:16 | sources after the tenth do not change the context |
| `Synthesizer.ContextStartsWithFirst` | core/synthesizer.py:16 | the context begins with the first source's entry |
| `Synthesizer.RemoveFencesHead` | core/synthesizer.py:54 | deleting fences never creates a leading pair of backticks |
| `Synthesizer.RemoveFencesComplete` | core/synthesizer.py:54 | after fence deletion no three backticks remain |
| `Synthesizer.RemoveFencesNone` | core/synthesizer.py:54 | text without three backticks is unchanged |
| `Synthesizer.CleanReplyClean` | core/synthesizer.py:53-54 | a cleaned reply is stripped and free of fences |
| `Synthesizer.CleanReplyNoFence` | core/synthesizer.py:53-54 | a backtick-free reply is only stripped |
| `Synthesizer.CleanReplyIdempotent` | core/synthesizer.py:53-54 | cleaning a cleaned reply changes nothing |
| `Synthesizer.JoinedWordsComplete` | core/synthesizer.py:65-66 | for words joined by spaces, the text is complete iff there are at least 110 words and the last word ends with `.` |
| `Synthesizer.JoinEndsWithDot` | core/synthesizer.py:66 | joined words end with `.` iff the last word does |
| `Synthesizer.Candidate` | core/synthesizer.py:58-77 | a reply yields a report only when it parses and the report is accepted; otherwise it parses to nothing or to a rejected report |
| `Synthesizer.AcceptsNoSections` | core/synthesizer.py:68-71 | with an empty sections map only the summary must be complete |
| `Synthesizer.SynthesizedFirst` | core/synthesizer.py:58-82 | an accepted outcome is the first reply that parses to an accepted report, and every earlier reply was rejected |
| `Synthesizer.SynthesizedExhausted` | core/synthesizer.py:58-82 | no report is returned iff every reply is rejected |
| `Synthesizer.SettleReport` | core/synthesizer.py:58-82 | the loop stops at the first reply that parses to an accepted report, after rejecting every earlier one; when every reply is rejected it uses them all |
| `Synthesizer.SynthesisEnding` | core/synthesizer.py:58-87 | no ending iff every reply is rejected; otherwise the report is the first accepted one, and, when the file writes succeed, saving it raises iff its title is null |
| `Synthesizer.SynthesizeReport` | core/synthesizer.py:58-87 | the loop ends at the first accepted reply; that report is saved once, as the validated JSON and its Markdown at `OutputPaths`, and returned; a null title makes the save raise and nothing is written; when every reply is rejected, nothing is saved |
| `Memory.MemoryEngine.constructor` | core/memory_engine.py:4-12 | the memory is the file's store, or three empty lists when there is no file, and the file holds it |
| `Memory.MemoryEngine.AbsorbReport` | core/memory_engine.py:15-33 | the new memory is `Absorb` of the old; when `key_findings` is null the loop raises, after the topic was added and before `_save` |
| `Memory.MemoryEngine.AddFacts` | core/memory_engine.py:21-23 | the facts loop appends each absent finding and touches nothing else |
| `Memory.MemoryEngine.AddLinks` | core/memory_engine.py:26-31 | the links loop appends each absent label to every other topic and touches nothing else |
| `Memory.MemoryEngine.Recall` | core/memory_engine.py:40-41 | returns the memory and changes nothing |
| `Memory.AddAllPrefix` | core/memory_engine.py:21-23 | append-if-absent keeps the old list as a prefix |
| `Memory.AddAllGrows` | core/memory_engine.py:21-23 | append-if-absent keeps the old list as a prefix and holds exactly the old and the new items |
| `Memory.AddAllNoDup` | core/memory_engine.py:18-31 | append-if-absent keeps a duplicate-free list duplicate-free |
| `Memory.AddAllPresent` | core/memory_engine.py:21-23 | items already present add nothing |
| `Memory.LinksForMembers` | core/memory_engine.py:26-31 | the labels built for a topic are exactly `topic ↔ other` for every other topic |
| `Memory.AbsorbRecordsTopic` | core/memory_engine.py:18-19 | after absorption the title is in `topics` exactly once |
| `Memory.AbsorbKeepsValid` | core/memory_engine.py:18-31 | the three lists stay duplicate-free |
| `Memory.AbsorbAppendOnly` | core/memory_engine.py:18-31 | each of the three old lists is a prefix of its new version |
| `Memory.AbsorbFactsAndLinks` | core/memory_engine.py:21-31 | every finding is a key fact; `title ↔ other` is a link for every other topic; with one topic no link is added |
| `Memory.AbsorbIdempotent` | core/memory_engine.py:15-33 | absorbing the same report twice in a row changes nothing the second time |
| `Memory.AbsorbKeepsLinked` | core/memory_engine.py:26-31 | if every pair of topics was linked later-to-earlier, it still is after absorption |
| `Memory.AbsorbNewTopic` | core/memory_engine.py:18-31 | a new title is appended at the end of the topics, and the pairs stay linked |
| `Memory.LinkedPair` | core/memory_engine.py:26-31 | in a linked memory, a later topic B and an earlier topic A give the label `B ↔ A` |
| `Memory.Titles` | core/memory_engine.py:16 | the titles of the reports, in order |
| `Memory.FreshTopicsLinked` | core/memory_engine.py:15-33 | distinct titles absorbed in order into an empty memory become the topics in that order, and every later topic is linked to every earlier one |
| `Memory.FreshStep` | core/memory_engine.py:18-31 | one step of that induction: a new title is appended and the memory stays linked |
| `Memory.OneTopicNoLink` | core/memory_engine.py:26 | a single topic gets no link |
| `OutputFormatter.ValidateSchema` | core/output_formatter.py:45-57 | one pass over the schema keys builds the validated report |
| `OutputFormatter.FilledAll` | core/output_formatter.py:47-57 | filling all schema keys in order gives the validated report |
| `OutputFormatter.ValidatedSchema` | core/output_formatter.py:45-57 | the result has exactly the keys `title`, `summary`, `key_findings` and `cited_sources` (so `sections` is dropped); a non-`None` value is kept; a missing or `None` one becomes `"N/A"` or `[]` |
| `OutputFormatter.ValidatedIdempotent` | core/output_formatter.py:45-57 | validating twice is validating once |
| `OutputFormatter.SafeTitle` | core/output_formatter.py:25 | the stem has the title's length; each space becomes `_`, each capital its lower-case letter, and every other character is kept; no space or capital remains; a missing title gives `untitled_report`; a null one raises |
| `OutputFormatter.PlainTitleKept` | core/output_formatter.py:25 | a title without spaces and capitals is its own stem |
| `OutputFormatter.PathJoin` | core/output_formatter.py:27-28 | `os.path.join` ends with the name, and a name starting with `/` replaces the directory |
| `OutputFormatter.StemJoin` | core/output_formatter.py:27-28 | `stem_timestamp.ext` lands in the output directory unless the stem starts with `/`, in which case it is the whole path |
| `OutputFormatter.OutputPaths` | core/output_formatter.py:24-28 | both paths exist iff the stem does; they share the stem and time stamp and end in `.json` and `.md`; they are under `data/outputs/` unless the stem starts with `/`, in which case the directory is dropped |
| `OutputFormatter.AbsoluteTitlePaths` | core/output_formatter.py:25-28 | the title `/tmp/x` writes `/tmp/x_<stamp>.json` and `/tmp/x_<stamp>.md`, outside the output directory |
| `OutputFormatter.Bullets` | core/output_formatter.py:75-76 | one `- item` line per item, in order |
| `OutputFormatter.SectionBlockText` | core/output_formatter.py:68-69 | one section is `### name` (underscores as spaces), its content and a blank line |
| `OutputFormatter.AppendSections` | core/output_formatter.py:67-69 | the sections loop appends one block per section, in order |
| `OutputFormatter.AppendBullets` | core/output_formatter.py:75-76 | the bullet loop appends one `- item` line per item |
| `OutputFormatter.ToMarkdown` | core/output_formatter.py:59-86 | the string built with `+=` is the Markdown document |
| `OutputFormatter.MarkdownParts` | core/output_formatter.py:59-86 | the document is the head, then the sections, findings and sources blocks |
| `OutputFormatter.AppendSectionLines` | core/output_formatter.py:65-69 | the sections block appears only when `sections` is an object |
| `OutputFormatter.AppendFindingLines` | core/output_formatter.py:72-77 | the Key Findings block appears only for a non-empty list |
| `OutputFormatter.AppendSourceLines` | core/output_formatter.py:80-84 | the Cited Sources block appears only for a non-empty list |
| `OutputFormatter.HeadText` | core/output_formatter.py:61-62 | the head is `# title`, a blank line, the summary heading, the summary and a blank line |
| `OutputFormatter.MarkdownStart` | core/output_formatter.py:61-62 | the document starts with `# {title}\n\n` and the summary heading |
| `OutputFormatter.MarkdownLayout` | core/output_formatter.py:59-86 | for single-line texts, splitting the document at newlines gives back its lines |
| `OutputFormatter.SaveOutput` | core/output_formatter.py:19-43 | a null title raises; otherwise the JSON is the validated report and the Markdown is rendered from it |
| `OutputFormatter.SavedMarkdownBlocks` | core/output_formatter.py:31-38 | the saved Markdown never has a sections block |
| `Dashboard.JsonFiles` | core/dashboard.py:48 | only `.json` files of the listing are kept |
| `Dashboard.LoadReports` | core/dashboard.py:47-66 | the loading loop returns the reports of the loadable files, in order |
| `Dashboard.ParsedAppend` | core/dashboard.py:51-64 | loading two listings in turn is loading their concatenation |
| `Dashboard.JsonFilesAppend` | core/dashboard.py:48 | filtering distributes over concatenation |
| `Dashboard.LoadedAppend` | core/dashboard.py:47-66 | loading distributes over concatenation |
| `Dashboard.LoadedOne` | core/dashboard.py:51-60 | a file gives its report iff it is a `.json` file whose stripped content is non-empty, starts with `{` and parses |
| `Dashboard.LoadedSkips` | core/dashboard.py:56-64 | a file that does not load changes nothing |
| `Dashboard.LoadedBound` | core/dashboard.py:47-66 | there are at most as many reports as files |
| `Dashboard.LoadedFrom` | core/dashboard.py:47-66 | every loaded report comes from a loadable file |
| `Dashboard.JsonFilesAll` | core/dashboard.py:48 | a listing of `.json` files is kept whole |
| `Dashboard.ParsedAll` | core/dashboard.py:51-64 | when every file is acceptable and parses, there is one report per file, in order |
| `Dashboard.LoadedAll` | core/dashboard.py:47-66 | when every file loads, there is one report per file, in order |
| `Dashboard.Snippet` | core/dashboard.py:28 | the snippet is a prefix of the first sentence (the text before the first `.`) of length `min(200, its length)`, followed by `...` |
| `Dashboard.SnippetShape` | core/dashboard.py:28 | before the `...` is a prefix of the summary without a full stop |
| `Dashboard.SnippetShort` | core/dashboard.py:28 | a short summary without a full stop is kept whole |
| `Dashboard.SnippetStopsAtPeriod` | core/dashboard.py:28 | the snippet stops at the first full stop |
| `Dashboard.EntryOfFields` | core/dashboard.py:25-31 | an entry exists iff no summary, key_findings or cited_sources is null; a missing title is `Unknown` and a null one stays `None`; the snippet is `Snippet` of the summary (`""` when missing); the counts are the list lengths, 0 when missing |
| `Dashboard.Rows` | core/dashboard.py:76-77 | one table row per entry, in order |
| `Dashboard.HeaderText` | core/dashboard.py:71-74 | the header lines are the title, the time stamp, the total, the table header and the separator |
| `Dashboard.ToMarkdown` | core/dashboard.py:70-79 | the string built with `+=` is the dashboard document |
| `Dashboard.AppendRows` | core/dashboard.py:76-77 | the row loop appends one row per entry |
| `Dashboard.TableLayout` | core/dashboard.py:70-79 | the document's lines are seven header lines and then exactly one row per entry |
| `Dashboard.BuildEntries` | core/dashboard.py:25-31 | one entry per report, in order, or a crash when some report has a null field |
| `Dashboard.BuildDashboard` | core/dashboard.py:12-31 | no reports gives no dashboard; otherwise the total is the number of loaded reports with one entry each, in order, and the Markdown renders it |
| `ApiServer.AppendSectionCopies` | api_server.py:88-91 | three lines per section: heading, text (`""` for `None`), blank |
| `ApiServer.AppendBulletLines` | api_server.py:95-96 | one `- x` line per item, in order |
| `ApiServer.AppendSectionsCopy` | api_server.py:85-91 | `## Sections` and its lines appear only for a non-empty sections map |
| `ApiServer.AppendFindingsCopy` | api_server.py:92-97 | the Key Findings lines appear only for a non-empty list |
| `ApiServer.AppendSourcesCopy` | api_server.py:98-102 | the Cited Sources lines appear only for a non-empty list |
| `ApiServer.CopyBlock` | api_server.py:84-103 | a null summary makes the join raise; otherwise the block is the lines joined by newlines |
| `ApiServer.HeadCopyText` | api_server.py:84 | the head lines are `# title`, a blank line, `## Summary`, the summary and a blank line |
| `ApiServer.CopyBlockStart` | api_server.py:84-103 | the block begins with those head lines |
| `ApiServer.SectionCopiesShape` | api_server.py:88-91 | section `k` occupies lines `3k` to `3k+2` |
| `ApiServer.CopyBlockLines` | api_server.py:84-103 | for single-line texts, splitting the block at newlines gives back the lines |
| `ApiServer.Basename` | api_server.py:110 | the basename has no `/`, ends the path, and follows its last `/` |
| `ApiServer.BasenameAppend` | api_server.py:110 | a name without `/` appended to a path extends its basename |
| `ApiServer.BasenamePlain` | api_server.py:139 | a path without `/` is its own basename |
| `ApiServer.BasenameOfJoin` | api_server.py:139 | the basename of `dir/name` is `name` |
| `ApiServer.PdfPath` | core/pdf_generator.py:20-24 | a missing or null title raises; otherwise the path ends with the title (spaces as `_`), `_`, the time stamp and `.pdf` |
| `ApiServer.PdfNameOfTitle` | core/pdf_generator.py:23-24 | for a title and time stamp without `/`, the client gets exactly the file name `title_stamp.pdf` (spaces as `_`) |
| `ApiServer.RunFromForm` | api_server.py:64-113 | no sources gives 404 and no synthesis call; a report whose save or PDF raises gives 500, and, when the file writes succeed, that happens iff the accepted report's title is missing or null; otherwise the page shows the accepted report, the PDF's basename and the copy block |
| `ApiServer.ApiResearch` | api_server.py:116-140 | no sources gives 404 and no synthesis call; when the file writes succeed, 500 iff the accepted report's title is missing or null; otherwise the body is the accepted report and the PDF's basename |
| `Batch.NonBlank` | main.py:21-24 | the kept topics are non-empty and stripped |
| `Batch.Topics` | main.py:16-24 | every topic is non-empty and stripped |
| `Batch.NonBlankKeeps` | main.py:24 | stripped, non-empty pieces are kept as they are |
| `Batch.NonBlankAppend` | main.py:24 | filtering distributes over concatenation |
| `Batch.CommaRoundTrip` | main.py:24 | comma input yields the stripped, non-empty pieces in input order |
| `Batch.FileRoundTrip` | main.py:21 | file input yields one topic per non-blank line, in order |
| `Batch.BlankPieceIgnored` | main.py:21-24 | a blank piece contributes nothing |
| `Batch.ProcessTopics` | main.py:31-46 | the loop produces the outcome of each topic in order, going on after a failed topic and stopping on a topic whose synthesis never ends |
| `Batch.ProcessTopic` | main.py:33-43 | one topic's outcome |
| `Batch.OutcomesStep` | main.py:31-46 | one loop step: this topic's outcome, then the rest unless it is stuck |
| `Batch.OutcomesShape` | main.py:31-46 | each outcome belongs to its topic, in order; only the last can be stuck; a run that stops early ends stuck |
| `Batch.TopicOutcomeShape` | main.py:33-46 | no sources iff skipped; a completed topic has the first accepted reply, whose title is not null; failed iff there are sources and that first accepted report has a null title; stuck iff there are sources and every reply is rejected |
| `Batch.NoSourcesSkipped` | main.py:35-37 | a topic without sources is skipped without synthesis, and the loop continues with the next topic |
| `Batch.TargetRules` | main.py:64-78 | critiqued files are also absorbed; pure critiques are neither; improved reports are absorbed but not critiqued |
| `Batch.CritiqueTargets` | main.py:66-69 | the critiqued files contain neither `_CRITIQUE` nor `_IMPROVED` |
| `Batch.CritiqueAll` | main.py:66-69 | the critique loop visits exactly the critique targets, in order |
| `Batch.AbsorbFiles` | main.py:76-83 | the absorption loop leaves the memory at `AbsorbedAll` of the files, and the memory file at `PersistedAll` |
| `Batch.PersistedAllNone` | main.py:76-83 | when no selected file reaches the save, the memory file is unchanged |
| `Batch.PersistedAllLast` | main.py:76-83 | the memory file holds the memory as it was right after the last selected file whose report has non-null key findings |
| `Batch.AbsorbedAllValid` | main.py:76-83 | absorbing all files keeps the memory duplicate-free |
| `Batch.StepKeepsTopics` | main.py:77-81 | one file keeps every topic and adds its report's title |
| `Batch.AbsorbedAllTopics` | main.py:76-83 | old topics remain, and every selected file that parses adds its title |
| `Batch.AbsorbedAllLinked` | main.py:76-83 | when no selected report has null findings, every pair of topics stays linked |

## Left out

- Network I/O. The HTTP requests to the four search services and to the language model are not modelled; their decoded answers are parameters, and a failed request is `None`.
- JSON. `json.loads` is an abstract partial function `parse`. A JSON value of a type other than the schema's, such as a numeric title, is not modelled.
- Other JSON fields. `year` and `authors` of Semantic Scholar records are kept, but no property is stated about them.
- File I/O. The following are left out, and the model keeps only their in-memory results:
  - the memory file's reads and writes (`_save` is the `persisted` field);
  - the report and dashboard files, and any failure to write them (see the next lines);
  - `os.listdir`, `glob` and `os.makedirs`.
- `os.path.exists` on the user's input in `main` is the `readFile` parameter.
- Time. `time.sleep` is left out. `datetime.now()` is a time-stamp string parameter.
- `core/pdf_generator.py` is modelled only for the path `generate_pdf` writes to (`ApiServer.PdfPath`). The document layout and any error raised inside reportlab are left out. `utils/pdf_utils.py` is not part of this model.
- `core/reflection.py` is not part of this model. `critique_report` and `regenerate_improved` are left out; only the file-name rule that selects reports for them is modelled.
- `app.py`, and the FastAPI routing, templates, static files and the `/download` and `/dashboard` endpoints, are not part of this model.
- Configuration. Environment and `.env` loading is left out; only `OUTPUT_SCHEMA` is kept.
- Concurrency. Several processes writing the memory file at once are not modelled.
- Of the exceptions caught in `main`'s topic loop, only the save that raises on a null title is modelled (`Batch.TopicResult.Failed`).
- The prompt text is not modelled; it does not influence acceptance.
- `Text.Lower` lower-cases only ASCII letters, where Python's `lower()` covers all of Unicode.
- `Text.Split` with `"\n"` stands for line iteration. `\r` and other line ends are not treated as breaks.
- `Synthesizer.SynthesizeReport`: does not model the unbounded retry loop. The replies are a finite list, so when all are rejected the ending is `Unsettled`, where the code would ask again forever. `Batch` reports this as `Stuck`, and `ApiServer` as `Unanswered`.
- `Synthesizer.SynthesisEnding`: a save whose file cannot be opened is not modelled. A `/` in the title puts the JSON file in a sub-directory of `data/outputs` (the title `TCP/IP` gives `data/outputs/tcp/ip_<stamp>.json`); only `data/outputs` is created, so `open` raises and `synthesize_report` never returns, as for a null title. The model gives `Returned` there.
- `ApiServer.RunFromForm`: for such a title (and for a PDF that cannot be written), the program answers 500 and the model answers with the page.
- `ApiServer.ApiResearch`: the same; the program answers 500 and the model answers with the body.
- `Batch.TopicOutcomeShape`: for such a title the program reports the topic as failed and the model as completed.
- The `if not report` guards at `api_server.py:78-79` and `api_server.py:131-132` are not modelled as a branch: an accepted report always has a summary, so it is never empty and the guard never fires. The 500 responses the handlers do give come from the save and the PDF path.
