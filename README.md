# Ingestion progress tracking: a Dafny model

This project models the document-ingestion front end of a Danish legal-text
chatbot. Three passes share one progress store, a JSON dictionary from
document URL to a status record:

- **crawl** (`src/ingestion/crawler.py`): visits every page URL of the
  data-source configuration that is not yet marked `crawled`. It infers the
  page's metadata, fetches the rendered HTML and writes a structured artifact
  `DK-<TYPE>-<year>-<doc id>.json`. Then it records `crawled` and
  `structured_filepath`.
- **extract** (`src/ingestion/processor.py`): visits every record that is
  crawled but not processed. It extracts the Danish text from the artifact's
  HTML, writes `<stem>_dk.txt`, and records `processed` and
  `processed_filepath_dk`.
- **translate** (`src/ingestion/translator.py`): visits every record that is
  processed but not translated. It has the language model translate the
  Danish text, writes `<stem without "_dk">_en.txt`, and records `translated`
  and `processed_filepath_en`.

The store is the class `Progress.ProgressStore`. Python dictionaries iterate
in insertion order, so the store keeps the key order next to the map. Each
pass is a method that changes the store in place. Each method is proved equal
to a specification function: `Crawler.CrawlPass`, `Processor.ProcessPass` or
`Translator.TranslatePass`. The lemmas about those functions state what the
passes promise:
- the stage order `translated ==> processed ==> crawled` is kept;
- flags are never cleared and records are never removed;
- a record changes only in the way its own pass allows;
- every file written is the output of some record, or for the crawl of some listed page (`Crawler.CrawlJobsLogged`);
- each pass is idempotent.

`Pipeline` runs any sequence of passes. Each script is run on its own, and
nothing in the repository chains them. It proves that the invariants survive
every such sequence.

Everything outside the program is a function parameter ("oracle"):
- the browser fetch;
- file existence;
- reading the artifact's `raw_html`;
- the HTML-to-text extraction;
- reading a text file;
- the language model;
- every file write.

An oracle that raises is modelled as `None` or `false`. A pass can end early
with an uncaught exception, and the specification functions report this as
`aborted`:
- the crawl ends early when a page entry has no `"url"`;
- the translation ends early when the Danish file cannot be read or the
  English file cannot be written.

Two consequences of the code are worth stating plainly:
- A failed translation writes nothing and leaves the record untranslated
  (`Translator.TranslatePassWrites`).
- A failed read of the Danish file or a failed write of the English file ends
  the whole translate pass (`Translator.TranslatePassAborted`).

The passes and the names they build are specification functions. Their
properties are stated by the lemmas and methods in the table below:
- `Crawler.CrawlJob`, `Crawler.CrawlJobs` and `Crawler.CrawlPass` are the crawl
  loop of src/ingestion/crawler.py:69-113. `Crawler.GenerateFilename`,
  `Crawler.DocId` and `Crawler.YearText` are `generate_filename` (lines 44-52).
- `Processor.ProcessRecord`, `Processor.MarkProcessed` and
  `Processor.ProcessPass` are the extraction loop of
  src/ingestion/processor.py:39-76. `Processor.DkPathFor` is the Danish file name
  (lines 57-60).
- `Translator.TranslateDocument` and `Translator.Prompt` are
  `translate_document` (src/ingestion/translator.py:32-48).
  `Translator.TranslateRecord`, `Translator.MarkTranslated` and
  `Translator.TranslatePass` are the translation loop (lines 50-80).
  `Translator.EnPathFor` is the English file name (lines 65-67).
- `Text.Strip`, `Text.Trim`, `Text.StripSlashes`, `Text.Replace`, `Text.Basename`
  and `Text.DecimalValue` are Python's `strip`, `replace`, `os.path.basename`
  and `int()` of a digit string.
- `Pipeline.RunPass` and `Pipeline.RunPasses` run the three scripts, each of
  which ends with its own `__main__` block.

## Model

| member | source | states |
|---|---|---|
| Crawler.InferMetadata | src/ingestion/crawler.py:29-42 | jurisdiction is "DK"; the type is the configured one or "unknown"; the source is the URL's netloc; a year is present exactly when the URL contains "retsinformation.dk" and matches `/lta/dddd/`, and it is at most 9999 |
| Crawler.YearOf | src/ingestion/crawler.py:37-40 | a year is found only as four digits, so it is at most 9999 |
| Crawler.FirstLta | src/ingestion/crawler.py:38 | `re.search`: the index found matches the pattern and no earlier index does; None only when no index matches |
| Crawler.YearFromFirstMatch | src/ingestion/crawler.py:37-40 | the year is the int() of the leftmost match's four digits, and it prints back as those digits unless they start with 0 |
| Crawler.DocIdIsLastSegment | src/ingestion/crawler.py:49-50 | the doc id is the text after the last '/' of the path stripped of slashes, so it holds no '/'; the "index" fallback is never reached |
| Crawler.DocIdOfRoot | src/ingestion/crawler.py:49-50 | a path of slashes only gives an empty doc id |
| Crawler.YearText | src/ingestion/crawler.py:47-52 | the year part of the name is the year's decimal digits without a leading zero, which parse back to the year, or "YYYY" when there is no year |
| Crawler.FilenameParts | src/ingestion/crawler.py:44-52 | the generated name reads back as "DK-", the upper-cased type with no lower-case letter, "-", the year digits or "YYYY", "-", the path's last segment, ".json" |
| Crawler.FilenameHasNoSlash | src/ingestion/crawler.py:44-52 | a type without '/' gives a name without '/' |
| Crawler.StructuredPathShape | src/ingestion/crawler.py:89-90 | the artifact path is the structured directory plus the generated name, and its basename is that name |
| Crawler.RootFilename | src/ingestion/crawler.py:44-52 | the root page of a domain without a configured type is named "DK-UNKNOWN-YYYY-.json" |
| Crawler.TryCrawl | src/ingestion/crawler.py:83-100 | an artifact is saved exactly when the fetch returns non-empty HTML and the write succeeds, and it holds the URL, the inferred metadata and the HTML at the generated path |
| Crawler.MarkCrawled | src/ingestion/crawler.py:102-106 | the record is created if absent and appended to the key order, its crawled flag and structured path are set, every other record and field is unchanged |
| Crawler.RecordCrawled | src/ingestion/crawler.py:103-106 | the in-place update of the store equals MarkCrawled and keeps the store valid |
| Crawler.MarkCrawledValid | src/ingestion/crawler.py:103-104 | marking a URL crawled keeps every key listed exactly once in the key order |
| Crawler.CrawlAndStructureUrls | src/ingestion/crawler.py:69-113 | the store after the pass, the fetches made and the abort flag equal CrawlPass of the store before it |
| Crawler.CrawlDomain | src/ingestion/crawler.py:75-77 | one domain of the loop equals CrawlJobs over its page visits, none when it lists no "pages" |
| Crawler.CrawlDomainStep | src/ingestion/crawler.py:75-77 | crawling the first i + 1 domains is crawling the first i, then the pages of domain i |
| Crawler.CrawlPages | src/ingestion/crawler.py:76-112 | the loop over one domain's pages equals CrawlJobs over its page visits |
| Crawler.CrawlEntry | src/ingestion/crawler.py:78-112 | one page entry with a "url" does exactly one CrawlJob step: skipped when crawled, otherwise fetched and logged |
| Crawler.PageJobsLast | src/ingestion/crawler.py:77-78 | the visits of the first j + 1 page entries are those of the first j, then entry j with its domain's type |
| Crawler.CrawlPagesStop | src/ingestion/crawler.py:78 | a page without "url" at index j ends the page loop with the state reached there |
| Crawler.CrawlPage | src/ingestion/crawler.py:83-112 | one fetch: the attempt is TryCrawl's, and the store is marked crawled exactly when the artifact was saved |
| Crawler.CrawlJobsStayAborted | src/ingestion/crawler.py:78 | after a KeyError ends the pass, later pages change nothing |
| Crawler.CrawlJobsAppend | src/ingestion/crawler.py:75-77 | visiting a + b is visiting a, then b from where a ended |
| Crawler.JobsAppend | src/ingestion/crawler.py:75-77 | the page visits of two lists of domains are those of the first, then those of the second |
| Crawler.CrawlJobsAborted | src/ingestion/crawler.py:78 | a pass that stopped within the first n domains ends there |
| Crawler.CrawlJobsKeys | src/ingestion/crawler.py:103-104 | the crawl removes no key and only appends to the key order |
| Crawler.CrawlJobCases | src/ingestion/crawler.py:78-107 | one page visit leaves the store and the fetch log as they were, or fetches a URL not yet crawled, logs the attempt and marks the URL crawled exactly when the artifact was saved |
| Crawler.CrawlJobsValid | src/ingestion/crawler.py:103-104 | the crawl keeps every key listed exactly once |
| Crawler.CrawlJobsChanges | src/ingestion/crawler.py:79-106 | each record ends untouched, or it was not crawled and is now crawled with a structured path and is otherwise the same, or it is a new record with only those two fields set |
| Crawler.CrawlJobsGrow | src/ingestion/crawler.py:79-106 | the crawl clears no flag, leaves crawled records as they were and keeps translated ==> processed ==> crawled |
| Crawler.CrawlJobsAbortIff | src/ingestion/crawler.py:78-111 | the pass ends early exactly when some listed page entry has no "url" |
| Crawler.CrawlJobsAttempts | src/ingestion/crawler.py:79-107 | every URL fetched was not crawled when the pass began; a URL is fetched again only after failed fetches; a saved artifact's URL ends crawled with that artifact's path |
| Crawler.CrawlJobAttempts | src/ingestion/crawler.py:79-107 | one page visit keeps the fetch log consistent with the store, given that records crawled at the start are still crawled |
| Crawler.AttemptLogged | src/ingestion/crawler.py:83-107 | logging a fetch of a URL not yet crawled, and marking it crawled when its artifact was saved, keeps the fetch log consistent with the store |
| Crawler.CrawlJobsSaved | src/ingestion/crawler.py:83-107 | a URL crawled by the pass, and not crawled before it, has a logged fetch that saved an artifact at the record's structured path |
| Crawler.CrawlJobsAttemptsPrefix | src/ingestion/crawler.py:83-107 | the fetch log only grows |
| Crawler.CrawlJobsLogged | src/ingestion/crawler.py:75-107 | every fetch the pass logs is for a listed page, and the artifact it saved, if any, is TryCrawl's outcome for that URL and its domain's type |
| Crawler.CrawlPassPaths | src/ingestion/crawler.py:85-106 | a URL the pass crawled, not crawled before, is recorded with the generated path of that URL under the type of one of its listed pages |
| Crawler.CrawlJobsHandled | src/ingestion/crawler.py:79-109 | unless the pass ends early, every listed URL ends crawled or has a failed fetch |
| Crawler.CrawlJobsQuiet | src/ingestion/crawler.py:79-81 | a pass over pages that are all crawled fetches nothing and changes nothing |
| Crawler.CrawlPassKeeps | src/ingestion/crawler.py:69-113 | from a valid store the pass keeps it valid, only extends the key order, clears no flag, keeps the stage order and leaves crawled records untouched |
| Crawler.CrawlPassRerun | src/ingestion/crawler.py:79-81 | after a pass that did not stop early and had no failed fetch, a second pass fetches nothing and changes nothing, whatever the fetches return |
| Processor.DkPathShape | src/ingestion/processor.py:57-60 | the Danish file is the processed directory plus the artifact's stem plus "_dk.txt", and the stem holds no '/' |
| Processor.DkNameJoin | src/ingestion/processor.py:59-60 | a Danish name whose stem has no '/' joins onto the processed directory by concatenation and is the joined path's basename |
| Processor.DkPathOfArtifact | src/ingestion/processor.py:57-60 | for an artifact the crawl saved under a configured type without '/', the Danish file is its name with ".json" replaced by "_dk.txt" |
| Processor.ArtifactStem | src/ingestion/processor.py:57-58 | for a configured type without '/', the stem of a crawled artifact's basename is its name without ".json" |
| Processor.StemOfJsonName | src/ingestion/processor.py:58 | `splitext` of x + ".json" gives x when x has no '/' and does not start with '.' |
| Processor.ProcessAllStructuredFiles | src/ingestion/processor.py:39-76 | the store after the loop, and the files written, equal ProcessPass of the store before it; the pass never stops early and keeps the key order |
| Processor.ProcessEntry | src/ingestion/processor.py:46-74 | the loop body for one record does exactly what ProcessRecord says: it never raises, and it writes a file and updates the record only on an update |
| Processor.ProcessPassEach | src/ingestion/processor.py:45-74 | the pass runs to the end; a record is marked processed with its Danish path, and otherwise unchanged, exactly when it was pending and its load, extraction and write all succeeded; every other record is untouched |
| Processor.ProcessPassSkips | src/ingestion/processor.py:46 | records not crawled, or already processed, are untouched |
| Processor.ProcessStepProperties | src/ingestion/processor.py:46-67 | an extraction step keeps every flag, sets processed only on a crawled record, and leaves a record it updated alone on a second visit |
| Processor.ProcessPassKeeps | src/ingestion/processor.py:45-74 | the pass keeps the store valid, clears no flag and keeps translated ==> processed ==> crawled |
| Processor.ProcessPassWrites | src/ingestion/processor.py:55-63 | every file written holds the text extracted for some record that was extracted, at that record's Danish path |
| Processor.ProcessPassIdempotent | src/ingestion/processor.py:45-74 | a second pass with the same outcomes changes nothing and writes nothing |
| Translator.TranslateBlankIff | src/ingestion/translator.py:35-37 | the result is ("", False) exactly when the text is empty or all whitespace |
| Translator.TranslateSuccess | src/ingestion/translator.py:35-45 | success holds exactly when the text is not blank and the model answers; the text is then the answer stripped of surrounding whitespace |
| Translator.TranslateFailure | src/ingestion/translator.py:46-48 | when the model call fails, the result is unsuccessful: the failure marker followed by the whole original text |
| Translator.EnPathOfDk | src/ingestion/translator.py:65-67 | the English file is the processed directory plus the Danish stem with every "_dk" removed plus "_en.txt"; it is the artifact's stem plus "_en.txt" when that stem holds no "_dk" |
| Translator.EnNameJoin | src/ingestion/translator.py:65-67 | an English name built from a stem without '/' joins onto the processed directory by plain concatenation |
| Translator.EnPathCollision | src/ingestion/translator.py:65 | two artifacts with stems "a_dkb" and "ab" have different Danish files but the same English file |
| Translator.CollidingStems | src/ingestion/translator.py:65 | removing "_dk" turns "a_dkb" into "ab" and leaves "ab" as it is |
| Translator.TranslateAllProcessedFiles | src/ingestion/translator.py:50-80 | the store after the loop, the files written and whether an exception ended it equal TranslatePass of the store before it; the key order is kept |
| Translator.TranslateEntry | src/ingestion/translator.py:57-78 | the loop body for one record does exactly what TranslateRecord says: it raises on an abort, and it writes a file and updates the record only on an update |
| Translator.TranslateRecordOutcome | src/ingestion/translator.py:57-74 | a record is updated exactly when it is translated, and then to MarkTranslated of it; the step raises exactly when the record is pending and its Danish file cannot be read, or its translation succeeds and cannot be written |
| Translator.TranslateStepProperties | src/ingestion/translator.py:57-74 | a translation step keeps every flag, sets translated only on a processed record, and leaves a record it updated alone on a second visit |
| Translator.TranslatePassEach | src/ingestion/translator.py:56-78 | each record ends untouched, or marked translated with its English path only if it was translated; when the pass does not stop early, exactly the translated records are marked |
| Translator.TranslatePassSkips | src/ingestion/translator.py:57 | records not processed, or already translated, are untouched |
| Translator.TranslatePassAborted | src/ingestion/translator.py:32-70 | the pass stops early exactly when some pending record's Danish file cannot be read, or its successful translation cannot be written |
| Translator.TranslatePassAbortsOn | src/ingestion/translator.py:56-70 | one pending record whose Danish file cannot be read, or whose successful translation cannot be written, ends the pass early |
| Translator.TranslatePassKeeps | src/ingestion/translator.py:56-78 | the pass keeps the store valid, clears no flag and keeps translated ==> processed ==> crawled |
| Translator.TranslatePassWrites | src/ingestion/translator.py:62-70 | every file written is the model's stripped, non-empty answer for some translated record, at its English path; the failure text is never written |
| Translator.TranslatePassIdempotent | src/ingestion/translator.py:56-78 | a second pass with the same outcomes changes nothing, writes nothing and stops where the first stopped |
| Progress.ProgressStore.constructor | src/ingestion/crawler.py:12-17 | the store holds the loaded progress, which lists every key exactly once |
| Progress.GrowsTransitive | src/ingestion/crawler.py:103-106 | two steps that each clear no flag and remove no record together clear none and remove none |
| Progress.Sweep | src/ingestion/processor.py:45 | a visit over the records in key order keeps the set of keys |
| Progress.SweepFrame | src/ingestion/processor.py:45 | a key the visit does not list keeps its record |
| Progress.SweepEach | src/ingestion/translator.py:56 | each record ends either as it was or as the step's update of its original value |
| Progress.SweepFinished | src/ingestion/processor.py:45 | a visit that runs to the end leaves each record as one step on its original value leaves it, whatever the order |
| Progress.SweepAbortedBy | src/ingestion/translator.py:56 | a visit that stopped early was stopped by a record whose original value makes the step raise |
| Progress.SweepAbortsIf | src/ingestion/translator.py:56 | a listed record whose original value makes the step raise stops the visit, whatever comes before it |
| Progress.SweepWrites | src/ingestion/processor.py:45 | every file written comes from the update of some record's original value |
| Progress.SweepKeepsChain | src/ingestion/processor.py:45 | with a step that keeps flags and the stage order, the visit keeps them for every record |
| Progress.SweepIdempotent | src/ingestion/processor.py:45 | with a step that leaves its own updates alone, a second visit changes and writes nothing |
| Progress.SweepCompletes | src/ingestion/processor.py:50-71 | a step that never raises lets the visit run to the end |
| Progress.SweepStep | src/ingestion/processor.py:45 | one more key of the visit: how the loop's remaining work follows from the step on the next record |
| Pipeline.RunPassKeeps | src/ingestion/crawler.py:116-119 | each script run keeps the store valid, only extends the key order, clears no flag and keeps the stage order |
| Pipeline.RunPassesKeeps | src/ingestion/translator.py:82-84 | any sequence of runs of the three scripts keeps the store valid, only extends the key order, clears no flag and keeps the stage order |
| Pipeline.ChainFromEmpty | src/ingestion/processor.py:78-80 | from the empty progress file, every record satisfies translated ==> processed ==> crawled after any sequence of runs |
| Text.TrimEmptyIff | src/ingestion/translator.py:35 | `strip()` gives the empty string exactly when every character is whitespace |
| Text.TrimIdempotent | src/ingestion/translator.py:44 | stripping a stripped text changes nothing |
| Text.StripLeft | src/ingestion/crawler.py:49 | the result is a suffix, everything dropped is a stripped character, and the result does not start with one |
| Text.StripRight | src/ingestion/crawler.py:49 | the result is a prefix, everything dropped is a stripped character, and the result does not end with one |
| Text.StripSlice | src/ingestion/crawler.py:49 | `strip(chars)` is the slice of the text after the leading run of chars and before the trailing run |
| Text.StripEnds | src/ingestion/crawler.py:49 | the stripped text neither starts nor ends with one of chars |
| Text.StripNothing | src/ingestion/translator.py:44 | text holding none of the stripped characters comes back unchanged |
| Text.Split | src/ingestion/crawler.py:49 | `split('/')` yields at least one part and no part holds '/' |
| Text.SplitJoin | src/ingestion/crawler.py:49 | joining the parts with the separator gives back the text |
| Text.SplitLastIsAfterLast | src/ingestion/crawler.py:50 | the last part of a split is the text after the last separator |
| Text.AfterLastUnique | src/ingestion/crawler.py:50 | the text after the last separator is the only suffix without a separator that is the whole text or follows one |
| Text.ReplaceAbsent | src/ingestion/translator.py:65 | `replace` leaves a text without the pattern unchanged |
| Text.ReplaceAppended | src/ingestion/translator.py:65 | `replace` on x + pattern is `replace` on x, then the replacement |
| Text.ReplaceShortAppended | src/ingestion/translator.py:65 | a text shorter than the pattern that does not start it, followed by the pattern, keeps the text and replaces the pattern |
| Text.ReplaceKeepsOut | src/ingestion/translator.py:65 | `replace` introduces no character that is in neither the text nor the replacement |
| Text.UpperIsUpper | src/ingestion/crawler.py:52 | `upper()` on ASCII letters: it keeps the length, turns each ASCII lower-case letter into its upper-case letter, keeps every other character, leaves no ASCII lower-case letter and is idempotent |
| Text.DecimalString | src/ingestion/crawler.py:52 | `str()` of a natural number is non-empty, all digits, with no leading zero except for 0 |
| Text.DecimalRoundTrip | src/ingestion/crawler.py:40-52 | int() of str(n) is n |
| Text.DecimalPrintsBack | src/ingestion/crawler.py:40-52 | str() of int(s) is s for digits without a leading zero |
| Text.DecimalValuePositive | src/ingestion/crawler.py:40 | digits without a leading zero are the value of a positive number |
| Text.FourDigitBound | src/ingestion/crawler.py:38-40 | four digits are at most 9999 |
| Text.StemOf | src/ingestion/processor.py:58 | `splitext` gives a prefix of the name, and the rest is empty or a '.' extension with no further '.' or '/' |
| Text.StemOfWithExtension | src/ingestion/processor.py:58 | `splitext` of x + "." + ext is x when ext has no '.' or '/' and x has a character other than '.' |
| Text.BasenameOfJoin | src/ingestion/processor.py:57-60 | the basename of a directory joined with a name without '/' is that name |
| Text.PathJoinParts | src/ingestion/processor.py:60 | `os.path.join(a, b)` ends with b; a relative b follows a and exactly one separating '/' |
| Text.BasenameIsLastSegment | src/ingestion/processor.py:57 | `os.path.basename` is the suffix of the path after its last '/', or the whole path when it has none |
| Text.IndexOf | src/ingestion/crawler.py:34 | the first index of a character, or None when it is absent |
| Text.LastIndexOf | src/ingestion/processor.py:57 | the last index of a character, or -1 when it is absent |
| Text.LastIndexOfIs | src/ingestion/processor.py:57-58 | the last index of a character is the index holding it with none after it |
| Text.AfterLast | src/ingestion/processor.py:57 | the text after the last occurrence of a character is a suffix without it, preceded by it unless it is the whole text |
| Url.Netloc | src/ingestion/crawler.py:34 | the netloc holds none of '/', '?', '#' |
| Url.Path | src/ingestion/crawler.py:49 | the path holds neither '?' nor '#' |
| Url.PrefixBefore | src/ingestion/crawler.py:34 | the longest prefix without a stop character |
| Url.AfterScheme | src/ingestion/crawler.py:34 | what follows the scheme is a suffix of the URL |
| Url.ParsePlainUrl | src/ingestion/crawler.py:34-49 | for scheme://host/path, the model's urlparse gives host as netloc and /path as path |
| Url.SchemeRemoved | src/ingestion/crawler.py:34 | a valid scheme and its ':' are removed from the front of the URL |
| Url.AuthorityParts | src/ingestion/crawler.py:34-49 | after the scheme, the model's urlparse splits "//host/path" into that netloc and that path |
| Url.FirstIndexAt | src/ingestion/crawler.py:34 | the first ':' of a + ":" + b, when a has none, is at the end of a |
| Url.PrefixStops | src/ingestion/crawler.py:34 | the prefix before a stop character of a + b is a when a has none and b starts with one |

## Left out

- Fetching a page with Playwright, including the 3-second wait and closing the browser, is the `fetch` oracle. Any error raised inside it is caught in the crawl pass, so it is modelled as `None`.
- `extract_clean_text_from_html` (BeautifulSoup) is the `extract` oracle. Opening and parsing the artifact and looking up `"raw_html"` are the `load` oracle.
- The language model call is the `llm` oracle. The API key check and the client built at import time are not part of this model.
- `os.path.exists`, file reads and file writes are oracles. Existence is fixed for the length of one pass, so a file written during a pass does not change what later records see.
- `load_progress`, `save_progress` and `load_data_sources`: reading and writing JSON, and their failures, are not modelled. The store is the in-memory dictionary. A failing `save_progress` inside the crawl's try block is not modelled.
- The JSON layout and contents of artifact and text files are not modelled (indentation, `ensure_ascii`, encodings). A written file is its path and its text.
- `print` output is not modelled, and neither is `asyncio`.
- `src/main.py`, `src/ingestion/ingest.py`, the query router, the vector store and the helper scripts are not part of this model.
- Running the passes concurrently on the same progress file is not modelled. The passes run one at a time.
- Crawler.InferMetadata: `urlparse` is modelled for URLs of the form scheme://netloc/path?query#fragment only. Parameters after ';', the stripping of whitespace and control characters, and bracketed IPv6 hosts are not modelled.
- Crawler.InferMetadata: `\d` is modelled as the ASCII digits 0-9. Python also matches other Unicode decimal digits.
- Crawler.FilenameParts: `upper()` is modelled on ASCII letters only. Python also upper-cases other letters, some into several characters.
- Crawler.DocIdIsLastSegment: the "doc" default type in `generate_filename` is never used, because metadata always carries a type. The "index" fallback is never used, because `split` never returns an empty list. Both branches are therefore left out.
- Progress records model the six fields the passes use as booleans and optional strings. Other fields are opaque. A flag that is present but is not a boolean, or a path that is not a string, is not modelled beyond Python's truthiness of empty strings.
- A page entry or domain entry that is not a dictionary is not modelled. The model's only malformed entry is a page without `"url"`.
- Translator.TranslateDocument: the target language is fixed to "English", the only value any caller passes.
- Crawler.TryCrawl: the fetch and write outcomes are functions of the URL and the path. So within one pass, a URL listed twice whose first fetch failed fails again. The live site can answer a second request differently; the model does not cover that.
- Processor.DkPathOfArtifact: stated only for a configured type without '/'. A type holding '/' puts a '/' into the generated name, and the artifact is then written into a subdirectory. The Danish name is then built from the last segment alone, which the model computes but this lemma does not describe.
- Processor.ArtifactStem: stated only for a configured type without '/', for the same reason as Processor.DkPathOfArtifact.
- Text.UpperIsUpper: stated for ASCII letters only. Python's `upper()` also upper-cases other letters, such as 'æ' to 'Æ', and some into several characters.
- Url.ParsePlainUrl: the model's `urlparse` keeps a ';' in the path. Python splits `;params` off the last path segment for schemes such as http and https. It also removes tab, CR and LF from the URL and strips leading control characters and spaces. The lemma is about the model and holds for Python only for a host and path without those characters.
- Url.AuthorityParts: the same as for Url.ParsePlainUrl: ';' parameters and the removal of tab, CR and LF are not modelled.
