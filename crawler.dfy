/**
 * The crawl pass (src/ingestion/crawler.py): for every page URL listed in the
 * data-source configuration that is not yet marked crawled, infer metadata,
 * fetch the rendered HTML, write a structured artifact and mark the URL
 * crawled in the progress store.
 *
 * The browser fetch and the artifact write are oracles: `fetch` returns the
 * page's HTML or None, `writeOk` says whether writing a file at a path succeeds.
 */
module Crawler {
  import opened Wrappers
  import opened Text
  import Url
  import opened Progress

  const Jurisdiction := "DK"
  const StructuredDir := "data/crawled/structured/"

  /** The metadata of a structured artifact. */
  datatype Metadata = Metadata(jurisdiction: string, docType: string, source: string, year: Option<nat>)

  // ---------------------------------------------------------------------------
  // Metadata inference

  /** The pattern /lta/(\d{4})/ matches url at index i. */
  predicate LtaAt(url: string, i: nat) {
    i + 10 <= |url| && url[i..i + 5] == "/lta/" && AllDigits(url[i + 5..i + 9]) && url[i + 9] == '/'
  }

  /** re.search: the leftmost index from `from` on where the pattern matches. */
  function FirstLta(url: string, from: nat): (r: Option<nat>)
    ensures r.Some? ==> from <= r.value && LtaAt(url, r.value)
    ensures r.Some? ==> forall j :: from <= j < r.value ==> !LtaAt(url, j)
    ensures r.None? ==> forall j :: from <= j ==> !LtaAt(url, j)
    decreases |url| - from
  {
    if from + 10 > |url| then None
    else if LtaAt(url, from) then Some(from)
    else FirstLta(url, from + 1)
  }

  /** The four digits the leftmost match captures. */
  function LtaDigits(url: string, i: nat): (d: string)
    requires LtaAt(url, i)
    ensures |d| == 4 && AllDigits(d)
  {
    url[i + 5..i + 9]
  }

  /** The year a matching URL yields: int() of the captured digits. */
  function YearOf(url: string): (y: Option<nat>)
    ensures y.Some? ==> y.value <= 9999
  {
    if Contains(url, "retsinformation.dk") then
      match FirstLta(url, 0)
      case Some(i) => FourDigitBound(LtaDigits(url, i)); Some(DecimalValue(LtaDigits(url, i)))
      case None => None
    else None
  }

  /** infer_metadata_from_source: `docType` is the domain's "type" entry, if any. */
  function InferMetadata(url: string, docType: Option<string>): (m: Metadata)
    ensures m.jurisdiction == "DK"
    ensures m.docType == if docType.Some? then docType.value else "unknown"
    ensures m.source == Url.Netloc(url)
    ensures m.year.Some? <==> Contains(url, "retsinformation.dk") && exists i: nat :: LtaAt(url, i)
    ensures m.year.Some? ==> m.year.value <= 9999
  {
    Metadata(Jurisdiction, docType.GetOr("unknown"), Url.Netloc(url), YearOf(url))
  }

  /** The year is taken from the leftmost match, and it prints back as the four
      captured digits unless they start with 0. */
  lemma YearFromFirstMatch(url: string, i: nat)
    requires Contains(url, "retsinformation.dk")
    requires LtaAt(url, i) && forall j :: 0 <= j < i ==> !LtaAt(url, j)
    ensures YearOf(url) == Some(DecimalValue(url[i + 5..i + 9]))
    ensures url[i + 5] != '0' ==> DecimalString(YearOf(url).value) == url[i + 5..i + 9]
  {
    var f := FirstLta(url, 0);
    assert f == Some(i);
    if url[i + 5] != '0' {
      DecimalPrintsBack(LtaDigits(url, i));
    }
  }

  // ---------------------------------------------------------------------------
  // File naming

  /** The last component of the URL path once leading and trailing slashes are
      stripped; the source's fallback "index" is never taken because split()
      never returns an empty list. */
  function DocId(path: string): string {
    var parts := Split(StripSlashes(path), '/');
    parts[|parts| - 1]
  }

  /** The doc id is the text after the last '/' of the stripped path, so it
      holds no '/'. */
  lemma DocIdIsLastSegment(path: string)
    ensures DocId(path) == AfterLast(StripSlashes(path), '/')
    ensures '/' !in DocId(path)
  {
    SplitLastIsAfterLast(StripSlashes(path), '/');
  }

  /** A path made of slashes only (the root "/", or "") gives an empty doc id. */
  lemma DocIdOfRoot(path: string)
    requires forall k :: 0 <= k < |path| ==> path[k] == '/'
    ensures DocId(path) == ""
  {
    assert StripLeft(path, IsSlash) == [];
  }

  /** The year as written into the filename: str() of the int, or "YYYY". */
  function YearText(year: Option<nat>): (t: string)
    ensures year.Some? ==> AllDigits(t) && DecimalValue(t) == year.value
    ensures year.Some? ==> t != [] && (t[0] == '0' ==> year.value == 0)
    ensures year.None? ==> t == "YYYY"
  {
    match year
    case Some(y) => DecimalRoundTrip(y); DecimalString(y)
    case None => "YYYY"
  }

  /** generate_filename: DK-<TYPE>-<year or YYYY>-<doc id>.json. */
  function GenerateFilename(url: string, metadata: Metadata): string {
    "DK-" + Upper(metadata.docType) + "-" + YearText(metadata.year) + "-" + DocId(Url.Path(url)) + ".json"
  }

  /** The filename reads back as its parts: "DK-", the upper-cased type with no
      lower-case ASCII letter, then the year's digits (which parse back to the
      year) or "YYYY", then the URL path's last segment, which holds no '/', then
      ".json". */
  lemma FilenameParts(url: string, metadata: Metadata)
    ensures var name := GenerateFilename(url, metadata);
      var t := Upper(metadata.docType);
      var y := YearText(metadata.year);
      var d := AfterLast(StripSlashes(Url.Path(url)), '/');
      && name[..3] == "DK-"
      && name[3..3 + |t|] == t && |t| == |metadata.docType|
      && (forall k :: 0 <= k < |t| ==> !('a' <= t[k] <= 'z'))
      && name[3 + |t|] == '-'
      && name[4 + |t|..4 + |t| + |y|] == y
      && (metadata.year.Some? ==> AllDigits(y) && DecimalValue(y) == metadata.year.value)
      && (metadata.year.None? ==> y == "YYYY")
      && name[4 + |t| + |y|] == '-'
      && name[5 + |t| + |y|..] == d + ".json"
      && '/' !in d
  {
    DocIdIsLastSegment(Url.Path(url));
    UpperIsUpper(metadata.docType);
    NameLayout(Upper(metadata.docType), YearText(metadata.year), DocId(Url.Path(url)));
  }

  /** Where each part sits in a name laid out as DK-t-y-d.json. */
  lemma NameLayout(t: string, y: string, d: string)
    ensures var name := "DK-" + t + "-" + y + "-" + d + ".json";
      && name[..3] == "DK-"
      && name[3..3 + |t|] == t
      && name[3 + |t|] == '-'
      && name[4 + |t|..4 + |t| + |y|] == y
      && name[4 + |t| + |y|] == '-'
      && name[5 + |t| + |y|..] == d + ".json"
      && ('/' !in name <==> '/' !in t && '/' !in y && '/' !in d)
  {
    var name := "DK-" + t + "-" + y + "-" + d + ".json";
    assert name == "DK-" + (t + ("-" + (y + ("-" + (d + ".json")))));
  }

  /** The path of the structured artifact written for url. */
  function StructuredPathFor(url: string, metadata: Metadata): string {
    PathJoin(StructuredDir, GenerateFilename(url, metadata))
  }

  /** The structured artifact lies in the structured-content directory under the
      generated name; when the type holds no '/', that name is the path's
      basename. */
  lemma StructuredPathShape(url: string, metadata: Metadata)
    ensures StructuredPathFor(url, metadata) == StructuredDir + GenerateFilename(url, metadata)
    ensures '/' !in metadata.docType ==>
      Basename(StructuredPathFor(url, metadata)) == GenerateFilename(url, metadata)
  {
    var name := GenerateFilename(url, metadata);
    assert name[0] == 'D' by {
      NameLayout(Upper(metadata.docType), YearText(metadata.year), DocId(Url.Path(url)));
    }
    assert StructuredDir != [] && StructuredDir[|StructuredDir| - 1] == '/';
    if '/' !in metadata.docType {
      assert '/' !in name by {
        FilenameHasNoSlash(url, metadata);
      }
      BasenameOfJoin(StructuredDir, name);
    }
  }

  /** A type without '/' gives a filename without '/'. */
  lemma FilenameHasNoSlash(url: string, metadata: Metadata)
    requires '/' !in metadata.docType
    ensures '/' !in GenerateFilename(url, metadata)
  {
    var t := Upper(metadata.docType);
    var y := YearText(metadata.year);
    var d := DocId(Url.Path(url));
    NameLayout(t, y, d);
    DocIdIsLastSegment(Url.Path(url));
    assert '/' !in t;
    assert '/' !in y by {
      if metadata.year.None? {
        assert y == "YYYY";
      }
    }
  }

  /** A text without the letter 'r' does not contain "retsinformation.dk". */
  lemma NoDomainMatch(url: string)
    requires forall k :: 0 <= k < |url| ==> url[k] != 'r'
    ensures !Contains(url, "retsinformation.dk")
  {
    forall i: nat | i <= |url|
      ensures !OccursAt(url, "retsinformation.dk", i)
    {
      if i + 18 <= |url| {
        assert url[i..i + 18][0] == url[i];
      }
    }
  }

  /** The site root of a domain, with no type configured, gets the placeholder
      name with an empty doc id. */
  lemma RootFilename()
    ensures GenerateFilename("https://example.dk/", InferMetadata("https://example.dk/", None))
      == "DK-UNKNOWN-YYYY-.json"
  {
    var url := "https://example.dk/";
    var m := InferMetadata(url, None);
    RootParts(url);
    assert m.year == None;
    UpperUnknown();
    assert GenerateFilename(url, m) == "DK-" + "UNKNOWN" + "-" + "YYYY" + "-" + "" + ".json";
    RootNameSpelled();
  }

  // The facts about the literals below are proved one per lemma: each one
  // unfolds string literals character by character, and proved together in
  // RootFilename they exceed the solver's resource budget.

  lemma RootNameSpelled()
    ensures "DK-" + "UNKNOWN" + "-" + "YYYY" + "-" + "" + ".json" == "DK-UNKNOWN-YYYY-.json"
  {
  }

  lemma RootUrlHasNoR(url: string)
    requires url == "https://example.dk/"
    ensures forall k :: 0 <= k < |url| ==> url[k] != 'r'
  {
  }

  lemma RootParts(url: string)
    requires url == "https://example.dk/"
    ensures Url.Path(url) == "/" && DocId("/") == ""
    ensures !Contains(url, "retsinformation.dk")
  {
    assert Url.Path(url) == "/" by {
      RootUrlParses(url);
    }
    DocIdOfRoot("/");
    RootUrlHasNoR(url);
    NoDomainMatch(url);
  }

  lemma RootUrlParses(url: string)
    requires url == "https://example.dk/"
    ensures Url.Path(url) == "/"
  {
    RootUrlPieces();
    assert url == "https" + "://" + "example.dk" + "/";
    Url.ParsePlainUrl("https", "example.dk", "/");
  }

  lemma RootUrlPieces()
    ensures IsAsciiLetter("https"[0])
    ensures forall k :: 0 <= k < |"https"| ==> Url.IsSchemeChar("https"[k])
    ensures forall k :: 0 <= k < |"example.dk"| ==> !Url.EndsNetloc("example.dk"[k])
    ensures forall k :: 0 <= k < |"/"| ==> !Url.EndsPath("/"[k])
  {
  }

  lemma UpperUnknown()
    ensures Upper("unknown") == "UNKNOWN"
  {
  }

  // ---------------------------------------------------------------------------
  // The pass

  /** A page entry of the configuration; `url` is None when the entry has no
      "url" key. */
  datatype PageEntry = PageEntry(url: Option<string>)

  /** One domain of the configuration: its "type" and its "pages", each optional. */
  datatype DataSource = DataSource(domain: string, docType: Option<string>, pages: Option<seq<PageEntry>>)

  /** The pages to visit, in configuration order, each with its domain's type. */
  datatype Job = Job(url: Option<string>, docType: Option<string>)

  function PageJobs(pages: seq<PageEntry>, docType: Option<string>): (jobs: seq<Job>)
    ensures |jobs| == |pages|
    ensures forall k :: 0 <= k < |pages| ==> jobs[k] == Job(pages[k].url, docType)
  {
    seq(|pages|, k requires 0 <= k < |pages| => Job(pages[k].url, docType))
  }

  function DomainJobs(source: DataSource): seq<Job> {
    if source.pages.Some? then PageJobs(source.pages.value, source.docType) else []
  }

  function Jobs(sources: seq<DataSource>): seq<Job>
    decreases |sources|
  {
    if sources == [] then []
    else Jobs(sources[..|sources| - 1]) + DomainJobs(sources[|sources| - 1])
  }

  /** The structured artifact: {source_url, metadata, raw_html} written at path. */
  datatype Artifact = Artifact(path: string, sourceUrl: string, metadata: Metadata, rawHtml: string)

  /** A fetch made for url, with the artifact saved when it succeeded. */
  datatype Attempt = Attempt(url: string, saved: Option<Artifact>)

  /** The oracles of a crawl. */
  datatype Fetching = Fetching(fetch: string -> Option<string>, writeOk: string -> bool)

  /** Fetching url and saving its artifact: None when the fetch gives None or
      empty HTML, or when the write fails. */
  function TryCrawl(env: Fetching, url: string, docType: Option<string>): (a: Option<Artifact>)
    ensures a.Some? <==> (env.fetch(url).Some? && env.fetch(url).value != []
                          && env.writeOk(StructuredPathFor(url, InferMetadata(url, docType))))
    ensures a.Some? ==> a.value == Artifact(StructuredPathFor(url, InferMetadata(url, docType)), url,
      InferMetadata(url, docType), env.fetch(url).value)
  {
    var metadata := InferMetadata(url, docType);
    match env.fetch(url)
    case None => None
    case Some(html) =>
      if html == [] then None
      else
        var path := StructuredPathFor(url, metadata);
        if env.writeOk(path) then Some(Artifact(path, url, metadata, html)) else None
  }

  /** The progress update after a successful crawl: the record is created if
      absent, and its crawled flag and structured path are set. */
  function MarkCrawled(p: Progress, url: string, path: string): (q: Progress)
    ensures q.records.Keys == p.records.Keys + {url}
    ensures q.records[url].crawled && q.records[url].structuredPath == Some(path)
    ensures url in p.records ==> (q.order == p.order
                                  && q.records[url] == p.records[url].(crawled := true, structuredPath := Some(path)))
    ensures url !in p.records ==> (q.order == p.order + [url]
                                   && q.records[url] == NewRecord.(crawled := true, structuredPath := Some(path)))
    ensures forall k :: k in p.records && k != url ==> q.records[k] == p.records[k]
  {
    var current := if url in p.records then p.records[url] else NewRecord;
    var order := if url in p.records then p.order else p.order + [url];
    Progress(p.records[url := current.(crawled := true, structuredPath := Some(path))], order)
  }

  /** The progress update in place: an empty record is inserted for a new URL,
      then its crawled flag and structured path are set. */
  method RecordCrawled(store: ProgressStore, url: string, filepath: string)
    requires store.Valid()
    modifies store
    ensures store.Valid()
    ensures store.State() == MarkCrawled(old(store.State()), url, filepath)
  {
    ghost var before := store.State();
    if url !in store.records {
      store.records := store.records[url := NewRecord];
      store.order := store.order + [url];
    }
    store.records := store.records[url := store.records[url].(crawled := true, structuredPath := Some(filepath))];
    assert store.State() == MarkCrawled(before, url, filepath);
    MarkCrawledValid(before, url, filepath);
  }

  /** Marking a URL crawled keeps every key listed exactly once in the order. */
  lemma MarkCrawledValid(p: Progress, url: string, path: string)
    requires ValidProgress(p)
    ensures ValidProgress(MarkCrawled(p, url, path))
  {
    var q := MarkCrawled(p, url, path);
    if url !in p.records {
      assert url !in p.order;
      assert q.order == p.order + [url];
    }
  }

  /** The state of a crawl in progress: the store, the fetches made, and whether
      an exception ended the pass. */
  datatype CrawlState = CrawlState(progress: Progress, attempts: seq<Attempt>, aborted: bool)

  /** One page visit. A page entry without "url" raises KeyError outside the
      try block, which ends the whole pass. */
  function CrawlJob(env: Fetching, s: CrawlState, job: Job): CrawlState {
    if s.aborted then s
    else match job.url
      case None => s.(aborted := true)
      case Some(u) =>
        if Crawled(s.progress.records, u) then s
        else
          var a := TryCrawl(env, u, job.docType);
          var progress := if a.Some? then MarkCrawled(s.progress, u, a.value.path) else s.progress;
          CrawlState(progress, s.attempts + [Attempt(u, a)], false)
  }

  function CrawlJobs(env: Fetching, s: CrawlState, jobs: seq<Job>): CrawlState
    decreases |jobs|
  {
    if jobs == [] then s else CrawlJob(env, CrawlJobs(env, s, jobs[..|jobs| - 1]), jobs[|jobs| - 1])
  }

  /** crawl_and_structure_urls as a function of the store it starts from. */
  function CrawlPass(env: Fetching, p: Progress, sources: seq<DataSource>): CrawlState {
    CrawlJobs(env, CrawlState(p, [], false), Jobs(sources))
  }

  /** crawl_and_structure_urls on the progress dictionary it mutates; the loop
      over domains is here, the loop over one domain's pages in CrawlPages. */
  method CrawlAndStructureUrls(store: ProgressStore, sources: seq<DataSource>, env: Fetching)
    returns (attempts: seq<Attempt>, aborted: bool)
    requires store.Valid()
    modifies store
    ensures store.Valid()
    ensures CrawlPass(env, old(store.State()), sources) == CrawlState(store.State(), attempts, aborted)
  {
    ghost var start := CrawlState(store.State(), [], false);
    attempts, aborted := [], false;
    var i := 0;
    while i < |sources|
      invariant 0 <= i <= |sources|
      invariant store.Valid()
      invariant CrawlJobs(env, start, Jobs(sources[..i])) == CrawlState(store.State(), attempts, false)
    {
      CrawlDomainStep(env, start, sources, i);
      attempts, aborted := CrawlDomain(store, sources[i], env, attempts);
      if aborted {
        CrawlJobsAborted(env, start, sources, i + 1);
        return;
      }
      i := i + 1;
    }
    assert sources[..i] == sources;
  }

  /** One domain of the configuration: its pages, if it lists any. */
  method CrawlDomain(store: ProgressStore, details: DataSource, env: Fetching, attemptsIn: seq<Attempt>)
    returns (attempts: seq<Attempt>, aborted: bool)
    requires store.Valid()
    modifies store
    ensures store.Valid()
    ensures CrawlJobs(env, CrawlState(old(store.State()), attemptsIn, false), DomainJobs(details))
      == CrawlState(store.State(), attempts, aborted)
  {
    attempts, aborted := attemptsIn, false;
    if details.pages.Some? {
      attempts, aborted := CrawlPages(store, details.pages.value, details.docType, env, attempts);
    }
  }

  /** The loop over one domain's pages, from the crawl state reached so far. A
      page entry without "url" raises KeyError outside the try block, which ends
      the whole pass. */
  method CrawlPages(store: ProgressStore, pages: seq<PageEntry>, docType: Option<string>, env: Fetching,
                    attemptsIn: seq<Attempt>)
    returns (attempts: seq<Attempt>, aborted: bool)
    requires store.Valid()
    modifies store
    ensures store.Valid()
    ensures CrawlJobs(env, CrawlState(old(store.State()), attemptsIn, false), PageJobs(pages, docType))
      == CrawlState(store.State(), attempts, aborted)
  {
    ghost var start := CrawlState(store.State(), attemptsIn, false);
    attempts, aborted := attemptsIn, false;
    var j := 0;
    while j < |pages|
      invariant 0 <= j <= |pages|
      invariant store.Valid()
      invariant CrawlJobs(env, start, PageJobs(pages[..j], docType)) == CrawlState(store.State(), attempts, false)
    {
      PageJobsLast(pages, docType, j);
      CrawlJobsStep(env, start, PageJobs(pages[..j], docType), Job(pages[j].url, docType));
      if pages[j].url.None? {
        aborted := true;
        CrawlPagesStop(env, start, pages, docType, j);
        return;
      }
      attempts := CrawlEntry(store, pages[j].url.value, docType, env, attempts);
      j := j + 1;
    }
    assert pages[..j] == pages;
  }

  /** One page entry with a "url": skipped when already crawled, otherwise
      fetched and logged. */
  method CrawlEntry(store: ProgressStore, url: string, docType: Option<string>, env: Fetching,
                    attemptsIn: seq<Attempt>)
    returns (attempts: seq<Attempt>)
    requires store.Valid()
    modifies store
    ensures store.Valid()
    ensures CrawlJob(env, CrawlState(old(store.State()), attemptsIn, false), Job(Some(url), docType))
      == CrawlState(store.State(), attempts, false)
  {
    attempts := attemptsIn;
    if !(url in store.records && store.records[url].crawled) {
      var attempt := CrawlPage(store, url, docType, env);
      attempts := attempts + [attempt];
    }
  }

  /** The last-page unfolding of PageJobs. */
  lemma PageJobsLast(pages: seq<PageEntry>, docType: Option<string>, j: nat)
    requires j < |pages|
    ensures PageJobs(pages[..j + 1], docType) == PageJobs(pages[..j], docType) + [Job(pages[j].url, docType)]
  {
  }

  /** A page that ends the pass at index j ends the whole page loop there. */
  lemma CrawlPagesStop(env: Fetching, start: CrawlState, pages: seq<PageEntry>, docType: Option<string>, j: nat)
    requires j < |pages|
    requires CrawlJobs(env, start, PageJobs(pages[..j + 1], docType)).aborted
    ensures CrawlJobs(env, start, PageJobs(pages, docType)) == CrawlJobs(env, start, PageJobs(pages[..j + 1], docType))
  {
    var stopped := CrawlJobs(env, start, PageJobs(pages[..j + 1], docType));
    assert pages[..j + 1] + pages[j + 1..] == pages;
    PageJobsSplit(pages, docType, j + 1);
    CrawlJobsAppend(env, start, PageJobs(pages[..j + 1], docType), PageJobs(pages[j + 1..], docType));
    CrawlJobsStayAborted(env, stopped, PageJobs(pages[j + 1..], docType));
  }

  /** The body of the page loop for a URL not yet crawled: fetch, save the
      artifact, and on success record the URL as crawled. */
  method CrawlPage(store: ProgressStore, url: string, docType: Option<string>, env: Fetching)
    returns (attempt: Attempt)
    requires store.Valid()
    modifies store
    ensures store.Valid()
    ensures attempt == Attempt(url, TryCrawl(env, url, docType))
    ensures store.State() ==
      if attempt.saved.Some? then MarkCrawled(old(store.State()), url, attempt.saved.value.path) else old(store.State())
  {
    var metadata := InferMetadata(url, docType);
    var html := env.fetch(url);
    var saved: Option<Artifact> := None;
    if html.Some? && html.value != [] {
      var filepath := PathJoin(StructuredDir, GenerateFilename(url, metadata));
      if env.writeOk(filepath) {
        saved := Some(Artifact(filepath, url, metadata, html.value));
        RecordCrawled(store, url, filepath);
      }
    }
    assert saved == TryCrawl(env, url, docType);
    attempt := Attempt(url, saved);
  }

  /** The last-job unfolding of CrawlJobs. */
  lemma CrawlJobsStep(env: Fetching, s: CrawlState, done: seq<Job>, job: Job)
    ensures CrawlJobs(env, s, done + [job]) == CrawlJob(env, CrawlJobs(env, s, done), job)
  {
    assert (done + [job])[..|done + [job]| - 1] == done;
  }

  /** Once aborted, later jobs change nothing. */
  lemma {:induction false} CrawlJobsStayAborted(env: Fetching, s: CrawlState, jobs: seq<Job>)
    requires s.aborted
    ensures CrawlJobs(env, s, jobs) == s
    decreases |jobs|
  {
    if jobs != [] {
      CrawlJobsStayAborted(env, s, jobs[..|jobs| - 1]);
    }
  }

  /** Running a + b is running a, then b from where a ended. */
  lemma {:induction false} CrawlJobsAppend(env: Fetching, s: CrawlState, a: seq<Job>, b: seq<Job>)
    ensures CrawlJobs(env, s, a + b) == CrawlJobs(env, CrawlJobs(env, s, a), b)
    decreases |b|
  {
    if b == [] {
      assert a + b == a;
    } else {
      var b' := b[..|b| - 1];
      assert (a + b)[..|a + b| - 1] == a + b';
      CrawlJobsAppend(env, s, a, b');
    }
  }

  lemma {:induction false} JobsAppend(a: seq<DataSource>, b: seq<DataSource>)
    ensures Jobs(a + b) == Jobs(a) + Jobs(b)
    decreases |b|
  {
    if b == [] {
      assert a + b == a;
    } else {
      var b' := b[..|b| - 1];
      var last := b[|b| - 1];
      assert (a + b)[..|a + b| - 1] == a + b' && (a + b)[|a + b| - 1] == last;
      JobsAppend(a, b');
      calc {
        Jobs(a + b);
        Jobs(a + b') + DomainJobs(last);
        Jobs(a) + Jobs(b') + DomainJobs(last);
        Jobs(a) + (Jobs(b') + DomainJobs(last));
        Jobs(a) + Jobs(b);
      }
    }
  }

  /** Crawling the first i + 1 domains is crawling the first i, then the
      pages of domain i. */
  lemma CrawlDomainStep(env: Fetching, start: CrawlState, sources: seq<DataSource>, i: nat)
    requires i < |sources|
    ensures CrawlJobs(env, start, Jobs(sources[..i + 1]))
      == CrawlJobs(env, CrawlJobs(env, start, Jobs(sources[..i])), DomainJobs(sources[i]))
  {
    assert sources[..i + 1][..i] == sources[..i];
    JobsLast(sources[..i + 1]);
    CrawlJobsAppend(env, start, Jobs(sources[..i]), DomainJobs(sources[i]));
  }

  /** The last-domain unfolding of Jobs. */
  lemma JobsLast(sources: seq<DataSource>)
    requires sources != []
    ensures Jobs(sources) == Jobs(sources[..|sources| - 1]) + DomainJobs(sources[|sources| - 1])
  {
  }

  /** A pass that has aborted after the first n domains ends there. */
  lemma CrawlJobsAborted(env: Fetching, start: CrawlState, sources: seq<DataSource>, n: nat)
    requires n <= |sources|
    requires CrawlJobs(env, start, Jobs(sources[..n])).aborted
    ensures CrawlJobs(env, start, Jobs(sources)) == CrawlJobs(env, start, Jobs(sources[..n]))
  {
    assert sources[..n] + sources[n..] == sources;
    JobsAppend(sources[..n], sources[n..]);
    CrawlJobsAppend(env, start, Jobs(sources[..n]), Jobs(sources[n..]));
    CrawlJobsStayAborted(env, CrawlJobs(env, start, Jobs(sources[..n])), Jobs(sources[n..]));
  }

  lemma PageJobsSplit(pages: seq<PageEntry>, t: Option<string>, n: nat)
    requires n <= |pages|
    ensures PageJobs(pages, t) == PageJobs(pages[..n], t) + PageJobs(pages[n..], t)
  {
  }

  // ---------------------------------------------------------------------------
  // Properties of the pass

  /** The only ways a crawl may leave the record of key k, starting from
      `before`: untouched; or, if not yet crawled, marked crawled with a
      structured path and otherwise the same; or, for a new key, a fresh record
      marked that way. */
  predicate CrawlChange(before: map<string, Record>, k: string, r: Record) {
    if k in before then
      r == before[k]
      || (!before[k].crawled && r.structuredPath.Some?
          && r == before[k].(crawled := true, structuredPath := r.structuredPath))
    else
      r.structuredPath.Some? && r == NewRecord.(crawled := true, structuredPath := r.structuredPath)
  }

  /** Keys are never removed and the key order is only extended. */
  lemma {:induction false} CrawlJobsKeys(env: Fetching, s: CrawlState, jobs: seq<Job>)
    ensures s.progress.records.Keys <= CrawlJobs(env, s, jobs).progress.records.Keys
    ensures s.progress.order <= CrawlJobs(env, s, jobs).progress.order
    decreases |jobs|
  {
    if jobs != [] {
      CrawlJobsKeys(env, s, jobs[..|jobs| - 1]);
    }
  }

  /** Every key stays listed exactly once in the order. */
  lemma {:induction false} CrawlJobsValid(env: Fetching, s: CrawlState, jobs: seq<Job>)
    requires ValidProgress(s.progress)
    ensures ValidProgress(CrawlJobs(env, s, jobs).progress)
    decreases |jobs|
  {
    if jobs != [] {
      var mid := CrawlJobs(env, s, jobs[..|jobs| - 1]);
      CrawlJobsValid(env, s, jobs[..|jobs| - 1]);
      var job := jobs[|jobs| - 1];
      if !mid.aborted && job.url.Some? && !Crawled(mid.progress.records, job.url.value) {
        var a := TryCrawl(env, job.url.value, job.docType);
        if a.Some? {
          MarkCrawledValid(mid.progress, job.url.value, a.value.path);
        }
      }
    }
  }

  /** One page visit either leaves the store as it was, or fetches a URL not
      yet crawled, logs the attempt, and marks the URL crawled when the
      artifact was saved. */
  lemma CrawlJobCases(env: Fetching, s: CrawlState, job: Job)
    ensures var next := CrawlJob(env, s, job);
      || (next.progress == s.progress && next.attempts == s.attempts)
      || (&& !s.aborted && job.url.Some? && !Crawled(s.progress.records, job.url.value)
          && var a := TryCrawl(env, job.url.value, job.docType);
          && next.attempts == s.attempts + [Attempt(job.url.value, a)]
          && next.progress == (if a.Some? then MarkCrawled(s.progress, job.url.value, a.value.path) else s.progress))
  {
  }

  /** Every record at the end of a crawl is one CrawlChange allows. */
  lemma {:induction false} CrawlJobsChanges(env: Fetching, s: CrawlState, jobs: seq<Job>, k: string)
    requires k in CrawlJobs(env, s, jobs).progress.records
    ensures CrawlChange(s.progress.records, k, CrawlJobs(env, s, jobs).progress.records[k])
    decreases |jobs|
  {
    if jobs != [] {
      var front := jobs[..|jobs| - 1];
      var mid := CrawlJobs(env, s, front);
      var job := jobs[|jobs| - 1];
      var next := CrawlJob(env, mid, job);
      assert CrawlJobs(env, s, jobs) == next;
      CrawlJobsKeys(env, s, front);
      CrawlJobCases(env, mid, job);
      if next.progress == mid.progress {
        CrawlJobsChanges(env, s, front, k);
      } else {
        var u := job.url.value;
        var a := TryCrawl(env, u, job.docType);
        assert a.Some? && next.progress == MarkCrawled(mid.progress, u, a.value.path);
        if k != u {
          assert next.progress.records[k] == mid.progress.records[k];
          CrawlJobsChanges(env, s, front, k);
        } else if k in mid.progress.records {
          CrawlJobsChanges(env, s, front, k);
          assert mid.progress.records[k] == s.progress.records[k];
        } else {
          assert k !in s.progress.records;
        }
      }
    }
  }

  /** The crawl clears no flag, removes no record, leaves crawled records as
      they were, and keeps translated ==> processed ==> crawled. */
  lemma CrawlJobsGrow(env: Fetching, s: CrawlState, jobs: seq<Job>)
    ensures Grows(s.progress.records, CrawlJobs(env, s, jobs).progress.records)
    ensures AllChained(s.progress.records) ==> AllChained(CrawlJobs(env, s, jobs).progress.records)
    ensures forall k :: Crawled(s.progress.records, k) ==>
      CrawlJobs(env, s, jobs).progress.records[k] == s.progress.records[k]
  {
    var after := CrawlJobs(env, s, jobs).progress.records;
    CrawlJobsKeys(env, s, jobs);
    forall k | k in after
      ensures CrawlChange(s.progress.records, k, after[k])
    {
      CrawlJobsChanges(env, s, jobs, k);
    }
  }

  /** Some listed page has no "url". */
  predicate HasNoUrl(jobs: seq<Job>) {
    exists k :: 0 <= k < |jobs| && jobs[k].url.None?
  }

  lemma HasNoUrlLast(jobs: seq<Job>)
    requires jobs != []
    ensures HasNoUrl(jobs) <==> HasNoUrl(jobs[..|jobs| - 1]) || jobs[|jobs| - 1].url.None?
  {
    var front := jobs[..|jobs| - 1];
    if HasNoUrl(front) {
      var k :| 0 <= k < |front| && front[k].url.None?;
      assert jobs[k].url.None?;
    }
    if HasNoUrl(jobs) {
      var k :| 0 <= k < |jobs| && jobs[k].url.None?;
      if k < |front| {
        assert front[k].url.None?;
      }
    }
  }

  /** The pass aborts exactly when some listed page has no "url". */
  lemma {:induction false} CrawlJobsAbortIff(env: Fetching, s: CrawlState, jobs: seq<Job>)
    ensures CrawlJobs(env, s, jobs).aborted <==> s.aborted || HasNoUrl(jobs)
    decreases |jobs|
  {
    if jobs != [] {
      var front := jobs[..|jobs| - 1];
      var job := jobs[|jobs| - 1];
      CrawlJobsAbortIff(env, s, front);
      HasNoUrlLast(jobs);
      assert CrawlJobs(env, s, jobs).aborted == (CrawlJobs(env, s, front).aborted || job.url.None?);
    }
  }

  /** What the fetch log says about the pass: every URL fetched was not crawled
      when the pass began; a URL is fetched again only after failed fetches;
      and a saved artifact's URL ends crawled with the artifact's path. */
  ghost predicate AttemptsFit(before: map<string, Record>, s: CrawlState) {
    && (forall i :: 0 <= i < |s.attempts| ==> !Crawled(before, s.attempts[i].url))
    && (forall i, j :: 0 <= i < j < |s.attempts| && s.attempts[i].url == s.attempts[j].url ==>
          s.attempts[i].saved.None?)
    && (forall i :: 0 <= i < |s.attempts| && s.attempts[i].saved.Some? ==>
          Crawled(s.progress.records, s.attempts[i].url)
          && s.progress.records[s.attempts[i].url].structuredPath == Some(s.attempts[i].saved.value.path))
  }

  /** One page visit keeps AttemptsFit, given that the records crawled when
      the pass began are still crawled. */
  lemma CrawlJobAttempts(env: Fetching, before: map<string, Record>, mid: CrawlState, job: Job)
    requires AttemptsFit(before, mid)
    requires forall k :: Crawled(before, k) ==> Crawled(mid.progress.records, k)
    ensures AttemptsFit(before, CrawlJob(env, mid, job))
  {
    var next := CrawlJob(env, mid, job);
    CrawlJobCases(env, mid, job);
    if next.progress != mid.progress || next.attempts != mid.attempts {
      var u := job.url.value;
      var a := TryCrawl(env, u, job.docType);
      AttemptLogged(before, mid, next, u, a);
    }
  }

  /** Logging a fetch of a URL not yet crawled, and marking it crawled when its
      artifact was saved, keeps AttemptsFit. */
  lemma AttemptLogged(before: map<string, Record>, mid: CrawlState, next: CrawlState, u: string, a: Option<Artifact>)
    requires AttemptsFit(before, mid)
    requires forall k :: Crawled(before, k) ==> Crawled(mid.progress.records, k)
    requires !Crawled(mid.progress.records, u)
    requires next.attempts == mid.attempts + [Attempt(u, a)]
    requires next.progress == if a.Some? then MarkCrawled(mid.progress, u, a.value.path) else mid.progress
    ensures AttemptsFit(before, next)
  {
    var n := |mid.attempts|;
    assert next.attempts[n] == Attempt(u, a);
    assert forall i :: 0 <= i < n ==> next.attempts[i] == mid.attempts[i];
    assert forall i :: 0 <= i < |next.attempts| ==> !Crawled(before, next.attempts[i].url) by {
      assert !Crawled(before, u);
    }
    assert forall i :: 0 <= i < n && mid.attempts[i].saved.Some? ==> mid.attempts[i].url != u;
    forall i | 0 <= i < n && next.attempts[i].saved.Some?
      ensures Crawled(next.progress.records, next.attempts[i].url)
      ensures next.progress.records[next.attempts[i].url].structuredPath == Some(next.attempts[i].saved.value.path)
    {
    }
  }

  lemma {:induction false} CrawlJobsAttempts(env: Fetching, s: CrawlState, jobs: seq<Job>)
    requires s.attempts == []
    ensures AttemptsFit(s.progress.records, CrawlJobs(env, s, jobs))
    decreases |jobs|
  {
    if jobs != [] {
      var front := jobs[..|jobs| - 1];
      CrawlJobsAttempts(env, s, front);
      CrawlJobsGrow(env, s, front);
      CrawlJobAttempts(env, s.progress.records, CrawlJobs(env, s, front), jobs[|jobs| - 1]);
    }
  }

  /** A URL that was not crawled when the pass began and is crawled at its end
      has a logged fetch whose saved artifact's path is its structured path. */
  lemma {:induction false} CrawlJobsSaved(env: Fetching, s: CrawlState, jobs: seq<Job>, u: string)
    requires !Crawled(s.progress.records, u)
    requires Crawled(CrawlJobs(env, s, jobs).progress.records, u)
    ensures var t := CrawlJobs(env, s, jobs);
      exists a :: a in t.attempts && a.url == u && a.saved.Some?
        && t.progress.records[u].structuredPath == Some(a.saved.value.path)
    decreases |jobs|
  {
    var front := jobs[..|jobs| - 1];
    var mid := CrawlJobs(env, s, front);
    var job := jobs[|jobs| - 1];
    var next := CrawlJob(env, mid, job);
    assert CrawlJobs(env, s, jobs) == next;
    CrawlJobCases(env, mid, job);
    if Crawled(mid.progress.records, u) {
      CrawlJobsSaved(env, s, front, u);
      var a :| a in mid.attempts && a.url == u && a.saved.Some?
        && mid.progress.records[u].structuredPath == Some(a.saved.value.path);
      assert next.progress.records[u] == mid.progress.records[u];
      assert a in next.attempts;
    } else {
      var a := TryCrawl(env, u, job.docType);
      assert next.attempts[|mid.attempts|] == Attempt(u, a);
    }
  }

  /** The fetch log only grows. */
  lemma {:induction false} CrawlJobsAttemptsPrefix(env: Fetching, s: CrawlState, jobs: seq<Job>)
    ensures s.attempts <= CrawlJobs(env, s, jobs).attempts
    decreases |jobs|
  {
    if jobs != [] {
      var front := jobs[..|jobs| - 1];
      CrawlJobsAttemptsPrefix(env, s, front);
      CrawlJobCases(env, CrawlJobs(env, s, front), jobs[|jobs| - 1]);
    }
  }

  /** Every fetch the pass logs is for a listed page, and what it saved is
      TryCrawl's outcome for that page's URL and its domain's type. */
  lemma {:induction false} CrawlJobsLogged(env: Fetching, s: CrawlState, jobs: seq<Job>, i: nat)
    requires |s.attempts| <= i < |CrawlJobs(env, s, jobs).attempts|
    ensures var a := CrawlJobs(env, s, jobs).attempts[i];
      exists t :: Job(Some(a.url), t) in jobs && a.saved == TryCrawl(env, a.url, t)
    decreases |jobs|
  {
    assert jobs != [];
    var front := jobs[..|jobs| - 1];
    var mid := CrawlJobs(env, s, front);
    var job := jobs[|jobs| - 1];
    var next := CrawlJob(env, mid, job);
    assert CrawlJobs(env, s, jobs) == next;
    CrawlJobCases(env, mid, job);
    CrawlJobsAttemptsPrefix(env, s, front);
    if i < |mid.attempts| {
      assert next.attempts[i] == mid.attempts[i];
      CrawlJobsLogged(env, s, front, i);
      var a := mid.attempts[i];
      var t :| Job(Some(a.url), t) in front && a.saved == TryCrawl(env, a.url, t);
      assert Job(Some(a.url), t) in jobs by {
        var k :| 0 <= k < |front| && front[k] == Job(Some(a.url), t);
        assert jobs[k] == front[k];
      }
    } else {
      var u := job.url.value;
      assert next.attempts[i] == Attempt(u, TryCrawl(env, u, job.docType));
      assert job == Job(Some(u), job.docType);
      assert job in jobs;
    }
  }

  /** A URL the pass crawled, which was not crawled before it, is recorded
      with the generated path of that URL under the type of a listed page. */
  lemma CrawlPassPaths(env: Fetching, p: Progress, sources: seq<DataSource>, u: string)
    requires !Crawled(p.records, u)
    requires Crawled(CrawlPass(env, p, sources).progress.records, u)
    ensures exists t ::
      && Job(Some(u), t) in Jobs(sources)
      && CrawlPass(env, p, sources).progress.records[u].structuredPath == Some(StructuredPathFor(u, InferMetadata(u, t)))
  {
    var s := CrawlState(p, [], false);
    var r := CrawlPass(env, p, sources);
    CrawlJobsSaved(env, s, Jobs(sources), u);
    var a :| a in r.attempts && a.url == u && a.saved.Some?
      && r.progress.records[u].structuredPath == Some(a.saved.value.path);
    var i :| 0 <= i < |r.attempts| && r.attempts[i] == a;
    CrawlJobsLogged(env, s, Jobs(sources), i);
    var t :| Job(Some(u), t) in Jobs(sources) && a.saved == TryCrawl(env, u, t);
    assert a.saved.value.path == StructuredPathFor(u, InferMetadata(u, t));
  }

  /** A listed URL was crawled by the end of the pass or has a failed fetch. */
  ghost predicate Handled(s: CrawlState, u: string) {
    Crawled(s.progress.records, u) || Attempt(u, None) in s.attempts
  }

  lemma HandledKept(env: Fetching, s: CrawlState, job: Job, u: string)
    requires Handled(s, u)
    ensures Handled(CrawlJob(env, s, job), u)
  {
    var next := CrawlJob(env, s, job);
    if Attempt(u, None) in s.attempts {
      assert next.attempts[..|s.attempts|] == s.attempts;
    }
  }

  /** Unless the pass aborts, every listed URL ends crawled or with a failed fetch. */
  lemma {:induction false} CrawlJobsHandled(env: Fetching, s: CrawlState, jobs: seq<Job>, k: nat)
    requires !CrawlJobs(env, s, jobs).aborted
    requires k < |jobs| && jobs[k].url.Some?
    ensures Handled(CrawlJobs(env, s, jobs), jobs[k].url.value)
    decreases |jobs|
  {
    var front := jobs[..|jobs| - 1];
    var mid := CrawlJobs(env, s, front);
    var job := jobs[|jobs| - 1];
    var next := CrawlJob(env, mid, job);
    assert CrawlJobs(env, s, jobs) == next;
    assert !mid.aborted;
    if k < |front| {
      assert front[k] == jobs[k];
      CrawlJobsHandled(env, s, front, k);
      HandledKept(env, mid, job, jobs[k].url.value);
    } else {
      var u := job.url.value;
      if !Crawled(mid.progress.records, u) {
        var a := TryCrawl(env, u, job.docType);
        assert next.attempts == mid.attempts + [Attempt(u, a)];
        if a.None? {
          assert next.attempts[|mid.attempts|] == Attempt(u, None);
        }
      }
    }
  }

  /** A pass over pages that are all already crawled fetches nothing and
      changes nothing. */
  lemma {:induction false} CrawlJobsQuiet(env: Fetching, s: CrawlState, jobs: seq<Job>)
    requires !s.aborted
    requires forall k :: 0 <= k < |jobs| ==> jobs[k].url.Some? && Crawled(s.progress.records, jobs[k].url.value)
    ensures CrawlJobs(env, s, jobs) == s
    decreases |jobs|
  {
    if jobs != [] {
      var front := jobs[..|jobs| - 1];
      assert forall k :: 0 <= k < |front| ==> front[k] == jobs[k];
      CrawlJobsQuiet(env, s, front);
    }
  }

  /** The crawl pass from a valid store keeps it valid, only extends the key
      order, and clears no flag; crawled records are untouched. */
  lemma CrawlPassKeeps(env: Fetching, p: Progress, sources: seq<DataSource>)
    requires ValidProgress(p)
    ensures var q := CrawlPass(env, p, sources).progress;
      && ValidProgress(q)
      && p.order <= q.order
      && Grows(p.records, q.records)
      && (AllChained(p.records) ==> AllChained(q.records))
      && forall k :: Crawled(p.records, k) ==> q.records[k] == p.records[k]
  {
    var s := CrawlState(p, [], false);
    CrawlJobsValid(env, s, Jobs(sources));
    CrawlJobsKeys(env, s, Jobs(sources));
    CrawlJobsGrow(env, s, Jobs(sources));
  }

  /** After a pass that did not abort and in which no fetch failed, running the
      pass again, whatever the fetches then return, fetches nothing and
      changes nothing. */
  lemma CrawlPassRerun(env: Fetching, env2: Fetching, p: Progress, sources: seq<DataSource>)
    requires !CrawlPass(env, p, sources).aborted
    requires forall i :: 0 <= i < |CrawlPass(env, p, sources).attempts| ==>
      CrawlPass(env, p, sources).attempts[i].saved.Some?
    ensures var q := CrawlPass(env, p, sources).progress;
      CrawlPass(env2, q, sources) == CrawlState(q, [], false)
  {
    var first := CrawlPass(env, p, sources);
    var jobs := Jobs(sources);
    CrawlJobsAbortIff(env, CrawlState(p, [], false), jobs);
    forall k | 0 <= k < |jobs|
      ensures jobs[k].url.Some? && Crawled(first.progress.records, jobs[k].url.value)
    {
      CrawlJobsHandled(env, CrawlState(p, [], false), jobs, k);
      assert Attempt(jobs[k].url.value, None) !in first.attempts;
    }
    CrawlJobsQuiet(env2, CrawlState(first.progress, [], false), jobs);
  }
}
