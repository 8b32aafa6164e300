/**
 * The extract pass (src/ingestion/processor.py): for every record that is
 * crawled but not processed, read the structured artifact, extract the clean
 * Danish text from its HTML, write it next to the other processed files as
 * `<stem>_dk.txt`, and mark the record processed.
 *
 * File existence, reading the artifact's "raw_html", the HTML-to-text
 * extraction and the output write are oracles. Every failure of a read, an
 * extraction or a write is caught by the pass, which then leaves the record as
 * it was and goes on with the next one.
 */
module Processor {
  import opened Wrappers
  import opened Text
  import opened Progress
  import Crawler
  import Url

  const ProcessedDir := "data/crawled/processed/"

  // ---------------------------------------------------------------------------
  // Output naming

  /** The Danish text file for a structured artifact: the artifact's base name
      without its extension, plus "_dk.txt", in the processed directory. */
  function DkPathFor(structuredPath: string): string {
    PathJoin(ProcessedDir, StemOf(Basename(structuredPath)) + "_dk.txt")
  }

  /** The Danish text file lies directly in the processed directory and is
      named after the artifact's stem. */
  lemma DkPathShape(structuredPath: string)
    ensures var stem := StemOf(Basename(structuredPath));
      && DkPathFor(structuredPath) == ProcessedDir + stem + "_dk.txt"
      && Basename(DkPathFor(structuredPath)) == stem + "_dk.txt"
      && '/' !in stem
  {
    var base := Basename(structuredPath);
    var stem := StemOf(base);
    assert '/' !in stem by {
      assert forall k :: 0 <= k < |stem| ==> stem[k] == base[k];
    }
    DkNameJoin(stem);
  }

  /** A Danish file name built from a stem without '/' joins onto the processed
      directory by plain concatenation and is the joined path's basename. */
  lemma DkNameJoin(stem: string)
    requires '/' !in stem
    ensures PathJoin(ProcessedDir, stem + "_dk.txt") == ProcessedDir + stem + "_dk.txt"
    ensures Basename(PathJoin(ProcessedDir, stem + "_dk.txt")) == stem + "_dk.txt"
  {
    var name := stem + "_dk.txt";
    assert '/' !in name by {
      forall k | 0 <= k < |name|
        ensures name[k] != '/'
      {
        if k < |stem| {
          assert name[k] == stem[k];
        } else {
          assert name[k] == "_dk.txt"[k - |stem|];
        }
      }
    }
    assert name[0] != '/' by {
      if stem == [] {
        assert name[0] == '_';
      } else {
        assert name[0] == stem[0];
      }
    }
    assert ProcessedDir != [] && ProcessedDir[|ProcessedDir| - 1] == '/';
    BasenameOfJoin(ProcessedDir, name);
  }

  /** For an artifact the crawl pass saved, the Danish file carries the
      artifact's name with ".json" replaced by "_dk.txt". */
  lemma DkPathOfArtifact(url: string, metadata: Crawler.Metadata)
    requires '/' !in metadata.docType
    ensures var name := Crawler.GenerateFilename(url, metadata);
      && name[|name| - 5..] == ".json"
      && DkPathFor(Crawler.StructuredPathFor(url, metadata)) == ProcessedDir + name[..|name| - 5] + "_dk.txt"
  {
    var name := Crawler.GenerateFilename(url, metadata);
    var sp := Crawler.StructuredPathFor(url, metadata);
    assert StemOf(Basename(sp)) == name[..|name| - 5] && name[|name| - 5..] == ".json" by {
      ArtifactStem(url, metadata);
    }
    DkPathShape(sp);
  }

  /** The stem of the artifact's base name is its name without ".json". */
  lemma ArtifactStem(url: string, metadata: Crawler.Metadata)
    requires '/' !in metadata.docType
    ensures var name := Crawler.GenerateFilename(url, metadata);
      && name[|name| - 5..] == ".json"
      && StemOf(Basename(Crawler.StructuredPathFor(url, metadata))) == name[..|name| - 5]
  {
    var name := Crawler.GenerateFilename(url, metadata);
    var x := "DK-" + Upper(metadata.docType) + "-" + Crawler.YearText(metadata.year) + "-" + Crawler.DocId(Url.Path(url));
    assert name == x + ".json";
    assert Basename(Crawler.StructuredPathFor(url, metadata)) == name by {
      Crawler.StructuredPathShape(url, metadata);
    }
    assert '/' !in x && x != [] && x[0] != '.' by {
      Crawler.FilenameHasNoSlash(url, metadata);
      assert x == name[..|x|];
      NotInPrefix(name, '/', |x|);
    }
    StemOfJsonName(x, name);
  }

  /** A name x + ".json" whose x has no '/' and does not start with '.' has x
      as its stem. */
  lemma StemOfJsonName(x: string, name: string)
    requires name == x + ".json"
    requires x != [] && x[0] != '.' && '/' !in x
    ensures name[|name| - 5..] == ".json" && name[..|name| - 5] == x
    ensures StemOf(name) == x
  {
    assert name == x + ['.'] + "json";
    JsonHasNoDotOrSlash();
    StemOfWithExtension(x, "json", 0);
  }

  lemma JsonHasNoDotOrSlash()
    ensures '.' !in "json" && '/' !in "json"
  {
  }

  lemma NotInPrefix(s: string, c: char, n: nat)
    requires n <= |s| && c !in s
    ensures c !in s[..n]
  {
    assert forall k :: 0 <= k < n ==> s[..n][k] == s[k];
  }

  // ---------------------------------------------------------------------------
  // One record

  /** The oracles of an extract pass: whether a file exists, the "raw_html" of
      the structured artifact at a path (None when opening, parsing or the key
      lookup raises), the extraction (None when it raises), and whether writing
      a file at a path succeeds. */
  datatype Extraction = Extraction(
    fileExists: string -> bool,
    load: string -> Option<string>,
    extract: string -> Option<string>,
    writeOk: string -> bool)

  /** The record is crawled, not processed, and names an existing artifact. */
  predicate Pending(env: Extraction, r: Record) {
    r.crawled && !r.processed && IsSetPath(r.structuredPath) && env.fileExists(r.structuredPath.value)
  }

  /** The pending record's text was extracted and its Danish file written. */
  predicate Extracted(env: Extraction, r: Record) {
    && Pending(env, r)
    && env.load(r.structuredPath.value).Some?
    && env.extract(env.load(r.structuredPath.value).value).Some?
    && env.writeOk(DkPathFor(r.structuredPath.value))
  }

  /** What the loop body does with one record. No failure escapes the try
      block, so the step never aborts. */
  function ProcessRecord(env: Extraction, r: Record): Step {
    if !(r.crawled && !r.processed) then Keep
    else if !(IsSetPath(r.structuredPath) && env.fileExists(r.structuredPath.value)) then Keep
    else
      var filepath := r.structuredPath.value;
      match env.load(filepath)
      case None => Keep
      case Some(rawHtml) =>
        match env.extract(rawHtml)
        case None => Keep
        case Some(text) =>
          var output := DkPathFor(filepath);
          if env.writeOk(output)
          then Update(r.(processed := true, dkPath := Some(output)), FileWrite(output, text))
          else Keep
  }

  function ProcessStep(env: Extraction): Record -> Step {
    r => ProcessRecord(env, r)
  }

  /** The record a successful extraction leaves: processed, with its Danish
      file's path, every other field as it was. */
  function MarkProcessed(r: Record): Record
    requires r.structuredPath.Some?
  {
    r.(processed := true, dkPath := Some(DkPathFor(r.structuredPath.value)))
  }

  // ---------------------------------------------------------------------------
  // The pass

  /** process_all_structured_files as a function of the store it starts from. */
  function ProcessPass(env: Extraction, p: Progress): SweepResult {
    Sweep(p.records, p.order, ProcessStep(env))
  }

  /** process_all_structured_files on the progress dictionary it mutates. */
  method ProcessAllStructuredFiles(store: ProgressStore, env: Extraction) returns (writes: seq<FileWrite>)
    requires store.Valid()
    modifies store
    ensures store.Valid() && store.order == old(store.order)
    ensures ProcessPass(env, old(store.State())) == SweepResult(store.records, writes, false)
  {
    ghost var start := store.records;
    var keys := store.order;
    writes := [];
    var i := 0;
    while i < |keys|
      invariant 0 <= i <= |keys|
      invariant store.order == keys && store.records.Keys == start.Keys
      invariant var rest := Sweep(store.records, keys[i..], ProcessStep(env));
        Sweep(start, keys, ProcessStep(env)) == SweepResult(rest.records, writes + rest.writes, rest.aborted)
    {
      var url := keys[i];
      assert keys[i..][1..] == keys[i + 1..];
      SweepStep(store.records, keys[i..], ProcessStep(env), writes, Sweep(start, keys, ProcessStep(env)));
      var written := ProcessEntry(store, url, env);
      if written.Some? {
        writes := writes + [written.value];
      }
      i := i + 1;
    }
    assert keys[i..] == [];
  }

  /** The loop body for one record: extract its text if it is pending, write
      the Danish file and mark the record. Every failure is caught. */
  method ProcessEntry(store: ProgressStore, url: string, env: Extraction) returns (written: Option<FileWrite>)
    requires url in store.records
    modifies store
    ensures store.order == old(store.order)
    ensures var s := ProcessRecord(env, old(store.records)[url]);
      && !s.Abort?
      && written == (if s.Update? then Some(s.write) else None)
      && store.records == if s.Update? then old(store.records)[url := s.record] else old(store.records)
  {
    written := None;
    var status := store.records[url];
    if status.crawled && !status.processed {
      var filepath := status.structuredPath;
      if IsSetPath(filepath) && env.fileExists(filepath.value) {
        var rawHtml := env.load(filepath.value);
        if rawHtml.Some? {
          var cleanTextDk := env.extract(rawHtml.value);
          if cleanTextDk.Some? {
            var outputFilepath := DkPathFor(filepath.value);
            if env.writeOk(outputFilepath) {
              written := Some(FileWrite(outputFilepath, cleanTextDk.value));
              store.records := store.records[url := status.(processed := true, dkPath := Some(outputFilepath))];
            }
          }
        }
      }
    }
  }

  // ---------------------------------------------------------------------------
  // Properties of the pass

  /** Each record ends on its own terms, whatever the order of the others: an
      extracted record is marked processed with its Danish file's path and
      keeps every other field; every other record is left as it was. The pass
      never stops early. */
  lemma ProcessPassEach(env: Extraction, p: Progress, k: string)
    requires ValidProgress(p) && k in p.records
    ensures !ProcessPass(env, p).aborted
    ensures ProcessPass(env, p).records[k] ==
      if Extracted(env, p.records[k]) then MarkProcessed(p.records[k]) else p.records[k]
  {
    SweepCompletes(p.records, p.order, ProcessStep(env));
    SweepFinished(p.records, p.order, ProcessStep(env), k);
  }

  /** Records not crawled, or already processed, are left untouched. */
  lemma ProcessPassSkips(env: Extraction, p: Progress, k: string)
    requires ValidProgress(p) && k in p.records
    requires !p.records[k].crawled || p.records[k].processed
    ensures ProcessPass(env, p).records[k] == p.records[k]
  {
    ProcessPassEach(env, p, k);
  }

  /** An extraction step keeps every flag and sets processed only on a crawled
      record; a processed record is left alone by the next step. */
  lemma ProcessStepProperties(env: Extraction)
    ensures Monotone(ProcessStep(env))
    ensures Settled(ProcessStep(env))
  {
  }

  /** The pass keeps the store valid with the same keys and order, clears no
      flag and keeps translated ==> processed ==> crawled. */
  lemma ProcessPassKeeps(env: Extraction, p: Progress)
    requires ValidProgress(p)
    ensures ValidProgress(Progress(ProcessPass(env, p).records, p.order))
    ensures Grows(p.records, ProcessPass(env, p).records)
    ensures AllChained(p.records) ==> AllChained(ProcessPass(env, p).records)
  {
    ProcessStepProperties(env);
    SweepKeepsChain(p.records, p.order, ProcessStep(env));
  }

  /** w is the Danish text extracted for the extracted record r, at r's Danish
      file path. */
  predicate IsDkText(env: Extraction, r: Record, w: FileWrite) {
    Extracted(env, r)
    && w == FileWrite(DkPathFor(r.structuredPath.value), env.extract(env.load(r.structuredPath.value).value).value)
  }

  /** Every file written is the Danish text extracted for some extracted
      record, at that record's Danish file path. */
  lemma ProcessPassWrites(env: Extraction, p: Progress, n: nat)
    requires ValidProgress(p) && n < |ProcessPass(env, p).writes|
    ensures exists k :: k in p.records && IsDkText(env, p.records[k], ProcessPass(env, p).writes[n])
  {
    SweepWrites(p.records, p.order, ProcessStep(env), n);
  }

  /** Running the pass again with the same outcomes changes nothing and writes
      nothing. */
  lemma ProcessPassIdempotent(env: Extraction, p: Progress)
    requires ValidProgress(p)
    ensures var first := ProcessPass(env, p);
      ProcessPass(env, Progress(first.records, p.order)) == SweepResult(first.records, [], false)
  {
    ProcessStepProperties(env);
    SweepIdempotent(p.records, p.order, ProcessStep(env));
    SweepCompletes(p.records, p.order, ProcessStep(env));
  }
}
