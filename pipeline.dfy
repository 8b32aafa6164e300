/**
 * The three passes run one after another, in any order and any number of
 * times, each as its own script that loads the progress file, updates it and
 * saves it after every change. A pass that stops early leaves the updates it
 * made before stopping.
 */
module Pipeline {
  import opened Progress
  import Crawler
  import Processor
  import Translator

  /** One run of one of the scripts, with the outcomes of its oracles. */
  datatype Pass =
    | Crawl(sources: seq<Crawler.DataSource>, fetching: Crawler.Fetching)
    | Extract(extraction: Processor.Extraction)
    | Translate(translating: Translator.Translating)

  /** The progress a pass leaves behind. */
  function RunPass(p: Progress, pass: Pass): Progress {
    match pass
    case Crawl(sources, env) => Crawler.CrawlPass(env, p, sources).progress
    case Extract(env) => Progress(Processor.ProcessPass(env, p).records, p.order)
    case Translate(env) => Progress(Translator.TranslatePass(env, p).records, p.order)
  }

  /** The progress a sequence of passes leaves behind. */
  function RunPasses(p: Progress, passes: seq<Pass>): Progress
    decreases |passes|
  {
    if passes == [] then p else RunPasses(RunPass(p, passes[0]), passes[1..])
  }

  /** Every pass keeps the store valid, only extends the key order, clears no
      flag and keeps translated ==> processed ==> crawled. */
  lemma RunPassKeeps(p: Progress, pass: Pass)
    requires ValidProgress(p)
    ensures var q := RunPass(p, pass);
      && ValidProgress(q)
      && p.order <= q.order
      && Grows(p.records, q.records)
      && (AllChained(p.records) ==> AllChained(q.records))
  {
    match pass
    case Crawl(sources, env) => Crawler.CrawlPassKeeps(env, p, sources);
    case Extract(env) => Processor.ProcessPassKeeps(env, p);
    case Translate(env) => Translator.TranslatePassKeeps(env, p);
  }

  /** After any sequence of passes, from a valid store whose records are in
      stage order, the store is valid, no record was lost, no flag was cleared,
      and every record still has translated ==> processed ==> crawled. */
  lemma {:induction false} RunPassesKeeps(p: Progress, passes: seq<Pass>)
    requires ValidProgress(p)
    ensures var q := RunPasses(p, passes);
      && ValidProgress(q)
      && p.order <= q.order
      && Grows(p.records, q.records)
      && (AllChained(p.records) ==> AllChained(q.records))
    decreases |passes|
  {
    if passes != [] {
      var mid := RunPass(p, passes[0]);
      RunPassKeeps(p, passes[0]);
      RunPassesKeeps(mid, passes[1..]);
      GrowsTransitive(p.records, mid.records, RunPasses(mid, passes[1..]).records);
    }
  }

  /** Starting from the empty progress file, the stage order holds after any
      sequence of passes. */
  lemma ChainFromEmpty(passes: seq<Pass>)
    ensures ValidProgress(RunPasses(Progress(map[], []), passes))
    ensures AllChained(RunPasses(Progress(map[], []), passes).records)
  {
    RunPassesKeeps(Progress(map[], []), passes);
  }
}
