/**
 * The progress-tracking store shared by the crawl, extract and translate passes:
 * a dictionary from document URL to a status record. Each pass reads the
 * whole dictionary, changes records in place and writes it back.
 *
 * A Python dict iterates in insertion order, so the store keeps the keys'
 * insertion order next to the map. The extract and translate passes visit the
 * keys in that order and treat each record alone; `Sweep` is the specification
 * of such a visit.
 */
module Progress {
  import opened Wrappers
  import opened Text

  /** One status record. A flag missing from the JSON reads as false, a path
      missing from it as None. `other` holds the fields no pass reads or writes. */
  datatype Record = Record(
    crawled: bool,
    structuredPath: Option<string>,
    processed: bool,
    dkPath: Option<string>,
    translated: bool,
    enPath: Option<string>,
    other: map<string, string>)

  /** The `{}` a crawl inserts for a URL it has not seen before. */
  const NewRecord := Record(false, None, false, None, false, None, map[])

  /** Python truthiness of an optional path: present and not the empty string. */
  predicate IsSetPath(p: Option<string>) {
    p.Some? && p.value != []
  }

  /** The stage order within one record: translated ==> processed ==> crawled. */
  predicate Chained(r: Record) {
    (r.translated ==> r.processed) && (r.processed ==> r.crawled)
  }

  predicate AllChained(records: map<string, Record>) {
    forall k :: k in records ==> Chained(records[k])
  }

  /** r2 has every flag r1 has: no flag went back from true to false. */
  predicate FlagsKept(r1: Record, r2: Record) {
    (r1.crawled ==> r2.crawled) && (r1.processed ==> r2.processed) && (r1.translated ==> r2.translated)
  }

  /** No record was removed and no flag was cleared going from m1 to m2. */
  predicate Grows(m1: map<string, Record>, m2: map<string, Record>) {
    m1.Keys <= m2.Keys && forall k :: k in m1 ==> FlagsKept(m1[k], m2[k])
  }

  lemma GrowsTransitive(m1: map<string, Record>, m2: map<string, Record>, m3: map<string, Record>)
    requires Grows(m1, m2) && Grows(m2, m3)
    ensures Grows(m1, m3)
  {
  }

  predicate Crawled(records: map<string, Record>, url: string) {
    url in records && records[url].crawled
  }

  /** The dictionary's value: its records and the order its keys were inserted in. */
  datatype Progress = Progress(records: map<string, Record>, order: seq<string>)

  /** No element occurs twice. */
  predicate Distinct<T(==)>(s: seq<T>) {
    forall i, j :: 0 <= i < j < |s| ==> s[i] != s[j]
  }

  /** The order lists every key of the map exactly once. */
  ghost predicate ValidProgress(p: Progress) {
    Distinct(p.order) && forall k :: k in p.records <==> k in p.order
  }

  /** The dictionary the passes mutate in place. */
  class ProgressStore {
    var records: map<string, Record>
    var order: seq<string>

    function State(): Progress
      reads this
    {
      Progress(records, order)
    }

    ghost predicate Valid()
      reads this
    {
      ValidProgress(State())
    }

    /** A store holding what load_progress read from the progress file. */
    constructor (loaded: Progress)
      requires ValidProgress(loaded)
      ensures Valid() && State() == loaded
    {
      records := loaded.records;
      order := loaded.order;
    }
  }

  // ---------------------------------------------------------------------------
  // One visit over the keys, each record handled on its own

  /** A file an operation writes. */
  datatype FileWrite = FileWrite(path: string, content: string)

  /** What a pass does with one record: leave it (a skip or a caught error),
      replace it after writing one file, or stop the whole pass (an exception
      the pass does not catch). */
  datatype Step = Keep | Update(record: Record, write: FileWrite) | Abort

  datatype SweepResult = SweepResult(records: map<string, Record>, writes: seq<FileWrite>, aborted: bool)

  /** Visits keys in order, applying step to each record, until a step aborts. */
  function Sweep(records: map<string, Record>, keys: seq<string>, step: Record -> Step): (r: SweepResult)
    ensures r.records.Keys == records.Keys
    decreases |keys|
  {
    if keys == [] then SweepResult(records, [], false)
    else
      var k := keys[0];
      if k !in records then Sweep(records, keys[1..], step)
      else match step(records[k])
        case Keep => Sweep(records, keys[1..], step)
        case Abort => SweepResult(records, [], true)
        case Update(rec, w) =>
          var rest := Sweep(records[k := rec], keys[1..], step);
          SweepResult(rest.records, [w] + rest.writes, rest.aborted)
  }

  /** The record a step leaves behind. */
  function Apply(step: Record -> Step, r: Record): Record {
    if step(r).Update? then step(r).record else r
  }

  /** An updated record is left alone by the same step: a second visit does nothing. */
  ghost predicate Settled(step: Record -> Step) {
    forall r :: step(r).Update? ==> step(step(r).record).Keep?
  }

  /** Every update keeps the flags already set and keeps a chained record chained. */
  ghost predicate Monotone(step: Record -> Step) {
    forall r :: step(r).Update? ==> FlagsKept(r, step(r).record) && (Chained(r) ==> Chained(step(r).record))
  }

  /** A key the visit does not list keeps its record. */
  lemma {:induction false} SweepFrame(records: map<string, Record>, keys: seq<string>, step: Record -> Step, j: string)
    requires j in records && j !in keys
    ensures Sweep(records, keys, step).records[j] == records[j]
    decreases |keys|
  {
    if keys != [] {
      var k := keys[0];
      assert j != k && j !in keys[1..];
      if k in records {
        match step(records[k])
        case Keep => SweepFrame(records, keys[1..], step, j);
        case Abort =>
        case Update(rec, w) => SweepFrame(records[k := rec], keys[1..], step, j);
      } else {
        SweepFrame(records, keys[1..], step, j);
      }
    }
  }

  /** When each key is visited once, each record ends either as it was or as the
      step's update of its original value. */
  lemma {:induction false} SweepEach(records: map<string, Record>, keys: seq<string>, step: Record -> Step, j: string)
    requires Distinct(keys) && j in records
    ensures var r := Sweep(records, keys, step).records[j];
      r == records[j] || (step(records[j]).Update? && r == step(records[j]).record)
    decreases |keys|
  {
    if keys != [] {
      var k := keys[0];
      assert Distinct(keys[1..]);
      if k in records {
        match step(records[k])
        case Keep => SweepEach(records, keys[1..], step, j);
        case Abort =>
        case Update(rec, w) =>
          if j == k {
            assert k !in keys[1..];
            SweepFrame(records[k := rec], keys[1..], step, k);
          } else {
            SweepEach(records[k := rec], keys[1..], step, j);
          }
      } else {
        SweepEach(records, keys[1..], step, j);
      }
    }
  }

  /** A visit that runs to the end leaves every listed record as the step
      leaves its original value, and every other one untouched: the visit
      order does not matter. */
  lemma {:induction false} SweepFinished(records: map<string, Record>, keys: seq<string>, step: Record -> Step, j: string)
    requires Distinct(keys) && j in records
    requires !Sweep(records, keys, step).aborted
    ensures Sweep(records, keys, step).records[j] == if j in keys then Apply(step, records[j]) else records[j]
    decreases |keys|
  {
    if keys != [] {
      var k := keys[0];
      assert Distinct(keys[1..]);
      if k in records {
        match step(records[k])
        case Keep => SweepFinished(records, keys[1..], step, j);
        case Update(rec, w) =>
          if j == k {
            assert k !in keys[1..];
            SweepFrame(records[k := rec], keys[1..], step, k);
          } else {
            SweepFinished(records[k := rec], keys[1..], step, j);
          }
      } else {
        SweepFinished(records, keys[1..], step, j);
      }
    }
  }

  /** A visit that stopped early was stopped by a listed record whose original
      value makes the step abort. */
  lemma {:induction false} SweepAbortedBy(records: map<string, Record>, keys: seq<string>, step: Record -> Step)
    requires Distinct(keys)
    requires Sweep(records, keys, step).aborted
    ensures exists k :: k in keys && k in records && step(records[k]).Abort?
    decreases |keys|
  {
    var k := keys[0];
    assert Distinct(keys[1..]) && k !in keys[1..];
    if k in records && step(records[k]).Update? {
      var next := records[k := step(records[k]).record];
      SweepAbortedBy(next, keys[1..], step);
      var k' :| k' in keys[1..] && k' in next && step(next[k']).Abort?;
      assert k' != k;
    } else if k in records && step(records[k]).Keep? {
      SweepAbortedBy(records, keys[1..], step);
    } else if k !in records {
      SweepAbortedBy(records, keys[1..], step);
    }
  }

  /** A listed record whose original value makes the step abort stops the
      visit, whatever comes before it. */
  lemma {:induction false} SweepAbortsIf(records: map<string, Record>, keys: seq<string>, step: Record -> Step, j: string)
    requires Distinct(keys) && j in keys && j in records
    requires step(records[j]).Abort?
    ensures Sweep(records, keys, step).aborted
    decreases |keys|
  {
    var k := keys[0];
    assert Distinct(keys[1..]);
    if k != j {
      assert j in keys[1..];
      if k in records {
        match step(records[k])
        case Keep => SweepAbortsIf(records, keys[1..], step, j);
        case Abort =>
        case Update(rec, w) =>
          assert records[k := rec][j] == records[j];
          SweepAbortsIf(records[k := rec], keys[1..], step, j);
      } else {
        SweepAbortsIf(records, keys[1..], step, j);
      }
    }
  }

  /** w is the file that step writes when it updates r. */
  ghost predicate IsWriteOf(r: Record, step: Record -> Step, w: FileWrite) {
    step(r).Update? && step(r).write == w
  }

  /** w is written by the update of some listed record's original value. */
  ghost predicate WrittenBy(records: map<string, Record>, keys: seq<string>, step: Record -> Step, w: FileWrite) {
    exists k :: k in keys && k in records && IsWriteOf(records[k], step, w)
  }

  /** Every file written comes from the update of a listed record's original value. */
  lemma {:induction false} SweepWrites(records: map<string, Record>, keys: seq<string>, step: Record -> Step, n: nat)
    requires Distinct(keys)
    requires n < |Sweep(records, keys, step).writes|
    ensures WrittenBy(records, keys, step, Sweep(records, keys, step).writes[n])
    decreases |keys|
  {
    var k := keys[0];
    assert Distinct(keys[1..]);
    if k in records {
      match step(records[k])
      case Keep =>
        SweepWrites(records, keys[1..], step, n);
      case Update(rec, w) =>
        if n > 0 {
          SweepWrites(records[k := rec], keys[1..], step, n - 1);
          var k' :| k' in keys[1..] && k' in records[k := rec] && IsWriteOf(records[k := rec][k'], step, Sweep(records[k := rec], keys[1..], step).writes[n - 1]);
          assert k' != k;
        } else {
          assert IsWriteOf(records[k], step, w);
        }
    } else {
      SweepWrites(records, keys[1..], step, n);
    }
  }

  /** With a monotone step the visit keeps the stage order and clears nothing. */
  lemma SweepKeepsChain(records: map<string, Record>, keys: seq<string>, step: Record -> Step)
    requires Distinct(keys) && Monotone(step)
    ensures Grows(records, Sweep(records, keys, step).records)
    ensures AllChained(records) ==> AllChained(Sweep(records, keys, step).records)
  {
    var after := Sweep(records, keys, step).records;
    forall j | j in records
      ensures FlagsKept(records[j], after[j]) && (Chained(records[j]) ==> Chained(after[j]))
    {
      SweepEach(records, keys, step, j);
    }
  }

  /** With a settled step, a second visit over the same keys changes nothing,
      writes nothing, and stops where the first one stopped. */
  lemma {:induction false} SweepIdempotent(records: map<string, Record>, keys: seq<string>, step: Record -> Step)
    requires Distinct(keys) && Settled(step)
    ensures var first := Sweep(records, keys, step);
      Sweep(first.records, keys, step) == SweepResult(first.records, [], first.aborted)
    decreases |keys|
  {
    if keys != [] {
      var k := keys[0];
      assert Distinct(keys[1..]) && k !in keys[1..];
      if k in records {
        match step(records[k])
        case Keep =>
          SweepIdempotent(records, keys[1..], step);
          SweepFrame(records, keys[1..], step, k);
        case Abort =>
        case Update(rec, w) =>
          SweepIdempotent(records[k := rec], keys[1..], step);
          SweepFrame(records[k := rec], keys[1..], step, k);
      } else {
        SweepIdempotent(records, keys[1..], step);
      }
    }
  }

  /** A step that never aborts lets the visit run to the end. */
  lemma {:induction false} SweepCompletes(records: map<string, Record>, keys: seq<string>, step: Record -> Step)
    requires forall r :: !step(r).Abort?
    ensures !Sweep(records, keys, step).aborted
    decreases |keys|
  {
    if keys != [] {
      var k := keys[0];
      if k in records && step(records[k]).Update? {
        SweepCompletes(records[k := step(records[k]).record], keys[1..], step);
      } else {
        SweepCompletes(records, keys[1..], step);
      }
    }
  }

  /** A loop that has already written `writes` and has `keys` left to visit in
      `records` ends in `total`: after one more key it has the next state left. */
  lemma SweepStep(records: map<string, Record>, keys: seq<string>, step: Record -> Step,
                  writes: seq<FileWrite>, total: SweepResult)
    requires keys != [] && keys[0] in records
    requires total == SweepResult(Sweep(records, keys, step).records,
                                  writes + Sweep(records, keys, step).writes, Sweep(records, keys, step).aborted)
    ensures var s := step(records[keys[0]]);
      s.Abort? ==> total == SweepResult(records, writes, true)
    ensures var s := step(records[keys[0]]);
      s.Keep? ==> total == SweepResult(Sweep(records, keys[1..], step).records,
                                       writes + Sweep(records, keys[1..], step).writes,
                                       Sweep(records, keys[1..], step).aborted)
    ensures var s := step(records[keys[0]]);
      s.Update? ==>
        var next := records[keys[0] := s.record];
        total == SweepResult(Sweep(next, keys[1..], step).records,
                             (writes + [s.write]) + Sweep(next, keys[1..], step).writes,
                             Sweep(next, keys[1..], step).aborted)
  {
    var s := step(records[keys[0]]);
    if s.Update? {
      var rest := Sweep(records[keys[0] := s.record], keys[1..], step);
      assert writes + ([s.write] + rest.writes) == (writes + [s.write]) + rest.writes;
    }
    if s.Abort? {
      assert writes + [] == writes;
    }
  }
}
