/**
 * The translate pass (src/ingestion/translator.py): for every record that is
 * processed but not translated, read its Danish text, have the language model
 * translate it, write the translation as `<stem>_en.txt` and mark the record
 * translated.
 *
 * File existence, reading the Danish file, the model call and the output write
 * are oracles. Only the model call is inside a try block: a failed read or a
 * failed write raises out of the pass and ends it.
 */
module Translator {
  import opened Wrappers
  import opened Text
  import opened Progress
  import Processor

  const ProcessedDir := Processor.ProcessedDir

  /** The text a failed translation returns, followed by the original. */
  const FailureMarker := "[Translation Failed] "

  // ---------------------------------------------------------------------------
  // translate_document

  /** The instructions that follow the target language in the prompt. */
  const PromptRules := ". Do not add any commentary, preamble, or markdown formatting. Provide only the translated text directly:\n\n---\n"

  /** The instruction sent to the model. */
  function Prompt(text: string, targetLanguage: string): string {
    "Translate the following Danish text to " + targetLanguage + PromptRules + text + "\n---"
  }

  /** The pair (text, success) translate_document returns. */
  datatype Translation = Translation(text: string, success: bool)

  /** True when the text is empty or all whitespace. */
  predicate Blank(text: string) {
    forall k :: 0 <= k < |text| ==> IsSpace(text[k])
  }

  /** translate_document on the file's contents, with the target language
      "English". `llm` gives the response's content, or None when the call
      raises. */
  function TranslateDocument(text: string, llm: string -> Option<string>): Translation {
    if text == [] || Trim(text) == [] then Translation("", false)
    else
      match llm(Prompt(text, "English"))
      case Some(response) => Translation(Trim(response), true)
      case None => Translation(FailureMarker + text, false)
  }

  /** The result is ("", False) exactly for blank text, whatever the model
      would have answered. */
  lemma TranslateBlankIff(text: string, llm: string -> Option<string>)
    ensures TranslateDocument(text, llm) == Translation("", false) <==> Blank(text)
  {
    TrimEmptyIff(text);
    var r := TranslateDocument(text, llm);
    if !Blank(text) {
      assert Trim(text) != [] && text != [];
      var answer := llm(Prompt(text, "English"));
      if answer.Some? {
        assert r == Translation(Trim(answer.value), true);
      } else {
        assert r == Translation(FailureMarker + text, false);
        assert |r.text| > 0;
      }
    }
  }

  /** A translation succeeds exactly when the text is not blank and the model
      answers; the result is then the answer with surrounding whitespace
      removed. */
  lemma TranslateSuccess(text: string, llm: string -> Option<string>)
    ensures TranslateDocument(text, llm).success <==> !Blank(text) && llm(Prompt(text, "English")).Some?
    ensures TranslateDocument(text, llm).success ==>
      && TranslateDocument(text, llm).text == Trim(llm(Prompt(text, "English")).value)
      && Trim(TranslateDocument(text, llm).text) == TranslateDocument(text, llm).text
  {
    TrimEmptyIff(text);
    if !Blank(text) && llm(Prompt(text, "English")).Some? {
      TrimIdempotent(llm(Prompt(text, "English")).value);
    }
  }

  /** When the model call fails, the result is the failure marker followed by
      the whole original text, which can be read back from it. */
  lemma TranslateFailure(text: string, llm: string -> Option<string>)
    requires !Blank(text) && llm(Prompt(text, "English")).None?
    ensures var r := TranslateDocument(text, llm);
      && !r.success
      && r.text[..|FailureMarker|] == FailureMarker
      && r.text[|FailureMarker|..] == text
  {
    TrimEmptyIff(text);
  }

  // ---------------------------------------------------------------------------
  // Output naming

  /** The English file for a Danish file: the Danish file's stem with every
      "_dk" removed, plus "_en.txt", in the processed directory. */
  function EnPathFor(dkPath: string): string {
    PathJoin(ProcessedDir, Replace(StemOf(Basename(dkPath)), "_dk", "") + "_en.txt")
  }

  /** For a Danish file the extract pass named, the English file's name is the
      artifact's stem with every "_dk" removed, plus "_en.txt"; when the stem
      holds no "_dk", the two files differ only in their suffix. */
  lemma EnPathOfDk(structuredPath: string)
    ensures var stem := StemOf(Basename(structuredPath));
      EnPathFor(Processor.DkPathFor(structuredPath)) == ProcessedDir + Replace(stem, "_dk", "") + "_en.txt"
    ensures var stem := StemOf(Basename(structuredPath));
      !Contains(stem, "_dk") ==> EnPathFor(Processor.DkPathFor(structuredPath)) == ProcessedDir + stem + "_en.txt"
  {
    var stem := StemOf(Basename(structuredPath));
    Processor.DkPathShape(structuredPath);
    assert StemOf(stem + "_dk.txt") == stem + "_dk" by {
      DkSuffixShape(stem);
      StemOfWithExtension(stem + "_dk", "txt", |stem|);
    }
    assert Replace(stem + "_dk", "_dk", "") == Replace(stem, "_dk", "") by {
      DkPatternShape();
      ReplaceAppended(stem, "_dk", "");
      assert Replace(stem, "_dk", "") + "" == Replace(stem, "_dk", "");
    }
    EnNameJoin(Replace(stem, "_dk", ""), stem);
    if !Contains(stem, "_dk") {
      ReplaceAbsent(stem, "_dk", "");
    }
  }

  lemma DkSuffixShape(stem: string)
    requires '/' !in stem
    ensures stem + "_dk.txt" == (stem + "_dk") + ['.'] + "txt"
    ensures (stem + "_dk")[|stem|] != '.' && '/' !in stem + "_dk"
    ensures '.' !in "txt" && '/' !in "txt"
  {
  }

  lemma DkPatternShape()
    ensures "_dk" != [] && "_dk"[0] !in "_dk"[1..]
  {
  }

  /** Joining an English name built from a stem without '/' onto the processed
      directory is plain concatenation. */
  lemma EnNameJoin(base: string, stem: string)
    requires base == Replace(stem, "_dk", "") && '/' !in stem
    ensures PathJoin(ProcessedDir, base + "_en.txt") == ProcessedDir + base + "_en.txt"
  {
    assert '/' !in base by {
      assert '/' !in "";
      ReplaceKeepsOut(stem, "_dk", "", '/');
    }
    var name := base + "_en.txt";
    if base == [] {
      assert name[0] == '_';
    } else {
      assert name[0] == base[0];
    }
    assert ProcessedDir != [] && ProcessedDir[|ProcessedDir| - 1] == '/';
  }

  /** Removing every "_dk" rather than only the trailing one lets two different
      Danish files share one English file: stems "a_dkb" and "ab" both give
      "ab_en.txt", so the second translation overwrites the first. */
  lemma EnPathCollision(sp1: string, sp2: string)
    requires StemOf(Basename(sp1)) == "a_dkb" && StemOf(Basename(sp2)) == "ab"
    ensures Processor.DkPathFor(sp1) != Processor.DkPathFor(sp2)
    ensures EnPathFor(Processor.DkPathFor(sp1)) == EnPathFor(Processor.DkPathFor(sp2))
  {
    EnPathOfDk(sp1);
    EnPathOfDk(sp2);
    Processor.DkPathShape(sp1);
    Processor.DkPathShape(sp2);
    CollidingStems();
  }

  lemma CollidingStems()
    ensures Replace("a_dkb", "_dk", "") == "ab"
    ensures Replace("ab", "_dk", "") == "ab"
    ensures ProcessedDir + "a_dkb" + "_dk.txt" != ProcessedDir + "ab" + "_dk.txt"
  {
    assert Replace("a_dkb", "_dk", "") == "a" + Replace("_dkb", "_dk", "");
    assert Replace("_dkb", "_dk", "") == "" + Replace("b", "_dk", "");
    assert (ProcessedDir + "a_dkb" + "_dk.txt")[|ProcessedDir| + 1] != (ProcessedDir + "ab" + "_dk.txt")[|ProcessedDir| + 1];
  }

  // ---------------------------------------------------------------------------
  // One record

  /** The oracles of a translate pass: whether a file exists, the contents of
      a text file (None when opening or decoding raises), the model's answer to
      a prompt (None when the call raises), and whether writing a file at a path
      succeeds. */
  datatype Translating = Translating(
    fileExists: string -> bool,
    read: string -> Option<string>,
    llm: string -> Option<string>,
    writeOk: string -> bool)

  /** The record is processed, not translated, and names an existing Danish file. */
  predicate Pending(env: Translating, r: Record) {
    r.processed && !r.translated && IsSetPath(r.dkPath) && env.fileExists(r.dkPath.value)
  }

  /** The translation of a pending record's readable Danish text: it succeeded
      with non-empty text. */
  predicate Translatable(env: Translating, r: Record) {
    && Pending(env, r)
    && env.read(r.dkPath.value).Some?
    && TranslateDocument(env.read(r.dkPath.value).value, env.llm).success
    && TranslateDocument(env.read(r.dkPath.value).value, env.llm).text != []
  }

  /** The record was translated and its English file written. */
  predicate Translated(env: Translating, r: Record) {
    Translatable(env, r) && env.writeOk(EnPathFor(r.dkPath.value))
  }

  /** What the loop body does with one record. */
  function TranslateRecord(env: Translating, r: Record): Step {
    if !(r.processed && !r.translated) then Keep
    else if !(IsSetPath(r.dkPath) && env.fileExists(r.dkPath.value)) then Keep
    else
      var filepathDk := r.dkPath.value;
      match env.read(filepathDk)
      case None => Abort
      case Some(textDk) =>
        var t := TranslateDocument(textDk, env.llm);
        if !(t.success && t.text != []) then Keep
        else
          var output := EnPathFor(filepathDk);
          if env.writeOk(output)
          then Update(r.(translated := true, enPath := Some(output)), FileWrite(output, t.text))
          else Abort
  }

  function TranslateStep(env: Translating): Record -> Step {
    r => TranslateRecord(env, r)
  }

  /** The record a successful translation leaves: translated, with its English
      file's path, every other field as it was. */
  function MarkTranslated(r: Record): Record
    requires r.dkPath.Some?
  {
    r.(translated := true, enPath := Some(EnPathFor(r.dkPath.value)))
  }

  // ---------------------------------------------------------------------------
  // The pass

  /** translate_all_processed_files as a function of the store it starts from. */
  function TranslatePass(env: Translating, p: Progress): SweepResult {
    Sweep(p.records, p.order, TranslateStep(env))
  }

  /** translate_all_processed_files on the progress dictionary it mutates;
      `aborted` is true when a read or a write raised out of the pass. */
  method TranslateAllProcessedFiles(store: ProgressStore, env: Translating)
    returns (writes: seq<FileWrite>, aborted: bool)
    requires store.Valid()
    modifies store
    ensures store.Valid() && store.order == old(store.order)
    ensures TranslatePass(env, old(store.State())) == SweepResult(store.records, writes, aborted)
  {
    ghost var start := store.records;
    var keys := store.order;
    writes, aborted := [], false;
    var i := 0;
    while i < |keys|
      invariant 0 <= i <= |keys|
      invariant store.order == keys && store.records.Keys == start.Keys
      invariant var rest := Sweep(store.records, keys[i..], TranslateStep(env));
        Sweep(start, keys, TranslateStep(env)) == SweepResult(rest.records, writes + rest.writes, rest.aborted)
    {
      var url := keys[i];
      assert keys[i..][1..] == keys[i + 1..];
      SweepStep(store.records, keys[i..], TranslateStep(env), writes, Sweep(start, keys, TranslateStep(env)));
      var written;
      written, aborted := TranslateEntry(store, url, env);
      if aborted {
        return;
      }
      if written.Some? {
        writes := writes + [written.value];
      }
      i := i + 1;
    }
    assert keys[i..] == [];
  }

  /** The loop body for one record: translate it if it is pending, write the
      English file and mark the record; `aborted` is true when the read or the
      write raised. */
  method TranslateEntry(store: ProgressStore, url: string, env: Translating)
    returns (written: Option<FileWrite>, aborted: bool)
    requires url in store.records
    modifies store
    ensures store.order == old(store.order)
    ensures var s := TranslateRecord(env, old(store.records)[url]);
      && aborted == s.Abort?
      && written == (if s.Update? then Some(s.write) else None)
      && store.records == if s.Update? then old(store.records)[url := s.record] else old(store.records)
  {
    written, aborted := None, false;
    var status := store.records[url];
    if status.processed && !status.translated {
      var filepathDk := status.dkPath;
      if IsSetPath(filepathDk) && env.fileExists(filepathDk.value) {
        var textDk := env.read(filepathDk.value);
        if textDk.None? {
          aborted := true;
          return;
        }
        var t := TranslateDocument(textDk.value, env.llm);
        if t.success && t.text != [] {
          var outputFilepath := EnPathFor(filepathDk.value);
          if !env.writeOk(outputFilepath) {
            aborted := true;
            return;
          }
          written := Some(FileWrite(outputFilepath, t.text));
          store.records := store.records[url := status.(translated := true, enPath := Some(outputFilepath))];
        }
      }
    }
  }

  // ---------------------------------------------------------------------------
  // Properties of the pass

  /** A translation step keeps every flag and sets translated only on a
      processed record; a translated record is left alone by the next step. */
  lemma TranslateStepProperties(env: Translating)
    ensures Monotone(TranslateStep(env))
    ensures Settled(TranslateStep(env))
  {
  }

  /** Each record ends either as it was or marked translated with its English
      file's path and every other field as it was, the latter only when it was
      translated; when the pass runs to the end, exactly the translated records
      are marked, whatever the order of the others. */
  lemma TranslatePassEach(env: Translating, p: Progress, k: string)
    requires ValidProgress(p) && k in p.records
    ensures var after := TranslatePass(env, p).records[k];
      after == p.records[k] || (Translated(env, p.records[k]) && after == MarkTranslated(p.records[k]))
    ensures !TranslatePass(env, p).aborted ==>
      TranslatePass(env, p).records[k] ==
        if Translated(env, p.records[k]) then MarkTranslated(p.records[k]) else p.records[k]
  {
    var r := p.records[k];
    var after := TranslatePass(env, p).records[k];
    TranslateRecordOutcome(env, r);
    assert after == r || (TranslateStep(env)(r).Update? && after == TranslateStep(env)(r).record) by {
      SweepEach(p.records, p.order, TranslateStep(env), k);
    }
    if !TranslatePass(env, p).aborted {
      assert after == Apply(TranslateStep(env), r) by {
        SweepFinished(p.records, p.order, TranslateStep(env), k);
      }
    }
  }

  /** One record's step updates it exactly when it is translated, and then to
      MarkTranslated of it. */
  lemma TranslateRecordOutcome(env: Translating, r: Record)
    ensures TranslateStep(env)(r).Update? <==> Translated(env, r)
    ensures Translated(env, r) ==> TranslateStep(env)(r).record == MarkTranslated(r)
    ensures Apply(TranslateStep(env), r) == if Translated(env, r) then MarkTranslated(r) else r
    ensures TranslateStep(env)(r).Abort? <==> AbortsOn(env, r)
  {
  }

  /** Records not processed, or already translated, are left untouched. */
  lemma TranslatePassSkips(env: Translating, p: Progress, k: string)
    requires ValidProgress(p) && k in p.records
    requires !p.records[k].processed || p.records[k].translated
    ensures TranslatePass(env, p).records[k] == p.records[k]
  {
    TranslatePassEach(env, p, k);
  }

  /** The pending record's Danish file cannot be read, or its successful
      translation cannot be written. */
  predicate AbortsOn(env: Translating, r: Record) {
    Pending(env, r)
    && (env.read(r.dkPath.value).None? || (Translatable(env, r) && !env.writeOk(EnPathFor(r.dkPath.value))))
  }

  /** The pass stops early exactly when some pending record's Danish file
      cannot be read, or its successful translation cannot be written. */
  lemma TranslatePassAborted(env: Translating, p: Progress)
    requires ValidProgress(p)
    ensures TranslatePass(env, p).aborted <==> exists k :: k in p.records && AbortsOn(env, p.records[k])
  {
    if TranslatePass(env, p).aborted {
      SweepAbortedBy(p.records, p.order, TranslateStep(env));
      var k :| k in p.order && k in p.records && TranslateStep(env)(p.records[k]).Abort?;
      TranslateRecordOutcome(env, p.records[k]);
    }
    if exists k :: k in p.records && AbortsOn(env, p.records[k]) {
      var k :| k in p.records && AbortsOn(env, p.records[k]);
      TranslatePassAbortsOn(env, p, k);
    }
  }

  /** A pending record whose Danish file cannot be read, or whose successful
      translation cannot be written, ends the pass early. */
  lemma TranslatePassAbortsOn(env: Translating, p: Progress, k: string)
    requires ValidProgress(p) && k in p.records && AbortsOn(env, p.records[k])
    ensures TranslatePass(env, p).aborted
  {
    TranslateRecordOutcome(env, p.records[k]);
    SweepAbortsIf(p.records, p.order, TranslateStep(env), k);
  }

  /** The pass keeps the store valid with the same keys and order, clears no
      flag and keeps translated ==> processed ==> crawled. */
  lemma TranslatePassKeeps(env: Translating, p: Progress)
    requires ValidProgress(p)
    ensures ValidProgress(Progress(TranslatePass(env, p).records, p.order))
    ensures Grows(p.records, TranslatePass(env, p).records)
    ensures AllChained(p.records) ==> AllChained(TranslatePass(env, p).records)
  {
    TranslateStepProperties(env);
    SweepKeepsChain(p.records, p.order, TranslateStep(env));
  }

  /** w is the English file written for the translated record r: the model's
      trimmed, non-empty answer for r's Danish text, at r's English path. */
  predicate IsEnText(env: Translating, r: Record, w: FileWrite) {
    && Translated(env, r)
    && (var text := env.read(r.dkPath.value).value;
        && env.llm(Prompt(text, "English")).Some?
        && w == FileWrite(EnPathFor(r.dkPath.value), Trim(env.llm(Prompt(text, "English")).value))
        && w.content != [])
  }

  /** Every file written holds a successful, non-empty model answer for some
      translated record, so the failure text never reaches the disk. */
  lemma TranslatePassWrites(env: Translating, p: Progress, n: nat)
    requires ValidProgress(p) && n < |TranslatePass(env, p).writes|
    ensures exists k :: k in p.records && IsEnText(env, p.records[k], TranslatePass(env, p).writes[n])
  {
    SweepWrites(p.records, p.order, TranslateStep(env), n);
    var k :| k in p.order && k in p.records && IsWriteOf(p.records[k], TranslateStep(env), TranslatePass(env, p).writes[n]);
    TranslateSuccess(env.read(p.records[k].dkPath.value).value, env.llm);
  }

  /** Running the pass again with the same outcomes changes nothing, writes
      nothing, and stops where the first run stopped. */
  lemma TranslatePassIdempotent(env: Translating, p: Progress)
    requires ValidProgress(p)
    ensures var first := TranslatePass(env, p);
      TranslatePass(env, Progress(first.records, p.order)) == SweepResult(first.records, [], first.aborted)
  {
    TranslateStepProperties(env);
    SweepIdempotent(p.records, p.order, TranslateStep(env));
  }
}
