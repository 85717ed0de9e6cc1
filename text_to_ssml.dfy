/**
  The first stage, `txt_to_ssml`: triggered by a new object, it ignores names that do
  not end in `.txt`; otherwise it downloads the text, turns it into SSML, uploads that
  to `ssml-files-bucket` under the name with `.txt` replaced by `.ssml`, copies the
  source to `text-ssml-completion/text/<name>` and deletes the source. Every step after
  the name check runs inside one catch-all handler: the first failing step ends the
  run, nothing written before it is undone, and the function returns normally.
 */
module TextToSsmlStage {
  import opened Wrappers
  import opened Utf8
  import opened Text
  import opened Ssml
  import opened Storage

  const TextSuffix := ".txt"
  const SsmlSuffix := ".ssml"
  const SsmlBucket := "ssml-files-bucket"
  const ArchiveBucket := "text-ssml-completion"
  const ArchiveFolder := "text/"
  const SsmlContentType := "application/ssml+xml"

  /** Which message the function logs: skipped, moved (all steps done), or the error of the step that failed. */
  datatype Outcome = Skipped | Done | Failed(step: Step)

  /** The state after one invocation. */
  datatype Run = Run(objects: map<Key, Blob>, outcome: Outcome)

  /** `file_name.replace(".txt", ".ssml")`: every occurrence is replaced, not only the suffix. */
  function SsmlName(name: string): string {
    ReplaceAll(name, TextSuffix, SsmlSuffix)
  }

  function SourceKey(ev: StorageEvent): Key {
    (ev.bucket, ev.name)
  }

  function ArtifactKey(ev: StorageEvent): Key {
    (SsmlBucket, SsmlName(ev.name))
  }

  function ArchiveKey(ev: StorageEvent): Key {
    (ArchiveBucket, ArchiveFolder + ev.name)
  }

  /**
    One invocation on the store `objects`, with the steps in `faults` failing and
    `convert` turning the downloaded text into the SSML (the function uses
    `TextToSsml`; the protocol does not depend on which conversion it is).
   */
  function Stage(objects: map<Key, Blob>, ev: StorageEvent, faults: set<Step>, convert: string -> string): Run
  {
    var src := SourceKey(ev);
    if !EndsWith(ev.name, TextSuffix) then Run(objects, Skipped)
    else if Download in faults || src !in objects || Decode(objects[src].data).None? then
      Run(objects, Failed(Download))
    else Deliver(objects, ev, faults, convert(Decode(objects[src].data).value))
  }

  /** The steps after the conversion: upload the SSML, archive the source, delete it. */
  function Deliver(objects: map<Key, Blob>, ev: StorageEvent, faults: set<Step>, ssml: string): Run
  {
    var src := SourceKey(ev);
    if Upload in faults then Run(objects, Failed(Upload))
    else
      var uploaded := objects[ArtifactKey(ev) := Blob(Encode(ssml), SsmlContentType)];
      if Copy in faults || src !in uploaded then Run(uploaded, Failed(Copy))
      else
        var archived := uploaded[ArchiveKey(ev) := uploaded[src]];
        if Delete in faults || src !in archived then Run(archived, Failed(Delete))
        else Run(archived - {src}, Done)
  }

  /** The function itself, step by step against the store. */
  method TxtToSsml(store: ObjectStore, ev: StorageEvent, faults: set<Step>) returns (outcome: Outcome)
    modifies store
    ensures store.objects == Stage(old(store.objects), ev, faults, TextToSsml).objects
    ensures outcome == Stage(old(store.objects), ev, faults, TextToSsml).outcome
  {
    if !EndsWith(ev.name, TextSuffix) {
      return Skipped;
    }
    var text := store.DownloadAsText(SourceKey(ev), Download !in faults);
    if text.None? {
      return Failed(Download);
    }
    var ssml := ConvertText(text.value);
    outcome := StoreSsml(store, ev, faults, ssml);
  }

  /** The steps after the conversion, against the store: upload the SSML, copy the source to the archive, delete it. */
  method StoreSsml(store: ObjectStore, ev: StorageEvent, faults: set<Step>, ssml: string) returns (outcome: Outcome)
    modifies store
    ensures store.objects == Deliver(old(store.objects), ev, faults, ssml).objects
    ensures outcome == Deliver(old(store.objects), ev, faults, ssml).outcome
  {
    var ssmlName := ReplaceAll(ev.name, TextSuffix, SsmlSuffix);
    var ok := store.Upload((SsmlBucket, ssmlName), Encode(ssml), SsmlContentType, Upload !in faults);
    if !ok {
      return Failed(Upload);
    }
    ok := store.CopyBlob(SourceKey(ev), (ArchiveBucket, ArchiveFolder + ev.name), Copy !in faults);
    if !ok {
      return Failed(Copy);
    }
    ok := store.DeleteBlob(SourceKey(ev), Delete !in faults);
    if !ok {
      return Failed(Delete);
    }
    return Done;
  }

  /** Only a name ending in `.txt` is processed; any other returns at once and leaves the store as it was. */
  lemma SkipsOtherNames(objects: map<Key, Blob>, ev: StorageEvent, faults: set<Step>, convert: string -> string)
    ensures Stage(objects, ev, faults, convert).outcome == Skipped <==> !EndsWith(ev.name, TextSuffix)
    ensures !EndsWith(ev.name, TextSuffix) ==> Stage(objects, ev, faults, convert).objects == objects
  {
  }

  /**
    `.txt` is replaced by `.ssml` everywhere in the name, not only at its end:
    `<a>.txt<b>.txt` becomes `<a>.ssml<b>.ssml` (`a.txt.b.txt` becomes `a.ssml.b.ssml`).
   */
  lemma ReplacesEveryOccurrence(a: string, b: string)
    requires Free(a, TextSuffix) && Free(b, TextSuffix)
    ensures SsmlName(a + TextSuffix + b + TextSuffix) == a + SsmlSuffix + b + SsmlSuffix
  {
    TextBorderless();
    NoStraddle(a, TextSuffix);
    ReplaceAllFirst(a, b + TextSuffix, TextSuffix, SsmlSuffix);
    assert a + TextSuffix + b + TextSuffix == a + TextSuffix + (b + TextSuffix);
    SsmlNameOfStem(b);
  }

  lemma TextBorderless()
    ensures Borderless(TextSuffix)
  {
    BorderlessByLead(TextSuffix);
  }

  /** The naming law: `<stem>.txt` becomes `<stem>.ssml` when the stem holds no other `.txt`. */
  lemma SsmlNameOfStem(stem: string)
    requires Free(stem, TextSuffix)
    ensures SsmlName(stem + TextSuffix) == stem + SsmlSuffix
  {
    TextBorderless();
    NoStraddle(stem, TextSuffix);
    ReplaceSuffix(stem, TextSuffix, SsmlSuffix);
  }

  /** For a `.txt` name, the source, the SSML artifact and the archive copy are three different blobs. */
  lemma KeysDistinct(ev: StorageEvent)
    requires EndsWith(ev.name, TextSuffix)
    ensures SourceKey(ev) != ArtifactKey(ev)
    ensures SourceKey(ev) != ArchiveKey(ev)
    ensures ArtifactKey(ev) != ArchiveKey(ev)
  {
    var n := ev.name;
    assert OccursAt(n, TextSuffix, |n| - |TextSuffix|);
    ReplaceAllGrows(n, TextSuffix, SsmlSuffix);
    assert |ArchiveFolder + n| > |n|;
  }

  /** The run completes exactly when the name ends in `.txt`, none of the four steps fails and the source is readable text. */
  lemma DoneExactly(objects: map<Key, Blob>, ev: StorageEvent, faults: set<Step>, convert: string -> string)
    ensures Stage(objects, ev, faults, convert).outcome == Done <==>
      && EndsWith(ev.name, TextSuffix)
      && Download !in faults && Upload !in faults && Copy !in faults && Delete !in faults
      && SourceKey(ev) in objects && Decode(objects[SourceKey(ev)].data).Some?
  {
  }

  /**
    On success the SSML of the downloaded text sits in `ssml-files-bucket` under the
    new name, the original blob sits under `text-ssml-completion/text/<name>`, the source
    is gone, and every other blob is as it was.
   */
  lemma DoneState(objects: map<Key, Blob>, ev: StorageEvent, faults: set<Step>, convert: string -> string)
    requires Stage(objects, ev, faults, convert).outcome == Done
    ensures var r, src := Stage(objects, ev, faults, convert).objects, SourceKey(ev);
      && ArtifactKey(ev) in r
      && r[ArtifactKey(ev)] == Blob(Encode(convert(Decode(objects[src].data).value)), SsmlContentType)
      && ArchiveKey(ev) in r && r[ArchiveKey(ev)] == objects[src]
      && src !in r
  {
    var src, art, arc := SourceKey(ev), ArtifactKey(ev), ArchiveKey(ev);
    var blob := Blob(Encode(convert(Decode(objects[src].data).value)), SsmlContentType);
    var uploaded := objects[art := blob];
    var archived := uploaded[arc := uploaded[src]];
    assert Stage(objects, ev, faults, convert).objects == archived - {src};
    KeysDistinct(ev);
    assert uploaded[src] == objects[src];
    assert archived[art] == blob && archived[arc] == objects[src];
  }

  /** What a failing step leaves behind: the writes of the steps before it, and nothing is deleted. */
  lemma FailedState(objects: map<Key, Blob>, ev: StorageEvent, faults: set<Step>, convert: string -> string)
    requires Stage(objects, ev, faults, convert).outcome.Failed?
    ensures var r, src := Stage(objects, ev, faults, convert), SourceKey(ev);
      && r.outcome.step in {Download, Upload, Copy, Delete}
      && (r.outcome.step in {Download, Upload} ==> r.objects == objects)
      && (r.outcome.step in {Copy, Delete} ==>
            && src in objects
            && Decode(objects[src].data).Some?
            && r.objects[ArtifactKey(ev)]
               == Blob(Encode(convert(Decode(objects[src].data).value)), SsmlContentType))
      && (r.outcome.step == Copy ==>
            r.objects == objects[ArtifactKey(ev) :=
              Blob(Encode(convert(Decode(objects[src].data).value)), SsmlContentType)])
      && (r.outcome.step == Delete ==> r.objects[ArchiveKey(ev)] == objects[src])
      && (src in objects ==> src in r.objects && r.objects[src] == objects[src])
  {
    var r, src := Stage(objects, ev, faults, convert), SourceKey(ev);
    if r.outcome.step in {Copy, Delete} {
      var art, arc := ArtifactKey(ev), ArchiveKey(ev);
      var blob := Blob(Encode(convert(Decode(objects[src].data).value)), SsmlContentType);
      var uploaded := objects[art := blob];
      KeysDistinct(ev);
      if r.outcome.step == Copy {
        assert r.objects == uploaded;
      } else {
        assert r.objects == uploaded[arc := uploaded[src]];
        assert uploaded[src] == objects[src];
      }
    }
  }

  /**
    The source is deleted only after the SSML upload and the archive copy both
    succeeded: if it was there before the run and is gone after, both are in place.
   */
  lemma DeletedOnlyAfterUploadAndCopy(objects: map<Key, Blob>, ev: StorageEvent, faults: set<Step>, convert: string -> string)
    requires SourceKey(ev) in objects && SourceKey(ev) !in Stage(objects, ev, faults, convert).objects
    ensures var r, src := Stage(objects, ev, faults, convert).objects, SourceKey(ev);
      && Decode(objects[src].data).Some?
      && ArtifactKey(ev) in r
      && r[ArtifactKey(ev)] == Blob(Encode(convert(Decode(objects[src].data).value)), SsmlContentType)
      && ArchiveKey(ev) in r && r[ArchiveKey(ev)] == objects[src]
  {
    var r := Stage(objects, ev, faults, convert);
    if r.outcome == Done {
      DoneState(objects, ev, faults, convert);
    } else if r.outcome.Failed? {
      FailedState(objects, ev, faults, convert);
    }
  }

  /** The run touches at most three blobs: the source, the SSML artifact and the archive copy. */
  lemma NothingElseChanges(objects: map<Key, Blob>, ev: StorageEvent, faults: set<Step>, convert: string -> string, k: Key)
    requires k != SourceKey(ev) && k != ArtifactKey(ev) && k != ArchiveKey(ev)
    ensures var r := Stage(objects, ev, faults, convert).objects;
      (k in r <==> k in objects) && (k in objects ==> r[k] == objects[k])
  {
  }

  /** The uploaded artifact reads back, as UTF-8 text, to exactly the SSML built from the source. */
  lemma ArtifactReadsBack(objects: map<Key, Blob>, ev: StorageEvent, faults: set<Step>, convert: string -> string)
    requires Stage(objects, ev, faults, convert).outcome == Done
    ensures var r := Stage(objects, ev, faults, convert).objects;
      ArtifactKey(ev) in r && Decode(r[ArtifactKey(ev)].data) == Some(convert(Decode(objects[SourceKey(ev)].data).value))
  {
    DoneState(objects, ev, faults, convert);
    DecodeEncode(convert(Decode(objects[SourceKey(ev)].data).value));
  }
}
