/**
  The second stage, `ssml_to_audio`: it ignores names that do not end in `.ssml`;
  otherwise it downloads the SSML, has it synthesized to MP3, uploads the audio to
  `audio-files-bucket1` under the name with `.ssml` replaced by `.mp3`, copies the
  source to `text-ssml-completion/ssml/<name>`, deletes the source and publishes the
  UTF-8 bytes of the source name to a Pub/Sub topic. All steps after the name check
  sit in one catch-all handler: the first failing step ends the run, nothing written
  before it is undone, and the function returns normally.
 */
module SsmlToAudioStage {
  import opened Wrappers
  import opened Utf8
  import opened Text
  import opened Storage

  const SsmlSuffix := ".ssml"
  const Mp3Suffix := ".mp3"
  const AudioBucket := "audio-files-bucket1"
  const ArchiveBucket := "text-ssml-completion"
  const ArchiveFolder := "ssml/"
  const AudioContentType := "audio/mpeg"
  /** `publisher.topic_path("salim-m", "eventarc-us-central1-ssml-to-audio-976148-902")` */
  const TopicPath := "projects/salim-m/topics/eventarc-us-central1-ssml-to-audio-976148-902"

  /** Which message the function logs: skipped, published (all steps done), or the error of the step that failed. */
  datatype Outcome = Skipped | Done | Failed(step: Step)

  /** The state after one invocation: the store, the acknowledged messages, and the outcome. */
  datatype Run = Run(objects: map<Key, Blob>, published: seq<Message>, outcome: Outcome)

  /** `file_name.replace(".ssml", ".mp3")`: every occurrence is replaced, not only the suffix. */
  function AudioName(name: string): string {
    ReplaceAll(name, SsmlSuffix, Mp3Suffix)
  }

  function SourceKey(ev: StorageEvent): Key {
    (ev.bucket, ev.name)
  }

  function AudioKey(ev: StorageEvent): Key {
    (AudioBucket, AudioName(ev.name))
  }

  function ArchiveKey(ev: StorageEvent): Key {
    (ArchiveBucket, ArchiveFolder + ev.name)
  }

  /** `file_name.encode("utf-8")` on the topic. */
  function Notice(ev: StorageEvent): Message {
    Message(TopicPath, Encode(ev.name))
  }

  /**
    One invocation on the store `objects` and the messages `published` so far, with
    the steps in `faults` failing. `synthesize` is the Text-to-Speech service: the audio
    content for an SSML input, or None when it rejects the input. Synthesis fails when
    `Synthesize` is in `faults` (the client or the call raises) or when the service
    gives None.
   */
  function Stage(objects: map<Key, Blob>, published: seq<Message>, ev: StorageEvent, faults: set<Step>,
                 synthesize: string -> Option<seq<byte>>): Run
  {
    var src := SourceKey(ev);
    if !EndsWith(ev.name, SsmlSuffix) then Run(objects, published, Skipped)
    else if Download in faults || src !in objects || Decode(objects[src].data).None? then
      Run(objects, published, Failed(Download))
    else
      var audio := synthesize(Decode(objects[src].data).value);
      if Synthesize in faults || audio.None? then Run(objects, published, Failed(Synthesize))
      else if Upload in faults then Run(objects, published, Failed(Upload))
      else
        var uploaded := objects[AudioKey(ev) := Blob(audio.value, AudioContentType)];
        if Copy in faults || src !in uploaded then Run(uploaded, published, Failed(Copy))
        else
          var archived := uploaded[ArchiveKey(ev) := uploaded[src]];
          if Delete in faults || src !in archived then Run(archived, published, Failed(Delete))
          else if Publish in faults then Run(archived - {src}, published, Failed(Publish))
          else Run(archived - {src}, published + [Notice(ev)], Done)
  }

  /** The function itself, step by step against the store and the publisher. */
  method SsmlToAudio(store: ObjectStore, publisher: Publisher, ev: StorageEvent, faults: set<Step>,
                     synthesize: string -> Option<seq<byte>>) returns (outcome: Outcome)
    modifies store, publisher
    ensures var r := Stage(old(store.objects), old(publisher.published), ev, faults, synthesize);
      store.objects == r.objects && publisher.published == r.published && outcome == r.outcome
  {
    if !EndsWith(ev.name, SsmlSuffix) {
      return Skipped;
    }
    var ssml := store.DownloadAsText(SourceKey(ev), Download !in faults);
    if ssml.None? {
      return Failed(Download);
    }
    var response: Option<seq<byte>> := None;
    if Synthesize !in faults {
      response := synthesize(ssml.value);
    }
    if response.None? {
      return Failed(Synthesize);
    }
    var audioName := ReplaceAll(ev.name, SsmlSuffix, Mp3Suffix);
    var ok := store.Upload((AudioBucket, audioName), response.value, AudioContentType, Upload !in faults);
    if !ok {
      return Failed(Upload);
    }
    ok := store.CopyBlob(SourceKey(ev), (ArchiveBucket, ArchiveFolder + ev.name), Copy !in faults);
    if !ok {
      return Failed(Copy);
    }
    ok := store.DeleteBlob(SourceKey(ev), Delete !in faults);
    if !ok {
      return Failed(Delete);
    }
    ok := publisher.Publish(TopicPath, Encode(ev.name), Publish !in faults);
    if !ok {
      return Failed(Publish);
    }
    return Done;
  }

  /** Only a name ending in `.ssml` is processed; any other returns at once, with no effect on the store or the topic. */
  lemma SkipsOtherNames(objects: map<Key, Blob>, published: seq<Message>, ev: StorageEvent, faults: set<Step>,
                        synthesize: string -> Option<seq<byte>>)
    ensures var r := Stage(objects, published, ev, faults, synthesize);
      && (r.outcome == Skipped <==> !EndsWith(ev.name, SsmlSuffix))
      && (r.outcome == Skipped ==> r.objects == objects && r.published == published)
  {
  }

  lemma SsmlBorderless()
    ensures Borderless(SsmlSuffix)
  {
    BorderlessByLead(SsmlSuffix);
  }

  /** The naming law: `<stem>.ssml` becomes `<stem>.mp3` when the stem holds no other `.ssml`. */
  lemma AudioNameOfStem(stem: string)
    requires Free(stem, SsmlSuffix)
    ensures AudioName(stem + SsmlSuffix) == stem + Mp3Suffix
  {
    SsmlBorderless();
    NoStraddle(stem, SsmlSuffix);
    ReplaceSuffix(stem, SsmlSuffix, Mp3Suffix);
  }

  /** For a `.ssml` name, the source, the audio and the archive copy are three different blobs. */
  lemma KeysDistinct(ev: StorageEvent)
    requires EndsWith(ev.name, SsmlSuffix)
    ensures SourceKey(ev) != AudioKey(ev)
    ensures SourceKey(ev) != ArchiveKey(ev)
    ensures AudioKey(ev) != ArchiveKey(ev)
  {
    var n := ev.name;
    SsmlBorderless();
    ReplaceAllEndsWith(n, SsmlSuffix, Mp3Suffix);
    assert n[|n| - 1] == 'l' && AudioName(n)[|AudioName(n)| - 1] == '3';
    assert |ArchiveFolder + n| > |n|;
  }

  /** The run reaches the final log line exactly when every step succeeds on a readable `.ssml` source. */
  lemma DoneExactly(objects: map<Key, Blob>, published: seq<Message>, ev: StorageEvent, faults: set<Step>,
                    synthesize: string -> Option<seq<byte>>)
    ensures Stage(objects, published, ev, faults, synthesize).outcome == Done <==>
      && EndsWith(ev.name, SsmlSuffix)
      && Download !in faults && Synthesize !in faults && Upload !in faults
      && Copy !in faults && Delete !in faults && Publish !in faults
      && SourceKey(ev) in objects && Decode(objects[SourceKey(ev)].data).Some?
      && synthesize(Decode(objects[SourceKey(ev)].data).value).Some?
  {
  }

  /**
    On success the synthesized audio of the downloaded SSML sits in `audio-files-bucket1`
    under the new name, the original blob sits under `text-ssml-completion/ssml/<name>`,
    the source is gone, and exactly one message, the source name, was added to the topic.
   */
  lemma DoneState(objects: map<Key, Blob>, published: seq<Message>, ev: StorageEvent, faults: set<Step>,
                  synthesize: string -> Option<seq<byte>>)
    requires Stage(objects, published, ev, faults, synthesize).outcome == Done
    ensures var r, src := Stage(objects, published, ev, faults, synthesize), SourceKey(ev);
      && src in objects
      && Decode(objects[src].data).Some?
      && synthesize(Decode(objects[src].data).value).Some?
      && AudioKey(ev) in r.objects
      && r.objects[AudioKey(ev)] == Blob(synthesize(Decode(objects[src].data).value).value, AudioContentType)
      && ArchiveKey(ev) in r.objects && r.objects[ArchiveKey(ev)] == objects[src]
      && src !in r.objects
      && r.published == published + [Message(TopicPath, Encode(ev.name))]
  {
    var src, aud, arc := SourceKey(ev), AudioKey(ev), ArchiveKey(ev);
    var blob := Blob(synthesize(Decode(objects[src].data).value).value, AudioContentType);
    var uploaded := objects[aud := blob];
    var archived := uploaded[arc := uploaded[src]];
    assert Stage(objects, published, ev, faults, synthesize).objects == archived - {src};
    KeysDistinct(ev);
    assert uploaded[src] == objects[src];
    assert archived[aud] == blob && archived[arc] == objects[src];
  }

  /**
    What a failing step leaves behind: the writes of the steps before it. Nothing is
    published unless every step succeeded, and only a failing publish follows the delete.
   */
  lemma FailedState(objects: map<Key, Blob>, published: seq<Message>, ev: StorageEvent, faults: set<Step>,
                    synthesize: string -> Option<seq<byte>>)
    requires Stage(objects, published, ev, faults, synthesize).outcome.Failed?
    ensures var r, src := Stage(objects, published, ev, faults, synthesize), SourceKey(ev);
      && r.published == published
      && (r.outcome.step in {Download, Synthesize, Upload} ==> r.objects == objects)
      && (r.outcome.step in {Copy, Delete, Publish} ==>
            && src in objects
            && Decode(objects[src].data).Some?
            && synthesize(Decode(objects[src].data).value).Some?
            && AudioKey(ev) in r.objects
            && r.objects[AudioKey(ev)]
               == Blob(synthesize(Decode(objects[src].data).value).value, AudioContentType))
      && (r.outcome.step == Copy ==>
            r.objects == objects[AudioKey(ev) :=
              Blob(synthesize(Decode(objects[src].data).value).value, AudioContentType)])
      && (r.outcome.step in {Delete, Publish} ==>
            ArchiveKey(ev) in r.objects && r.objects[ArchiveKey(ev)] == objects[src])
      && (r.outcome.step == Publish <==> src in objects && src !in r.objects)
  {
    var r, src := Stage(objects, published, ev, faults, synthesize), SourceKey(ev);
    if r.outcome.step in {Copy, Delete, Publish} {
      var aud, arc := AudioKey(ev), ArchiveKey(ev);
      var blob := Blob(synthesize(Decode(objects[src].data).value).value, AudioContentType);
      var uploaded := objects[aud := blob];
      var archived := uploaded[arc := uploaded[src]];
      KeysDistinct(ev);
      assert uploaded[src] == objects[src];
      if r.outcome.step == Copy {
        assert r.objects == uploaded;
      } else if r.outcome.step == Delete {
        assert r.objects == archived;
      } else {
        assert r.objects == archived - {src};
      }
    }
  }

  /**
    The source is deleted only after the audio upload and the archive copy both succeeded,
    and a message is published only after the source was deleted.
   */
  lemma DeletedOnlyAfterUploadAndCopy(objects: map<Key, Blob>, published: seq<Message>, ev: StorageEvent, faults: set<Step>,
                                      synthesize: string -> Option<seq<byte>>)
    requires SourceKey(ev) in objects && SourceKey(ev) !in Stage(objects, published, ev, faults, synthesize).objects
    ensures var r, src := Stage(objects, published, ev, faults, synthesize).objects, SourceKey(ev);
      && Decode(objects[src].data).Some?
      && synthesize(Decode(objects[src].data).value).Some?
      && AudioKey(ev) in r
      && r[AudioKey(ev)] == Blob(synthesize(Decode(objects[src].data).value).value, AudioContentType)
      && ArchiveKey(ev) in r && r[ArchiveKey(ev)] == objects[src]
  {
    var r := Stage(objects, published, ev, faults, synthesize);
    if r.outcome == Done {
      DoneState(objects, published, ev, faults, synthesize);
    } else if r.outcome.Failed? {
      FailedState(objects, published, ev, faults, synthesize);
    }
  }

  /** The archive copy is written only after the audio upload succeeded. */
  lemma CopiedOnlyAfterUpload(objects: map<Key, Blob>, published: seq<Message>, ev: StorageEvent, faults: set<Step>,
                              synthesize: string -> Option<seq<byte>>)
    requires var r := Stage(objects, published, ev, faults, synthesize).objects;
      ArchiveKey(ev) in r && (ArchiveKey(ev) !in objects || r[ArchiveKey(ev)] != objects[ArchiveKey(ev)])
    ensures var r, src := Stage(objects, published, ev, faults, synthesize).objects, SourceKey(ev);
      && src in objects
      && r[ArchiveKey(ev)] == objects[src]
      && Decode(objects[src].data).Some?
      && synthesize(Decode(objects[src].data).value).Some?
      && AudioKey(ev) in r
      && r[AudioKey(ev)] == Blob(synthesize(Decode(objects[src].data).value).value, AudioContentType)
  {
    var r := Stage(objects, published, ev, faults, synthesize);
    if r.outcome == Done {
      DoneState(objects, published, ev, faults, synthesize);
    } else if r.outcome.Failed? {
      FailedState(objects, published, ev, faults, synthesize);
    }
  }

  /** A message goes out only when the run is complete: the source is archived and gone. */
  lemma PublishedOnlyAfterDelete(objects: map<Key, Blob>, published: seq<Message>, ev: StorageEvent, faults: set<Step>,
                                 synthesize: string -> Option<seq<byte>>)
    requires Stage(objects, published, ev, faults, synthesize).published != published
    ensures var r := Stage(objects, published, ev, faults, synthesize);
      && r.outcome == Done
      && SourceKey(ev) in objects && SourceKey(ev) !in r.objects
      && ArchiveKey(ev) in r.objects && r.objects[ArchiveKey(ev)] == objects[SourceKey(ev)]
      && Decode(objects[SourceKey(ev)].data).Some?
      && synthesize(Decode(objects[SourceKey(ev)].data).value).Some?
      && AudioKey(ev) in r.objects
      && r.objects[AudioKey(ev)]
         == Blob(synthesize(Decode(objects[SourceKey(ev)].data).value).value, AudioContentType)
  {
    var r := Stage(objects, published, ev, faults, synthesize);
    if r.outcome.Failed? {
      FailedState(objects, published, ev, faults, synthesize);
    }
    DoneState(objects, published, ev, faults, synthesize);
  }

  /** The run touches at most three blobs: the source, the audio and the archive copy. */
  lemma NothingElseChanges(objects: map<Key, Blob>, published: seq<Message>, ev: StorageEvent, faults: set<Step>,
                           synthesize: string -> Option<seq<byte>>, k: Key)
    requires k != SourceKey(ev) && k != AudioKey(ev) && k != ArchiveKey(ev)
    ensures var r := Stage(objects, published, ev, faults, synthesize).objects;
      (k in r <==> k in objects) && (k in objects ==> r[k] == objects[k])
  {
  }

  /** The published payload decodes back to the name of the processed `.ssml` file. */
  lemma NoticeCarriesName(objects: map<Key, Blob>, published: seq<Message>, ev: StorageEvent, faults: set<Step>,
                          synthesize: string -> Option<seq<byte>>)
    requires Stage(objects, published, ev, faults, synthesize).outcome == Done
    ensures var r := Stage(objects, published, ev, faults, synthesize).published;
      && |r| == |published| + 1
      && r[|published|].topic == TopicPath
      && Decode(r[|published|].data) == Some(ev.name)
  {
    DoneState(objects, published, ev, faults, synthesize);
    DecodeEncode(ev.name);
  }
}
