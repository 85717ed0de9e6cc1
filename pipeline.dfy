/**
  The two functions chained: the SSML object that `txt_to_ssml` writes into
  `ssml-files-bucket` is the event that triggers `ssml_to_audio`.
 */
module Pipeline {
  import opened Wrappers
  import opened Utf8
  import opened Text
  import opened Storage
  import T = TextToSsmlStage
  import A = SsmlToAudioStage

  /** The event the SSML upload of the first stage raises for the second. */
  function Handoff(ev: StorageEvent): StorageEvent {
    StorageEvent(T.ArtifactKey(ev).0, T.ArtifactKey(ev).1)
  }

  /**
    The first stage on a readable `<stem>.txt` upload, with no step failing, completes
    and leaves `<stem>.ssml` in `ssml-files-bucket`: the object that triggers the second
    stage, holding the encoded conversion of the text. The text is archived under
    `text/` and the source is gone.
   */
  lemma FirstStageHandoff(objects: map<Key, Blob>, bucket: string, stem: string, convert: string -> string)
    requires Free(stem, T.TextSuffix)
    requires (bucket, stem + ".txt") in objects && Decode(objects[(bucket, stem + ".txt")].data).Some?
    ensures var src := (bucket, stem + ".txt");
      var text := Decode(objects[src].data).value;
      var ev := StorageEvent(bucket, stem + ".txt");
      var r1 := T.Stage(objects, ev, {}, convert);
      && r1.outcome == T.Done
      && Handoff(ev) == StorageEvent("ssml-files-bucket", stem + ".ssml")
      && ("ssml-files-bucket", stem + ".ssml") in r1.objects
      && r1.objects[("ssml-files-bucket", stem + ".ssml")] == Blob(Encode(convert(text)), "application/ssml+xml")
      && Decode(r1.objects[("ssml-files-bucket", stem + ".ssml")].data) == Some(convert(text))
      && ("text-ssml-completion", "text/" + stem + ".txt") in r1.objects
      && r1.objects[("text-ssml-completion", "text/" + stem + ".txt")] == objects[src]
      && src !in r1.objects
  {
    var src := (bucket, stem + ".txt");
    var text := Decode(objects[src].data).value;
    var ev := StorageEvent(bucket, stem + ".txt");
    assert EndsWith(ev.name, T.TextSuffix) by {
      assert (stem + ".txt")[|stem|..] == ".txt";
    }
    T.DoneExactly(objects, ev, {}, convert);
    T.DoneState(objects, ev, {}, convert);
    T.SsmlNameOfStem(stem);
    DecodeEncode(convert(text));
    assert "text/" + stem + ".txt" == "text/" + (stem + ".txt");
  }

  /**
    A readable `<stem>.txt` upload, with no step failing, ends as `<stem>.mp3` in
    `audio-files-bucket1` holding the audio of the SSML built from the text; both
    intermediate files are archived, both sources are gone, and the topic received
    the SSML name. `convert` is the text-to-SSML conversion (`TextToSsml` in
    `TextToSsmlStage.TxtToSsml`).
   */
  lemma EndToEndWith(objects: map<Key, Blob>, published: seq<Message>, bucket: string, stem: string,
                     convert: string -> string, synthesize: string -> Option<seq<byte>>)
    requires Free(stem, T.TextSuffix) && Free(stem, A.SsmlSuffix)
    requires (bucket, stem + ".txt") in objects && Decode(objects[(bucket, stem + ".txt")].data).Some?
    requires synthesize(convert(Decode(objects[(bucket, stem + ".txt")].data).value)).Some?
    ensures var src := (bucket, stem + ".txt");
      var text := Decode(objects[src].data).value;
      var ev := StorageEvent(bucket, stem + ".txt");
      var r1 := T.Stage(objects, ev, {}, convert);
      var r2 := A.Stage(r1.objects, published, Handoff(ev), {}, synthesize);
      && r1.outcome == T.Done
      && Handoff(ev) == StorageEvent("ssml-files-bucket", stem + ".ssml")
      && r2.outcome == A.Done
      && ("audio-files-bucket1", stem + ".mp3") in r2.objects
      && r2.objects[("audio-files-bucket1", stem + ".mp3")]
         == Blob(synthesize(convert(text)).value, "audio/mpeg")
      && ("text-ssml-completion", "text/" + stem + ".txt") in r2.objects
      && r2.objects[("text-ssml-completion", "text/" + stem + ".txt")] == objects[src]
      && ("text-ssml-completion", "ssml/" + stem + ".ssml") in r2.objects
      && r2.objects[("text-ssml-completion", "ssml/" + stem + ".ssml")]
         == Blob(Encode(convert(text)), "application/ssml+xml")
      && src !in r2.objects
      && ("ssml-files-bucket", stem + ".ssml") !in r2.objects
      && r2.published == published + [Message(A.TopicPath, Encode(stem + ".ssml"))]
  {
    var src := (bucket, stem + ".txt");
    var text := Decode(objects[src].data).value;
    var ev := StorageEvent(bucket, stem + ".txt");
    var r1 := T.Stage(objects, ev, {}, convert);
    var ev2 := Handoff(ev);
    assert EndsWith(ev.name, T.TextSuffix) by {
      assert (stem + ".txt")[|stem|..] == ".txt";
    }
    T.DoneExactly(objects, ev, {}, convert);
    T.DoneState(objects, ev, {}, convert);
    T.SsmlNameOfStem(stem);
    assert ev2 == StorageEvent(T.SsmlBucket, stem + ".ssml");
    var ssmlBlob := Blob(Encode(convert(text)), T.SsmlContentType);
    assert r1.objects[A.SourceKey(ev2)] == ssmlBlob;
    DecodeEncode(convert(text));
    assert EndsWith(ev2.name, A.SsmlSuffix) by {
      assert (stem + ".ssml")[|stem|..] == ".ssml";
    }
    A.DoneExactly(r1.objects, published, ev2, {}, synthesize);
    A.DoneState(r1.objects, published, ev2, {}, synthesize);
    A.AudioNameOfStem(stem);
    var r2 := A.Stage(r1.objects, published, ev2, {}, synthesize);
    var textArchive := T.ArchiveKey(ev);
    assert textArchive.1[0] == 't' && A.ArchiveKey(ev2).1[0] == 's';
    assert textArchive != A.ArchiveKey(ev2);
    assert textArchive != A.AudioKey(ev2) by {
      assert |textArchive.1| == |stem| + 9 && |A.AudioKey(ev2).1| == |stem| + 4;
    }
    assert textArchive != A.SourceKey(ev2) by {
      assert |textArchive.1| == |stem| + 9 && |A.SourceKey(ev2).1| == |stem| + 5;
    }
    A.NothingElseChanges(r1.objects, published, ev2, {}, synthesize, textArchive);
    assert src != A.AudioKey(ev2) && src != A.ArchiveKey(ev2) && src != A.SourceKey(ev2) by {
      assert |src.1| == |stem| + 4 && |A.AudioKey(ev2).1| == |stem| + 4;
      assert src.1[|stem| + 3] == 't' && A.AudioKey(ev2).1[|stem| + 3] == '3';
    }
    A.NothingElseChanges(r1.objects, published, ev2, {}, synthesize, src);
    assert "text/" + stem + ".txt" == "text/" + (stem + ".txt");
    assert "ssml/" + stem + ".ssml" == "ssml/" + (stem + ".ssml");
  }
}
