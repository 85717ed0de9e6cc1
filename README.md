# text → SSML → audio pipeline, modelled in Dafny

The repository is two Google Cloud Functions chained by buckets:

- `txt_to_ssml` (text_to_ssml/main.py) fires on a new object. It ignores names that
  do not end in `.txt`. Otherwise it downloads the text, splits it into sentences with
  `re.split(r'(?<=[.!?])\s+', …)`, and builds `<speak>` + each stripped sentence
  followed by `<break time="1s"/>` + `</speak>`. It uploads that to
  `ssml-files-bucket` under the name with `.txt` replaced by `.ssml`, copies the source
  to `text-ssml-completion/text/<name>`, and deletes the source.
- `ssml_to_audio` (ssm_to_audio/main.py) fires on a new object. It ignores names that
  do not end in `.ssml`. Otherwise it downloads the SSML and has Text-to-Speech turn it
  into MP3. It uploads the audio to `audio-files-bucket1` under the name with `.ssml`
  replaced by `.mp3`, copies the source to `text-ssml-completion/ssml/<name>`, deletes
  the source, and publishes the UTF-8 bytes of the source name to a Pub/Sub topic.

In both functions, every step after the name check runs inside one catch-all
`try`. The first failing step ends the run. Nothing written before it is undone,
and the function returns normally.

The model is in nine files, one module each:

- `wrappers.dfy`: `Option`.
- `utf8.dfy`: UTF-8 encoding and strict decoding (`str.encode`, `download_as_text`,
  `upload_from_string`), with both round trips proved.
- `text.dfy`: Python's `str.isspace`, `str.endswith`, `str.replace`, `str.count` and
  `str.strip`.
- `sentences.dfy`: the sentence split. It is characterised by `IsSentenceSplit`, which
  is proved to be met by `Split` and only by it.
- `ssml.dfy`: the SSML builder. The `for` loop is the method `BuildSsml`, proved
  against the function `SsmlDocument`. Properties of the document are proved about
  that function: markers, one break per piece, and reading it back gives the stripped
  pieces.
- `storage.dfy`: the object store and the publisher, as classes whose methods change
  their fields. Each network call takes an `ok` flag, so the environment decides
  whether it fails.
- `text_to_ssml.dfy` and `ssml_to_audio.dfy`: each stage is a method that acts on the
  store step by step. Its postcondition ties the new store, the published messages and
  the outcome to a pure function `Stage` of the old state and the set of failing steps.
  Lemmas about `Stage` state the protocol: filter, effects on success, what a failure
  leaves behind, ordering, and that nothing else changes.
- `pipeline.dfy`: the two stages chained through the SSML upload.

A stage's `Outcome` stands for the line the function logs: skipped, done, or the error
of a given step. The Python functions themselves return `None` in every case.

The model follows the code in these places, where one might expect otherwise:

- `str.replace` renames every occurrence of `.txt` or `.ssml`, not only the suffix.
  `a.txt.b.txt` becomes `a.ssml.b.ssml`.
- A break follows every piece, the last one included. Empty pieces count too: empty
  text gives `<speak><break time="1s"/></speak>`.
- A run does not look at what earlier runs left behind: an existing artifact or
  archive copy is overwritten. A failed delete is logged as an error, and in the second
  stage it also prevents the publish.

## Model

| member | source | states |
|---|---|---|
| Text.StripSpec | text_to_ssml/main.py:34 | `sentence.strip()` is the slice of the sentence left after removing the leading and the trailing white space. It is empty exactly when the sentence is all white space, and otherwise it neither starts nor ends with white space. |
| Text.ReplaceAllFirst | text_to_ssml/main.py:38 | `str.replace` replaces the first occurrence and then carries on scanning after it. |
| Text.ReplaceAllFree | text_to_ssml/main.py:38 | A name without `pat` is left unchanged by `str.replace`. |
| Text.ReplaceAllEndsWith | ssm_to_audio/main.py:47 | A name that ends in a borderless pattern ends in the replacement after `str.replace`. |
| Text.ReplaceAllGrows | text_to_ssml/main.py:38 | Replacing a pattern with a longer one never shortens the name, and it lengthens the name when the pattern occurs. |
| Sentences.SplitIsSentenceSplit | text_to_ssml/main.py:31 | The pieces of `re.split` and the white-space runs between them alternate to give back the text. Every separator is a non-empty, maximal run of white space right after `.`, `!` or `?`, and no piece holds such a place. |
| Sentences.SentenceSplitUnique | text_to_ssml/main.py:31 | Any split with those properties is the one `re.split` returns, so the characterisation determines the pieces. |
| Sentences.Reconstruction | text_to_ssml/main.py:31 | There is one more piece than separators, and joining them back reproduces the input exactly. |
| Sentences.SplitWithoutBoundary | text_to_ssml/main.py:31 | Text with no terminator followed by white space is a single piece. This includes the empty text. |
| Sentences.TrailingPieceIsEmpty | text_to_ssml/main.py:31 | Whatever comes before it, a terminator followed by white space at the end of the text gives an empty last piece. |
| Ssml.BuildSsml | text_to_ssml/main.py:30-35 | The accumulating loop produces exactly `SsmlDocument` of the pieces. |
| Ssml.ConvertText | text_to_ssml/main.py:30-35 | Splitting and then building gives `TextToSsml` of the downloaded text. |
| Ssml.DocumentMarkers | text_to_ssml/main.py:30-35 | Whatever the text, the SSML starts with `<speak>` and ends with `</speak>`. |
| Ssml.BreakCount | text_to_ssml/main.py:31-34 | For pieces without `<`, the document holds exactly one `<break time="1s"/>` per piece, empty pieces included. |
| Ssml.ParseSsmlOfDocument | text_to_ssml/main.py:33-34 | For pieces without `<`, reading the document back gives each piece stripped, in input order. |
| Ssml.TagFreeOfText | text_to_ssml/main.py:31 | Text without `<` splits into pieces without `<`. |
| Ssml.BreakCountOfText | text_to_ssml/main.py:30-35 | For text without `<`, the SSML holds exactly one `<break time="1s"/>` per piece of the split. |
| Ssml.ParseSsmlOfText | text_to_ssml/main.py:30-35 | For text without `<`, the SSML reads back to the pieces of the split, each stripped, in input order. |
| Ssml.EmptyTextSsml | text_to_ssml/main.py:30-35 | Empty text gives `<speak>`, one break, `</speak>`. |
| Utf8.DecodeEncode | text_to_ssml/main.py:27-41 | Text uploaded as UTF-8 downloads as the same text. |
| Utf8.EncodeDecode | text_to_ssml/main.py:27 | Strict decoding accepts only bytes that the encoder produces, and re-encoding gives the same bytes. |
| Storage.ObjectStore.DownloadAsText | text_to_ssml/main.py:27 | The download gives the blob's bytes decoded as UTF-8. It fails when the call fails, when the blob is missing, or when the bytes are not valid UTF-8. |
| Storage.ObjectStore.Upload | text_to_ssml/main.py:41 | The upload creates or overwrites the blob and its content type. A failed upload changes nothing. |
| Storage.ObjectStore.CopyBlob | text_to_ssml/main.py:48 | The destination becomes a copy of the source. The copy fails without effect when the source is missing. |
| Storage.ObjectStore.DeleteBlob | text_to_ssml/main.py:49 | The delete removes the blob. It fails without effect when the blob is missing. |
| Storage.Publisher.Publish | ssm_to_audio/main.py:66-67 | A publish that succeeds appends one acknowledged message. A failed publish appends nothing. |
| TextToSsmlStage.TxtToSsml | text_to_ssml/main.py:13-54 | The function's effect on the store and its outcome are those of `Stage` on the old store, with the SSML built from the downloaded text. |
| TextToSsmlStage.StoreSsml | text_to_ssml/main.py:38-49 | The upload, the copy and the delete, run in that order, stop at the first failure. |
| TextToSsmlStage.SkipsOtherNames | text_to_ssml/main.py:17-19 | The run is skipped exactly when the name does not end in `.txt`, and a skipped run leaves the store unchanged. |
| TextToSsmlStage.SsmlNameOfStem | text_to_ssml/main.py:38 | `<stem>.txt` becomes `<stem>.ssml` when the stem holds no `.txt`. |
| TextToSsmlStage.ReplacesEveryOccurrence | text_to_ssml/main.py:38 | `<a>.txt<b>.txt` becomes `<a>.ssml<b>.ssml`: every occurrence is renamed, not only the suffix. |
| TextToSsmlStage.KeysDistinct | text_to_ssml/main.py:38-48 | For a `.txt` name, the source, the SSML artifact and the archive copy are three different blobs. |
| TextToSsmlStage.DoneExactly | text_to_ssml/main.py:26-51 | The run completes exactly when the name ends in `.txt`, the source exists and is valid UTF-8, and none of download, upload, copy and delete fails. |
| TextToSsmlStage.DoneState | text_to_ssml/main.py:39-49 | On success, `ssml-files-bucket/<ssml name>` holds the UTF-8 SSML of the downloaded text as `application/ssml+xml`. `text-ssml-completion/text/<name>` holds the original blob, and the source is gone. |
| TextToSsmlStage.FailedState | text_to_ssml/main.py:26-54 | A failure at download or upload leaves the store unchanged. A failure at copy leaves exactly the old store plus the SSML blob. A failure at delete leaves the SSML and the archive copy in place. The source is never deleted by a failed run. |
| TextToSsmlStage.DeletedOnlyAfterUploadAndCopy | text_to_ssml/main.py:41-49 | If the source was deleted, the SSML blob holding the encoded conversion of the decoded source with type `application/ssml+xml`, and the archive copy equal to the source blob, are both in place. |
| TextToSsmlStage.NothingElseChanges | text_to_ssml/main.py:13-54 | Every blob other than the source, the artifact and the archive copy is untouched. |
| TextToSsmlStage.ArtifactReadsBack | text_to_ssml/main.py:27-41 | On success, the uploaded artifact downloads as exactly the SSML built from the source text. |
| SsmlToAudioStage.SsmlToAudio | ssm_to_audio/main.py:10-72 | The function's effect on the store and the topic, and its outcome, are those of `Stage` on the old state. |
| SsmlToAudioStage.SkipsOtherNames | ssm_to_audio/main.py:14-16 | The run is skipped exactly when the name does not end in `.ssml`. A skipped run changes neither the store nor the topic. |
| SsmlToAudioStage.AudioNameOfStem | ssm_to_audio/main.py:47 | `<stem>.ssml` becomes `<stem>.mp3` when the stem holds no `.ssml`. |
| SsmlToAudioStage.KeysDistinct | ssm_to_audio/main.py:47-57 | For a `.ssml` name, the source, the audio and the archive copy are three different blobs. |
| SsmlToAudioStage.DoneExactly | ssm_to_audio/main.py:22-69 | The run completes exactly when the name ends in `.ssml`, the source exists and is valid UTF-8, the Text-to-Speech call neither raises nor returns nothing, and none of download, upload, copy, delete and publish fails. |
| SsmlToAudioStage.DoneState | ssm_to_audio/main.py:23-67 | On success, `audio-files-bucket1/<mp3 name>` holds the synthesis result for the downloaded SSML, unchanged, as `audio/mpeg`. The archive holds the original blob, the source is gone, and exactly one message was published: the topic path with the UTF-8 bytes of the name. |
| SsmlToAudioStage.FailedState | ssm_to_audio/main.py:22-72 | A failed run publishes nothing. A failure before the upload leaves the store unchanged. A failure at copy leaves exactly the old store plus the audio blob. Once the copy is done, the audio and the archive copy stay. The source is gone only when the publish failed. |
| SsmlToAudioStage.CopiedOnlyAfterUpload | ssm_to_audio/main.py:50-57 | If the archive copy was written, it is the source blob, and the audio blob holding the synthesized bytes with type `audio/mpeg` is in place. |
| SsmlToAudioStage.DeletedOnlyAfterUploadAndCopy | ssm_to_audio/main.py:50-58 | If the source was deleted, the audio blob holding the synthesized bytes with type `audio/mpeg`, and the archive copy equal to the source blob, are both in place. |
| SsmlToAudioStage.PublishedOnlyAfterDelete | ssm_to_audio/main.py:58-67 | If a message was published, the run completed, so the source was archived and deleted. |
| SsmlToAudioStage.NothingElseChanges | ssm_to_audio/main.py:10-72 | Every blob other than the source, the audio and the archive copy is untouched. |
| SsmlToAudioStage.NoticeCarriesName | ssm_to_audio/main.py:64-66 | On success, the one new message is on the topic, and its payload decodes back to the `.ssml` name. |
| Pipeline.FirstStageHandoff | text_to_ssml/main.py:26-49 | When no step fails, a readable `<stem>.txt` leads the first stage to complete and leave `<stem>.ssml` in `ssml-files-bucket`, the object that triggers the second stage. Its content decodes to the conversion of the text, the text is archived under `text/` and the source is gone. This holds when the stem contains no `.txt`. |
| Pipeline.EndToEndWith | ssm_to_audio/main.py:22-67 | When no step fails, a readable `<stem>.txt` ends as `<stem>.mp3` holding the audio of its SSML. Both inputs are archived with their contents, both sources are gone, and the topic receives `<stem>.ssml`. This holds when the stem contains neither `.txt` nor `.ssml`. |

## Left out

- The Google Cloud Storage, Text-to-Speech and Pub/Sub clients are not modelled. They
  are network services. Each call becomes a store or publisher operation that takes an
  `ok` flag. Text-to-Speech is a function parameter that returns the audio, or None
  when the service raises.
- `storage.Client(...)` is built outside the `try` (text_to_ssml/main.py:21,
  ssm_to_audio/main.py:18), so a failure there would escape the function. The model
  assumes that construction succeeds. The Text-to-Speech and Pub/Sub clients are built
  inside the `try`, so their failure counts as a failure of the synthesis step or the
  publish step.
- The event payload is taken to hold `bucket` and `name`. A missing key, which raises
  before the filter, is not modelled.
- Voice and audio-encoding parameters (ssm_to_audio/main.py:32-39) are library
  configuration with no behaviour the model can check.
- Blocking on the publish future (ssm_to_audio/main.py:67) is not modelled. The model
  treats a publish as one step that either is acknowledged or fails.
- `print` logging is not modelled. The run's outcome is returned instead.
- The content of the log messages and of exceptions is not modelled.
- White space is Python's `str.isspace` set, written out by code point. Both the
  regular expression's `\s` and `str.strip()` use it on `str` input.
- `download_as_text` is modelled as strict UTF-8 decoding. The model does not cover the
  library's choice of a charset from the blob's content type.
- Ssml.BreakCount: it is stated for text without `<` (Ssml.BreakCountOfText). Text that itself contains
  `<break time="1s"/>` adds breaks, because the function does not escape its input.
- Ssml.ParseSsmlOfDocument: it is stated for text without `<` (Ssml.ParseSsmlOfText). Text with markup of its
  own may not read back into its pieces.
- Pipeline.EndToEndWith: it is stated for any conversion function, with the one
  `TxtToSsml` uses (`TextToSsml`) as an instance. It also needs a stem free of `.txt`
  and `.ssml`, because otherwise `str.replace` renames the stem as well.
- A failed call is taken to have had no effect. The model does not cover an upload or
  copy that raises after the service applied it, a delete whose retry meets NotFound
  after the first attempt succeeded, or a publish that raises after delivery. The
  FailedState lemmas of both stages ("store unchanged" after a failed download or
  upload, "the source is never deleted" by a failed run, "nothing is published" by a
  failed run) hold only under this assumption.
- Retries and duplicate deliveries of the triggering event are not modelled. Each run
  is a single invocation on a given store.
