/**
  The external state the stages act on: an object store of buckets and blobs, and a
  Pub/Sub publisher. Every call that goes over the network takes an `ok` flag: the
  environment decides whether it succeeds; a failed call changes nothing. Calls that
  need an existing blob also fail when it is missing (the client raises NotFound).
 */
module Storage {
  import opened Wrappers
  import opened Utf8

  /** A blob's address: (bucket name, object name). */
  type Key = (string, string)

  datatype Blob = Blob(data: seq<byte>, contentType: string)

  /** The event a stage is triggered with: the bucket and name of the new object. */
  datatype StorageEvent = StorageEvent(bucket: string, name: string)

  /** The fallible steps of the two stages. */
  datatype Step = Download | Synthesize | Upload | Copy | Delete | Publish

  class ObjectStore {
    var objects: map<Key, Blob>

    constructor (initial: map<Key, Blob>)
      ensures objects == initial
    {
      objects := initial;
    }

    /** `blob.download_as_text()`: the blob's bytes read as UTF-8; fails if missing or not valid UTF-8. */
    method DownloadAsText(key: Key, ok: bool) returns (text: Option<string>)
      ensures text == if ok && key in objects then Decode(objects[key].data) else None
    {
      if ok && key in objects {
        text := Decode(objects[key].data);
      } else {
        text := None;
      }
    }

    /** `blob.upload_from_string(data, content_type=...)`: creates or overwrites the blob. */
    method Upload(key: Key, data: seq<byte>, contentType: string, ok: bool) returns (done: bool)
      modifies this
      ensures done == ok
      ensures objects == if done then old(objects)[key := Blob(data, contentType)] else old(objects)
    {
      done := ok;
      if done {
        objects := objects[key := Blob(data, contentType)];
      }
    }

    /** `bucket.copy_blob(blob, destination_bucket, new_name)`: the blob at `dst` becomes a copy of the one at `src`. */
    method CopyBlob(src: Key, dst: Key, ok: bool) returns (done: bool)
      modifies this
      ensures done == (ok && src in old(objects))
      ensures objects == if done then old(objects)[dst := old(objects)[src]] else old(objects)
    {
      done := ok && src in objects;
      if done {
        objects := objects[dst := objects[src]];
      }
    }

    /** `bucket.delete_blob(name)`: removes the blob. */
    method DeleteBlob(key: Key, ok: bool) returns (done: bool)
      modifies this
      ensures done == (ok && key in old(objects))
      ensures objects == if done then old(objects) - {key} else old(objects)
    {
      done := ok && key in objects;
      if done {
        objects := objects - {key};
      }
    }
  }

  datatype Message = Message(topic: string, data: seq<byte>)

  /** A Pub/Sub publisher: the messages it has had acknowledged, in order. */
  class Publisher {
    var published: seq<Message>

    constructor ()
      ensures published == []
    {
      published := [];
    }

    /** `publisher.publish(topic, data).result()`: one acknowledged message, or a failure. */
    method Publish(topic: string, data: seq<byte>, ok: bool) returns (done: bool)
      modifies this
      ensures done == ok
      ensures published == if done then old(published) + [Message(topic, data)] else old(published)
    {
      done := ok;
      if done {
        published := published + [Message(topic, data)];
      }
    }
  }
}
