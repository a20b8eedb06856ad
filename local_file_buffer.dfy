/** `LocalFileBuffer`: events rendered with `Arrays.toString` and written through
    a `BufferedWriter` into a temporary file named by a random UUID; the file is
    uploaded as a whole and then deleted.

    The writer is modelled as the text it still holds (`pending`) in front of
    the file: each write hands the new text to the writer, which passes some
    leading part of everything it holds on to the file, as decided by
    `spillPolicy` (the buffering of `BufferedWriter` and of the `FileWriter`
    under it). */
module FileBuffer {
  import opened Java
  import opened Storage

  /** The text the writer has been given for `events`: their renderings back to back, with no separator. */
  function Rendered(events: seq<seq<JByte>>): string
  {
    if events == [] then "" else Rendered(events[..|events| - 1]) + ArraysToString(events[|events| - 1])
  }

  class LocalFileBuffer {
    const fs: FileStore
    const path: Path                // fileAbsolutePath: assigned before the writer is opened, never null
    var writerOpen: bool            // bufferedWriter != null
    var pending: string             // text the writer holds and the file does not have yet
    var eventCount: int
    const createdAt: int
    const spillPolicy: nat -> nat   // of n held characters, how many go on to the file
    ghost var events: seq<seq<JByte>>

    /** The file followed by what the writer holds is exactly the rendering of the
        written events; without a writer nothing was ever written. */
    ghost predicate Valid()
      reads this, fs
    {
      && eventCount == |events|
      && (writerOpen ==> path in fs.files && fs.files[path] + pending == Rendered(events))
      && (!writerOpen ==> events == [] && pending == [])
    }

    /** The constructor: the file named `name` (the UUID the caller drew) is created or emptied;
        if that fails the IOException is logged and the buffer is left without a writer. */
    constructor (fs: FileStore, name: Path, now: int, spillPolicy: nat -> nat)
      modifies fs
      ensures Valid() && events == [] && GetEventCount() == 0
      ensures this.fs == fs && path == name && createdAt == now && this.spillPolicy == spillPolicy
      ensures writerOpen == (name !in fs.unwritable)
      ensures fs.files == if writerOpen then old(fs.files)[name := ""] else old(fs.files)
    {
      this.fs := fs;
      path := name;
      createdAt := now;
      this.spillPolicy := spillPolicy;
      pending := "";
      eventCount := 0;
      events := [];
      var created := fs.Create(name);
      writerOpen := created;
    }

    /** `getSize()`: the length of the file on disk, 0 if there is none. */
    function GetSize(): (n: int)
      reads this, fs
      ensures n == fs.Length(path)
      ensures n >= 0
      ensures Valid() && writerOpen ==> n + |pending| == |Rendered(events)|
      ensures Valid() && writerOpen ==> (n == |Rendered(events)| <==> pending == [])
    {
      fs.Length(path)
    }

    function GetEventCount(): (n: int)
      reads this, fs
      requires Valid()
      ensures n == |events|
    {
      eventCount
    }

    /** `getDuration()`: whole seconds since construction, read at `now`. */
    function GetDuration(now: int): (d: int)
      ensures d + createdAt == now
      ensures now >= createdAt ==> d >= 0
    {
      now - createdAt
    }

    /** `writeEvent`: appends `Arrays.toString(bytes)`, with no separator, and counts
        one more event. Without a writer it throws NullPointerException (`ok` false)
        and nothing changes. */
    method WriteEvent(bytes: seq<JByte>) returns (ok: bool)
      requires Valid()
      modifies this, fs
      ensures Valid()
      ensures ok == old(writerOpen) && writerOpen == old(writerOpen)
      ensures events == if ok then old(events) + [bytes] else old(events)
      ensures GetEventCount() == old(GetEventCount()) + (if ok then 1 else 0)
      ensures ok ==> old(fs.files[path]) <= fs.files[path] && fs.files == old(fs.files)[path := fs.files[path]]
      ensures !ok ==> fs.files == old(fs.files) && pending == old(pending)
    {
      if !writerOpen {
        return false;
      }
      ghost var file0, pending0, events0 := fs.files[path], pending, events;
      var held := pending + ArraysToString(bytes);
      var n := if spillPolicy(|held|) > |held| then |held| else spillPolicy(|held|);
      fs.Append(path, held[..n]);
      pending := held[n..];
      eventCount := eventCount + 1;
      events := events + [bytes];
      SpillKeepsText(file0, pending0, ArraysToString(bytes), n);
      RenderedSnoc(events0, bytes);
      ok := true;
    }

    /** `removeTemporaryFile`: deletes the file if it is there; a failed deletion is
        logged, never thrown. The null check of the source cannot fail, as the
        path is assigned in the constructor before anything can throw. */
    method RemoveTemporaryFile()
      modifies fs
      ensures fs.files == if path in fs.undeletable then old(fs.files) else old(fs.files) - {path}
    {
      var deletion := fs.DeleteIfExists(path);
    }

    /** `flushToS3` as written: uploads the file as it is on disk and deletes it only
        after `putObject` returns. When the file is missing `RequestBody.fromFile`
        throws before any request; when `putObject` throws the file stays.
        `returned` is false when an exception escapes. */
    method FlushToS3(store: ObjectStore, bucket: string, key: string) returns (returned: bool)
      modifies store, fs
      ensures path !in old(fs.files) ==> !returned && store.requests == old(store.requests)
      ensures path in old(fs.files) ==>
        && store.requests == old(store.requests) + [PutRequest(ObjectId(bucket, key), FromFile(old(fs.files[path])))]
        && returned == !store.rejects(|old(store.requests)|)
      ensures store.objects == if returned then old(store.objects)[ObjectId(bucket, key) := FromFile(old(fs.files[path]))]
                               else old(store.objects)
      ensures returned && path !in fs.undeletable ==> fs.files == old(fs.files) - {path}
      ensures !returned || path in fs.undeletable ==> fs.files == old(fs.files)
    {
      if path !in fs.files {
        return false;
      }
      returned := store.PutObject(bucket, key, FromFile(fs.files[path]));
      if returned {
        RemoveTemporaryFile();
      }
    }

    /** `flushToS3` with the writer flushed before the upload: the object stored is
        the rendering of every written event. */
    method FlushToS3AfterWriterFlush(store: ObjectStore, bucket: string, key: string) returns (returned: bool)
      requires Valid()
      modifies this, store, fs
      ensures writerOpen ==>
        && store.requests == old(store.requests) + [PutRequest(ObjectId(bucket, key), FromFile(Rendered(events)))]
        && returned == !store.rejects(|old(store.requests)|)
      ensures !writerOpen && path !in old(fs.files) ==> !returned && store.requests == old(store.requests)
      ensures returned ==>
        && |store.requests| == |old(store.requests)| + 1
        && store.requests[..|old(store.requests)|] == old(store.requests)
        && store.objects == old(store.objects)[ObjectId(bucket, key) := store.requests[|old(store.requests)|].body]
      ensures !returned ==> store.objects == old(store.objects)
      ensures events == old(events) && eventCount == old(eventCount) && writerOpen == old(writerOpen)
      ensures writerOpen ==>
        store.objects == if returned then old(store.objects)[ObjectId(bucket, key) := FromFile(Rendered(events))]
                         else old(store.objects)
      ensures returned && path !in fs.undeletable ==> path !in fs.files
      ensures !returned && writerOpen ==> fs.files == old(fs.files)[path := Rendered(events)]
      ensures !returned ==> Valid()
      ensures old(store.requests) <= store.requests && |store.requests| <= |old(store.requests)| + 1
      ensures forall k :: |old(store.requests)| <= k < |store.requests| ==> store.requests[k].id == ObjectId(bucket, key)
    {
      if writerOpen {
        fs.Append(path, pending);
        pending := "";
      }
      if path !in fs.files {
        return false;
      }
      returned := store.PutObject(bucket, key, FromFile(fs.files[path]));
      if returned {
        RemoveTemporaryFile();
      }
    }
  }

  lemma RenderedSnoc(events: seq<seq<JByte>>, e: seq<JByte>)
    ensures Rendered(events + [e]) == Rendered(events) + ArraysToString(e)
  {
    assert (events + [e])[..|events|] == events;
  }

  /** Handing `text` to the writer and moving the first `n` characters it then
      holds on to the file keeps the text of file and writer together, with
      `text` at its end. */
  lemma SpillKeepsText(file: string, pending: string, text: string, n: nat)
    requires n <= |pending + text|
    ensures (file + (pending + text)[..n]) + (pending + text)[n..] == (file + pending) + text
  {
    var held := pending + text;
    assert held[..n] + held[n..] == held;
    assert (file + held[..n]) + held[n..] == file + (held[..n] + held[n..]);
  }

  /** A buffer holding written text in its writer uploads a file without it. */
  lemma PendingTextIsNotUploaded(b: LocalFileBuffer)
    requires b.Valid() && b.writerOpen && b.pending != []
    ensures b.path in b.fs.files && b.fs.files[b.path] != Rendered(b.events)
  {
    assert |b.fs.files[b.path]| < |Rendered(b.events)|;
  }
}
