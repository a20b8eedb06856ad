/** The `Buffer` interface the sink service works against, closed over its two
    implementations, and the `BufferFactory` that makes a new buffer of the
    configured kind. */
module Buffers {
  import opened Java
  import opened Storage
  import opened MemoryBuffer
  import opened FileBuffer

  datatype Buffer = Memory(mem: InMemoryBuffer) | LocalFile(file: LocalFileBuffer)
  {
    /** The buffer object itself. */
    ghost function Own(): object
    {
      match this
      case Memory(m) => m
      case LocalFile(f) => f
    }

    /** Everything the buffer's state lives in. */
    ghost function Repr(): set<object>
    {
      match this
      case Memory(m) => {m}
      case LocalFile(f) => {f, f.fs}
    }

    ghost predicate Valid()
      reads Repr()
    {
      match this
      case Memory(m) => m.Valid()
      case LocalFile(f) => f.Valid()
    }

    /** The events written so far, in order. */
    ghost function Events(): seq<seq<JByte>>
      reads Repr()
    {
      match this
      case Memory(m) => m.events
      case LocalFile(f) => f.events
    }

    /** Whether `writeEvent` can succeed: always in memory, only with a writer on a file. */
    predicate Writable()
      reads Repr()
    {
      match this
      case Memory(_) => true
      case LocalFile(f) => f.writerOpen
    }

    /** What `flushToS3` sends: the bytes of the stream, or the text of the file
        as it is on disk; `None` when there is no file, as `RequestBody.fromFile`
        then throws before any request. A valid buffer that can still be
        written to always has something to send. */
    ghost function Body(): (body: Option<RequestBody>)
      reads Repr()
      ensures Valid() && Writable() ==> body.Some?
    {
      match this
      case Memory(m) => Some(FromBytes(Flatten(m.events)))
      case LocalFile(f) => if f.path in f.fs.files then Some(FromFile(f.fs.files[f.path])) else None
    }

    /** The instant the buffer's stopwatch was started. */
    function CreatedAt(): int
    {
      match this
      case Memory(m) => m.createdAt
      case LocalFile(f) => f.createdAt
    }

    function GetEventCount(): (n: int)
      reads Repr()
      requires Valid()
      ensures n == |Events()|
    {
      match this
      case Memory(m) => m.GetEventCount()
      case LocalFile(f) => f.GetEventCount()
    }

    /** `getSize()`: the length of what a flush would send. */
    function GetSize(): (n: int)
      reads Repr()
      requires Valid()
      ensures n == BodyLength(Body())
    {
      match this
      case Memory(m) => FlattenLength(m.events); m.GetSize()
      case LocalFile(f) => f.GetSize()
    }

    /** `getDuration()`: the time since the stopwatch was started. */
    function GetDuration(now: int): (d: int)
      ensures d == now - CreatedAt()
    {
      match this
      case Memory(m) => m.GetDuration(now)
      case LocalFile(f) => f.GetDuration(now)
    }
  }

  /** `writeEvent` on either kind of buffer; `ok` is false when it throws. */
  method WriteEvent(b: Buffer, bytes: seq<JByte>) returns (ok: bool)
    requires b.Valid()
    modifies b.Repr()
    ensures b.Valid()
    ensures ok == old(b.Writable()) && b.Writable() == old(b.Writable())
    ensures b.Events() == if ok then old(b.Events()) + [bytes] else old(b.Events())
  {
    match b
    case Memory(m) =>
      m.WriteEvent(bytes);
      ok := true;
    case LocalFile(f) =>
      ok := f.WriteEvent(bytes);
  }

  /** `flushToS3` on either kind of buffer, as written: one request of `Body()`
      under `bucket` and `key`, or none when there is nothing to read the body
      from. The events stay. `returned` is false when an exception escapes. */
  method FlushToS3(b: Buffer, store: ObjectStore, bucket: string, key: string) returns (returned: bool)
    requires b.Valid()
    modifies b.Repr(), store
    ensures b.Events() == old(b.Events()) && b.Writable() == old(b.Writable())
    ensures old(b.Body()).Some? ==>
      && store.requests == old(store.requests) + [PutRequest(ObjectId(bucket, key), old(b.Body()).value)]
      && returned == !store.rejects(|old(store.requests)|)
    ensures old(b.Body()).None? ==> !returned && store.requests == old(store.requests)
    ensures store.objects == if returned then old(store.objects)[ObjectId(bucket, key) := old(b.Body()).value]
                             else old(store.objects)
    ensures !returned ==> b.Valid() && b.Body() == old(b.Body())
  {
    match b
    case Memory(m) =>
      returned := m.FlushToS3(store, bucket, key);
    case LocalFile(f) =>
      returned := f.FlushToS3(store, bucket, key);
  }

  /** `BufferFactory.getBuffer()` of the configured kind. A file buffer is named by
      the next draw of the UUID source. */
  datatype BufferFactory = InMemoryFactory | LocalFileFactory(fs: FileStore, uuids: UuidSource, spillPolicy: nat -> nat)
  {
    ghost function Repr(): set<object>
    {
      match this
      case InMemoryFactory => {}
      case LocalFileFactory(fs, uuids, _) => {fs, uuids}
    }

    /** `b` is of the kind this factory makes, on this factory's file store. */
    ghost predicate Made(b: Buffer)
    {
      match this
      case InMemoryFactory => b.Memory?
      case LocalFileFactory(fs, _, _) => b.LocalFile? && b.file.fs == fs
    }

    /** What a flush of a buffer of this kind holding `events` sends: in memory
        exactly their bytes; from a file the text on disk, which, once anything
        was written, is the start of their rendering (the rest is still in the
        writer). */
    ghost predicate Carries(body: Option<RequestBody>, events: seq<seq<JByte>>)
    {
      match this
      case InMemoryFactory => body == Some(FromBytes(Flatten(events)))
      case LocalFileFactory(_, _, _) =>
        && (body.Some? ==> body.value.FromFile?)
        && (events != [] ==> body.Some? && body.value.text <= Rendered(events))
    }
  }

  /** The length of a request body; nothing to send has length 0. */
  function BodyLength(body: Option<RequestBody>): nat
  {
    match body
    case None => 0
    case Some(FromBytes(bytes)) => |bytes|
    case Some(FromFile(text)) => |text|
  }

  /** A valid buffer made by `factory` sends what `Carries` says of its events. */
  lemma BufferCarriesEvents(factory: BufferFactory, b: Buffer)
    requires b.Valid() && factory.Made(b)
    ensures factory.Carries(b.Body(), b.Events())
  {
    if b.LocalFile? && b.Events() != [] {
      var f := b.file;
      assert f.fs.files[f.path] + f.pending == Rendered(f.events);
    }
  }

  method GetBuffer(factory: BufferFactory, now: int) returns (b: Buffer)
    modifies factory.Repr()
    ensures b.Valid() && b.Events() == [] && factory.Made(b)
    ensures fresh(b.Own()) && b.Repr() <= {b.Own()} + factory.Repr()
    ensures b.CreatedAt() == now
    ensures factory.LocalFileFactory? ==>
      && b.LocalFile? && b.file.path == factory.uuids.draws(old(factory.uuids.taken))
      && factory.uuids.taken == old(factory.uuids.taken) + 1
      && b.file.writerOpen == (b.file.path !in factory.fs.unwritable)
      && factory.fs.files == if b.file.writerOpen then old(factory.fs.files)[b.file.path := ""] else old(factory.fs.files)
  {
    match factory
    case InMemoryFactory =>
      var m := new InMemoryBuffer(now);
      b := Memory(m);
    case LocalFileFactory(fs, uuids, spillPolicy) =>
      var name := uuids.RandomUuid();
      var f := new LocalFileBuffer(fs, name, now, spillPolicy);
      b := LocalFile(f);
  }
}
