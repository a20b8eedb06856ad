/** `InMemoryBuffer`: encoded events appended to a growable byte array, with a
    counter and a stopwatch started at construction. */
module MemoryBuffer {
  import opened Java
  import opened Storage

  /** The bytes of several events written back to back. */
  function Flatten(events: seq<seq<JByte>>): seq<JByte>
  {
    if events == [] then [] else Flatten(events[..|events| - 1]) + events[|events| - 1]
  }

  /** The sum of the events' lengths. */
  function TotalLength(events: seq<seq<JByte>>): nat
  {
    if events == [] then 0 else TotalLength(events[1..]) + |events[0]|
  }

  lemma {:induction false} FlattenLength(events: seq<seq<JByte>>)
    ensures |Flatten(events)| == TotalLength(events)
  {
    if events != [] {
      var n := |events|;
      FlattenLength(events[..n - 1]);
      TotalLengthSnoc(events[..n - 1], events[n - 1]);
      assert events[..n - 1] + [events[n - 1]] == events;
    }
  }

  lemma {:induction false} TotalLengthSnoc(events: seq<seq<JByte>>, e: seq<JByte>)
    ensures TotalLength(events + [e]) == TotalLength(events) + |e|
  {
    if events != [] {
      assert (events + [e])[1..] == events[1..] + [e];
      TotalLengthSnoc(events[1..], e);
    }
  }

  /** A prefix of the events holds no more bytes than all of them. */
  lemma {:induction false} TotalLengthPrefix(events: seq<seq<JByte>>, n: nat)
    requires n <= |events|
    ensures TotalLength(events[..n]) <= TotalLength(events)
  {
    if n > 0 {
      assert events[..n][1..] == events[1..][..n - 1];
      TotalLengthPrefix(events[1..], n - 1);
    }
  }

  class InMemoryBuffer {
    var content: seq<JByte>   // the ByteArrayOutputStream
    var eventCount: int
    const createdAt: int      // the instant the stopwatch was started
    ghost var events: seq<seq<JByte>>

    /** The stream holds exactly the written events, in order, and the counter counts them. */
    ghost predicate Valid()
      reads this
    {
      content == Flatten(events) && eventCount == |events|
    }

    constructor (now: int)
      ensures Valid() && events == [] && createdAt == now
      ensures GetSize() == 0 && GetEventCount() == 0
    {
      content := [];
      eventCount := 0;
      createdAt := now;
      events := [];
    }

    /** `getSize()`: the bytes written so far, the sum of the lengths of all events. */
    function GetSize(): (n: int)
      reads this
      requires Valid()
      ensures n == TotalLength(events)
    {
      FlattenLength(events);
      |content|
    }

    /** `getEventCount()`: how many events were written. */
    function GetEventCount(): (n: int)
      reads this
      requires Valid()
      ensures n == |events|
    {
      eventCount
    }

    /** `getDuration()`: whole seconds since construction, read at `now`. */
    function GetDuration(now: int): (d: int)
      ensures d + createdAt == now
      ensures now >= createdAt ==> d >= 0
    {
      now - createdAt
    }

    /** `flushToS3`: one `putObject` of exactly the written bytes; the buffer itself
        is left as it was, content and counter included. `stored` is false when
        `putObject` throws. */
    method FlushToS3(store: ObjectStore, bucket: string, key: string) returns (stored: bool)
      requires Valid()
      modifies store
      ensures stored == !store.rejects(|old(store.requests)|)
      ensures store.requests == old(store.requests) + [PutRequest(ObjectId(bucket, key), FromBytes(Flatten(events)))]
      ensures store.objects == if stored then old(store.objects)[ObjectId(bucket, key) := FromBytes(Flatten(events))]
                               else old(store.objects)
    {
      stored := store.PutObject(bucket, key, FromBytes(content));
    }

    /** `writeEvent`: the bytes go at the end of the stream and the counter goes up by one. */
    method WriteEvent(bytes: seq<JByte>)
      requires Valid()
      modifies this
      ensures Valid()
      ensures events == old(events) + [bytes]
      ensures content == old(content) + bytes
      ensures GetEventCount() == old(GetEventCount()) + 1
      ensures GetSize() == old(GetSize()) + |bytes|
    {
      content := content + bytes;
      eventCount := eventCount + 1;
      events := events + [bytes];
      assert (events)[..|events| - 1] == old(events);
      TotalLengthSnoc(old(events), bytes);
    }
  }
}
