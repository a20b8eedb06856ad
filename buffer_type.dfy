/** `BufferType`: the retrying upload of one object, the "keep accumulating"
    test, and the accumulator that batches a list of events into records and
    hands them to `flushRecordsToAmazonS3`. */
module BufferType {
  import opened Java
  import opened Storage
  import opened SinkConfig
  import opened ObjectKey

  // ---------------------------------------------------------------------------
  // uploadToAmazonS3

  const TwoTo32: int := 0x1_0000_0000

  /** The number of failed attempts after which a Java `int` retry counter that
      starts at `n` and is decremented once per failure first equals 0. */
  function RetryBudget(n: JInt): (b: nat)
    ensures b >= 1
    ensures n > 0 ==> b == n
    ensures n <= 0 ==> b > IntMax
  {
    if n > 0 then n else n + TwoTo32
  }

  /** The retry counter after `k` decrements of its initial value `n`. */
  function Decremented(n: JInt, k: nat): JInt
  {
    Int32(n - k)
  }

  /** The budget is the first count of decrements that brings the counter to 0. */
  lemma RetryBudgetIsFirstZero(n: JInt)
    ensures Decremented(n, RetryBudget(n)) == 0
    ensures forall k: nat :: 0 < k < RetryBudget(n) ==> Decremented(n, k) != 0
  {
    var b := RetryBudget(n);
    forall k: nat | 0 < k < b ensures Decremented(n, k) != 0 {
      if n - k < IntMin {
        Int32Below(n - k);
      }
    }
    if n <= 0 {
      Int32Below(n - b);
    }
  }

  /** Below the `int` range, one turn of 2^32 brings a value back into it. */
  lemma Int32Below(x: int)
    requires IntMin - TwoTo32 <= x < IntMin
    ensures Int32(x) == x + TwoTo32
  {
    var y := x - IntMin;
    assert -TwoTo32 <= y < 0;
    if y == -TwoTo32 {
      assert y % TwoTo32 == 0;
    } else {
      assert y % TwoTo32 == y + TwoTo32;
    }
  }

  /** One more failure: the counter either reaches 0 (the last attempt of its
      budget) or has a budget one smaller. */
  lemma RetryBudgetStep(r: JInt)
    ensures Int32(r - 1) == 0 <==> RetryBudget(r) == 1
    ensures Int32(r - 1) != 0 ==> RetryBudget(Int32(r - 1)) == RetryBudget(r) - 1
  {
    if r == IntMin {
      assert Int32(r - 1) == IntMax by {
        assert (IntMax - (r - 1)) % TwoTo32 == 0;
      }
    }
  }

  /** `retryCount--` on a Java `int`: the counter reaches 0 exactly when its
      budget had one attempt left, and otherwise has a budget one smaller. */
  method CountFailure(retryCount: JInt) returns (next: JInt)
    ensures next == Int32(retryCount - 1)
    ensures next == 0 <==> RetryBudget(retryCount) == 1
    ensures next != 0 ==> RetryBudget(next) == RetryBudget(retryCount) - 1
  {
    RetryBudgetStep(retryCount);
    next := Int32(retryCount - 1);
  }

  /** How many `putObject` calls a budget of `budget` attempts makes when the
      store's `start`-th, `start + 1`-th, ... calls are rejected as `rejects` says. */
  function Attempts(rejects: nat -> bool, start: nat, budget: nat): (n: nat)
    requires budget >= 1
    ensures 1 <= n <= budget
    decreases budget
  {
    if !rejects(start) || budget == 1 then 1 else 1 + Attempts(rejects, start + 1, budget - 1)
  }

  /** The attempts stop at the first accepted request, or when the budget is spent:
      every attempt but the last was rejected, and stopping early means the last
      one was accepted. */
  lemma {:induction false} AttemptsStopAtFirstSuccess(rejects: nat -> bool, start: nat, budget: nat)
    requires budget >= 1
    decreases budget
    ensures var n := Attempts(rejects, start, budget);
      && (forall i :: start <= i < start + n - 1 ==> rejects(i))
      && (n < budget ==> !rejects(start + n - 1))
  {
    if rejects(start) && budget > 1 {
      AttemptsStopAtFirstSuccess(rejects, start + 1, budget - 1);
    }
  }

  /** A store that rejects every request in the window takes the whole budget. */
  lemma {:induction false} AttemptsAgainstFailingStore(rejects: nat -> bool, start: nat, budget: nat)
    requires budget >= 1
    requires forall i :: start <= i < start + budget ==> rejects(i)
    ensures Attempts(rejects, start, budget) == budget
    decreases budget
  {
    if budget > 1 {
      AttemptsAgainstFailingStore(rejects, start + 1, budget - 1);
    }
  }

  /** One more attempt, `done` attempts into a window whose remaining budget is `left`. */
  lemma AttemptsStep(rejects: nat -> bool, start: nat, budget: nat, done: nat, left: nat)
    requires budget >= 1 && left >= 1
    requires Attempts(rejects, start, budget) == done + Attempts(rejects, start + done, left)
    ensures !rejects(start + done) || left == 1 ==> Attempts(rejects, start, budget) == done + 1
    ensures rejects(start + done) && left > 1 ==>
      Attempts(rejects, start, budget) == done + 1 + Attempts(rejects, start + done + 1, left - 1)
  {
  }

  /** One more copy at the end. */
  lemma RepeatStep<T>(base: seq<T>, x: T, n: nat)
    ensures (base + Repeat(x, n)) + [x] == base + Repeat(x, n + 1)
  {
    assert Repeat(x, n + 1) == Repeat(x, n) + [x];
  }

  /** `n` copies of `x`. */
  function Repeat<T>(x: T, n: nat): (r: seq<T>)
    ensures |r| == n && forall i :: 0 <= i < n ==> r[i] == x
  {
    if n == 0 then [] else Repeat(x, n - 1) + [x]
  }

  /** The key of an upload: the prefix followed by the name, unless the prefix is
      null or empty, in which case the name alone. */
  function UploadKey(pathPrefix: string, name: string): (key: string)
    ensures key == pathPrefix + name
  {
    if pathPrefix != [] then pathPrefix + name else name
  }

  /** The key `uploadToAmazonS3` builds: the configured path prefix, then the file name. */
  method BuildKey(config: S3SinkConfig, renderer: DateRenderer, now: int) returns (key: string)
    ensures key == ConfiguredPathPrefix(config, renderer, now) + ConfiguredFileName(config, renderer, now)
  {
    var pathPrefix := BuildingPathPrefix(config.pathPrefix, renderer.PathPrefixAt(now));
    var namePattern := ConfiguredFileName(config, renderer, now);
    key := UploadKey(pathPrefix, namePattern);
  }

  /** `uploadToAmazonS3` as written: `maxUploadRetries` failures are allowed, counted
      down in a Java `int` that is compared with 0 only, and a 5 second sleep
      (counted in `sleeps`) follows every failure that does not end the loop.
      Every attempt puts `body` under the same bucket and key. */
  method UploadToAmazonS3(config: S3SinkConfig, renderer: DateRenderer, now: int, store: ObjectStore, body: RequestBody)
    returns (uploaded: bool, attempts: nat, sleeps: nat)
    modifies store
    ensures var start := |old(store.requests)|;
      && attempts == Attempts(store.rejects, start, RetryBudget(config.maxUploadRetries))
      && uploaded == !store.rejects(start + attempts - 1)
    ensures sleeps == attempts - 1
    ensures var key := ConfiguredPathPrefix(config, renderer, now) + ConfiguredFileName(config, renderer, now);
      var request := PutRequest(ObjectId(config.bucketName, key), body);
      && store.requests == old(store.requests) + Repeat(request, attempts)
      && store.objects == if uploaded then old(store.objects)[request.id := body] else old(store.objects)
  {
    var key := BuildKey(config, renderer, now);
    uploaded, attempts, sleeps := PutWithRetries(store, ObjectId(config.bucketName, key), body, config.maxUploadRetries);
  }

  /** The retry loop of `uploadToAmazonS3` as written, for the object `id`. */
  method PutWithRetries(store: ObjectStore, id: ObjectId, body: RequestBody, maxUploadRetries: JInt)
    returns (uploaded: bool, attempts: nat, sleeps: nat)
    modifies store
    ensures var start := |old(store.requests)|;
      && attempts == Attempts(store.rejects, start, RetryBudget(maxUploadRetries))
      && uploaded == !store.rejects(start + attempts - 1)
    ensures sleeps == attempts - 1
    ensures store.requests == old(store.requests) + Repeat(PutRequest(id, body), attempts)
    ensures store.objects == if uploaded then old(store.objects)[id := body] else old(store.objects)
  {
    ghost var start := |store.requests|;
    ghost var budget := RetryBudget(maxUploadRetries);
    ghost var request := PutRequest(id, body);
    uploaded := false;
    var retryCount: JInt := maxUploadRetries;
    attempts, sleeps := 0, 0;
    while !uploaded
      invariant !uploaded ==>
        && attempts + RetryBudget(retryCount) == budget
        && Attempts(store.rejects, start, budget) == attempts + Attempts(store.rejects, start + attempts, RetryBudget(retryCount))
        && sleeps == attempts
      invariant uploaded ==>
        && attempts == Attempts(store.rejects, start, budget)
        && !store.rejects(start + attempts - 1)
        && sleeps == attempts - 1
      invariant store.requests == old(store.requests) + Repeat(request, attempts)
      invariant store.objects == if uploaded then old(store.objects)[id := body] else old(store.objects)
      decreases RetryBudget(retryCount), if uploaded then 0 else 1
    {
      AttemptsStep(store.rejects, start, budget, attempts, RetryBudget(retryCount));
      RepeatStep(old(store.requests), request, attempts);
      var stored := store.PutObject(id.bucket, id.key, body);
      attempts := attempts + 1;
      if stored {
        uploaded := true;
      } else {
        retryCount := CountFailure(retryCount);
        if retryCount == 0 {
          return;
        }
        sleeps := sleeps + 1;
      }
    }
  }

  /** `uploadToAmazonS3` as evidently intended: `maxUploadRetries` of 0 or less
      allows a single attempt, so at most `max(maxUploadRetries, 1)` requests
      are made. */
  method UploadToAmazonS3WithinRetries(config: S3SinkConfig, renderer: DateRenderer, now: int, store: ObjectStore, body: RequestBody)
    returns (uploaded: bool, attempts: nat, sleeps: nat)
    modifies store
    ensures var start := |old(store.requests)|;
      && attempts == Attempts(store.rejects, start, MaxRetries(config.maxUploadRetries))
      && uploaded == !store.rejects(start + attempts - 1)
    ensures sleeps == attempts - 1
    ensures var key := ConfiguredPathPrefix(config, renderer, now) + ConfiguredFileName(config, renderer, now);
      var request := PutRequest(ObjectId(config.bucketName, key), body);
      && store.requests == old(store.requests) + Repeat(request, attempts)
      && store.objects == if uploaded then old(store.objects)[request.id := body] else old(store.objects)
  {
    var key := BuildKey(config, renderer, now);
    uploaded, attempts, sleeps := PutWithinRetries(store, ObjectId(config.bucketName, key), body, config.maxUploadRetries);
  }

  /** The retry loop as evidently intended, for the object `id`. */
  method PutWithinRetries(store: ObjectStore, id: ObjectId, body: RequestBody, maxUploadRetries: JInt)
    returns (uploaded: bool, attempts: nat, sleeps: nat)
    modifies store
    ensures var start := |old(store.requests)|;
      && attempts == Attempts(store.rejects, start, MaxRetries(maxUploadRetries))
      && uploaded == !store.rejects(start + attempts - 1)
    ensures sleeps == attempts - 1
    ensures store.requests == old(store.requests) + Repeat(PutRequest(id, body), attempts)
    ensures store.objects == if uploaded then old(store.objects)[id := body] else old(store.objects)
  {
    ghost var start := |store.requests|;
    ghost var budget := MaxRetries(maxUploadRetries);
    ghost var request := PutRequest(id, body);
    uploaded := false;
    var retryCount: JInt := maxUploadRetries;
    attempts, sleeps := 0, 0;
    while !uploaded
      invariant !uploaded ==>
        && attempts + MaxRetries(retryCount) == budget
        && Attempts(store.rejects, start, budget) == attempts + Attempts(store.rejects, start + attempts, MaxRetries(retryCount))
        && sleeps == attempts
      invariant uploaded ==>
        && attempts == Attempts(store.rejects, start, budget)
        && !store.rejects(start + attempts - 1)
        && sleeps == attempts - 1
      invariant store.requests == old(store.requests) + Repeat(request, attempts)
      invariant store.objects == if uploaded then old(store.objects)[id := body] else old(store.objects)
      decreases MaxRetries(retryCount), if uploaded then 0 else 1
    {
      AttemptsStep(store.rejects, start, budget, attempts, MaxRetries(retryCount));
      RepeatStep(old(store.requests), request, attempts);
      var stored := store.PutObject(id.bucket, id.key, body);
      attempts := attempts + 1;
      if stored {
        uploaded := true;
      } else {
        if retryCount <= 1 {
          return;
        }
        retryCount := retryCount - 1;
        sleeps := sleeps + 1;
      }
    }
  }

  /** The number of attempts `maxUploadRetries` is meant to allow. */
  function MaxRetries(n: JInt): (b: nat)
    ensures b >= 1 && b >= n
    ensures n >= 1 ==> b == n
  {
    if n > 0 then n else 1
  }

  /** As written, a retry setting of `n <= 0` against a store that rejects
      everything makes `2^32 + n` attempts, more than any positive setting
      allows; as intended it makes one. */
  lemma NonPositiveRetriesAgainstFailingStore(n: JInt, rejects: nat -> bool, start: nat)
    requires n <= 0
    requires forall i :: start <= i ==> rejects(i)
    ensures Attempts(rejects, start, RetryBudget(n)) == TwoTo32 + n > IntMax
    ensures Attempts(rejects, start, MaxRetries(n)) == 1
  {
    AttemptsAgainstFailingStore(rejects, start, RetryBudget(n));
  }

  /** With a positive setting both versions agree: `n` attempts against a store
      that rejects everything, hence `n - 1` sleeps. */
  lemma PositiveRetriesAgainstFailingStore(n: JInt, rejects: nat -> bool, start: nat)
    requires n >= 1
    requires forall i :: start <= i ==> rejects(i)
    ensures RetryBudget(n) == MaxRetries(n) == n
    ensures Attempts(rejects, start, RetryBudget(n)) == n
  {
    AttemptsAgainstFailingStore(rejects, start, n);
  }

  // ---------------------------------------------------------------------------
  // thresholdsCheck

  /** `thresholdsCheck`: whether to keep accumulating, given the events taken so
      far in this batch, the stopwatch reading in seconds and the bytes so far.
      It keeps accumulating only while every limit is strictly above its
      measure; the event limit is consulted only once an event has been taken,
      so an empty batch is closed by the duration or the byte capacity alone. */
  function ThresholdsCheck(eventCount: int, elapsed: int, byteCount: int, numEvents: int, byteCapacity: int, duration: int): (keep: bool)
    ensures keep ==> elapsed < duration && byteCount < byteCapacity
    ensures keep && eventCount > 0 ==> eventCount < numEvents
    ensures eventCount <= 0 ==> (keep <==> elapsed < duration && byteCount < byteCapacity)
  {
    if eventCount > 0 then
      eventCount < numEvents && elapsed < duration && byteCount < byteCapacity
    else
      elapsed < duration && byteCount < byteCapacity
  }

  // ---------------------------------------------------------------------------
  // bufferAccumulator

  /** What a call of `flushRecordsToAmazonS3` does: returns whether the upload
      succeeded, or throws InterruptedException. */
  datatype FlushOutcome = FlushReturned(uploaded: bool) | FlushInterrupted

  /** How `bufferAccumulator` ended: every event was taken and the loop left,
      `parse` threw IOException, a flush threw InterruptedException, or the
      threshold checks the run was allowed (`fuel`) ran out. */
  datatype AccumulatorEnd = Drained | ParseFailed | Interrupted | Stalled

  predicate AllParse<E>(codec: Codec<E>, events: seq<E>)
  {
    forall i :: 0 <= i < |events| ==> codec.parse(events[i]).Encoded?
  }

  /** The records of `events`: each serialization followed by the line separator, in order. */
  function Lines<E>(codec: Codec<E>, events: seq<E>, lineSeparator: string): (lines: seq<string>)
    requires AllParse(codec, events)
    ensures |lines| == |events|
    ensures forall i :: 0 <= i < |events| ==> lines[i] == codec.parse(events[i]).text + lineSeparator
  {
    if events == [] then []
    else Lines(codec, events[..|events| - 1], lineSeparator) + [codec.parse(events[|events| - 1]).text + lineSeparator]
  }

  /** The length of the serializations' bytes, separators not included. */
  function ByteTotal<E>(codec: Codec<E>, events: seq<E>): nat
    requires AllParse(codec, events)
  {
    if events == [] then 0
    else ByteTotal(codec, events[..|events| - 1]) + |codec.getBytes(codec.parse(events[|events| - 1]).text)|
  }

  /** The `int` sum wraps the same way whether it wraps at every step or once. */
  lemma Int32AddWrapped(a: int, b: int)
    ensures Int32(Int32(a) + b) == Int32(a + b)
  {
    var x, y := Int32(Int32(a) + b), Int32(a + b);
    assert (x - y) % TwoTo32 == 0 by {
      assert (x - (Int32(a) + b)) % TwoTo32 == 0;
      assert (y - (a + b)) % TwoTo32 == 0;
      assert (Int32(a) - a) % TwoTo32 == 0;
      ModSum(x - (Int32(a) + b), Int32(a) - a, y - (a + b));
    }
    Int32Unique(x, y);
  }

  lemma ModSum(p: int, q: int, r: int)
    requires p % TwoTo32 == 0 && q % TwoTo32 == 0 && r % TwoTo32 == 0
    ensures (p + q - r) % TwoTo32 == 0
  {
    var a, b, c := p / TwoTo32, q / TwoTo32, r / TwoTo32;
    assert p == a * TwoTo32 && q == b * TwoTo32 && r == c * TwoTo32;
    assert p + q - r == (a + b - c) * TwoTo32;
  }

  lemma Int32Unique(x: int, y: int)
    requires IsInt(x) && IsInt(y) && (x - y) % TwoTo32 == 0
    ensures x == y
  {
    var q := (x - y) / TwoTo32;
    assert x - y == q * TwoTo32;
  }

  /** Taking one more event that parses adds its record at the end and its byte
      length to the wrapped total. */
  lemma TakeOne<E>(codec: Codec<E>, events: seq<E>, parsed: nat, lineSeparator: string)
    requires parsed < |events| && AllParse(codec, events[..parsed])
    requires codec.parse(events[parsed]).Encoded?
    ensures AllParse(codec, events[..parsed + 1])
    ensures Lines(codec, events[..parsed + 1], lineSeparator)
         == Lines(codec, events[..parsed], lineSeparator) + [codec.parse(events[parsed]).text + lineSeparator]
    ensures Int32(ByteTotal(codec, events[..parsed + 1]))
         == Int32(Int32(ByteTotal(codec, events[..parsed])) + |codec.getBytes(codec.parse(events[parsed]).text)|)
  {
    var taken := events[..parsed + 1];
    assert taken[..parsed] == events[..parsed];
    assert forall i :: 0 <= i < parsed + 1 ==> taken[i] == events[i];
    Int32AddWrapped(ByteTotal(codec, events[..parsed]), |codec.getBytes(codec.parse(events[parsed]).text)|);
  }

  /** `bufferAccumulator`. The loops are those of the source: while events remain,
      a new batch starts (byte count 0, stopwatch restarted); while
      `thresholdsCheck` holds, every remaining event is parsed and added; then
      the records collected so far are flushed. `elapsed(k)` is the stopwatch
      reading seen by the `k`-th threshold check, and `flushOutcome(k)` what the
      `k`-th flush does. Returned are the records list, the list handed to each
      flush, the number of events taken and the last batch's byte count.

      The inner loop takes every remaining event, so one batch parses them all;
      when the first check of a batch fails nothing is taken, the empty list is
      flushed and the outer loop starts over with the same events. */
  method BufferAccumulator<E>(events: seq<E>, thresholds: Thresholds, codec: Codec<E>, lineSeparator: string,
                              elapsed: nat -> nat, flushOutcome: nat -> FlushOutcome, fuel: nat)
    returns (records: seq<string>, flushes: seq<seq<string>>, parsed: nat, byteCount: int, end: AccumulatorEnd)
    ensures parsed <= |events| && AllParse(codec, events[..parsed])
    ensures records == Lines(codec, events[..parsed], lineSeparator)
    ensures byteCount == Int32(ByteTotal(codec, events[..parsed]))
    ensures forall f :: f in flushes ==> f == [] || f == records
    ensures forall k :: 0 <= k < |flushes| && flushOutcome(k).FlushInterrupted? ==> k == |flushes| - 1 && end == Interrupted
    ensures end == Interrupted ==> |flushes| > 0 && flushOutcome(|flushes| - 1).FlushInterrupted?
    ensures end == Drained ==> parsed == |events|
    ensures end == Drained && events != [] ==> |flushes| > 0 && flushes[|flushes| - 1] == records
    ensures events == [] ==> end == Drained && flushes == []
    ensures end == ParseFailed ==> parsed < |events| && codec.parse(events[parsed]).EncodingError? && forall f :: f in flushes ==> f == []
    ensures thresholds.eventCollectSeconds <= 0 || thresholds.maximumBytes <= 0 ==>
      parsed == 0 && records == [] && (events != [] ==> end == Interrupted || end == Stalled)
  {
    var numEvents, byteCapacity, duration := thresholds.eventCount, thresholds.maximumBytes, thresholds.eventCollectSeconds;
    ghost var blocked := duration <= 0 || byteCapacity <= 0;
    records, flushes, parsed, byteCount := [], [], 0, 0;
    var checks: nat := 0;
    var budget := fuel;
    while parsed < |events|
      invariant parsed <= |events| && AllParse(codec, events[..parsed])
      invariant records == Lines(codec, events[..parsed], lineSeparator)
      invariant byteCount == Int32(ByteTotal(codec, events[..parsed]))
      invariant parsed == 0 || parsed == |events|
      invariant parsed == 0 ==> forall f :: f in flushes ==> f == []
      invariant parsed > 0 ==> |flushes| > 0 && flushes[|flushes| - 1] == records
      invariant forall f :: f in flushes ==> f == [] || f == records
      invariant forall k :: 0 <= k < |flushes| ==> flushOutcome(k).FlushReturned?
      invariant events == [] ==> flushes == []
      invariant blocked ==> parsed == 0
      decreases budget
    {
      byteCount := 0;
      var data := 0;   // eventCount and data of the source: events taken in this batch
      while true
        invariant parsed <= |events| && AllParse(codec, events[..parsed])
        invariant records == Lines(codec, events[..parsed], lineSeparator)
        invariant byteCount == Int32(ByteTotal(codec, events[..parsed]))
        invariant parsed == 0 || parsed == |events|
        invariant data == parsed
        invariant forall f :: f in flushes ==> f == []
        invariant blocked ==> parsed == 0
        decreases budget
      {
        if budget == 0 {
          end := Stalled;
          return;
        }
        budget := budget - 1;
        var keep := ThresholdsCheck(data, elapsed(checks), byteCount, numEvents, byteCapacity, duration);
        checks := checks + 1;
        if !keep {
          break;
        }
        var failed;
        records, parsed, byteCount, failed := TakeRemaining(events, codec, lineSeparator, records, parsed, byteCount);
        data := parsed;
        if failed {
          end := ParseFailed;
          return;
        }
      }
      var outcome := flushOutcome(|flushes|);
      flushes := flushes + [records];
      if outcome.FlushInterrupted? {
        end := Interrupted;
        return;
      }
    }
    end := Drained;
  }

  /** The inner loop of `bufferAccumulator`: parses the remaining events one by
      one, adding each record and its byte length, until none remain or `parse`
      throws (`failed`, at the event `parsed`). */
  method TakeRemaining<E>(events: seq<E>, codec: Codec<E>, lineSeparator: string,
                          records0: seq<string>, parsed0: nat, byteCount0: int)
    returns (records: seq<string>, parsed: nat, byteCount: int, failed: bool)
    requires parsed0 <= |events| && AllParse(codec, events[..parsed0])
    requires records0 == Lines(codec, events[..parsed0], lineSeparator)
    requires byteCount0 == Int32(ByteTotal(codec, events[..parsed0]))
    ensures parsed0 <= parsed <= |events| && AllParse(codec, events[..parsed])
    ensures records == Lines(codec, events[..parsed], lineSeparator)
    ensures byteCount == Int32(ByteTotal(codec, events[..parsed]))
    ensures failed == (parsed < |events|)
    ensures failed ==> codec.parse(events[parsed]).EncodingError?
  {
    records, parsed, byteCount := records0, parsed0, byteCount0;
    while parsed < |events|
      invariant parsed0 <= parsed <= |events| && AllParse(codec, events[..parsed])
      invariant records == Lines(codec, events[..parsed], lineSeparator)
      invariant byteCount == Int32(ByteTotal(codec, events[..parsed]))
      decreases |events| - parsed
    {
      var encoded := codec.parse(events[parsed]);
      if encoded.EncodingError? {
        return records, parsed, byteCount, true;
      }
      records, byteCount := TakeEvent(events, codec, lineSeparator, records, parsed, byteCount);
      parsed := parsed + 1;
    }
    failed := false;
  }

  /** One pass of that loop for an event that parses: its record is added and
      the length of its bytes is added to the `int` byte count. */
  method TakeEvent<E>(events: seq<E>, codec: Codec<E>, lineSeparator: string,
                      records0: seq<string>, parsed: nat, byteCount0: int)
    returns (records: seq<string>, byteCount: int)
    requires parsed < |events| && AllParse(codec, events[..parsed])
    requires codec.parse(events[parsed]).Encoded?
    requires records0 == Lines(codec, events[..parsed], lineSeparator)
    requires byteCount0 == Int32(ByteTotal(codec, events[..parsed]))
    ensures AllParse(codec, events[..parsed + 1])
    ensures records == Lines(codec, events[..parsed + 1], lineSeparator)
    ensures byteCount == Int32(ByteTotal(codec, events[..parsed + 1]))
  {
    var text := codec.parse(events[parsed]).text;
    TakeOne(codec, events, parsed, lineSeparator);
    byteCount := Int32(byteCount0 + |codec.getBytes(text)|);
    records := records0 + [text + lineSeparator];
  }
}
