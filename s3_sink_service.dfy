/** `S3SinkService`: encodes each record, writes it into the current buffer,
    and first flushes that buffer under a freshly built key and replaces it
    when the buffer would exceed a threshold. */
module SinkService {
  import opened Java
  import opened Storage
  import opened SinkConfig
  import opened ObjectKey
  import opened Buffers
  import opened BufferType
  import opened MemoryBuffer

  // ---------------------------------------------------------------------------
  // willExceedThreshold

  /** What `willExceedThreshold` reads from the current buffer: its event count,
      its age in seconds and its size. */
  datatype Snapshot = Snapshot(eventCount: int, duration: int, size: int)

  /** `willExceedThreshold`: whether one more event would pass the event limit
      (only when it is positive), or the buffer is older than `duration`
      seconds, or larger than `byteCapacity` bytes. When it does not trip, one
      more event still fits under a positive limit and neither the age nor
      the size is above its limit; and whenever `thresholdsCheck` would keep
      accumulating a batch in the same state, it does not trip. */
  function WillExceedThreshold(s: Snapshot, numEvents: int, byteCapacity: int, duration: int): (exceeds: bool)
    ensures !exceeds && numEvents > 0 ==> s.eventCount < numEvents
    ensures !exceeds ==> s.duration <= duration && s.size <= byteCapacity
    ensures ThresholdsCheck(s.eventCount, s.duration, s.size, numEvents, byteCapacity, duration) ==> !exceeds
  {
    if numEvents > 0 then
      s.eventCount + 1 > numEvents || s.duration > duration || s.size > byteCapacity
    else
      s.duration > duration || s.size > byteCapacity
  }

  /** Without a positive event limit the event count never matters. */
  lemma WillExceedThresholdIgnoresCountWithoutLimit(s: Snapshot, otherCount: int, numEvents: int, byteCapacity: int, duration: int)
    requires numEvents <= 0
    ensures WillExceedThreshold(s, numEvents, byteCapacity, duration)
         == WillExceedThreshold(s.(eventCount := otherCount), numEvents, byteCapacity, duration)
  {
  }

  /** The converse of the last property fails at the boundary: a buffer exactly `duration` seconds old
      closes a `bufferAccumulator` batch but is not swapped by the service. */
  lemma AtDurationTheTwoTestsDisagree(numEvents: int, byteCapacity: int, duration: int)
    requires numEvents > 1 && byteCapacity > 0
    ensures !ThresholdsCheck(0, duration, 0, numEvents, byteCapacity, duration)
    ensures !WillExceedThreshold(Snapshot(0, duration, 0), numEvents, byteCapacity, duration)
  {
  }

  // ---------------------------------------------------------------------------
  // generateKey

  /** `generateKey`: the path prefix followed by the file name, both rendered at `now`. */
  function GenerateKey(config: S3SinkConfig, renderer: DateRenderer, now: int): (key: string)
    ensures key == ConfiguredPathPrefix(config, renderer, now) + ConfiguredFileName(config, renderer, now)
  {
    var pathPrefix := ConfiguredPathPrefix(config, renderer, now);
    var namePattern := ConfiguredFileName(config, renderer, now);
    if pathPrefix != [] then pathPrefix + namePattern else namePattern
  }

  /** The service's key and the uploader's key agree; the key is a prefix that is
      empty or ends in `/`, then the rendered name, a `.` and a non-empty extension. */
  lemma GenerateKeyShape(config: S3SinkConfig, renderer: DateRenderer, now: int)
    ensures GenerateKey(config, renderer, now)
         == UploadKey(ConfiguredPathPrefix(config, renderer, now), ConfiguredFileName(config, renderer, now))
    ensures var key, prefix := GenerateKey(config, renderer, now), ConfiguredPathPrefix(config, renderer, now);
      var name, extension := renderer.objectName(now, config.namePattern), CodecFileExtension(config.codecPluginName);
      && (prefix == [] || prefix[|prefix| - 1] == '/')
      && key == prefix + name + "." + extension
      && extension != []
  {
    var prefix, fileName := ConfiguredPathPrefix(config, renderer, now), ConfiguredFileName(config, renderer, now);
    assert fileName == renderer.objectName(now, config.namePattern) + "." + CodecFileExtension(config.codecPluginName);
    assert GenerateKey(config, renderer, now) == prefix + fileName;
  }

  // ---------------------------------------------------------------------------
  // The events the current buffer holds

  /** The events held by the current buffer after the checks recorded in
      `swapped` (one per record that reached the threshold test, true where the
      buffer was replaced before the write) and the writes of `encoded` (one per
      record written; the last check may have no write). `prior` is what the
      buffer held before the first record. */
  ghost function Held(prior: seq<seq<JByte>>, swapped: seq<bool>, encoded: seq<seq<JByte>>): seq<seq<JByte>>
    requires |encoded| <= |swapped| <= |encoded| + 1
    decreases |swapped|
  {
    if swapped == [] then prior
    else
      var n := |swapped| - 1;
      var before := Held(prior, swapped[..n], encoded[..if |encoded| > n then n else |encoded|]);
      var current := if swapped[n] then [] else before;
      if |encoded| > n then current + [encoded[n]] else current
  }

  /** Without a replacement, the buffer gains exactly the written events, in order. */
  lemma {:induction false} HeldWithoutSwaps(prior: seq<seq<JByte>>, swapped: seq<bool>, encoded: seq<seq<JByte>>)
    requires |swapped| == |encoded|
    requires forall j :: 0 <= j < |swapped| ==> !swapped[j]
    ensures Held(prior, swapped, encoded) == prior + encoded
  {
    if swapped != [] {
      var n := |swapped| - 1;
      HeldWithoutSwaps(prior, swapped[..n], encoded[..n]);
      assert encoded[..n] + [encoded[n]] == encoded;
    }
  }

  /** After the last replacement, at record `k`, the buffer holds exactly the
      events written from record `k` on. */
  lemma {:induction false} HeldAfterLastSwap(prior: seq<seq<JByte>>, swapped: seq<bool>, encoded: seq<seq<JByte>>, k: nat)
    requires |swapped| == |encoded| && k < |swapped| && swapped[k]
    requires forall j :: k < j < |swapped| ==> !swapped[j]
    ensures Held(prior, swapped, encoded) == encoded[k..]
  {
    var n := |swapped| - 1;
    if n > k {
      HeldAfterLastSwap(prior, swapped[..n], encoded[..n], k);
      assert encoded[k..n] + [encoded[n]] == encoded[k..];
    }
  }

  /** The count bound, from the test alone: if every check saw the count the
      buffer then held and every replacement followed the test, a positive
      event limit is never passed. */
  lemma {:induction false} HeldWithinEventLimit(prior: seq<seq<JByte>>, swapped: seq<bool>, encoded: seq<seq<JByte>>,
                                                 checks: seq<Snapshot>, numEvents: int, byteCapacity: int, duration: int)
    requires numEvents > 0 && |prior| <= numEvents
    requires |swapped| == |encoded| == |checks|
    requires forall j :: 0 <= j < |checks| ==> swapped[j] == WillExceedThreshold(checks[j], numEvents, byteCapacity, duration)
    requires forall j :: 0 <= j < |checks| ==> checks[j].eventCount == |Held(prior, swapped[..j], encoded[..j])|
    ensures |Held(prior, swapped, encoded)| <= numEvents
  {
    if swapped != [] {
      var n := |swapped| - 1;
      assert swapped[..n][..n] == swapped[..n];
      forall j | 0 <= j < n
        ensures swapped[..n][j] == WillExceedThreshold(checks[..n][j], numEvents, byteCapacity, duration)
        ensures checks[..n][j].eventCount == |Held(prior, swapped[..n][..j], encoded[..n][..j])|
      {
        assert swapped[..n][..j] == swapped[..j] && encoded[..n][..j] == encoded[..j];
      }
      HeldWithinEventLimit(prior, swapped[..n], encoded[..n], checks[..n], numEvents, byteCapacity, duration);
    }
  }

  /** One more check and possibly one more write. */
  lemma HeldStep(prior: seq<seq<JByte>>, swapped: seq<bool>, encoded: seq<seq<JByte>>, s: bool, e: seq<JByte>)
    requires |swapped| == |encoded|
    ensures Held(prior, swapped + [s], encoded) == if s then [] else Held(prior, swapped, encoded)
    ensures Held(prior, swapped + [s], encoded + [e]) == (if s then [] else Held(prior, swapped, encoded)) + [e]
  {
    var n := |swapped|;
    assert (swapped + [s])[..n] == swapped;
    assert (encoded + [e])[..n] == encoded;
    assert encoded[..n] == encoded;
  }

  /** What `output` writes for a record: the bytes of its encoding, or `None`
      when `codec.parse` throws. */
  function Encode<E>(codec: Codec<E>, record: E): Option<seq<JByte>>
  {
    var encoded := codec.parse(record);
    if encoded.Encoded? then Some(codec.getBytes(encoded.text)) else None
  }

  /** The instant the buffer held after the checks `swapped` was made: that of
      the record whose check last replaced it, or `born` when none did. */
  ghost function BornAt(born: int, swapped: seq<bool>, now: nat -> int): int
    decreases |swapped|
  {
    if swapped == [] then born
    else if swapped[|swapped| - 1] then now(|swapped| - 1)
    else BornAt(born, swapped[..|swapped| - 1], now)
  }

  /** Without a replacement the buffer is the one made at `born`. */
  lemma {:induction false} BornWithoutSwaps(born: int, swapped: seq<bool>, now: nat -> int)
    requires forall j :: 0 <= j < |swapped| ==> !swapped[j]
    ensures BornAt(born, swapped, now) == born
  {
    if swapped != [] {
      BornWithoutSwaps(born, swapped[..|swapped| - 1], now);
    }
  }

  /** What one call of `output` starts from and cannot change: the events the
      buffer held and the instant it was made (`prior`, `born`), the records,
      the codec, the factory of new buffers, the limits, for record `j` the
      clock reading `now(j)` and the object `keys[j]` a flush then goes to,
      and the store's answers: `sent` requests came before the run, and the
      store rejects request `n` of its log when `rejects(n)`. */
  datatype Run<!E> = Run(prior: seq<seq<JByte>>, born: int, records: seq<E>, codec: Codec<E>, factory: BufferFactory,
                         numEvents: int, byteCapacity: int, duration: int, now: nat -> int, keys: seq<ObjectId>,
                         rejects: nat -> bool, sent: nat)

  /** What `output` has done so far, per record that reached the threshold
      test: the snapshot the test saw (`checks`), its outcome (`exceeded`),
      whether the buffer was replaced (`swapped`), what a flush of the tested
      buffer sends (`bodies`), and the events the current buffer holds and the
      instant it was made once the record is handled (`heldAfter`,
      `bornAfter`); the encodings written (`encoded`); and the requests sent
      (`made`), the `k`-th for record `flushedAt[k]`. */
  datatype Progress = Progress(checks: seq<Snapshot>, exceeded: seq<bool>, swapped: seq<bool>,
                               bodies: seq<Option<RequestBody>>, heldAfter: seq<seq<seq<JByte>>>, bornAfter: seq<int>,
                               encoded: seq<seq<JByte>>, made: seq<PutRequest>, flushedAt: seq<nat>)

  ghost predicate Shaped<E>(r: Run<E>, p: Progress)
  {
    && |p.checks| == |p.exceeded| == |p.swapped| == |p.bodies| == |p.heldAfter| == |p.bornAfter| <= |r.records|
    && |p.checks| <= |r.keys|
    && |p.encoded| <= |p.swapped| <= |p.encoded| + 1
    && |p.made| == |p.flushedAt|
  }

  /** The events the current buffer holds before record `j` is handled. */
  ghost function HeldBefore<E>(r: Run<E>, p: Progress, j: nat): seq<seq<JByte>>
    requires Shaped(r, p) && j <= |p.checks|
  {
    if j == 0 then r.prior else p.heldAfter[j - 1]
  }

  /** The instant the current buffer was made, before record `j` is handled. */
  ghost function BornBefore<E>(r: Run<E>, p: Progress, j: nat): int
    requires Shaped(r, p) && j <= |p.checks|
  {
    if j == 0 then r.born else p.bornAfter[j - 1]
  }

  /** The events the current buffer holds after the records of `p`. */
  ghost function HeldNow<E>(r: Run<E>, p: Progress): seq<seq<JByte>>
    requires Shaped(r, p)
  {
    HeldBefore(r, p, |p.checks|)
  }

  /** The instant the current buffer was made, after the records of `p`. */
  ghost function BornNow<E>(r: Run<E>, p: Progress): int
    requires Shaped(r, p)
  {
    BornBefore(r, p, |p.checks|)
  }

  /** The test of record `j`: it saw the buffer left by the records before it
      (the number of events it held, its age at that record's instant, and the
      length of what a flush of it sends, which `Carries` ties to those events);
      it tripped as `willExceedThreshold` says on that snapshot; it replaced the
      buffer exactly when it tripped, unless the flush threw (`flushFailed`,
      only for the last record, whose test then tripped); a tripped test of a buffer with something to
      send sent it, and a buffer was replaced only after it was sent; the
      record, if written, carries its encoding; and afterwards the buffer holds
      what it held, or nothing if it was replaced, then that encoding. */
  ghost predicate CheckAccounted<E>(r: Run<E>, flushFailed: bool, p: Progress, j: nat)
    requires Shaped(r, p) && j < |p.checks|
  {
    var held, born := HeldBefore(r, p, j), BornBefore(r, p, j);
    && p.checks[j].eventCount == |held|
    && p.checks[j].duration == r.now(j) - born
    && p.checks[j].size == BodyLength(p.bodies[j])
    && r.factory.Carries(p.bodies[j], held)
    && p.exceeded[j] == WillExceedThreshold(p.checks[j], r.numEvents, r.byteCapacity, r.duration)
    && p.swapped[j] == (p.exceeded[j] && !(flushFailed && j == |p.checks| - 1))
    && (flushFailed && j == |p.checks| - 1 ==> p.exceeded[j])
    && (p.exceeded[j] && p.bodies[j].Some? ==> j in p.flushedAt)
    && (p.swapped[j] ==> p.bodies[j].Some?)
    && (j < |p.encoded| ==> Encode(r.codec, r.records[j]) == Some(p.encoded[j]))
    && p.heldAfter[j] == (if p.swapped[j] then [] else held) + (if j < |p.encoded| then [p.encoded[j]] else [])
    && p.bornAfter[j] == if p.swapped[j] then r.now(j) else born
  }

  /** The `k`-th request went out for record `flushedAt[k]`, whose test tripped,
      under that record's key and with the body of the buffer it tested, and
      after the requests for earlier records; the store rejected it exactly
      when it was the flush that threw. */
  ghost predicate FlushAccounted<E>(r: Run<E>, flushFailed: bool, p: Progress, k: nat)
    requires Shaped(r, p) && k < |p.flushedAt|
  {
    var j := p.flushedAt[k];
    && j < |p.checks| && p.exceeded[j] && p.bodies[j].Some?
    && p.made[k] == PutRequest(r.keys[j], p.bodies[j].value)
    && (k > 0 ==> p.flushedAt[k - 1] < j)
    && r.rejects(r.sent + k) == (flushFailed && j == |p.checks| - 1)
  }

  /** The bookkeeping of `output` is sound: every test and every request. */
  ghost predicate Accounted<E>(r: Run<E>, flushFailed: bool, p: Progress)
  {
    && Shaped(r, p)
    && (forall j: nat :: j < |p.checks| ==> CheckAccounted(r, flushFailed, p, j))
    && (forall k: nat :: k < |p.flushedAt| ==> FlushAccounted(r, flushFailed, p, k))
  }

  /** The trace agrees with `Held` and `BornAt`: after each record the buffer
      holds what the tests and writes so far leave, and was made when the last
      of them replaced it. */
  lemma {:induction false} TraceMatchesHeld<E>(r: Run<E>, flushFailed: bool, p: Progress, j: nat)
    requires Accounted(r, flushFailed, p) && j <= |p.checks|
    ensures HeldBefore(r, p, j) == Held(r.prior, p.swapped[..j], p.encoded[..if j < |p.encoded| then j else |p.encoded|])
    ensures BornBefore(r, p, j) == BornAt(r.born, p.swapped[..j], r.now)
  {
    if j > 0 {
      TraceMatchesHeld(r, flushFailed, p, j - 1);
      assert CheckAccounted(r, flushFailed, p, j - 1);
      assert p.swapped[..j][..j - 1] == p.swapped[..j - 1];
      if j - 1 < |p.encoded| {
        assert p.encoded[..j][..j - 1] == p.encoded[..j - 1];
      } else {
        assert p.encoded[..j - 1][..j - 1] == p.encoded[..j - 1];
      }
    }
  }

  /** What the current buffer holds, and when it was made, as `Held` and `BornAt` say. */
  lemma HeldNowMatchesHeld<E>(r: Run<E>, flushFailed: bool, p: Progress)
    requires Accounted(r, flushFailed, p)
    ensures HeldNow(r, p) == Held(r.prior, p.swapped, p.encoded)
    ensures BornNow(r, p) == BornAt(r.born, p.swapped, r.now)
  {
    TraceMatchesHeld(r, flushFailed, p, |p.checks|);
    assert p.swapped[..|p.checks|] == p.swapped;
    assert p.encoded[..|p.encoded|] == p.encoded;
  }

  /** What the bookkeeping records for one more record through the threshold
      test: the test saw `snapshot` on the current buffer, whose flush would
      send `body`; it tripped as `e`; its flush threw or not; the record was
      written (as `bytes`) or not; and `added` holds the requests sent. */
  ghost function Extended<E>(r: Run<E>, p: Progress, snapshot: Snapshot, body: Option<RequestBody>, e: bool,
                             flushFailed: bool, written: bool, bytes: seq<JByte>, added: seq<PutRequest>): Progress
    requires Shaped(r, p)
  {
    var n, s := |p.checks|, e && !flushFailed;
    Progress(p.checks + [snapshot], p.exceeded + [e], p.swapped + [s], p.bodies + [body],
             p.heldAfter + [(if s then [] else HeldNow(r, p)) + (if written then [bytes] else [])],
             p.bornAfter + [if s then r.now(n) else BornNow(r, p)],
             if written then p.encoded + [bytes] else p.encoded,
             p.made + added, if e && body.Some? then p.flushedAt + [n] else p.flushedAt)
  }

  /** What `AccountStep` asks of one more record: the test saw the current
      buffer, the record's encoding is the one written, a flush that threw
      stops the record, the requests sent are that buffer's, under the
      record's key, when the test tripped, and the flush threw exactly when
      the store rejected that request. */
  ghost predicate StepFits<E>(r: Run<E>, p: Progress, snapshot: Snapshot, body: Option<RequestBody>, e: bool,
                              flushFailed: bool, written: bool, bytes: seq<JByte>, added: seq<PutRequest>)
  {
    && Shaped(r, p) && |p.encoded| == |p.checks| < |r.records| && |p.checks| < |r.keys|
    && e == WillExceedThreshold(snapshot, r.numEvents, r.byteCapacity, r.duration)
    && snapshot.eventCount == |HeldNow(r, p)| && snapshot.duration == r.now(|p.checks|) - BornNow(r, p)
    && snapshot.size == BodyLength(body) && r.factory.Carries(body, HeldNow(r, p))
    && (written ==> Encode(r.codec, r.records[|p.checks|]) == Some(bytes))
    && (flushFailed ==> e && !written)
    && (e && !flushFailed ==> body.Some?)
    && (e && body.Some? ==> r.rejects(r.sent + |p.flushedAt|) == flushFailed)
    && added == if e && body.Some? then [PutRequest(r.keys[|p.checks|], body.value)] else []
  }

  /** One more record through the threshold test keeps the bookkeeping sound. */
  lemma AccountStep<E>(r: Run<E>, p: Progress, snapshot: Snapshot, body: Option<RequestBody>, e: bool,
                       flushFailed: bool, written: bool, bytes: seq<JByte>, added: seq<PutRequest>)
    requires Accounted(r, false, p)
    requires StepFits(r, p, snapshot, body, e, flushFailed, written, bytes, added)
    ensures Accounted(r, flushFailed, Extended(r, p, snapshot, body, e, flushFailed, written, bytes, added))
  {
    var p' := Extended(r, p, snapshot, body, e, flushFailed, written, bytes, added);
    forall j: nat | j < |p'.checks|
      ensures CheckAccounted(r, flushFailed, p', j)
    {
      if j < |p.checks| {
        EarlierCheckStep(r, p, snapshot, body, e, flushFailed, written, bytes, added, j);
      } else {
        NewCheckStep(r, p, snapshot, body, e, flushFailed, written, bytes, added, j);
      }
    }
    FlushesStep(r, p, snapshot, body, e, flushFailed, written, bytes, added);
  }

  /** After one more record the current buffer is emptied when the test
      replaced it, then gains the record if it was written; the requests are
      the earlier ones and then the ones `added`. */
  lemma ExtendedBuffer<E>(r: Run<E>, p: Progress, snapshot: Snapshot, body: Option<RequestBody>, e: bool,
                          flushFailed: bool, written: bool, bytes: seq<JByte>, added: seq<PutRequest>)
    requires StepFits(r, p, snapshot, body, e, flushFailed, written, bytes, added)
    ensures var p' := Extended(r, p, snapshot, body, e, flushFailed, written, bytes, added);
      && Shaped(r, p') && |p'.checks| == |p.checks| + 1 && |p'.encoded| == (if written then |p.checks| + 1 else |p.checks|)
      && p'.swapped == p.swapped + [e && !flushFailed] && p'.made == p.made + added
      && HeldNow(r, p') == (if e && !flushFailed then [] else HeldNow(r, p)) + (if written then [bytes] else [])
      && BornNow(r, p') == if e && !flushFailed then r.now(|p.checks|) else BornNow(r, p)
  {
    var p' := Extended(r, p, snapshot, body, e, flushFailed, written, bytes, added);
    var n := |p.checks|;
    assert HeldNow(r, p') == p'.heldAfter[n] && BornNow(r, p') == p'.bornAfter[n];
  }

  /** The test of the new record is accounted for. */
  lemma NewCheckStep<E>(r: Run<E>, p: Progress, snapshot: Snapshot, body: Option<RequestBody>, e: bool,
                        flushFailed: bool, written: bool, bytes: seq<JByte>, added: seq<PutRequest>, j: nat)
    requires StepFits(r, p, snapshot, body, e, flushFailed, written, bytes, added) && j == |p.checks|
    ensures var p' := Extended(r, p, snapshot, body, e, flushFailed, written, bytes, added);
      Shaped(r, p') && CheckAccounted(r, flushFailed, p', j)
  {
    var p' := Extended(r, p, snapshot, body, e, flushFailed, written, bytes, added);
    var n := |p.checks|;
    assert HeldBefore(r, p', n) == HeldNow(r, p) && BornBefore(r, p', n) == BornNow(r, p);
    assert p'.checks[n] == snapshot && p'.exceeded[n] == e && p'.swapped[n] == (e && !flushFailed) && p'.bodies[n] == body;
    if e && body.Some? {
      assert p'.flushedAt[|p.flushedAt|] == n;
    }
    if written {
      assert p'.encoded[n] == bytes;
    }
  }


  /** The test of an earlier record keeps its account when one more record is handled. */
  lemma EarlierCheckStep<E>(r: Run<E>, p: Progress, snapshot: Snapshot, body: Option<RequestBody>, e: bool,
                            flushFailed: bool, written: bool, bytes: seq<JByte>, added: seq<PutRequest>, j: nat)
    requires StepFits(r, p, snapshot, body, e, flushFailed, written, bytes, added)
    requires j < |p.checks| && CheckAccounted(r, false, p, j)
    ensures var p' := Extended(r, p, snapshot, body, e, flushFailed, written, bytes, added);
      Shaped(r, p') && CheckAccounted(r, flushFailed, p', j)
  {
    var p' := Extended(r, p, snapshot, body, e, flushFailed, written, bytes, added);
    assert HeldBefore(r, p', j) == HeldBefore(r, p, j) && BornBefore(r, p', j) == BornBefore(r, p, j);
    assert p'.encoded[j] == p.encoded[j];
    if p.exceeded[j] && p.bodies[j].Some? {
      var k :| 0 <= k < |p.flushedAt| && p.flushedAt[k] == j;
      assert p'.flushedAt[k] == j;
    }
  }

  /** The requests after one more record: the earlier ones, then the one
      `added`, if any, for the new record. */
  lemma FlushesStep<E>(r: Run<E>, p: Progress, snapshot: Snapshot, body: Option<RequestBody>, e: bool,
                       flushFailed: bool, written: bool, bytes: seq<JByte>, added: seq<PutRequest>)
    requires StepFits(r, p, snapshot, body, e, flushFailed, written, bytes, added)
    requires forall k: nat :: k < |p.flushedAt| ==> FlushAccounted(r, false, p, k)
    ensures var p' := Extended(r, p, snapshot, body, e, flushFailed, written, bytes, added);
      Shaped(r, p') && forall k: nat :: k < |p'.flushedAt| ==> FlushAccounted(r, flushFailed, p', k)
  {
    var p' := Extended(r, p, snapshot, body, e, flushFailed, written, bytes, added);
    forall k: nat | k < |p'.flushedAt|
      ensures FlushAccounted(r, flushFailed, p', k)
    {
      if k < |p.flushedAt| {
        assert FlushAccounted(r, false, p, k);
        var j := p.flushedAt[k];
        assert p'.flushedAt[k] == j && p'.made[k] == p.made[k];
        assert p'.exceeded[j] == p.exceeded[j] && p'.bodies[j] == p.bodies[j];
      } else if k > 0 {
        assert FlushAccounted(r, false, p, k - 1);
      }
    }
  }

  /** One turn of the loop of `output`, on the values it leaves behind: the
      current buffer before it held `events0` and was made at `born0`; the test
      saw `snapshot` and a flush of that buffer sends `body`; after the turn
      the current buffer holds `events1` and was made at `born1`, and the
      request log went from `requests0` to `requests1`. */
  lemma TurnAccounted<E>(r: Run<E>, p: Progress, end: StepEnd, snapshot: Snapshot, body: Option<RequestBody>,
                         bytes: seq<JByte>, base: seq<PutRequest>, requests0: seq<PutRequest>, requests1: seq<PutRequest>,
                         events0: seq<seq<JByte>>, events1: seq<seq<JByte>>, born0: int, born1: int)
    returns (p': Progress)
    requires Accounted(r, false, p) && !end.EncodingStopped?
    requires |p.encoded| == |p.checks| < |r.records| && |p.checks| < |r.keys|
    requires events0 == HeldNow(r, p) && born0 == BornNow(r, p)
    requires r.factory.Carries(body, events0) && Encode(r.codec, r.records[|p.checks|]) == Some(bytes)
    requires snapshot == Snapshot(|events0|, r.now(|p.checks|) - born0, BodyLength(body))
    requires end.exceeded == WillExceedThreshold(snapshot, r.numEvents, r.byteCapacity, r.duration)
    requires base <= requests0 && p.made == requests0[|base|..] && r.sent == |base|
    requires requests1 == requests0 + if end.exceeded && body.Some? then [PutRequest(r.keys[|p.checks|], body.value)] else []
    requires end.exceeded && body.Some? ==> (end.FlushStopped? <==> r.rejects(|requests0|))
    requires end.FlushStopped? ==> end.exceeded && events1 == events0 && born1 == born0
    requires end.Written? || end.WriteStopped? ==>
      && (end.exceeded ==> body.Some? && born1 == r.now(|p.checks|))
      && (!end.exceeded ==> born1 == born0)
      && events1 == (if end.exceeded then [] else events0) + (if end.Written? then [bytes] else [])
    ensures Accounted(r, end.FlushStopped?, p')
    ensures |p'.checks| == |p.checks| + 1 && |p'.encoded| == (if end.Written? then |p.checks| + 1 else |p.checks|)
    ensures p'.swapped == p.swapped + [end.exceeded && !end.FlushStopped?]
    ensures events1 == HeldNow(r, p') && born1 == BornNow(r, p')
    ensures base <= requests1 && p'.made == requests1[|base|..]
  {
    var made, added := RequestLog(base, requests0, requests1);
    var e, flushFailed, written := end.exceeded, end.FlushStopped?, end.Written?;
    assert StepFits(r, p, snapshot, body, e, flushFailed, written, bytes, added);
    AccountStep(r, p, snapshot, body, e, flushFailed, written, bytes, added);
    ExtendedBuffer(r, p, snapshot, body, e, flushFailed, written, bytes, added);
    p' := Extended(r, p, snapshot, body, e, flushFailed, written, bytes, added);
  }

  /** The requests sent since `base`, split at `before`. */
  lemma RequestLog(base: seq<PutRequest>, before: seq<PutRequest>, after: seq<PutRequest>)
    returns (made: seq<PutRequest>, added: seq<PutRequest>)
    requires base <= before <= after
    ensures made == after[|base|..] && added == after[|before|..] && made == before[|base|..] + added
  {
    made, added := after[|base|..], after[|before|..];
  }

  /** The object of every record index below `n`, as `generateKey` names it at that record's instant. */
  ghost function KeysAt(config: S3SinkConfig, renderer: DateRenderer, now: nat -> int, n: nat): (keys: seq<ObjectId>)
    ensures |keys| == n
    ensures forall j :: 0 <= j < n ==> keys[j] == ObjectId(config.bucketName, GenerateKey(config, renderer, now(j)))
  {
    seq(n, j requires 0 <= j => ObjectId(config.bucketName, GenerateKey(config, renderer, now(j))))
  }

  /** With thresholds no record reaches, an in-memory buffer that started empty
      is never flushed or replaced and ends holding every encoding, in order:
      as many events as records were handled and as many bytes as their
      encodings hold together. */
  lemma NothingFlushedUnderLargeThresholds<E>(r: Run<E>, p: Progress)
    requires Accounted(r, false, p) && r.factory == InMemoryFactory && r.prior == []
    requires |p.encoded| == |p.checks|
    requires r.numEvents <= 0 || |p.checks| <= r.numEvents
    requires forall j :: 0 <= j < |p.checks| ==> r.now(j) - r.born <= r.duration
    requires TotalLength(p.encoded) <= r.byteCapacity
    ensures true !in p.swapped && p.made == []
    ensures Held(r.prior, p.swapped, p.encoded) == p.encoded
  {
    NoSwapsBefore(r, p, |p.checks|);
    if p.flushedAt != [] {
      FirstFlushReplaced(r, p);
      assert false;
    }
    HeldWithoutSwaps(r.prior, p.swapped, p.encoded);
  }

  /** Without a failed flush, the first request was sent for a record whose buffer was then replaced. */
  lemma FirstFlushReplaced<E>(r: Run<E>, p: Progress)
    requires Accounted(r, false, p) && p.flushedAt != []
    ensures p.flushedAt[0] < |p.swapped| && p.swapped[p.flushedAt[0]]
  {
    assert FlushAccounted(r, false, p, 0);
    assert CheckAccounted(r, false, p, p.flushedAt[0]);
  }

  /** A store that answers as `rejects`, and whose log held `sent` requests
      before the run, rejected each request of the run exactly when it was the
      flush that stopped `output` at record `result.at`. */
  ghost predicate RejectedOnlyAtFailure(rejects: nat -> bool, sent: nat, result: OutputResult, p: Progress)
  {
    forall n: nat :: sent <= n < sent + |p.flushedAt| ==>
      (rejects(n) <==> result.FlushFailed? && p.flushedAt[n - sent] == result.at)
  }

  /** How the requests of a run fared at a store that answers as `rejects`,
      whose log went from `base` to `requests`: it rejected one exactly when
      that request was the flush that stopped the run at record `at`; and a
      run stopped by a flush either had nothing to send or the store rejected
      its last request. */
  lemma RequestsOutcome<E>(r: Run<E>, result: OutputResult, p: Progress, rejects: nat -> bool,
                           base: seq<PutRequest>, requests: seq<PutRequest>)
    requires Accounted(r, result.FlushFailed?, p) && (result.FlushFailed? ==> |p.checks| == result.at + 1)
    requires r.rejects == rejects && r.sent == |base| && base <= requests && p.made == requests[|base|..]
    ensures RejectedOnlyAtFailure(rejects, |base|, result, p)
    ensures result.FlushFailed? ==>
      p.bodies[result.at].None? || (|p.made| > 0 && rejects(|base| + |p.made| - 1))
  {
    forall n: nat | |base| <= n < |base| + |p.flushedAt|
      ensures rejects(n) <==> result.FlushFailed? && p.flushedAt[n - |base|] == result.at
    {
      assert FlushAccounted(r, result.FlushFailed?, p, n - |base|);
    }
    if result.FlushFailed? {
      FailedFlushIsLastRequest(r, p);
    }
  }

  /** A flush that threw had nothing to read, or was the last request sent,
      and the store rejected it. */
  lemma FailedFlushIsLastRequest<E>(r: Run<E>, p: Progress)
    requires Accounted(r, true, p) && |p.checks| > 0
    ensures var j := |p.checks| - 1;
      p.exceeded[j] &&
      (p.bodies[j].None? || (|p.made| > 0 && p.flushedAt[|p.made| - 1] == j && r.rejects(r.sent + |p.made| - 1)))
  {
    var j := |p.checks| - 1;
    assert CheckAccounted(r, true, p, j);
    if p.bodies[j].Some? {
      var k :| 0 <= k < |p.flushedAt| && p.flushedAt[k] == j;
      assert FlushAccounted(r, true, p, k);
      NextFlushIsLater(r, p, k);
      if k + 1 < |p.flushedAt| {
        assert false;
      }
    }
  }

  /** Requests go out for ever later records. */
  lemma NextFlushIsLater<E>(r: Run<E>, p: Progress, k: nat)
    requires Accounted(r, true, p) && k < |p.flushedAt|
    ensures k + 1 < |p.flushedAt| ==> p.flushedAt[k] < p.flushedAt[k + 1] < |p.checks|
  {
    if k + 1 < |p.flushedAt| {
      assert FlushAccounted(r, true, p, k + 1);
    }
  }

  /** Under those thresholds, the tests of the first `n` records all pass, on
      a buffer made at `born` that holds the encodings before them. */
  lemma {:induction false} NoSwapsBefore<E>(r: Run<E>, p: Progress, n: nat)
    requires Accounted(r, false, p) && r.factory == InMemoryFactory && r.prior == []
    requires |p.encoded| == |p.checks| && n <= |p.checks|
    requires r.numEvents <= 0 || |p.checks| <= r.numEvents
    requires forall j :: 0 <= j < |p.checks| ==> r.now(j) - r.born <= r.duration
    requires TotalLength(p.encoded) <= r.byteCapacity
    ensures forall j :: 0 <= j < n ==> !p.swapped[j]
    ensures HeldBefore(r, p, n) == p.encoded[..n] && BornBefore(r, p, n) == r.born
  {
    if n > 0 {
      NoSwapsBefore(r, p, n - 1);
      var j := n - 1;
      assert CheckAccounted(r, false, p, j);
      FlattenLength(p.encoded[..j]);
      TotalLengthPrefix(p.encoded, j);
      assert p.checks[j].size <= r.byteCapacity && p.checks[j].duration <= r.duration && p.checks[j].eventCount == j;
      assert p.encoded[..j] + [p.encoded[j]] == p.encoded[..n];
    }
  }


  // ---------------------------------------------------------------------------
  // The service

  /** How `output` ended: every record written, or the first record `at` whose
      encoding threw IOException (caught), whose flush threw (the S3 exception
      escapes), or whose write threw (the NullPointerException of a file buffer
      without a writer, which escapes). */
  datatype OutputResult = Completed | EncodingFailed(at: nat) | FlushFailed(at: nat) | WriteFailed(at: nat)

  class S3SinkService<E> {
    const config: S3SinkConfig
    const factory: BufferFactory
    const codec: Codec<E>
    const store: ObjectStore         // the S3Client
    const renderer: DateRenderer     // S3ObjectIndex
    const numEvents: int
    const byteCapacity: int
    const duration: int
    var currentBuffer: Option<Buffer>

    ghost function BufferRepr(): set<object>
      reads this
    {
      if currentBuffer.Some? then currentBuffer.value.Repr() else {}
    }

    /** The current buffer, once there is one, is a valid buffer of the configured
        kind, and under a positive event limit it never holds more events than that. */
    ghost predicate Valid()
      reads this, BufferRepr()
    {
      && numEvents == config.thresholds.eventCount
      && byteCapacity == config.thresholds.maximumBytes
      && duration == config.thresholds.eventCollectSeconds
      && (currentBuffer.Some? ==>
            && currentBuffer.value.Valid()
            && factory.Made(currentBuffer.value)
            && (numEvents > 0 ==> |currentBuffer.value.Events()| <= numEvents))
    }

    /** The constructor; the limits are read from the configuration and no buffer exists yet. */
    constructor (config: S3SinkConfig, factory: BufferFactory, codec: Codec<E>, store: ObjectStore, renderer: DateRenderer)
      ensures Valid() && currentBuffer.None?
      ensures this.config == config && this.factory == factory && this.codec == codec
      ensures this.store == store && this.renderer == renderer
    {
      this.config := config;
      this.factory := factory;
      this.codec := codec;
      this.store := store;
      this.renderer := renderer;
      numEvents := config.thresholds.eventCount;
      byteCapacity := config.thresholds.maximumBytes;
      duration := config.thresholds.eventCollectSeconds;
      currentBuffer := None;
    }

    /** What `willExceedThreshold` reads from buffer `b` at `now`: its event
        count, the seconds since it was made, and the length of what a flush of
        it sends. */
    function SnapshotOf(b: Buffer, now: int): (s: Snapshot)
      reads b.Repr()
      requires b.Valid()
      ensures s.eventCount == |b.Events()| && s.duration == now - b.CreatedAt() && s.size == BodyLength(b.Body())
    {
      Snapshot(b.GetEventCount(), b.GetDuration(now), b.GetSize())
    }

    /** The inputs of a call of `output` on this service, from a buffer holding
        `prior` and made at `born`, with record `j` handled at `now(j)`, after
        `sent` requests to the store. */
    ghost function RunOf(prior: seq<seq<JByte>>, born: int, records: seq<E>, now: nat -> int, sent: nat): Run<E>
    {
      Run(prior, born, records, codec, factory, numEvents, byteCapacity, duration, now,
          KeysAt(config, renderer, now, |records|), store.rejects, sent)
    }

    /** The frame of a buffer reached from the one the service held at the
        start: its own objects, the factory's, or objects allocated since. */
    twostate predicate ReachedFrom(new b: Buffer)
      reads this
    {
      forall o :: o in b.Repr() ==> o in old(BufferRepr()) || o in factory.Repr() || !old(allocated(o))
    }

    /** Lines 82-83 of `output`: flush the current buffer under the key built at
        `now`, with exactly one request of what it holds when there is anything
        to read, and, if the flush returns, replace it by a new empty buffer made
        at `now`. When the flush throws, the buffer stays. */
    method FlushAndReplace(now: int) returns (returned: bool)
      requires Valid() && currentBuffer.Some?
      modifies this, store, factory.Repr(), BufferRepr()
      ensures Valid() && currentBuffer.Some? && ReachedFrom(currentBuffer.value)
      ensures old(currentBuffer.value.Writable()) ==> old(currentBuffer.value.Body()).Some?
      ensures old(currentBuffer.value.Body()).Some? ==>
        && store.requests == old(store.requests) + [PutRequest(ObjectId(config.bucketName, GenerateKey(config, renderer, now)),
                                                               old(currentBuffer.value.Body()).value)]
        && returned == !store.rejects(|old(store.requests)|)
      ensures old(currentBuffer.value.Body()).None? ==> !returned && store.requests == old(store.requests)
      ensures returned ==> currentBuffer.value.Events() == [] && currentBuffer.value.CreatedAt() == now
      ensures !returned ==> currentBuffer == old(currentBuffer) && currentBuffer.value.Events() == old(currentBuffer.value.Events())
    {
      returned := FlushToS3(currentBuffer.value, store, config.bucketName, GenerateKey(config, renderer, now));
      if returned {
        ghost var requests := store.requests;
        assert store !in factory.Repr();
        var b := GetBuffer(factory, now);
        assert store.requests == requests;
        currentBuffer := Some(b);
      }
    }

    /** Line 85 of `output`: write the encoded record into the current buffer,
        which has room for it under a positive event limit. */
    method WriteCurrent(bytes: seq<JByte>) returns (ok: bool)
      requires Valid() && currentBuffer.Some?
      requires numEvents > 0 ==> |currentBuffer.value.Events()| + 1 <= numEvents
      modifies BufferRepr()
      ensures Valid() && currentBuffer == old(currentBuffer)
      ensures ok == old(currentBuffer.value.Writable()) && currentBuffer.value.Writable() == ok
      ensures currentBuffer.value.Events() == old(currentBuffer.value.Events()) + (if ok then [bytes] else [])
    {
      ok := WriteEvent(currentBuffer.value, bytes);
    }

    /** The body of the loop of `output` for one record: encode it, test the
        thresholds on the current buffer, flush and replace that buffer if the
        test trips, then write the record. `snapshot` is what the test saw,
        `body` what a flush of the tested buffer sends and `bytes` the encoded
        record. */
    method Accept(record: E, now: int) returns (end: StepEnd, ghost snapshot: Snapshot, ghost body: Option<RequestBody>,
                                               ghost bytes: seq<JByte>)
      requires Valid() && currentBuffer.Some?
      modifies this, store, factory.Repr(), BufferRepr()
      ensures Valid() && currentBuffer.Some? && ReachedFrom(currentBuffer.value)
      ensures end.EncodingStopped? <==> Encode(codec, record).None?
      ensures end.EncodingStopped? ==> currentBuffer == old(currentBuffer) && store.requests == old(store.requests)
      ensures !end.EncodingStopped? ==>
        && Encode(codec, record) == Some(bytes)
        && snapshot == old(SnapshotOf(currentBuffer.value, now)) && body == old(currentBuffer.value.Body())
        && end.exceeded == WillExceedThreshold(snapshot, numEvents, byteCapacity, duration)
        && store.requests == old(store.requests) +
             if end.exceeded && body.Some? then [PutRequest(ObjectId(config.bucketName, GenerateKey(config, renderer, now)), body.value)]
             else []
      ensures end.FlushStopped? ==> end.exceeded && currentBuffer == old(currentBuffer)
      ensures !end.EncodingStopped? && end.exceeded ==>
        (end.FlushStopped? <==> body.None? || store.rejects(|old(store.requests)|))
      ensures end.Written? || end.WriteStopped? ==>
        && (end.exceeded ==> body.Some? && currentBuffer.value.CreatedAt() == now)
        && (!end.exceeded ==> currentBuffer == old(currentBuffer))
        && currentBuffer.value.Events() ==
             (if end.exceeded then [] else old(currentBuffer.value.Events())) + (if end.Written? then [bytes] else [])
      ensures end.WriteStopped? ==> !currentBuffer.value.Writable()
      ensures end.EncodingStopped? || end.FlushStopped? ==> currentBuffer.value.Events() == old(currentBuffer.value.Events())
    {
      var encodedEvent := codec.parse(record);
      if encodedEvent.EncodingError? {
        return EncodingStopped, Snapshot(0, 0, 0), None, [];
      }
      var encodedBytes := codec.getBytes(encodedEvent.text);
      bytes := encodedBytes;
      var current := SnapshotOf(currentBuffer.value, now);
      snapshot, body := current, currentBuffer.value.Body();
      var exceeds := WillExceedThreshold(current, numEvents, byteCapacity, duration);
      if exceeds {
        var returned := FlushAndReplace(now);
        if !returned {
          return FlushStopped(true), snapshot, body, bytes;
        }
      }
      var ok := WriteCurrent(encodedBytes);
      if !ok {
        return WriteStopped(exceeds), snapshot, body, bytes;
      }
      end := Written(exceeds);
    }

    /** One turn of the loop of `output` for record `i` at instant `now`, with
        its bookkeeping for the run `r`: `p` is the progress before it and `p'`
        after it, and `base` the requests before the first record. */
    method Step(records: seq<E>, i: nat, now: int, ghost r: Run<E>, ghost base: seq<PutRequest>, ghost p: Progress)
      returns (end: StepEnd, ghost p': Progress)
      requires Valid() && currentBuffer.Some? && r.records == records && i == |p.checks| == |p.encoded| < |records|
      requires r.codec == codec && r.factory == factory
      requires r.numEvents == numEvents && r.byteCapacity == byteCapacity && r.duration == duration
      requires now == r.now(i) && i < |r.keys| && r.keys[i] == ObjectId(config.bucketName, GenerateKey(config, renderer, now))
      requires r.rejects == store.rejects && r.sent == |base|
      requires Accounted(r, false, p)
      requires currentBuffer.value.Events() == HeldNow(r, p) && currentBuffer.value.CreatedAt() == BornNow(r, p)
      requires base <= store.requests && p.made == store.requests[|base|..]
      modifies this, store, factory.Repr(), BufferRepr()
      ensures Valid() && currentBuffer.Some? && ReachedFrom(currentBuffer.value)
      ensures end.EncodingStopped? ==> p' == p && Encode(codec, records[i]).None? && currentBuffer == old(currentBuffer)
      ensures !end.EncodingStopped? ==>
        && Accounted(r, end.FlushStopped?, p')
        && |p'.checks| == i + 1 && |p'.encoded| == (if end.Written? then i + 1 else i)
        && p'.swapped == p.swapped + [end.exceeded && !end.FlushStopped?]
        && (!end.exceeded || end.FlushStopped? ==> currentBuffer == old(currentBuffer))
      ensures currentBuffer.value.Events() == HeldNow(r, p') && currentBuffer.value.CreatedAt() == BornNow(r, p')
      ensures base <= store.requests && p'.made == store.requests[|base|..]
      ensures end.WriteStopped? ==> !currentBuffer.value.Writable()
    {
      ghost var requests0, events0, born0 := store.requests, currentBuffer.value.Events(), currentBuffer.value.CreatedAt();
      BufferCarriesEvents(factory, currentBuffer.value);
      ghost var snapshot0, body0 := SnapshotOf(currentBuffer.value, now), currentBuffer.value.Body();
      assert snapshot0 == Snapshot(|events0|, now - born0, BodyLength(body0));
      ghost var snapshot, body, bytes;
      end, snapshot, body, bytes := Accept(records[i], now);
      if end.EncodingStopped? {
        p' := p;
        return;
      }
      assert snapshot == snapshot0 && body == body0;
      p' := TurnAccounted(r, p, end, snapshot, body, bytes, base, requests0, store.requests,
                          events0, currentBuffer.value.Events(), born0, currentBuffer.value.CreatedAt());
    }

    /** The loop of `output` over a current buffer that exists. `now(i)` is the
        clock while record `i` is handled. The ghost `progress` records what the
        loop did, as `Accounted` describes. */
    method ProcessRecords(records: seq<E>, now: nat -> int) returns (result: OutputResult, ghost progress: Progress)
      requires Valid() && currentBuffer.Some?
      modifies this, store, factory.Repr(), BufferRepr()
      ensures Valid() && currentBuffer.Some? && ReachedFrom(currentBuffer.value)
      ensures var r := RunOf(old(currentBuffer.value.Events()), old(currentBuffer.value.CreatedAt()), records, now,
                             |old(store.requests)|);
        && Accounted(r, result.FlushFailed?, progress)
        && currentBuffer.value.Events() == Held(r.prior, progress.swapped, progress.encoded)
        && currentBuffer.value.CreatedAt() == BornAt(r.born, progress.swapped, now)
      ensures result.Completed? ==> |progress.encoded| == |progress.checks| == |records|
      ensures result.EncodingFailed? ==>
        && |progress.encoded| == |progress.checks| == result.at < |records|
        && Encode(codec, records[result.at]).None?
      ensures result.FlushFailed? || result.WriteFailed? ==>
        |progress.encoded| == result.at < |records| && |progress.checks| == result.at + 1
      ensures result.WriteFailed? ==> !currentBuffer.value.Writable()
      ensures true !in progress.swapped ==> currentBuffer == old(currentBuffer)
      ensures old(store.requests) <= store.requests && progress.made == store.requests[|old(store.requests)|..]
      ensures RejectedOnlyAtFailure(store.rejects, |old(store.requests)|, result, progress)
      ensures result.FlushFailed? ==>
        progress.bodies[result.at].None? || (|progress.made| > 0 && store.rejects(|old(store.requests)| + |progress.made| - 1))
    {
      ghost var r := RunOf(currentBuffer.value.Events(), currentBuffer.value.CreatedAt(), records, now, |store.requests|);
      progress := Progress([], [], [], [], [], [], [], [], []);
      result := Completed;
      var i := 0;
      while i < |records|
        invariant 0 <= i <= |records| && |progress.checks| == |progress.encoded| == i
        invariant Valid() && currentBuffer.Some?
        invariant Accounted(r, false, progress)
        invariant currentBuffer.value.Events() == HeldNow(r, progress) && currentBuffer.value.CreatedAt() == BornNow(r, progress)
        invariant true !in progress.swapped ==> currentBuffer == old(currentBuffer)
        invariant ReachedFrom(currentBuffer.value)
        invariant old(store.requests) <= store.requests && progress.made == store.requests[|old(store.requests)|..]
        invariant r.rejects == store.rejects && r.sent == |old(store.requests)|
      {
        var end;
        assert r.keys[i] == ObjectId(config.bucketName, GenerateKey(config, renderer, now(i)));
        end, progress := Step(records, i, now(i), r, old(store.requests), progress);
        if end.EncodingStopped? {
          result := EncodingFailed(i);
          break;
        }
        if end.FlushStopped? {
          result := FlushFailed(i);
          break;
        }
        if end.WriteStopped? {
          result := WriteFailed(i);
          break;
        }
        i := i + 1;
      }
      HeldNowMatchesHeld(r, result.FlushFailed?, progress);
      RequestsOutcome(r, result, progress, store.rejects, old(store.requests), store.requests);
    }

    /** `output`: creates the current buffer on first use, at the first
        record's instant, then handles the records in order. */
    method Output(records: seq<E>, now: nat -> int) returns (result: OutputResult, ghost progress: Progress)
      requires Valid()
      modifies this, store, factory.Repr(), BufferRepr()
      ensures Valid() && currentBuffer.Some?
      ensures var prior := if old(currentBuffer).Some? then old(currentBuffer.value.Events()) else [];
        var born := if old(currentBuffer).Some? then old(currentBuffer.value.CreatedAt()) else now(0);
        var r := RunOf(prior, born, records, now, |old(store.requests)|);
        && Accounted(r, result.FlushFailed?, progress)
        && currentBuffer.value.Events() == Held(prior, progress.swapped, progress.encoded)
        && currentBuffer.value.CreatedAt() == BornAt(born, progress.swapped, now)
      ensures result.Completed? ==> |progress.encoded| == |progress.checks| == |records|
      ensures result.EncodingFailed? ==>
        && |progress.encoded| == |progress.checks| == result.at < |records|
        && Encode(codec, records[result.at]).None?
      ensures result.FlushFailed? || result.WriteFailed? ==>
        |progress.encoded| == result.at < |records| && |progress.checks| == result.at + 1
      ensures result.WriteFailed? ==> !currentBuffer.value.Writable()
      ensures old(currentBuffer).Some? && true !in progress.swapped ==> currentBuffer == old(currentBuffer)
      ensures old(store.requests) <= store.requests && progress.made == store.requests[|old(store.requests)|..]
      ensures RejectedOnlyAtFailure(store.rejects, |old(store.requests)|, result, progress)
      ensures result.FlushFailed? ==>
        progress.bodies[result.at].None? || (|progress.made| > 0 && store.rejects(|old(store.requests)| + |progress.made| - 1))
    {
      ghost var requests := store.requests;
      if currentBuffer.None? {
        assert store !in factory.Repr();
        var b := GetBuffer(factory, now(0));
        currentBuffer := Some(b);
      }
      assert store.requests == requests;
      result, progress := ProcessRecords(records, now);
    }
  }

  /** How one record's handling ended; `exceeded` is the outcome of the threshold test. */
  datatype StepEnd = Written(exceeded: bool) | EncodingStopped | FlushStopped(exceeded: bool) | WriteStopped(exceeded: bool)
}
