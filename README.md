# S3 sink and pipeline connector, modelled in Dafny

This project models the sequential core of Data Prepper's S3 sink and of the
`PipelineConnector` that joins two pipelines, and proves what that code
promises.

- `S3SinkService.output` (module `SinkService`) takes records one by one.
  For each it encodes the record, asks `willExceedThreshold` whether the
  current buffer is full (event count, age or byte size), and if so flushes
  that buffer under a key from `generateKey` and replaces it with a new one.
  Then it writes the encoded bytes. The class `S3SinkService` keeps the
  current buffer in a field. `output` is split along its own structure:
  - `Output`: lazy creation of the buffer.
  - `ProcessRecords`: the loop.
  - `Step` and `Accept`: one record.
  - `FlushAndReplace` and `WriteCurrent`: lines 82-85.

  A ghost `Progress` records, per record, the snapshot its test saw, the
  outcome, whether the buffer was replaced, the body a flush of the tested
  buffer sends, and the events and making instant of the buffer afterwards;
  plus every write and every request. The predicate `Accounted` states what
  each of them must have been, including the store's answer: a request was
  rejected exactly when it was the flush that stopped the run. The functions `Held` and `BornAt` give the
  events the current buffer holds after them and the instant it was made.
  The service flushes through `flushToS3` as written for each kind of
  buffer (see Findings).
- The two buffers are classes over their own state:
  - `InMemoryBuffer` (module `MemoryBuffer`): a byte stream and a counter.
  - `LocalFileBuffer` (module `FileBuffer`): a file, plus the text its
    `BufferedWriter` still holds.

  The `Buffer` interface and `BufferFactory` are closed over these two kinds
  (module `Buffers`).
- `ObjectKey` (module `ObjectKey`): the path prefix is split on `/` as
  `String.split` does. Each segment containing the `\%\{.*?\}` time pattern is
  rendered, and every segment gets a `/` after it. The file name is the
  rendered pattern, a dot and the codec extension. `String.split` and
  `Arrays.toString` are modelled in module `Java`.
- `BufferType` (module `BufferType`) has three parts:
  - `uploadToAmazonS3`: its retry loop over a Java `int` counter, with the
    counter's wrap-around.
  - `thresholdsCheck`.
  - `bufferAccumulator`: its three nested loops.
- `PipelineConnector` (module `Connector`): `start`, `stop` and `output` over
  a buffer that can time out.

The world outside is made of classes whose failures are fixed when they are
built, so every run of the model is determined by its inputs:
- the S3 client is an `ObjectStore` whose n-th request is rejected as
  `rejects(n)` says;
- the local disk is a `FileStore`;
- `UUID.randomUUID` is a `UuidSource`;
- the connector's downstream buffer is a `ConnectorBuffer` with a timeout
  schedule.

The clock, the date rendering of `S3ObjectIndex` and the codec are
parameters. `Java.Int32` models 32-bit `int` arithmetic wherever a value
can wrap.

Where the code differs from the sink's documented design, the model follows
the code:
- `output` flushes with a single `putObject` and no retry.
- An exception from that flush escapes `output`; it is not logged, and no
  new buffer replaces the current one.
- An `IOException` from `parse` is caught and ends the batch. The records
  after it are dropped and the buffer stays.
- The only write failure modelled is the `NullPointerException` of a file
  buffer whose file could not be created. It is not an `IOException`, so,
  like a failed flush, it escapes `output`; the records after it are
  dropped.
- The event limit is off for any value of 0 or less, not only for 0.
- The temporary file is deleted only after `putObject` returns. When the
  upload throws, the file stays.
- A file buffer writes `Arrays.toString(bytes)` with no record separator.
- The file writer is never flushed or closed (see Findings).

## Model

| member | source | states |
|---|---|---|
| Storage.ObjectStore.PutObject | data-prepper-plugins/s3-sink/src/main/java/org/opensearch/dataprepper/plugins/sink/accumulator/BufferType.java:61-64 | one `putObject` call: the request is logged in order; it stores the body under the bucket and key exactly when the store accepts the request of that number, and a rejected request (`AwsServiceException` or `SdkClientException`) changes no object |
| Storage.FileStore.Length | data-prepper-plugins/s3-sink/src/main/java/org/opensearch/dataprepper/plugins/sink/accumulator/LocalFileBuffer.java:48 | `File.length()` is the length of the file's text, 0 when there is no file |
| Storage.FileStore.Create | data-prepper-plugins/s3-sink/src/main/java/org/opensearch/dataprepper/plugins/sink/accumulator/LocalFileBuffer.java:35 | `new FileWriter` creates the file empty, or empties it, unless creating it throws, in which case no file changes |
| Storage.FileStore.Append | data-prepper-plugins/s3-sink/src/main/java/org/opensearch/dataprepper/plugins/sink/accumulator/LocalFileBuffer.java:72 | text the writer passes on lands at the end of the file, and is lost when the file is gone; no other file changes |
| Storage.FileStore.DeleteIfExists | data-prepper-plugins/s3-sink/src/main/java/org/opensearch/dataprepper/plugins/sink/accumulator/LocalFileBuffer.java:79 | `Files.deleteIfExists` removes the file and reports whether it existed, or throws and changes nothing |
| Storage.UuidSource.RandomUuid | data-prepper-plugins/s3-sink/src/main/java/org/opensearch/dataprepper/plugins/sink/accumulator/LocalFileBuffer.java:33 | each call takes the next draw of the UUID source |
| Java.Int32 | data-prepper-plugins/s3-sink/src/main/java/org/opensearch/dataprepper/plugins/sink/accumulator/BufferType.java:98 | the `int` a Java sum yields: in the `int` range, equal to the exact value modulo 2^32, and the exact value whenever that fits |
| Java.DropTrailingEmpty | data-prepper-plugins/s3-sink/src/main/java/org/opensearch/dataprepper/plugins/sink/accumulator/ObjectKey.java:30 | `split` with limit 0 keeps a prefix of the pieces, ends in a non-empty piece (or is empty), and drops only empty pieces |
| Java.Split | data-prepper-plugins/s3-sink/src/main/java/org/opensearch/dataprepper/plugins/sink/accumulator/ObjectKey.java:30 | `split("/")` gives the whole string back when it holds no `/`; no piece holds the separator; the pieces glued back with it give the string up to its trailing separators; only a string of separators alone gives no piece |
| Java.JoinDropTrailing | data-prepper-plugins/s3-sink/src/main/java/org/opensearch/dataprepper/plugins/sink/accumulator/ObjectKey.java:30 | dropping the empty pieces at the end of a split drops only separators from the end of the glued string |
| Java.SplitAllJoin | data-prepper-plugins/s3-sink/src/main/java/org/opensearch/dataprepper/plugins/sink/accumulator/ObjectKey.java:30 | gluing the pieces of a split back together with the separator gives the original string |
| Java.JoinSplitAll | data-prepper-plugins/s3-sink/src/main/java/org/opensearch/dataprepper/plugins/sink/accumulator/ObjectKey.java:30 | splitting separator-free pieces glued with the separator gives the pieces back (the other half of the round trip) |
| Java.SplitIgnoresTrailingSeparator | data-prepper-plugins/s3-sink/src/main/java/org/opensearch/dataprepper/plugins/sink/accumulator/ObjectKey.java:30 | `(s + "/").split("/")` equals `s.split("/")` for non-empty `s` |
| Java.ArraysToString | data-prepper-plugins/s3-sink/src/main/java/org/opensearch/dataprepper/plugins/sink/accumulator/LocalFileBuffer.java:72 | `Arrays.toString` of a byte array starts with `[`, ends with `]`, has no bracket inside, and is `[]` exactly for the empty array |
| ObjectKey.ClosesOnLineMeansClosesAt | data-prepper-plugins/s3-sink/src/main/java/org/opensearch/dataprepper/plugins/sink/accumulator/ObjectKey.java:14-15 | the lazy `.*?\}` matches at the start exactly when a `}` occurs before any line terminator |
| ObjectKey.HasTimePatternMeansToken | data-prepper-plugins/s3-sink/src/main/java/org/opensearch/dataprepper/plugins/sink/accumulator/ObjectKey.java:32 | `find()` of `\%\{.*?\}` succeeds exactly when the segment holds `%{`, later a `}`, and no line terminator between them |
| ObjectKey.BuildingPathPrefix | data-prepper-plugins/s3-sink/src/main/java/org/opensearch/dataprepper/plugins/sink/accumulator/ObjectKey.java:26-40 | the loop builds `PathPrefix`: each `/`-separated segment, rendered if it has a time pattern, followed by `/`; `""` for a null or empty prefix |
| ObjectKey.PathPrefix | data-prepper-plugins/s3-sink/src/main/java/org/opensearch/dataprepper/plugins/sink/accumulator/ObjectKey.java:26-40 | the prefix is `""` for a null or empty configuration and otherwise empty or ending in `/` |
| ObjectKey.PathPrefixIgnoresTrailingSlash | data-prepper-plugins/s3-sink/src/main/java/org/opensearch/dataprepper/plugins/sink/accumulator/ObjectKey.java:30 | a configured prefix with a trailing `/` builds the same path prefix as without it |
| ObjectKey.ConcatSegmentsIsJoin | data-prepper-plugins/s3-sink/src/main/java/org/opensearch/dataprepper/plugins/sink/accumulator/ObjectKey.java:31-37 | appending each rendered segment and `/` is joining the rendered segments and a final empty piece with `/` |
| ObjectKey.PathPrefixSegments | data-prepper-plugins/s3-sink/src/main/java/org/opensearch/dataprepper/plugins/sink/accumulator/ObjectKey.java:29-37 | splitting the built prefix on `/` gives back the configured segments, each rendered or copied, then one empty piece (when rendering adds no `/`) |
| ObjectKey.LiteralPathPrefix | data-prepper-plugins/s3-sink/src/main/java/org/opensearch/dataprepper/plugins/sink/accumulator/ObjectKey.java:29-37 | a prefix without time patterns and without a trailing `/` comes back unchanged with one `/` appended |
| ObjectKey.SplitKeepsLastPiece | data-prepper-plugins/s3-sink/src/main/java/org/opensearch/dataprepper/plugins/sink/accumulator/ObjectKey.java:30 | a string that does not end in the separator loses no piece to `split` |
| ObjectKey.LastPieceOfSplitAll | data-prepper-plugins/s3-sink/src/main/java/org/opensearch/dataprepper/plugins/sink/accumulator/ObjectKey.java:30 | the last piece of a string that does not end in the separator is non-empty |
| ObjectKey.CodecFileExtension | data-prepper-plugins/s3-sink/src/main/java/org/opensearch/dataprepper/plugins/sink/accumulator/ObjectKey.java:48-54 | the extension is the codec plugin name when it is set and non-empty, otherwise `json`; never empty |
| ObjectKey.ObjectFileName | data-prepper-plugins/s3-sink/src/main/java/org/opensearch/dataprepper/plugins/sink/accumulator/ObjectKey.java:42-46 | the file name is the rendered name pattern, then `.`, then the extension, at those exact positions |
| MemoryBuffer.FlattenLength | data-prepper-plugins/s3-sink/src/main/java/org/opensearch/dataprepper/plugins/sink/accumulator/InMemoryBuffer.java:33-36 | the stream's length is the sum of the lengths of the written events |
| MemoryBuffer.InMemoryBuffer.constructor | data-prepper-plugins/s3-sink/src/main/java/org/opensearch/dataprepper/plugins/sink/accumulator/InMemoryBuffer.java:24-31 | a new buffer holds no events and no bytes and its stopwatch starts at the given instant |
| MemoryBuffer.InMemoryBuffer.GetSize | data-prepper-plugins/s3-sink/src/main/java/org/opensearch/dataprepper/plugins/sink/accumulator/InMemoryBuffer.java:33-36 | the size is the sum of the written events' lengths |
| MemoryBuffer.InMemoryBuffer.GetEventCount | data-prepper-plugins/s3-sink/src/main/java/org/opensearch/dataprepper/plugins/sink/accumulator/InMemoryBuffer.java:38-41 | the count is the number of events written |
| MemoryBuffer.InMemoryBuffer.GetDuration | data-prepper-plugins/s3-sink/src/main/java/org/opensearch/dataprepper/plugins/sink/accumulator/InMemoryBuffer.java:43-45 | the stopwatch reading at `now` is the time since the buffer was made: added to the start instant it gives `now`, and it is not negative once started |
| MemoryBuffer.InMemoryBuffer.FlushToS3 | data-prepper-plugins/s3-sink/src/main/java/org/opensearch/dataprepper/plugins/sink/accumulator/InMemoryBuffer.java:47-54 | exactly one request, of exactly the written bytes in order; the buffer is left as it was |
| MemoryBuffer.InMemoryBuffer.WriteEvent | data-prepper-plugins/s3-sink/src/main/java/org/opensearch/dataprepper/plugins/sink/accumulator/InMemoryBuffer.java:56-60 | the bytes go at the end of the stream, the count grows by one and the size by the event's length |
| FileBuffer.LocalFileBuffer.constructor | data-prepper-plugins/s3-sink/src/main/java/org/opensearch/dataprepper/plugins/sink/accumulator/LocalFileBuffer.java:30-44 | the file under the drawn name is created empty (an existing file of that name is emptied), or, when that fails, the buffer has no writer and the file system is unchanged |
| FileBuffer.LocalFileBuffer.GetSize | data-prepper-plugins/s3-sink/src/main/java/org/opensearch/dataprepper/plugins/sink/accumulator/LocalFileBuffer.java:46-49 | the size is the file's length on disk, 0 when there is no file; while the writer is open, the size plus the text still held by the writer is the length of everything written, so the size is exact only when the writer holds nothing |
| FileBuffer.LocalFileBuffer.GetEventCount | data-prepper-plugins/s3-sink/src/main/java/org/opensearch/dataprepper/plugins/sink/accumulator/LocalFileBuffer.java:51-54 | the count is the number of events written |
| FileBuffer.LocalFileBuffer.GetDuration | data-prepper-plugins/s3-sink/src/main/java/org/opensearch/dataprepper/plugins/sink/accumulator/LocalFileBuffer.java:56-58 | the same for the file buffer's stopwatch |
| FileBuffer.LocalFileBuffer.WriteEvent | data-prepper-plugins/s3-sink/src/main/java/org/opensearch/dataprepper/plugins/sink/accumulator/LocalFileBuffer.java:69-74 | `Arrays.toString(bytes)` is appended, with no separator, to the text of file and writer together and the count grows by one; without a writer nothing changes |
| FileBuffer.LocalFileBuffer.RemoveTemporaryFile | data-prepper-plugins/s3-sink/src/main/java/org/opensearch/dataprepper/plugins/sink/accumulator/LocalFileBuffer.java:76-89 | the file is gone afterwards unless its deletion fails, which changes nothing |
| FileBuffer.LocalFileBuffer.FlushToS3 | data-prepper-plugins/s3-sink/src/main/java/org/opensearch/dataprepper/plugins/sink/accumulator/LocalFileBuffer.java:59-67 | as written: one request with the file as it is on disk; the file is deleted only after `putObject` returns; no request when the file is missing |
| FileBuffer.PendingTextIsNotUploaded | data-prepper-plugins/s3-sink/src/main/java/org/opensearch/dataprepper/plugins/sink/accumulator/LocalFileBuffer.java:59-67 | while the writer holds text, the file on disk differs from the rendering of the written events |
| FileBuffer.LocalFileBuffer.FlushToS3AfterWriterFlush | data-prepper-plugins/s3-sink/src/main/java/org/opensearch/dataprepper/plugins/sink/accumulator/LocalFileBuffer.java:59-67 | with the writer flushed first, the one request carries the rendering of every written event |
| Buffers.GetBuffer | data-prepper-plugins/s3-sink/src/main/java/org/opensearch/dataprepper/plugins/sink/S3SinkService.java:69-71 | a new buffer of the configured kind is valid, empty, of age 0, and lives in fresh objects or the factory's file system; a file buffer is named by the next UUID draw, which advances the source by one, and the file system changes only by that file being created or emptied, or not at all when the writer could not be opened |
| Buffers.Buffer.GetEventCount | data-prepper-plugins/s3-sink/src/main/java/org/opensearch/dataprepper/plugins/sink/S3SinkService.java:101 | on either kind, the count is the number of events the buffer holds |
| Buffers.Buffer.GetSize | data-prepper-plugins/s3-sink/src/main/java/org/opensearch/dataprepper/plugins/sink/S3SinkService.java:101-103 | on either kind, the size is the length of what a flush would send: the bytes in memory, or the text of the file on disk (0 without a file) |
| Buffers.Buffer.GetDuration | data-prepper-plugins/s3-sink/src/main/java/org/opensearch/dataprepper/plugins/sink/S3SinkService.java:101-103 | on either kind, the age at `now` is `now` minus the instant the buffer was made |
| Buffers.WriteEvent | data-prepper-plugins/s3-sink/src/main/java/org/opensearch/dataprepper/plugins/sink/S3SinkService.java:85 | on either kind, a write adds the event at the end exactly when the buffer is writable |
| Buffers.FlushToS3 | data-prepper-plugins/s3-sink/src/main/java/org/opensearch/dataprepper/plugins/sink/S3SinkService.java:82 | as written, on either kind: exactly one request under the given bucket and key of what there is to send (the bytes in memory, or the file's text as it is on disk), and none when the file is missing; `returned` exactly when the store accepts it; the events stay, and a flush that throws leaves the buffer and its body as they were |
| Buffers.BufferCarriesEvents | data-prepper-plugins/s3-sink/src/main/java/org/opensearch/dataprepper/plugins/sink/S3SinkService.java:81-85 | what a flush of a valid buffer sends is tied to its events: exactly their bytes in memory; from a file a text that, once anything was written, is the start of their rendering |
| BufferType.RetryBudgetIsFirstZero | data-prepper-plugins/s3-sink/src/main/java/org/opensearch/dataprepper/plugins/sink/accumulator/BufferType.java:58-70 | decrementing a Java `int` counter that starts at `n` first reaches 0 after `RetryBudget(n)` failures |
| BufferType.RetryBudget | data-prepper-plugins/s3-sink/src/main/java/org/opensearch/dataprepper/plugins/sink/accumulator/BufferType.java:58-70 | the number of failures a counter starting at `n` allows: `n` itself when positive, and more than `Integer.MAX_VALUE` when `n <= 0`; always at least one |
| BufferType.RetryBudgetStep | data-prepper-plugins/s3-sink/src/main/java/org/opensearch/dataprepper/plugins/sink/accumulator/BufferType.java:67-68 | one decrement reaches 0 exactly when one attempt was left, and otherwise leaves a budget one smaller |
| BufferType.CountFailure | data-prepper-plugins/s3-sink/src/main/java/org/opensearch/dataprepper/plugins/sink/accumulator/BufferType.java:67-68 | `--retryCount` wraps as Java does, and its result tests 0 exactly on the last attempt of the budget |
| BufferType.Attempts | data-prepper-plugins/s3-sink/src/main/java/org/opensearch/dataprepper/plugins/sink/accumulator/BufferType.java:59-73 | the number of `putObject` calls lies between 1 and the budget |
| BufferType.AttemptsStopAtFirstSuccess | data-prepper-plugins/s3-sink/src/main/java/org/opensearch/dataprepper/plugins/sink/accumulator/BufferType.java:59-73 | every attempt but the last was rejected, and stopping before the budget is spent means the last one was accepted |
| BufferType.AttemptsAgainstFailingStore | data-prepper-plugins/s3-sink/src/main/java/org/opensearch/dataprepper/plugins/sink/accumulator/BufferType.java:59-73 | a store that rejects every request takes the whole budget |
| BufferType.UploadKey | data-prepper-plugins/s3-sink/src/main/java/org/opensearch/dataprepper/plugins/sink/accumulator/BufferType.java:56 | the key is the prefix followed by the name (an empty prefix contributes nothing) |
| BufferType.BuildKey | data-prepper-plugins/s3-sink/src/main/java/org/opensearch/dataprepper/plugins/sink/accumulator/BufferType.java:52-56 | the upload key is the configured path prefix followed by the file name, both rendered at the same instant |
| BufferType.UploadToAmazonS3 | data-prepper-plugins/s3-sink/src/main/java/org/opensearch/dataprepper/plugins/sink/accumulator/BufferType.java:49-75 | as written: attempts as many requests as the wrapped counter allows, all with the same bucket, key and body; returns true exactly when the last was accepted; one sleep between attempts; stores the body only on success |
| BufferType.PutWithRetries | data-prepper-plugins/s3-sink/src/main/java/org/opensearch/dataprepper/plugins/sink/accumulator/BufferType.java:57-74 | the retry loop as written: the attempt count, the outcome, the sleeps and the request log of the upload for a fixed object |
| BufferType.MaxRetries | data-prepper-plugins/s3-sink/src/main/java/org/opensearch/dataprepper/plugins/sink/accumulator/BufferType.java:58 | the intended budget is at least 1, at least `maxUploadRetries`, and equal to it when positive |
| BufferType.UploadToAmazonS3WithinRetries | data-prepper-plugins/s3-sink/src/main/java/org/opensearch/dataprepper/plugins/sink/accumulator/BufferType.java:49-75 | as intended: the same, with at most `max(maxUploadRetries, 1)` attempts |
| BufferType.PutWithinRetries | data-prepper-plugins/s3-sink/src/main/java/org/opensearch/dataprepper/plugins/sink/accumulator/BufferType.java:57-74 | the retry loop as intended, for a fixed object |
| BufferType.NonPositiveRetriesAgainstFailingStore | data-prepper-plugins/s3-sink/src/main/java/org/opensearch/dataprepper/plugins/sink/accumulator/BufferType.java:58-70 | against a store that always fails, a setting `n <= 0` makes `2^32 + n` attempts as written (more than `Integer.MAX_VALUE`) and 1 as intended |
| BufferType.PositiveRetriesAgainstFailingStore | data-prepper-plugins/s3-sink/src/main/java/org/opensearch/dataprepper/plugins/sink/accumulator/BufferType.java:58-70 | with `n >= 1` both versions make exactly `n` attempts against a store that always fails |
| BufferType.ThresholdsCheck | data-prepper-plugins/s3-sink/src/main/java/org/opensearch/dataprepper/plugins/sink/accumulator/BufferType.java:125-132 | accumulation continues only while the stopwatch and byte count are strictly under their limits and, once an event is taken, the count too; before the first event the event limit plays no part |
| BufferType.Lines | data-prepper-plugins/s3-sink/src/main/java/org/opensearch/dataprepper/plugins/sink/accumulator/BufferType.java:97-99 | the records are the events' serializations, each followed by the line separator, one per event in order |
| BufferType.Int32AddWrapped | data-prepper-plugins/s3-sink/src/main/java/org/opensearch/dataprepper/plugins/sink/accumulator/BufferType.java:98 | an `int` sum that wraps at every step equals the exact sum wrapped once |
| BufferType.TakeOne | data-prepper-plugins/s3-sink/src/main/java/org/opensearch/dataprepper/plugins/sink/accumulator/BufferType.java:96-103 | taking one more parsable event adds its record at the end and its byte length to the wrapped total |
| BufferType.TakeEvent | data-prepper-plugins/s3-sink/src/main/java/org/opensearch/dataprepper/plugins/sink/accumulator/BufferType.java:97-101 | one pass of the inner loop keeps the records and the `int` byte count equal to those of the events taken |
| BufferType.TakeRemaining | data-prepper-plugins/s3-sink/src/main/java/org/opensearch/dataprepper/plugins/sink/accumulator/BufferType.java:96-103 | the inner loop parses the remaining events in order and stops exactly at the first one whose `parse` throws |
| BufferType.BufferAccumulator | data-prepper-plugins/s3-sink/src/main/java/org/opensearch/dataprepper/plugins/sink/accumulator/BufferType.java:79-123 | the records are the lines of the events taken, the byte count their wrapped byte total; every flush receives the empty list or the whole records list; a parse failure, an interrupted flush and a blocked threshold each end it as stated |
| SinkService.WillExceedThreshold | data-prepper-plugins/s3-sink/src/main/java/org/opensearch/dataprepper/plugins/sink/S3SinkService.java:99-105 | when the test does not trip, one more event fits under a positive limit and neither the age nor the size is above its limit; whenever `thresholdsCheck` would keep accumulating on the same measures, the test does not trip |
| SinkService.WillExceedThresholdIgnoresCountWithoutLimit | data-prepper-plugins/s3-sink/src/main/java/org/opensearch/dataprepper/plugins/sink/S3SinkService.java:99-105 | with an event limit of 0 or less the event count never matters |
| SinkService.AtDurationTheTwoTestsDisagree | data-prepper-plugins/s3-sink/src/main/java/org/opensearch/dataprepper/plugins/sink/S3SinkService.java:99-105 | at an age of exactly `duration` the accumulator closes a batch but the service does not swap |
| SinkService.GenerateKey | data-prepper-plugins/s3-sink/src/main/java/org/opensearch/dataprepper/plugins/sink/S3SinkService.java:93-97 | the service's key is the path prefix followed by the file name, rendered at the same instant |
| SinkService.GenerateKeyShape | data-prepper-plugins/s3-sink/src/main/java/org/opensearch/dataprepper/plugins/sink/S3SinkService.java:93-97 | the service's key equals the uploader's key, and is a prefix that is empty or ends in `/`, the rendered name, `.` and a non-empty extension |
| SinkService.HeldWithoutSwaps | data-prepper-plugins/s3-sink/src/main/java/org/opensearch/dataprepper/plugins/sink/S3SinkService.java:81-85 | without a swap the buffer gains exactly the written events, in order |
| SinkService.HeldAfterLastSwap | data-prepper-plugins/s3-sink/src/main/java/org/opensearch/dataprepper/plugins/sink/S3SinkService.java:81-85 | after the last swap, at record `k`, the buffer holds exactly the events written from record `k` on |
| SinkService.HeldWithinEventLimit | data-prepper-plugins/s3-sink/src/main/java/org/opensearch/dataprepper/plugins/sink/S3SinkService.java:81-85 | if every test saw the count then held, a positive event limit is never passed |
| SinkService.HeldStep | data-prepper-plugins/s3-sink/src/main/java/org/opensearch/dataprepper/plugins/sink/S3SinkService.java:81-85 | one more test and possibly one more write: the buffer is emptied on a swap, then gains the write |
| SinkService.BornWithoutSwaps | data-prepper-plugins/s3-sink/src/main/java/org/opensearch/dataprepper/plugins/sink/S3SinkService.java:81-83 | without a replacement the current buffer is the one made before the first record |
| SinkService.TraceMatchesHeld | data-prepper-plugins/s3-sink/src/main/java/org/opensearch/dataprepper/plugins/sink/S3SinkService.java:74-86 | before every record, the events the buffer holds and the instant it was made, as recorded per record, are those `Held` and `BornAt` give for the tests and writes before it |
| SinkService.HeldNowMatchesHeld | data-prepper-plugins/s3-sink/src/main/java/org/opensearch/dataprepper/plugins/sink/S3SinkService.java:74-86 | after the records handled so far the buffer holds `Held` of the tests and writes and was made at `BornAt` |
| SinkService.AccountStep | data-prepper-plugins/s3-sink/src/main/java/org/opensearch/dataprepper/plugins/sink/S3SinkService.java:74-86 | one more record keeps the bookkeeping sound: its test saw the count of held events, the age since that buffer was made and the length of what a flush of it sends; it tripped as `willExceedThreshold` says; a tripped test on a buffer with something to send made exactly one request, of that body under the record's key; the buffer was replaced exactly when the test tripped and the flush returned, and the flush threw exactly when there was nothing to send or the store rejected that request; then the record was written |
| SinkService.ExtendedBuffer | data-prepper-plugins/s3-sink/src/main/java/org/opensearch/dataprepper/plugins/sink/S3SinkService.java:81-85 | after one more record the buffer is emptied and made at the record's instant if it was replaced, then gains the record if written; the requests are the earlier ones followed by the ones for this record |
| SinkService.TurnAccounted | data-prepper-plugins/s3-sink/src/main/java/org/opensearch/dataprepper/plugins/sink/S3SinkService.java:75-85 | one turn, on the buffer and request log it leaves behind, extends the bookkeeping by exactly that record and keeps it sound |
| SinkService.KeysAt | data-prepper-plugins/s3-sink/src/main/java/org/opensearch/dataprepper/plugins/sink/S3SinkService.java:82 | the object of record `j` is the bucket and the key `generateKey` builds at that record's instant |
| SinkService.NothingFlushedUnderLargeThresholds | data-prepper-plugins/s3-sink/src/main/java/org/opensearch/dataprepper/plugins/sink/S3SinkService.java:81-85 | with an in-memory buffer that starts empty and limits that no record reaches (event count, age and total bytes), nothing is flushed or replaced and the buffer ends holding every encoding in order |
| SinkService.RequestsOutcome | data-prepper-plugins/s3-sink/src/main/java/org/opensearch/dataprepper/plugins/sink/S3SinkService.java:74-89 | from the bookkeeping alone: a request of the run was rejected exactly when it was the flush of the record at which the run stopped with `FlushFailed`; such a stop had nothing to send, or its request was the last one sent and was rejected |
| SinkService.FailedFlushIsLastRequest | data-prepper-plugins/s3-sink/src/main/java/org/opensearch/dataprepper/plugins/sink/S3SinkService.java:81-83 | a run stopped by a flush stopped at a tripped test, and that flush had nothing to send or was the last request sent, which the store rejected |
| SinkService.S3SinkService.constructor | data-prepper-plugins/s3-sink/src/main/java/org/opensearch/dataprepper/plugins/sink/S3SinkService.java:47-57 | the limits are read from the configuration and there is no buffer yet |
| SinkService.S3SinkService.SnapshotOf | data-prepper-plugins/s3-sink/src/main/java/org/opensearch/dataprepper/plugins/sink/S3SinkService.java:99-104 | the test reads the buffer's event count, its age at `now` and the length of what a flush of it would send |
| SinkService.S3SinkService.FlushAndReplace | data-prepper-plugins/s3-sink/src/main/java/org/opensearch/dataprepper/plugins/sink/S3SinkService.java:81-84 | a writable buffer always has something to send; when the buffer has something to send, exactly one request of its old body under the bucket and the key `generateKey` builds at `now`, returned exactly when the store accepts it; with nothing to send (the file is missing), no request; a returned flush leaves an empty buffer made at `now`, otherwise the same buffer with the same events |
| SinkService.S3SinkService.WriteCurrent | data-prepper-plugins/s3-sink/src/main/java/org/opensearch/dataprepper/plugins/sink/S3SinkService.java:85 | the write adds the event to the current buffer exactly when it is writable; the event limit still holds |
| SinkService.S3SinkService.Accept | data-prepper-plugins/s3-sink/src/main/java/org/opensearch/dataprepper/plugins/sink/S3SinkService.java:75-86 | one record: a failed encoding changes nothing; the test sees exactly the buffer's event count, age at `now` and the length of its body, and trips as `willExceedThreshold` says; a tripped test on a buffer with something to send makes exactly one request of that body under the record's key, and there is no other request; after a tripped test the record stops at the flush exactly when there was nothing to send or the store rejected that request; a returned flush replaces the buffer with an empty one made at `now`; then the record is written when the buffer is writable |
| SinkService.S3SinkService.Step | data-prepper-plugins/s3-sink/src/main/java/org/opensearch/dataprepper/plugins/sink/S3SinkService.java:74-86 | one turn of the loop for record `i` at `now(i)`: the bookkeeping grows by exactly that record (snapshot seen, outcome, swap, body, write, request and the store's answer to it) and stays sound, and the buffer holds and was made as the trace says |
| SinkService.S3SinkService.ProcessRecords | data-prepper-plugins/s3-sink/src/main/java/org/opensearch/dataprepper/plugins/sink/S3SinkService.java:73-89 | the loop over an existing buffer: records in order until the first failure, which ends it as stated; the store rejected one of the requests sent exactly when it was the flush of the record at which the loop stopped with `FlushFailed`, and a `FlushFailed` stop had nothing to send or its request, the last one sent, was rejected; every test saw the count, age and body size of the buffer then current and tripped as `willExceedThreshold` says; each tripped test sent exactly one request of that buffer's body under its record's key, and every request is one of those, in order; the buffer ends holding `Held` and made at `BornAt`; no swap means the same buffer |
| SinkService.S3SinkService.Output | data-prepper-plugins/s3-sink/src/main/java/org/opensearch/dataprepper/plugins/sink/S3SinkService.java:62-91 | creates the buffer on first use, made at the first record's instant, then as `ProcessRecords`: the buffer ends holding `Held` of what was there and what was written, made at `BornAt`; the store rejected a request exactly when it was the flush at which the call stopped with `FlushFailed` |
| Connector.ConnectorBuffer.Write | situp-core/src/main/java/com/amazon/situp/pipeline/PipelineConnector.java:53 | a write appends the record unless it times out, in which case nothing is added |
| Connector.PipelineConnector.constructor | situp-core/src/main/java/com/amazon/situp/pipeline/PipelineConnector.java:29-31 | a new connector has no buffer, is not stopped and has no names |
| Connector.PipelineConnector.ForSink | situp-core/src/main/java/com/amazon/situp/pipeline/PipelineConnector.java:33-36 | the same, with the sink pipeline name set |
| Connector.PipelineConnector.Start | situp-core/src/main/java/com/amazon/situp/pipeline/PipelineConnector.java:39-41 | only the buffer is replaced; the stop flag and the names stay |
| Connector.PipelineConnector.Stop | situp-core/src/main/java/com/amazon/situp/pipeline/PipelineConnector.java:43-46 | the stop flag is raised whatever it was and nothing else changes, so a second call changes nothing |
| Connector.PipelineConnector.Output | situp-core/src/main/java/com/amazon/situp/pipeline/PipelineConnector.java:48-67 | without a buffer or once stopped nothing is written (even for no records); otherwise the records are written in order with `Integer.MAX_VALUE` as timeout until the first timeout, after which none is tried |
| Connector.PipelineConnector.SetSourcePipelineName | situp-core/src/main/java/com/amazon/situp/pipeline/PipelineConnector.java:69-71 | only the source pipeline name changes |
| Connector.PipelineConnector.SetSinkPipelineName | situp-core/src/main/java/com/amazon/situp/pipeline/PipelineConnector.java:73-75 | only the sink pipeline name changes |

## Left out

- The `ReentrantLock` of `output` is not modelled, and neither is concurrency in general. The lock is never released when a flush exception escapes (lines 63 and 90 of `S3SinkService.java`).
- Logging is left out everywhere, as are the exception messages of the connector.
- `createS3Client` and the AWS client configuration are left out: the object store is a constructor argument of the service.
- `S3ObjectIndex.getObjectPathPrefix` and `getObjectNameWithDateTimeId` (not part of this model) are the two functions of a `DateRenderer`, given the instant they read the clock.
- SinkService.S3SinkService.Output: one clock instant per record (`now(i)`) serves both the age test and both halves of the key. The source reads the clock separately for each, so readings that straddle a second boundary are not modelled.
- BufferType.BuildKey: the path prefix and the object name are rendered at one instant `now`. Lines 52-53 of `BufferType.java` read the clock once for each, so readings that straddle a second boundary are not modelled.
- BufferType.UploadToAmazonS3: builds its key with `BuildKey` at one instant, so the same two clock readings are one here; `UploadToAmazonS3WithinRetries` does the same.
- The `StopWatch` of the buffers is the instant the buffer was made. `getDuration` is the difference to the instant of the call, in whole seconds.
- `ByteCount` and the `Duration` of the thresholds are plain integers (`maximumBytes`, `eventCollectSeconds`), and `getSize()`'s `long` is unbounded.
- SinkService.WillExceedThreshold: does not model the 32-bit wrap of `getEventCount() + 1`. It matters only when the event limit is `Integer.MAX_VALUE` and the buffer already holds that many events.
- MemoryBuffer.InMemoryBuffer.WriteEvent: the `int` event counter is unbounded. It would wrap only after 2^31 events.
- FileBuffer.LocalFileBuffer.constructor: the name is whatever the `UuidSource` schedule draws. That `UUID.randomUUID` never repeats, and so never names a file that already exists, is a library guarantee the model does not assume: a repeated draw empties the existing file, and the contract says so.
- FileBuffer.LocalFileBuffer.WriteEvent: the buffering of `BufferedWriter` and `FileWriter` is an abstract `spillPolicy`, which decides how much of the text held so far reaches the file. Character encoding is not modelled (text is `seq<char>`). An `IOException` thrown by `BufferedWriter.write` on an open writer is not modelled: `Storage.FileStore.Append` never fails, so `ok` is false only for the `NullPointerException` of a buffer with no writer, which escapes `output`. The contracts `result.WriteFailed? ==> !currentBuffer.value.Writable()` of `ProcessRecords` and `Output` rest on this.
- Storage.ObjectStore.PutObject: `AwsServiceException` and `SdkClientException` are one outcome, a rejected request. `RequestBody.fromFile` reads the file at the moment of the call.
- BufferType.UploadToAmazonS3: `Thread.sleep(5000)` is counted (`sleeps`), not performed. An `InterruptedException` thrown by the sleep is not modelled.
- BufferType.BufferAccumulator: the abstract `flushRecordsToAmazonS3` is a schedule `flushOutcome` of returned results and interruptions, and the stopwatch readings are a schedule `elapsed`. The middle loop, which spins on `thresholdsCheck` once the events are exhausted, is bounded by `fuel` threshold checks; a run that uses them up ends as `Stalled`. `eventCount` and `eventCollectionDuration` only feed a log line and are left out, as are `Thread.currentThread().interrupt()` and the boolean returned by a flush, which is only logged.
- Connector.PipelineConnector.Output: `AtomicBoolean` is a plain field, because concurrent `stop` calls are not modelled. The downstream `Buffer` implementation (not part of this model) is a `ConnectorBuffer` whose writes time out as its schedule says.

## Findings

| source | as written | input that shows it | evidently intended | confidence | as-written member | corrected member |
|---|---|---|---|---|---|---|
| data-prepper-plugins/s3-sink/src/main/java/org/opensearch/dataprepper/plugins/sink/accumulator/LocalFileBuffer.java:59-67 | `flushToS3` uploads the file on disk while the `BufferedWriter` may still hold text: the writer is never flushed or closed | a new file buffer, one `writeEvent` of the bytes `{1, 2, 3}` (9 characters, well under the writer's buffer) and a flush: the object uploaded is the empty file, not `[1, 2, 3]` | flush (or close) the writer first, so the object holds the rendering of every written event | not executed | FileBuffer.PendingTextIsNotUploaded | FileBuffer.LocalFileBuffer.FlushToS3AfterWriterFlush |
| data-prepper-plugins/s3-sink/src/main/java/org/opensearch/dataprepper/plugins/sink/accumulator/BufferType.java:58-70 | the retry counter starts at `maxUploadRetries` and the loop stops only when `--retryCount` equals 0 | `maxUploadRetries = 0` and a store that rejects every request: 2^32 attempts with a 5 second sleep between each, instead of one | at most `max(maxUploadRetries, 1)` attempts | not executed | BufferType.NonPositiveRetriesAgainstFailingStore | BufferType.UploadToAmazonS3WithinRetries |
