/** The configuration values and collaborators the sink core consumes:
    the subset of `S3SinkConfig` it reads, the codec, and the date renderer of
    `S3ObjectIndex`, whose source is not part of this model. */
module SinkConfig {
  import opened Java

  /** `ThresholdOptions` as plain integers: `event_count` (0 or less turns the
      count test off), the byte capacity of `maximum_size` and the seconds of
      `event_collect`. */
  datatype Thresholds = Thresholds(eventCount: JInt, maximumBytes: int, eventCollectSeconds: int)

  datatype S3SinkConfig = S3SinkConfig(
    bucketName: string,
    pathPrefix: Option<string>,       // object_key.path_prefix, may be null
    namePattern: string,              // object_key.name_pattern
    codecPluginName: Option<string>,  // codec plugin name, may be null
    maxUploadRetries: JInt,
    thresholds: Thresholds)

  /** What `Codec.parse` produces for one event: its text, or an IOException. */
  datatype Encoded = Encoded(text: string) | EncodingError

  /** The codec (`parse`) together with `String.getBytes` in the platform charset. */
  datatype Codec<!E> = Codec(parse: E -> Encoded, getBytes: string -> seq<JByte>)

  /** `S3ObjectIndex.getObjectPathPrefix` and `getObjectNameWithDateTimeId`,
      given the instant (seconds) at which they read the clock. */
  datatype DateRenderer = DateRenderer(pathPrefix: (int, string) -> string, objectName: (int, string) -> string)
  {
    function PathPrefixAt(now: int): string -> string { s => pathPrefix(now, s) }
    function ObjectNameAt(now: int): string -> string { s => objectName(now, s) }
  }
}
