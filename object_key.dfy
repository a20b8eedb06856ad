/** `ObjectKey`: the path prefix and the file name of an uploaded object. The
    date rendering of `S3ObjectIndex` is a parameter: `render` is
    `getObjectPathPrefix` or `getObjectNameWithDateTimeId` at the instant of
    the call. */
module ObjectKey {
  import opened Java
  import opened SinkConfig

  const DefaultCodecFileExtension: string := "json"

  /** The characters `.` does not match in a Java regular expression without DOTALL. */
  predicate IsLineTerminator(c: char)
  {
    c == '\n' || c == '\r' || c == '\U{0085}' || c == '\U{2028}' || c == '\U{2029}'
  }

  /** `.*?\}` matches at the start of `t`: a `}` comes before any line terminator. */
  predicate ClosesOnLine(t: string)
  {
    |t| > 0 && (t[0] == '}' || (!IsLineTerminator(t[0]) && ClosesOnLine(t[1..])))
  }

  /** `SIMPLE_DURATION_PATTERN.matcher(s).find()` for the pattern `\%\{.*?\}`. */
  predicate HasTimePattern(s: string)
  {
    |s| >= 2 && ((s[0] == '%' && s[1] == '{' && ClosesOnLine(s[2..])) || HasTimePattern(s[1..]))
  }

  /** `%{` at `i` and `}` at `j` with no line terminator in between. */
  ghost predicate TokenAt(s: string, i: int, j: int)
  {
    && 0 <= i && i + 2 <= j < |s|
    && s[i] == '%' && s[i + 1] == '{' && s[j] == '}'
    && forall k :: i + 2 <= k < j ==> !IsLineTerminator(s[k])
  }

  ghost predicate ClosesAt(t: string, j: int)
  {
    0 <= j < |t| && t[j] == '}' && forall k :: 0 <= k < j ==> !IsLineTerminator(t[k])
  }

  lemma {:induction false} ClosesOnLineMeansClosesAt(t: string)
    ensures ClosesOnLine(t) <==> exists j :: ClosesAt(t, j)
  {
    if |t| > 0 {
      ClosesOnLineMeansClosesAt(t[1..]);
      if t[0] == '}' {
        assert ClosesAt(t, 0);
      } else if IsLineTerminator(t[0]) {
        forall j | ClosesAt(t, j) ensures false {
        }
      } else {
        if ClosesOnLine(t[1..]) {
          var j :| ClosesAt(t[1..], j);
          assert ClosesAt(t, j + 1);
        }
        forall j | ClosesAt(t, j) ensures ClosesAt(t[1..], j - 1) {
          assert j > 0;
        }
      }
    }
  }

  /** The recursive matcher finds a token exactly when the string contains one. */
  lemma {:induction false} HasTimePatternMeansToken(s: string)
    ensures HasTimePattern(s) <==> exists i, j :: TokenAt(s, i, j)
  {
    if |s| >= 2 {
      HasTimePatternMeansToken(s[1..]);
      ClosesOnLineMeansClosesAt(s[2..]);
      if s[0] == '%' && s[1] == '{' && ClosesOnLine(s[2..]) {
        var j :| ClosesAt(s[2..], j);
        assert TokenAt(s, 0, j + 2);
      } else if HasTimePattern(s[1..]) {
        var i, j :| TokenAt(s[1..], i, j);
        assert TokenAt(s, i + 1, j + 1);
      }
      forall i, j | TokenAt(s, i, j) ensures HasTimePattern(s) {
        if i == 0 {
          assert ClosesAt(s[2..], j - 2);
        } else {
          assert TokenAt(s[1..], i - 1, j - 1);
        }
      }
    } else {
      forall i, j | TokenAt(s, i, j) ensures false {
      }
    }
  }

  /** One segment of the prefix as it appears in the key: rendered if it has a time pattern. */
  function RenderSegment(segment: string, render: string -> string): string
  {
    if HasTimePattern(segment) then render(segment) else segment
  }

  /** Each segment followed by `/`, in order. */
  function ConcatSegments(segments: seq<string>, render: string -> string): string
  {
    if segments == [] then ""
    else ConcatSegments(segments[..|segments| - 1], render) + RenderSegment(segments[|segments| - 1], render) + "/"
  }

  /** The path prefix for a configured `path_prefix`: "" for a null or empty
      configuration, and otherwise empty or ending with `/`, so that the file
      name appended to it starts a new path segment. */
  function PathPrefix(pathPrefix: Option<string>, render: string -> string): (prefix: string)
    ensures pathPrefix.None? || pathPrefix.value == [] ==> prefix == ""
    ensures prefix == [] || prefix[|prefix| - 1] == '/'
  {
    if pathPrefix.None? || pathPrefix.value == [] then ""
    else ConcatSegments(Split(pathPrefix.value, '/'), render)
  }

  /** `buildingPathPrefix`: splits the prefix on `/` and appends every segment,
      rendered when it holds a time pattern, followed by `/`. */
  method BuildingPathPrefix(pathPrefix: Option<string>, render: string -> string) returns (s3ObjectPath: string)
    ensures s3ObjectPath == PathPrefix(pathPrefix, render)
  {
    s3ObjectPath := "";
    if pathPrefix.Some? && pathPrefix.value != [] {
      var pathPrefixList := Split(pathPrefix.value, '/');
      var i := 0;
      while i < |pathPrefixList|
        invariant 0 <= i <= |pathPrefixList|
        invariant s3ObjectPath == ConcatSegments(pathPrefixList[..i], render)
      {
        if HasTimePattern(pathPrefixList[i]) {
          s3ObjectPath := s3ObjectPath + render(pathPrefixList[i]) + "/";
        } else {
          s3ObjectPath := s3ObjectPath + pathPrefixList[i] + "/";
        }
        assert pathPrefixList[..i + 1][..i] == pathPrefixList[..i];
        i := i + 1;
      }
      assert pathPrefixList[..i] == pathPrefixList;
    }
  }

  /** `"logdata/"` gives the same prefix as `"logdata"`. */
  lemma PathPrefixIgnoresTrailingSlash(p: string, render: string -> string)
    ensures PathPrefix(Some(p + "/"), render) == PathPrefix(Some(p), render)
  {
    if p != [] {
      SplitIgnoresTrailingSeparator(p, '/');
    } else {
      assert p + "/" == "/";
      assert SplitAll("/", '/') == [[]] + SplitAll([], '/');
    }
  }

  /** The segments, each as it appears in the key. */
  function RenderSegments(segments: seq<string>, render: string -> string): (r: seq<string>)
    ensures |r| == |segments|
    ensures forall i :: 0 <= i < |segments| ==> r[i] == RenderSegment(segments[i], render)
  {
    if segments == [] then []
    else RenderSegments(segments[..|segments| - 1], render) + [RenderSegment(segments[|segments| - 1], render)]
  }

  lemma {:induction false} ConcatSegmentsIsJoin(segments: seq<string>, render: string -> string)
    ensures ConcatSegments(segments, render) == Join(RenderSegments(segments, render) + [[]], '/')
  {
    if segments != [] {
      var init, last := segments[..|segments| - 1], segments[|segments| - 1];
      var rs := RenderSegments(init, render);
      ConcatSegmentsIsJoin(init, render);
      if init == [] {
        assert RenderSegments(segments, render) + [[]] == [RenderSegment(last, render), []];
      } else {
        Java.JoinSnoc(rs, [], '/');
        Java.JoinSnoc(rs, RenderSegment(last, render), '/');
        Java.JoinSnoc(rs + [RenderSegment(last, render)], [], '/');
      }
    }
  }

  /** Splitting the built prefix on `/` gives back the configured segments in
      order, each rendered on its own if it has a time pattern and copied
      otherwise, followed by the empty piece after the final `/`. */
  lemma PathPrefixSegments(p: string, render: string -> string)
    requires p != []
    requires forall s :: s in Split(p, '/') ==> '/' !in RenderSegment(s, render)
    ensures SplitAll(PathPrefix(Some(p), render), '/') == RenderSegments(Split(p, '/'), render) + [[]]
  {
    var segments := Split(p, '/');
    var parts := RenderSegments(segments, render) + [[]];
    ConcatSegmentsIsJoin(segments, render);
    forall i | 0 <= i < |parts| ensures '/' !in parts[i] {
      if i < |segments| {
        assert segments[i] in segments;
      }
    }
    JoinSplitAll(parts, '/');
  }

  /** A literal prefix without a trailing `/` comes back with one `/` appended. */
  lemma LiteralPathPrefix(p: string, render: string -> string)
    requires p != [] && p[|p| - 1] != '/'
    requires forall s :: s in SplitAll(p, '/') ==> !HasTimePattern(s)
    ensures PathPrefix(Some(p), render) == p + "/"
  {
    var all := SplitAll(p, '/');
    SplitKeepsLastPiece(p, '/');
    assert PathPrefix(Some(p), render) == ConcatSegments(all, render);
    ConcatSegmentsIsJoin(all, render);
    LiteralSegments(all, render);
    assert ConcatSegments(all, render) == Join(all + [[]], '/');
    Java.JoinSnoc(all, [], '/');
    SplitAllJoin(p, '/');
  }

  /** Without a trailing separator, `String.split` drops nothing. */
  lemma SplitKeepsLastPiece(s: string, sep: char)
    requires s != [] && s[|s| - 1] != sep
    ensures Split(s, sep) == SplitAll(s, sep)
  {
    LastPieceOfSplitAll(s, sep);
    if sep !in s {
      SplitAllOfPlain(s, sep);
    }
  }

  lemma LiteralSegments(segments: seq<string>, render: string -> string)
    requires forall s :: s in segments ==> !HasTimePattern(s)
    ensures RenderSegments(segments, render) == segments
  {
    var r := RenderSegments(segments, render);
    forall i | 0 <= i < |segments| ensures r[i] == segments[i] {
      assert segments[i] in segments;
    }
  }

  /** The last piece of a split is what follows the last separator. */
  lemma {:induction false} LastPieceOfSplitAll(s: string, sep: char)
    requires s != [] && s[|s| - 1] != sep
    ensures var all := SplitAll(s, sep); all[|all| - 1] != []
  {
    var rest, all := SplitAll(s[1..], sep), SplitAll(s, sep);
    if |s| == 1 {
      assert s[1..] == [] && rest == [[]];
      assert all == [[s[0]] + rest[0]] + rest[1..];
    } else {
      assert s[1..][|s[1..]| - 1] == s[|s| - 1];
      LastPieceOfSplitAll(s[1..], sep);
      if s[0] == sep {
        assert all == [[]] + rest;
        assert all[|all| - 1] == rest[|rest| - 1];
      } else if |rest| > 1 {
        assert all == [[s[0]] + rest[0]] + rest[1..];
        assert all[|all| - 1] == rest[|rest| - 1];
      } else {
        assert all == [[s[0]] + rest[0]];
      }
    }
  }

  /** `codecFileExtension`: the codec's plugin name, or `json` when it is null or empty. */
  function CodecFileExtension(pluginName: Option<string>): (extension: string)
    ensures extension != []
    ensures pluginName.Some? && pluginName.value != [] ==> extension == pluginName.value
    ensures pluginName.None? || pluginName.value == [] ==> extension == DefaultCodecFileExtension
  {
    if pluginName.None? || pluginName.value == [] then DefaultCodecFileExtension else pluginName.value
  }

  /** `objectFileName`: the rendered name pattern, then `.`, then the non-empty
      extension, each at its own position in the name. */
  function ObjectFileName(namePattern: string, pluginName: Option<string>, render: string -> string): (name: string)
    ensures var stem, ext := render(namePattern), CodecFileExtension(pluginName);
      && |name| == |stem| + 1 + |ext|
      && name[..|stem|] == stem
      && name[|stem|] == '.'
      && name[|stem| + 1..] == ext
  {
    render(namePattern) + "." + CodecFileExtension(pluginName)
  }

  /** `buildingPathPrefix(s3SinkConfig)` with the date rendered at `now`. */
  function ConfiguredPathPrefix(config: S3SinkConfig, renderer: DateRenderer, now: int): string
  {
    PathPrefix(config.pathPrefix, renderer.PathPrefixAt(now))
  }

  /** `objectFileName(s3SinkConfig)` with the date rendered at `now`. */
  function ConfiguredFileName(config: S3SinkConfig, renderer: DateRenderer, now: int): string
  {
    ObjectFileName(config.namePattern, config.codecPluginName, renderer.ObjectNameAt(now))
  }
}
