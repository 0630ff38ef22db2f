/** One streamed HTTP GET from a byte offset: the request headers it sends and
    how the way the stream ends becomes its result, including the shared
    unrecoverable flag. */
module StreamDownloader {
  import opened Wrappers
  import opened Text
  import opened Errors
  import opened Core

  /** A request handed to the transport: its URL and its headers. */
  datatype Request = Request(url: string, headers: map<string, string>)

  /** How the transfer ends, as reported by the transport: the request could
      not be started, the stream closed, or the stream emitted an error. */
  datatype StreamEnding = StartFailed(cause: Cause) | Closed | StreamFailed(cause: Cause)

  /** `StreamDownloaderResult`. */
  datatype StreamResult = StreamResult(buffers: seq<seq<byte>>, bytesWritten: nat, error: Option<FragmenterError>)

  /** The `Range` header value that resumes at `startIndex`. */
  function RangeValue(startIndex: nat): string {
    "bytes=" + Decimal(startIndex) + "-"
  }

  /** The headers of a request that starts at byte `startIndex`: a User-Agent
      exactly when one is configured, a Range exactly when resuming past 0. */
  function RequestHeaders(startIndex: nat, userAgent: Option<string>): (h: map<string, string>)
    ensures "User-Agent" in h <==> userAgent.Some?
    ensures userAgent.Some? ==> h["User-Agent"] == userAgent.value
    ensures "Range" in h <==> startIndex != 0
    ensures startIndex != 0 ==> h["Range"] == RangeValue(startIndex)
    ensures h.Keys <= {"User-Agent", "Range"}
  {
    var withAgent := if userAgent.Some? then map["User-Agent" := userAgent.value] else map[];
    if startIndex != 0 then withAgent["Range" := RangeValue(startIndex)] else withAgent
  }

  /** The Range header names the resume offset: the digits between `bytes=`
      and `-` read back as `startIndex`. */
  lemma RangeNamesOffset(startIndex: nat)
    requires startIndex != 0
    ensures var v := RequestHeaders(startIndex, None)["Range"];
      StartsWith(v, "bytes=") && v[|v| - 1] == '-' &&
      AllDigits(v[6..|v| - 1]) && DigitsValue(v[6..|v| - 1]) == startIndex
  {
    var v := RangeValue(startIndex);
    assert v[6..|v| - 1] == Decimal(startIndex);
    DecimalValue(startIndex);
  }

  /** The error, if any, that a stream's ending yields, given whether the abort
      signal has fired when the stream closes. */
  function EndingError(ending: StreamEnding, aborted: bool): (r: Option<FragmenterError>)
    ensures ending.StartFailed? ==> r == Some(CreateFromError(ending.cause))
    ensures ending.StreamFailed? ==> r == Some(CreateFromError(ending.cause))
    ensures ending.Closed? ==> (r.Some? <==> aborted)
    ensures ending.Closed? && aborted ==> r.value.code == UserAborted && IsFragmenterError(r.value.message)
  {
    match ending
    case StartFailed(e) => Some(CreateFromError(e))
    case Closed => if aborted then Some(Create(UserAborted, "Abort Signal triggered")) else None
    case StreamFailed(e) => Some(CreateFromError(e))
  }

  /** Whether the ending sets the run-wide flag: only an error raised once the
      stream is running, recognised as a FragmenterError, with an unrecoverable
      code. A failure to start never sets it. */
  predicate RaisesUnrecoverable(ending: StreamEnding, aborted: bool) {
    && !ending.StartFailed?
    && var err := EndingError(ending, aborted);
    && err.Some? && IsFragmenterError(err.value.message) && IsUnrecoverable(err.value.code)
  }

  /** The flag is raised exactly when the stream failed with a cause that
      classifies as unrecoverable; a user abort never raises it. */
  lemma RaisesUnrecoverableExactly(ending: StreamEnding, aborted: bool)
    ensures RaisesUnrecoverable(ending, aborted) <==>
      ending.StreamFailed? && IsUnrecoverable(Classify(ending.cause))
  {
  }

  /** A stream that closes on an abort is a user abort and leaves the flag alone. */
  lemma AbortIsNotUnrecoverable(aborted: bool)
    ensures !RaisesUnrecoverable(Closed, aborted)
    ensures aborted ==> EndingError(Closed, aborted).value.code == UserAborted
  {
    UnrecoverableCodes(UserAborted);
  }

  /** `StreamDownloader`: downloads `downloadUrl` through the transport `send`. */
  class StreamDownloader {
    const ctx: FragmenterContext
    const downloadUrl: string

    constructor (ctx: FragmenterContext, downloadUrl: string)
      ensures this.ctx == ctx && this.downloadUrl == downloadUrl
    {
      this.ctx := ctx;
      this.downloadUrl := downloadUrl;
    }

    /** `getReadStream`'s header construction, filling the dictionary in place. */
    method ReadStreamHeaders(startIndex: nat) returns (headers: map<string, string>)
      ensures headers == RequestHeaders(startIndex, ctx.userAgent)
    {
      headers := map[];
      if ctx.userAgent.Some? {
        headers := headers["User-Agent" := ctx.userAgent.value];
      }
      if startIndex != 0 {
        headers := headers["Range" := "bytes=" + Decimal(startIndex) + "-"];
      }
    }

    /** `downloadFrom(startIndex)`: one request, no retry. The result never
        carries bytes (the buffers are never filled); its error follows the
        ending, and the shared flag only ever goes from false to true. */
    method DownloadFrom(startIndex: nat, send: Request -> StreamEnding) returns (ret: StreamResult)
      modifies ctx`unrecoverableErrorEncountered
      ensures ret.buffers == [] && ret.bytesWritten == 0
      ensures var ending := send(Request(downloadUrl, RequestHeaders(startIndex, ctx.userAgent)));
        && ret.error == EndingError(ending, ctx.signalAborted)
        && ctx.unrecoverableErrorEncountered ==
             (old(ctx.unrecoverableErrorEncountered) || RaisesUnrecoverable(ending, ctx.signalAborted))
      ensures old(ctx.unrecoverableErrorEncountered) ==> ctx.unrecoverableErrorEncountered
    {
      ret := StreamResult([], 0, None);
      var headers := ReadStreamHeaders(startIndex);
      var ending := send(Request(downloadUrl, headers));
      if ending.StartFailed? {
        return StreamResult([], 0, Some(CreateFromError(ending.cause)));
      }
      var failure: Option<FragmenterError> := None;
      if ending.Closed? {
        if ctx.signalAborted {
          failure := Some(Create(UserAborted, "Abort Signal triggered"));
        }
      } else {
        failure := Some(CreateFromError(ending.cause));
      }
      if failure.Some? {
        var e := failure.value;
        ret := ret.(error := Some(e));
        if IsFragmenterError(e.message) && e.code in UnrecoverableErrors {
          ctx.unrecoverableErrorEncountered := true;
        }
      }
    }
  }
}
