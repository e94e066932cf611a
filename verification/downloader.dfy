/** The resumable download handle (`DownloadHandle`): a five-state machine
    that prepares the destination file, asks for the remaining byte range and
    classifies the server's answer. File-system results, the HTTP response and
    stream events are inputs; every handler is a pure transition that returns
    the new handle and the settlements of the completion future it caused. */
module Downloader {
  import opened Outcomes
  import opened JsText

  datatype HandleState = Started | Starting | Stopped | Stopping | Finished

  /** Why a session fails: the errors `start` and the response handler raise. */
  datatype Failure =
    | DestinationNotAFile       // the existing destination is not a regular file
    | CannotOverwrite           // deleting the destination for an overwrite reported an error
    | InvalidDestinationPath    // the destination's parent exists but is not a directory
    | CannotCreateFolder        // creating the destination's parent folders failed
    | BadStatusCode(code: int)  // a status other than 206, 301 and 416
    | MissingContentRange       // a 206 answer without a `content-range` header
    | TransportError            // the request or the destination stream failed

  /** Which events the in-flight HTTP request can still deliver. */
  datatype RequestPhase =
    | Idle              // no request, or it was aborted
    | AwaitingResponse  // sent; its `response` event has not fired yet
    | Receiving         // the response arrived; body chunks may follow

  /** A download handle. Completion futures are numbered in creation order;
      the resolve/reject functions the handle keeps always belong to the newest
      one, `futures - 1`, while `promise` is the one the `promise` getter hands
      out (none after a failure cleared it). */
  datatype Handle = Handle(
    url: string,
    overwrite: bool,
    state: HandleState,
    totalSize: JsNumber,
    totalDownloaded: nat,
    promise: Option<nat>,
    futures: nat,
    request: RequestPhase,
    destArmed: bool)  // the destination stream's `finish`/`error` listeners are attached

  /** What the environment learns from a transition: the completion future
      settling, or the promise returned by `start` resolving to true. */
  datatype Signal = Resolve(future: nat) | Reject(future: nat, why: Failure) | StartResolved

  datatype Step = Step(h: Handle, signals: seq<Signal>)

  /** The reachable handles: the cached future is the newest one, a request or
      a started or finished session implies a future exists, and the stream
      listeners are attached only while the response is being received. */
  predicate Wf(h: Handle) {
    && (h.promise.Some? ==> h.futures > 0 && h.promise.value == h.futures - 1)
    && (h.state != Stopped ==> h.futures > 0)
    && h.state != Stopping
    && (h.request != Idle ==> h.state == Starting || h.state == Started)
    && (h.request == AwaitingResponse ==> h.state == Starting)
    && (h.destArmed ==> h.request == Receiving && h.state == Started)
    && (h.state == Started ==> h.request == Receiving)
  }

  /** `new DownloadHandle(url, to, options)`: stopped, no future yet. */
  function NewHandle(url: string, overwrite: bool): (h: Handle)
    ensures Wf(h) && h.state == Stopped && h.overwrite == overwrite && h.promise == None
  {
    Handle(url, overwrite, Stopped, Num(0), 0, None, 0, Idle, false)
  }

  // ------------------------------------------------------------ the future

  /** The `promise` getter: the cached future, or a new one that becomes the
      owner of the stored resolve/reject functions. */
  function EnsurePromise(h: Handle): (r: Handle)
    requires Wf(h)
    ensures r.promise.Some? && r.futures > 0 && r.promise.value == r.futures - 1
    ensures h.promise.Some? ==> r == h
    ensures h.promise.None? ==> r.promise == Some(h.futures) && r == h.(promise := r.promise, futures := h.futures + 1)
  {
    if h.promise.Some? then h else h.(promise := Some(h.futures), futures := h.futures + 1)
  }

  // ------------------------------------------------------------ stop / error

  datatype StopStep = StopStep(h: Handle, stopped: bool)

  /** `stop()`: acts only on a started handle, which it takes (through the
      momentary `STOPPING`) to `STOPPED`, aborting the request and detaching
      the stream listeners. */
  function Stop(h: Handle): (r: StopStep)
    ensures r.stopped <==> h.state == Started
    ensures !r.stopped ==> r.h == h
    ensures r.stopped ==> r.h.state == Stopped && r.h.request == Idle && !r.h.destArmed
    ensures r.h.totalDownloaded == h.totalDownloaded && r.h.promise == h.promise && r.h.futures == h.futures
    ensures r.h.overwrite == h.overwrite && r.h.totalSize == h.totalSize
  {
    if h.state != Started then StopStep(h, false)
    else StopStep(h.(state := Stopped, request := Idle, destArmed := false), true)
  }

  /** `onError(err)`: stop (a no-op unless started), reject through the stored
      rejector, and forget the cached future. */
  function OnError(h: Handle, why: Failure): (r: Step)
    requires h.futures > 0
    ensures r.signals == [Reject(h.futures - 1, why)]
    ensures r.h.promise == None && r.h.futures == h.futures
    ensures r.h.state == (if h.state == Started then Stopped else h.state)
    ensures h.state == Started ==> r.h.request == Idle && !r.h.destArmed
    ensures h.state != Started ==> r.h == h.(promise := None)
  {
    Step(Stop(h).h.(promise := None), [Reject(h.futures - 1, why)])
  }

  /** `onFinished()`: stop, mark the handle finished, resolve through the
      stored resolver. */
  function OnFinished(h: Handle): (r: Step)
    requires h.futures > 0
    ensures r.h.state == Finished
    ensures r.signals == [Resolve(h.futures - 1)]
    ensures h.state == Started ==> r.h.request == Idle && !r.h.destArmed
    ensures r.h.promise == h.promise && r.h.futures == h.futures
    ensures r.h.totalDownloaded == h.totalDownloaded
  {
    Step(Stop(h).h.(state := Finished), [Resolve(h.futures - 1)])
  }

  // ------------------------------------------------------------------ start

  /** What the file system reports about the parent folder of a missing destination. */
  datatype ParentDir =
    | ParentIsDirectory
    | ParentNotDirectory
    | ParentMissing(mkdirSucceeds: bool)

  /** What the file system reports about the destination. `unlinkReportsError`
      is the resolved value of the delete call an overwrite issues. */
  datatype Destination =
    | Absent(parent: ParentDir)
    | Present(isFile: bool, size: nat, unlinkReportsError: bool)

  /** The destination checks of `start`: the offset to resume from, or why the
      destination cannot be used. */
  function Prepare(overwrite: bool, dest: Destination): (r: Result<nat, Failure>)
    ensures dest.Present? && !dest.isFile ==> r == Err(DestinationNotAFile)
    ensures dest.Present? && dest.isFile && !overwrite ==> r == Ok(dest.size)
    ensures dest.Present? && dest.isFile && overwrite ==>
      r == (if dest.unlinkReportsError then Err(CannotOverwrite) else Ok(0))
    ensures dest.Absent? ==> r.Ok? ==> r.value == 0
    ensures dest.Absent? ==> (r.Err? <==> dest.parent == ParentNotDirectory || dest.parent == ParentMissing(false))
  {
    match dest
    case Present(isFile, size, unlinkReportsError) =>
      if !isFile then Err(DestinationNotAFile)
      else if overwrite then (if unlinkReportsError then Err(CannotOverwrite) else Ok(0))
      else Ok(size)
    case Absent(parent) =>
      match parent
      case ParentIsDirectory => Ok(0)
      case ParentNotDirectory => Err(InvalidDestinationPath)
      case ParentMissing(ok) => if ok then Ok(0) else Err(CannotCreateFolder)
  }

  /** The `Range` request header asking for everything from `offset` on. */
  function RangeHeader(offset: nat): string
  {
    "bytes=" + NatToString(offset) + "-"
  }

  /** The header names the offset it was built from: after `bytes=` comes a
      decimal number that `parseInt` reads back as the offset, and it ends in
      `-` (an open-ended range, section 14.35 of RFC 2616). */
  lemma RangeHeaderRoundTrip(offset: nat)
    ensures var r := RangeHeader(offset);
      |r| > 7 && r[..6] == "bytes=" && r[|r| - 1] == '-' && ParseInt(r[6..]) == Num(offset)
  {
    var r := RangeHeader(offset);
    var t := NatToString(offset) + "-";
    assert r == "bytes=" + t;
    assert r[6..] == t;
    ParseIntOfDecimal(offset, "-");
    assert ParseInt(t) == Num(offset);
  }

  /** The reply of the promise `start` returns: false at once when refused or
      when the destination is unusable; otherwise a request carrying this
      `Range` header goes out (and the promise resolves once it is answered). */
  datatype StartReply = Refused | PrepFailed(why: Failure) | Requested(range: string)

  datatype StartStep = StartStep(h: Handle, reply: StartReply, signals: seq<Signal>)

  /** `start(url)`. Only a stopped handle starts: it becomes `STARTING`, makes
      sure a completion future exists, resets the sizes and prepares the
      destination. A preparation failure goes through `onError`, whose `stop`
      does nothing in `STARTING`, so the handle stays `STARTING`. */
  function Start(h: Handle, url: Option<string>, dest: Destination): (r: StartStep)
    requires Wf(h)
    ensures Wf(r.h)
    ensures h.state != Stopped ==> r == StartStep(h, Refused, [])
    ensures h.state == Stopped ==> r.h.state == Starting && r.h.totalSize == Num(0)
    ensures h.state == Stopped ==> r.h.url == (if url.Some? && url.value != "" then url.value else h.url)
    ensures h.state == Stopped ==> r.h.futures == (if h.promise.Some? then h.futures else h.futures + 1)
    ensures h.state == Stopped ==> (match Prepare(h.overwrite, dest)
      case Ok(offset) =>
        && r.reply == Requested(RangeHeader(offset)) && r.signals == []
        && r.h.totalDownloaded == offset && !r.h.overwrite
        && r.h.request == AwaitingResponse && r.h.promise == Some(r.h.futures - 1)
      case Err(why) =>
        && r.reply == PrepFailed(why) && r.signals == [Reject(r.h.futures - 1, why)]
        && r.h.totalDownloaded == 0 && r.h.overwrite == h.overwrite
        && r.h.request == Idle && r.h.promise == None)
  {
    if h.state != Stopped then StartStep(h, Refused, [])
    else
      var h1 := EnsurePromise(h).(
        state := Starting,
        url := if url.Some? && url.value != "" then url.value else h.url,
        totalSize := Num(0),
        totalDownloaded := 0);
      match Prepare(h.overwrite, dest)
      case Err(why) =>
        var e := OnError(h1, why);
        StartStep(e.h, PrepFailed(why), e.signals)
      case Ok(offset) =>
        StartStep(h1.(totalDownloaded := offset, overwrite := false, request := AwaitingResponse),
                  Requested(RangeHeader(offset)), [])
  }

  // --------------------------------------------------------------- response

  /** `totalSize` from a `content-range` value: `parseInt` of the text between
      the first and the second `/` (of `undefined`, hence NaN, when there is no
      `/`). No form of the header is rejected here. */
  function ContentRangeTotal(header: string): JsNumber
  {
    var parts := Split(header, '/');
    if |parts| > 1 then ParseInt(parts[1]) else NaN  // see ParseIntOfUndefined
  }

  /** The total is read from the text after the first `/`, up to the next one. */
  lemma ContentRangeTotalAfterSlash(head: string, tail: string)
    requires '/' !in head && '/' !in tail
    ensures ContentRangeTotal(head + "/" + tail) == ParseInt(tail)
  {
    assert head + "/" + tail == head + ['/'] + tail;
    SplitAtFirst(head, tail, '/');
    assert Split(tail, '/') == [tail];
  }

  /** A well-formed `bytes first-last/complete-length` value (section 4.2 of
      RFC 7233) yields its complete length. */
  lemma ContentRangeTotalOfWellFormed(first: nat, last: nat, length: nat)
    ensures ContentRangeTotal("bytes " + NatToString(first) + "-" + NatToString(last) + "/" + NatToString(length))
         == Num(length)
  {
    var head := "bytes " + NatToString(first) + "-" + NatToString(last);
    NatToStringLacks(first, '/');
    NatToStringLacks(last, '/');
    NatToStringLacks(length, '/');
    assert '/' !in head;
    ContentRangeTotalAfterSlash(head, NatToString(length));
    ParseIntOfDecimal(length, "");
    assert NatToString(length) + "" == NatToString(length);
  }

  /** A total that does not start with a digit, a sign or white space is not
      rejected: it becomes NaN and the download goes on. */
  lemma ContentRangeNonNumericTotal(range: string, tail: string)
    requires '/' !in range && '/' !in tail
    requires |tail| > 0 && DigitVal(tail[0]) >= 10 && !IsJsSpace(tail[0]) && tail[0] != '-' && tail[0] != '+'
    ensures ContentRangeTotal(range + "/" + tail) == NaN
  {
    ContentRangeTotalAfterSlash(range, tail);
    ParseIntOfNonNumeric(tail);
  }

  /** The unknown-length form `bytes first-last/` followed by `*` (section 4.2
      of RFC 7233) gives a NaN total. */
  lemma ContentRangeUnknownLength(range: string)
    requires '/' !in range
    ensures ContentRangeTotal(range + "/*") == NaN
  {
    var star := "*";
    assert DigitVal(star[0]) == 36;
    ContentRangeNonNumericTotal(range, star);
    assert range + "/" + star == range + "/*";
  }

  /** A value without any `/` is not rejected either: the total becomes NaN. */
  lemma ContentRangeWithoutSlash(header: string)
    requires '/' !in header
    ensures ContentRangeTotal(header) == NaN
  {
  }

  /** The `response` listener. A 301 is ignored: the handle stays `STARTING`
      and nothing resolves. Any other status starts the handle and resolves the
      promise of `start`; then 416 (section 4.4 of RFC 7233) finishes the
      session, any status but 206 fails it, a 206 without `content-range`
      fails it, and otherwise the total size is taken from the header and the
      destination stream's listeners are attached. */
  function OnResponse(h: Handle, status: int, contentRange: Option<string>): (r: Step)
    requires Wf(h) && h.request == AwaitingResponse
    ensures Wf(r.h)
    ensures r.h.totalDownloaded == h.totalDownloaded
    ensures status == 301 ==> r.h.state == Starting && r.signals == [] && r.h.request == Receiving
    ensures status != 301 ==> |r.signals| >= 1 && r.signals[0] == StartResolved
    ensures status == 416 ==> r.h.state == Finished && r.signals == [StartResolved, Resolve(h.futures - 1)]
    ensures status != 301 && status != 416 && status != 206 ==>
      r.h.state == Stopped && r.h.promise == None && r.signals == [StartResolved, Reject(h.futures - 1, BadStatusCode(status))]
    ensures status == 206 && (contentRange.None? || contentRange.value == "") ==>
      r.h.state == Stopped && r.h.promise == None && r.signals == [StartResolved, Reject(h.futures - 1, MissingContentRange)]
    ensures status == 206 && contentRange.Some? && contentRange.value != "" ==>
      && r.h.state == Started && r.h.destArmed && r.signals == [StartResolved]
      && r.h.totalSize == ContentRangeTotal(contentRange.value)
  {
    if status == 301 then Step(h.(request := Receiving), [])
    else
      var h1 := h.(state := Started, request := Receiving);
      if status == 416 then
        var f := OnFinished(h1);
        Step(f.h, [StartResolved] + f.signals)
      else if status != 206 then
        var e := OnError(h1, BadStatusCode(status));
        Step(e.h, [StartResolved] + e.signals)
      else if contentRange.None? || contentRange.value == "" then
        var e := OnError(h1, MissingContentRange);
        Step(e.h, [StartResolved] + e.signals)
      else
        Step(h1.(totalSize := ContentRangeTotal(contentRange.value), destArmed := true), [StartResolved])
  }

  // ---------------------------------------------------------- stream events

  /** The request's `data` listener: count the chunk's bytes, whatever the
      handle's state. */
  function OnData(h: Handle, length: nat): (r: Handle)
    requires Wf(h) && h.request == Receiving
    ensures Wf(r)
    ensures r.totalDownloaded == h.totalDownloaded + length
    ensures r.(totalDownloaded := h.totalDownloaded) == h
  {
    h.(totalDownloaded := h.totalDownloaded + length)
  }

  /** The destination stream's `finish` listener. */
  function OnDestFinish(h: Handle): (r: Step)
    requires Wf(h) && h.destArmed
    ensures Wf(r.h) && r.h.state == Finished && r.signals == [Resolve(h.futures - 1)]
  {
    OnFinished(h)
  }

  /** The destination stream's `error` listener. */
  function OnDestError(h: Handle): (r: Step)
    requires Wf(h) && h.destArmed
    ensures Wf(r.h) && r.h.state == Stopped && r.h.promise == None
    ensures r.signals == [Reject(h.futures - 1, TransportError)]
  {
    OnError(h, TransportError)
  }

  /** The request's `error` listener; the failed request delivers nothing more. */
  function OnRequestError(h: Handle): (r: Step)
    requires Wf(h) && h.request != Idle
    ensures Wf(r.h) && r.h.request == Idle && r.h.promise == None
    ensures r.h.state == (if h.state == Started then Stopped else h.state)
    ensures r.signals == [Reject(h.futures - 1, TransportError)]
  {
    OnError(h.(request := Idle, destArmed := false), TransportError)
  }

  // ------------------------------------------------------------------ traces

  /** Everything that can happen to a handle: calls by its owner and events of
      its request and destination stream. */
  datatype Event =
    | CallStart(url: Option<string>, dest: Destination)
    | CallStop
    | Response(status: int, contentRange: Option<string>)
    | Data(length: nat)
    | DestFinish
    | DestError
    | RequestError
    | GetPromise

  /** The handle after one event; an event its request or streams cannot
      deliver in the current phase leaves it unchanged. */
  function Deliver(h: Handle, e: Event): (r: Handle)
    requires Wf(h)
    ensures Wf(r)
  {
    match e
    case CallStart(url, dest) => Start(h, url, dest).h
    case CallStop => Stop(h).h
    case Response(status, cr) => if h.request == AwaitingResponse then OnResponse(h, status, cr).h else h
    case Data(n) => if h.request == Receiving then OnData(h, n) else h
    case DestFinish => if h.destArmed then OnDestFinish(h).h else h
    case DestError => if h.destArmed then OnDestError(h).h else h
    case RequestError => if h.request != Idle then OnRequestError(h).h else h
    case GetPromise => EnsurePromise(h)
  }

  function Run(h: Handle, events: seq<Event>): (r: Handle)
    requires Wf(h)
    ensures Wf(r)
    decreases |events|
  {
    if |events| == 0 then h else Run(Deliver(h, events[0]), events[1..])
  }

  /** A finished handle is final: no sequence of calls or events restarts it. */
  lemma {:induction false} FinishedIsFinal(h: Handle, events: seq<Event>)
    requires Wf(h) && h.state == Finished
    ensures Run(h, events).state == Finished
    decreases |events|
  {
    if |events| > 0 {
      var h1 := Deliver(h, events[0]);
      assert h1 == h || (events[0].GetPromise? && h1.state == Finished);
      FinishedIsFinal(h1, events[1..]);
    }
  }

  /** After a failure that follows the response, the handle is stopped with no
      cached future, so the next `start` creates a new future, distinct from
      the rejected one. */
  lemma FreshFutureAfterError(h: Handle, why: Failure, url: Option<string>, dest: Destination)
    requires Wf(h) && h.state == Started
    ensures var e := OnError(h, why);
      && e.h.state == Stopped && e.h.promise == None && e.signals == [Reject(h.futures - 1, why)]
      && var s := Start(e.h, url, dest);
         s.h.state == Starting && s.h.futures == h.futures + 1 && s.h.futures - 1 != h.futures - 1
  {
  }

  /** A preparation failure leaves the handle in `STARTING` for good: every
      later `start` is refused and `stop` does nothing. */
  lemma PrepFailureStaysStarting(h: Handle, url: Option<string>, dest: Destination, later: Destination)
    requires Wf(h) && h.state == Stopped && Prepare(h.overwrite, dest).Err?
    ensures var s := Start(h, url, dest).h;
      && s.state == Starting && s.request == Idle
      && Start(s, url, later).reply == Refused && Stop(s).h == s
  {
  }

  /** An overwrite deletes the destination once: the first session starts at
      offset 0, and after a stop the next start resumes from the file's size. */
  lemma OverwriteOnlyOnce(h: Handle, size1: nat, range: string, chunk: nat, size2: nat)
    requires Wf(h) && h.state == Stopped && h.overwrite && range != ""
    ensures var s1 := Start(h, None, Present(true, size1, false));
      && s1.reply == Requested(RangeHeader(0))
      && var r := OnResponse(s1.h, 206, Some(range)).h;
         var d := OnData(r, chunk);
         var stopped := Stop(d).h;
         Start(stopped, None, Present(true, size2, false)).reply == Requested(RangeHeader(size2))
  {
  }

  /** The header of the example below announces 1000 bytes. */
  lemma ExampleHeaderTotal()
    ensures ContentRangeTotal("bytes 0-999/1000") == Num(1000)
  {
    assert NatToString(0) == "0";
    assert NatToString(999) == "999" by {
      assert NatToString(9) == "9";
      assert NatToString(99) == "99";
    }
    assert NatToString(1000) == "1000" by {
      assert NatToString(1) == "1";
      assert NatToString(10) == "10";
      assert NatToString(100) == "100";
    }
    assert "bytes 0-999/1000" == "bytes " + NatToString(0) + "-" + NatToString(999) + "/" + NatToString(1000);
    ContentRangeTotalOfWellFormed(0, 999, 1000);
  }

  /** The complete example: a missing destination, a 206 announcing 1000 bytes,
      1000 bytes received, the stream finishes; the handle is finished with
      1000 bytes counted and a redundant `start` is refused. */
  lemma DownloadToCompletion(url: string)
    ensures
      var h0 := NewHandle(url, false);
      var s := Start(h0, None, Absent(ParentIsDirectory));
      && s.reply == Requested("bytes=0-")
      && (var r := OnResponse(s.h, 206, Some("bytes 0-999/1000"));
          && r.h.totalSize == Num(1000)
          && (var f := OnDestFinish(OnData(r.h, 1000));
              && f.h.state == Finished && f.h.totalDownloaded == 1000
              && f.signals == [Resolve(0)]
              && Start(f.h, None, Absent(ParentIsDirectory)).reply == Refused))
  {
    FreshStart(url);
    var s := Start(NewHandle(url, false), None, Absent(ParentIsDirectory));
    ReceiveAll(s.h, "bytes 0-999/1000", 1000);
    ExampleHeaderTotal();
  }

  /** A new handle with no destination file sends its first request from byte 0. */
  lemma FreshStart(url: string)
    ensures var s := Start(NewHandle(url, false), None, Absent(ParentIsDirectory));
      && s.reply == Requested("bytes=0-")
      && Wf(s.h) && s.h.request == AwaitingResponse && s.h.totalDownloaded == 0 && s.h.futures == 1
  {
    assert NatToString(0) == "0";
  }

  /** A 206 response, one chunk of `n` bytes, and the destination finishing. */
  lemma ReceiveAll(h: Handle, header: string, n: nat)
    requires Wf(h) && h.request == AwaitingResponse && h.totalDownloaded == 0 && h.futures == 1 && header != ""
    ensures var r := OnResponse(h, 206, Some(header));
      && r.h.totalSize == ContentRangeTotal(header)
      && (var f := OnDestFinish(OnData(r.h, n));
          && f.h.state == Finished && f.h.totalDownloaded == n
          && f.signals == [Resolve(0)]
          && Start(f.h, None, Absent(ParentIsDirectory)).reply == Refused)
  {
  }
}
