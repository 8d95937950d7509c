/**
  A value-level specification of one call of `DownloadConnection.download`:
  what the listener hears, what becomes of the temp file `<name>.temp` and
  the final file `<name>`, and which `Range` request header goes out, as a
  function of everything the environment answers along the way.
 */
module DownloadModel {
  import opened Wrappers
  import opened JavaLang

  type byte = b: int | 0 <= b < 256

  /** The error classifications handed to `onDownloadError`. */
  datatype StatusCode =
    | ErrorNetworkNotAvailable
    | ErrorUrlSyntaxError
    | ErrorServerException
    | ErrorOther
    | ErrorStorageNotEnough
    | ErrorDownloadTimeout
    | ErrorServerNotFound

  /** One call on the `DownloadListener`; `what` is the id the caller gave the download. */
  datatype Event =
    | OnDownloadError(what: int, code: StatusCode, message: string)
    | OnStart(what: int)
    | OnProgress(what: int, progress: int)
    | OnFinish(what: int, filePath: string)
    | OnCancel(what: int)
  {
    predicate IsTerminal() { OnDownloadError? || OnFinish? || OnCancel? }
  }

  /** The exception classes the `catch` clauses tell apart. */
  datatype FaultKind = SocketTimeout | UnknownHost | OtherException

  /** Where inside the `try` block an exception is thrown. */
  datatype Step =
    | CreateTemp           // createNewFile of the temp file
    | OpenConnection       // obtaining the HttpURLConnection
    | ReadStatus           // getResponseCode: connecting and reading the status line
    | OpenBody             // getInputStream, opening the RandomAccessFile and seeking
    | ReadChunk(index: nat) // the read of body chunk `index` (index == number of chunks: the end-of-stream read)
    | WriteChunk(index: nat) // writing body chunk `index` into the temp file

  /** An exception, where it is thrown, and the message derived from it. */
  datatype Fault = Fault(kind: FaultKind, step: Step, message: string)

  /**
    Everything the engine learns from the request and its collaborators.
    `cancelPolls[i]` is the value `isCanceled()` returns at the i-th poll;
    past the end of the sequence the flag keeps its last observed value.
   */
  datatype Env = Env(
    what: int,
    isRange: bool,
    networkAvailable: bool,
    urlValid: bool,
    finalPath: string,
    statusCode: int,
    contentRange: Option<string>,
    contentLength: int,
    dirSize: int,
    chunks: seq<seq<byte>>,
    cancelPolls: seq<bool>,
    renameSucceeds: bool,
    fault: Option<Fault>)

  /** A file on disk as the engine sees it. */
  datatype FileState = FileState(present: bool, readable: bool, writable: bool, data: seq<byte>)

  const Absent: FileState := FileState(false, false, false, [])

  /** A file made by `createNewFile` and then `setReadable(true, true)`, `setWritable(true, true)`. */
  const Created: FileState := FileState(true, true, true, [])

  /** What one call leaves behind. `connected` says whether an HTTP connection was obtained. */
  datatype Outcome = Outcome(
    events: seq<Event>,
    temp: FileState,
    final: FileState,
    rangeHeader: Option<string>,
    connected: bool)

  /** What the `try` block leaves behind, before `catch` and `finally` run. */
  datatype Attempt = Attempt(
    events: seq<Event>,
    temp: FileState,
    final: FileState,
    rangeHeader: Option<string>,
    connected: bool,
    tempBound: bool,
    fault: Option<Fault>)

  /** The state of the copy loop when it stops. `next` is the index of the first chunk not written. */
  datatype Copied = Copied(
    data: seq<byte>,
    count: int,
    lastProgress: int,
    events: seq<Event>,
    next: nat,
    canceled: bool,
    fault: Option<Fault>)

  const NETWORK_MESSAGE: string := "Network is not available"
  const URL_MESSAGE: string := "URL is wrong"
  const CONTENT_RANGE_MESSAGE: string := "Content-Range error in Server HTTP header information"
  const STATUS_MESSAGE: string := "Server response code error: "
  const STORAGE_MESSAGE: string := "Specify the location, save space"

  /** Whether the injected fault is thrown at `s`. */
  predicate Throws(env: Env, s: Step) {
    env.fault.Some? && env.fault.value.step == s
  }

  /** The value of the cancel flag at poll `i`. */
  function Polled(polls: seq<bool>, i: nat): bool {
    if i < |polls| then polls[i] else |polls| > 0 && polls[|polls| - 1]
  }

  /** The code each `catch` clause reports. */
  function CodeOf(k: FaultKind): StatusCode {
    match k
    case SocketTimeout => ErrorDownloadTimeout
    case UnknownHost => ErrorServerNotFound
    case OtherException => ErrorOther
  }

  /** An existing temp file is resumed only for a range request that may read and write it. */
  predicate Resumable(isRange: bool, temp: FileState) {
    isRange && temp.present && temp.writable && temp.readable
  }

  /** The resume offset `tempFileLength`. */
  function ResumeOffset(isRange: bool, temp: FileState): nat {
    if Resumable(isRange, temp) then |temp.data| else 0
  }

  /** The value of the `Range` request header for a resume at `offset`. */
  function RangeValue(offset: nat): string {
    "bytes=" + Decimal(offset) + "-"
  }

  /** `Long.parseLong(range.substring(range.indexOf('/') + 1))`. */
  function ContentRangeTotal(range: string): Option<int> {
    ParseLong(range[IndexOf(range, '/') + 1..])
  }

  /** The total length, or the error event that ends the call instead. */
  function TotalLength(env: Env): Result<int, Event> {
    if env.statusCode == 206 && env.isRange then
      match env.contentRange
      case None => Success(0)
      case Some(s) =>
        if |s| == 0 then Success(0)
        else match ContentRangeTotal(s)
          case None => Failure(OnDownloadError(env.what, ErrorServerException, CONTENT_RANGE_MESSAGE))
          case Some(t) => Success(t)
    else if env.statusCode == 200 then Success(env.contentLength)
    else Failure(OnDownloadError(env.what, ErrorOther, STATUS_MESSAGE + JavaString(env.statusCode)))
  }

  /** `(int) (count * 100 / totalLength)` with Java's `long` and `int` arithmetic. */
  function Progress(count: int, total: int): int
    requires total != 0
  {
    WrapInt(WrapLong(Quot(WrapLong(count * 100), total)))
  }

  /** The throttle: a percentage divisible by 2 or 3 that differs from the one last reported. */
  predicate Passes(progress: int, last: int) {
    (Rem(progress, 2) == 0 || Rem(progress, 3) == 0) && last != progress
  }

  /** Whether writing up to `count` makes the loop call `onProgress`. */
  predicate Reports(total: int, count: int, last: int) {
    total != 0 && Passes(Progress(count, total), last)
  }

  /** `seek(pos)` then `write(bytes)` on a `RandomAccessFile` holding `data`. */
  function WriteAt(data: seq<byte>, pos: nat, bytes: seq<byte>): (r: seq<byte>)
    requires pos <= |data|
    ensures |r| == if pos + |bytes| <= |data| then |data| else pos + |bytes|
    ensures r[..pos] == data[..pos] && r[pos..pos + |bytes|] == bytes
    ensures r[pos + |bytes|..] == if pos + |bytes| <= |data| then data[pos + |bytes|..] else []
  {
    data[..pos] + bytes + (if pos + |bytes| <= |data| then data[pos + |bytes|..] else [])
  }

  /** `oldProgress` once `count` has reached `count'`. */
  function NextLast(total: int, count': int, last: int): int {
    if Reports(total, count', last) then Progress(count', total) else last
  }

  /** The `onProgress` call, if any, made once `count` has reached `count'`. */
  function Reported(what: int, total: int, count': int, last: int): seq<Event> {
    if Reports(total, count', last) then [OnProgress(what, Progress(count', total))] else []
  }

  /**
    The copy loop from chunk `k` on: read (a fault or end of stream stops it),
    poll the cancel flag (set: `onCancel` and stop), write the chunk at `count`,
    advance `count` and maybe report progress. The result's `events` are the
    listener calls the loop makes from chunk `k` on.
   */
  function CopyFrom(env: Env, total: int, k: nat, count: int, last: int, data: seq<byte>): (r: Copied)
    requires k <= |env.chunks| && count == |data|
    ensures k <= r.next <= |env.chunks|
    ensures r.count == |r.data|
    decreases |env.chunks| - k
  {
    if Throws(env, ReadChunk(k)) then Copied(data, count, last, [], k, false, env.fault)
    else if k == |env.chunks| then Copied(data, count, last, [], k, false, None)
    else if Polled(env.cancelPolls, k) then Copied(data, count, last, [OnCancel(env.what)], k, true, None)
    else if Throws(env, WriteChunk(k)) then Copied(data, count, last, [], k, false, env.fault)
    else
      var count' := count + |env.chunks[k]|;
      var r := CopyFrom(env, total, k + 1, count', NextLast(total, count', last), data + env.chunks[k]);
      r.(events := Reported(env.what, total, count', last) + r.events)
  }

  /** The temp file once reconciled (lines 116-132). */
  function Reconciled(isRange: bool, temp: FileState): FileState {
    if Resumable(isRange, temp) then temp else Created
  }

  /** The `try` block of `download`: the final-file short-circuit and the temp-file reconciliation (lines 99-132). */
  function Try(env: Env, temp0: FileState, final0: FileState): Attempt {
    if final0.present && env.isRange then
      Attempt([OnProgress(env.what, 100), OnFinish(env.what, env.finalPath)], temp0, final0, None, false, false, None)
    else
      var final1 := if final0.present then Absent else final0;
      if !Resumable(env.isRange, temp0) && Throws(env, CreateTemp) then
        Attempt([], Absent, final1, None, false, true, env.fault)
      else
        Exchange(env, Reconciled(env.isRange, temp0), final1, ResumeOffset(env.isRange, temp0))
  }

  /** The request and the response checks, from the temp file's resume offset on (lines 134-179). */
  function Exchange(env: Env, temp1: FileState, final1: FileState, offset: nat): Attempt
    requires temp1.present && offset == |temp1.data|
  {
    if Throws(env, OpenConnection) then
      Attempt([], temp1, final1, None, false, true, env.fault)
    else
      var range := if env.isRange then Some(RangeValue(offset)) else None;
      if Throws(env, ReadStatus) then
        Attempt([], temp1, final1, range, true, true, env.fault)
      else
        match TotalLength(env)
        case Failure(e) => Attempt([e], temp1, final1, range, true, true, None)
        case Success(total) =>
          if env.dirSize < total then
            Attempt([OnDownloadError(env.what, ErrorStorageNotEnough, STORAGE_MESSAGE)], temp1, final1, range, true, true, None)
          else
            Transfer(env, temp1, final1, range, total)
  }

  /** `onStart`, the copy loop and the rename (lines 181-220). */
  function Transfer(env: Env, temp1: FileState, final1: FileState, range: Option<string>, total: int): Attempt
    requires temp1.present
  {
    if Throws(env, OpenBody) then
      Attempt([OnStart(env.what)], temp1, final1, range, true, true, env.fault)
    else
      var c := CopyFrom(env, total, 0, |temp1.data|, 0, temp1.data);
      var temp2 := temp1.(data := c.data);
      var events := [OnStart(env.what)] + c.events;
      if c.fault.Some? then
        Attempt(events, temp2, final1, range, true, true, c.fault)
      else if Polled(env.cancelPolls, if c.canceled then c.next + 1 else c.next) then
        Attempt(events, temp2, final1, range, true, true, None)
      else
        var finished := events + [OnFinish(env.what, env.finalPath)];
        if env.renameSucceeds then Attempt(finished, Absent, temp2, range, true, true, None)
        else Attempt(finished, temp2, final1, range, true, true, None)
  }

  /** The `catch` clauses and the `finally` block (lines 222-236) applied to what the `try` block left. */
  function Conclude(env: Env, a: Attempt): Outcome {
    var events := match a.fault
      case None => a.events
      case Some(f) => a.events + [OnDownloadError(env.what, CodeOf(f.kind), f.message)];
    var temp := if !env.isRange && a.tempBound && a.temp.present then Absent else a.temp;
    Outcome(events, temp, a.final, a.rangeHeader, a.connected)
  }

  /** The whole of `download`: the two pre-checks, the `try` block, its `catch` clauses and its `finally`. */
  function Run(env: Env, temp0: FileState, final0: FileState): Outcome {
    if !env.networkAvailable then
      Outcome([OnDownloadError(env.what, ErrorNetworkNotAvailable, NETWORK_MESSAGE)], temp0, final0, None, false)
    else if !env.urlValid then
      Outcome([OnDownloadError(env.what, ErrorUrlSyntaxError, URL_MESSAGE)], temp0, final0, None, false)
    else
      Conclude(env, Try(env, temp0, final0))
  }
}
