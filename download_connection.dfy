/**
  `DownloadConnection.download`, step by step: the pre-checks, the
  reconciliation of the final and temp files, the request and the response
  interpretation, the storage gate, the copy loop writing through a
  `RandomAccessFile`, the finish, and the `catch`/`finally` handling.
  Every method is proved to do exactly what the matching function of
  `DownloadModel` describes.
 */
module DownloadConnection {
  import opened Wrappers
  import opened JavaLang
  import opened DownloadModel
  import opened Files
  import opened DownloadProperties

  /**
    The `while ((len = inputStream.read(buffer)) != -1)` loop (lines 193-215):
    `count` starts at the temp file's length, each chunk read while the
    cancel flag is clear is written at `count`, and progress is reported
    through the throttle. The listener calls it makes are appended to `events0`.
   */
  method CopyBody(env: Env, total: int, temp: LocalFile, events0: seq<Event>)
    returns (count: int, lastProgress: int, events: seq<Event>, next: nat, canceled: bool, fault: Option<Fault>)
    requires temp.present
    modifies temp
    ensures temp.Valid() && temp.State() == old(temp.State()).(data := temp.data)
    ensures var c := CopyFrom(env, total, 0, old(|temp.data|), 0, old(temp.data));
      && temp.data == c.data && count == c.count && lastProgress == c.lastProgress
      && events == events0 + c.events && next == c.next && canceled == c.canceled && fault == c.fault
  {
    count, lastProgress, events := |temp.data|, 0, events0;
    canceled, fault := false, None;
    ghost var goal := CopyFrom(env, total, 0, count, 0, temp.data);
    var k: nat := 0;
    while true
      invariant k <= |env.chunks| && count == |temp.data|
      invariant temp.present && temp.readable == old(temp.readable) && temp.writable == old(temp.writable)
      invariant OnTrack(CopyFrom(env, total, k, count, lastProgress, temp.data), events, goal, events0)
      invariant !canceled && fault.None?
      decreases |env.chunks| - k
    {
      if StopsAt(env, k) {
        StopOnTrack(env, total, k, count, lastProgress, temp.data, events, goal, events0);
        if Throws(env, ReadChunk(k)) {
          fault := env.fault;
        } else if k < |env.chunks| && Polled(env.cancelPolls, k) {
          events := events + [OnCancel(env.what)];
          canceled := true;
        } else if k < |env.chunks| {
          fault := env.fault;
        }
        break;
      }
      StepOnTrack(env, total, k, count, lastProgress, temp.data, events, goal, events0);
      var chunk := env.chunks[k];
      WriteAtEnd(temp.data, chunk);
      temp.WriteBytes(count, chunk);
      count := count + |chunk|;
      var reported;
      lastProgress, reported := ReportProgress(env.what, total, count, lastProgress);
      events := events + reported;
      k := k + 1;
    }
    next := k;
  }

  /**
    The progress report after a write (lines 206-214): the percentage of
    `totalLength` that `count` has reached, reported only when it passes the throttle.
   */
  method ReportProgress(what: int, total: int, count: int, oldProgress: int) returns (newProgress: int, reported: seq<Event>)
    ensures newProgress == NextLast(total, count, oldProgress) && reported == Reported(what, total, count, oldProgress)
  {
    newProgress, reported := oldProgress, [];
    if total != 0 {
      var progress := Progress(count, total);
      if Passes(progress, oldProgress) {
        newProgress := progress;
        reported := [OnProgress(what, progress)];
      }
    }
  }

  /** The `try` block up to the request (lines 99-132), ending early where the source returns. */
  method TryDownload(env: Env, temp: LocalFile, final: LocalFile)
    returns (events: seq<Event>, range: Option<string>, connected: bool, tempBound: bool, fault: Option<Fault>)
    requires temp != final && temp.Valid() && final.Valid()
    modifies temp, final
    ensures temp.Valid() && final.Valid()
    ensures Attempt(events, temp.State(), final.State(), range, connected, tempBound, fault)
         == Try(env, old(temp.State()), old(final.State()))
  {
    events, range, connected, tempBound, fault := [], None, false, false, None;
    if final.present {
      if env.isRange {
        events := [OnProgress(env.what, 100), OnFinish(env.what, env.finalPath)];
        return;
      }
      final.Delete();
    }
    tempBound := true;
    var tempFileLength: nat := 0;
    if temp.present {
      if env.isRange && temp.writable && temp.readable {
        tempFileLength := |temp.data|;
      } else {
        temp.Delete();
        if Throws(env, CreateTemp) {
          fault := env.fault;
          return;
        }
        temp.CreateNewFile();
      }
    } else {
      if Throws(env, CreateTemp) {
        fault := env.fault;
        return;
      }
      temp.CreateNewFile();
    }
    events, range, connected, fault := Exchange(env, temp, final, tempFileLength);
  }

  /** The request, the status and length checks and the storage gate (lines 134-179). */
  method Exchange(env: Env, temp: LocalFile, final: LocalFile, tempFileLength: nat)
    returns (events: seq<Event>, range: Option<string>, connected: bool, fault: Option<Fault>)
    requires temp != final && temp.Valid() && final.Valid()
    requires temp.present && tempFileLength == |temp.data|
    modifies temp, final
    ensures temp.Valid() && final.Valid()
    ensures Attempt(events, temp.State(), final.State(), range, connected, true, fault)
         == DownloadModel.Exchange(env, old(temp.State()), old(final.State()), tempFileLength)
  {
    events, range, connected, fault := [], None, false, None;
    if Throws(env, OpenConnection) {
      fault := env.fault;
      return;
    }
    connected := true;
    if env.isRange {
      range := Some(RangeValue(tempFileLength));
    }
    if Throws(env, ReadStatus) {
      fault := env.fault;
      return;
    }
    var totalLength := 0;
    if env.statusCode == 206 && env.isRange {
      if env.contentRange.Some? && |env.contentRange.value| != 0 {
        var parsed := ContentRangeTotal(env.contentRange.value);
        if parsed.None? {
          events := [OnDownloadError(env.what, ErrorServerException, CONTENT_RANGE_MESSAGE)];
          return;
        }
        totalLength := parsed.value;
      }
    } else if env.statusCode == 200 {
      totalLength := env.contentLength;
    } else {
      events := [OnDownloadError(env.what, ErrorOther, STATUS_MESSAGE + JavaString(env.statusCode))];
      return;
    }
    if env.dirSize < totalLength {
      events := [OnDownloadError(env.what, ErrorStorageNotEnough, STORAGE_MESSAGE)];
      return;
    }
    events, fault := Transfer(env, temp, final, range, totalLength);
  }

  /** `onStart`, the copy loop and the rename (lines 181-220). */
  method Transfer(env: Env, temp: LocalFile, final: LocalFile, range: Option<string>, totalLength: int)
    returns (events: seq<Event>, fault: Option<Fault>)
    requires temp != final && temp.Valid() && final.Valid() && temp.present
    modifies temp, final
    ensures temp.Valid() && final.Valid()
    ensures Attempt(events, temp.State(), final.State(), range, true, true, fault)
         == DownloadModel.Transfer(env, old(temp.State()), old(final.State()), range, totalLength)
  {
    events := [OnStart(env.what)];
    if Throws(env, OpenBody) {
      fault := env.fault;
      return;
    }
    var count, lastProgress, next, canceled;
    count, lastProgress, events, next, canceled, fault := CopyBody(env, totalLength, temp, events);
    if fault.Some? {
      return;
    }
    if !Polled(env.cancelPolls, if canceled then next + 1 else next) {
      temp.RenameTo(final, env.renameSucceeds);
      events := events + [OnFinish(env.what, env.finalPath)];
    }
  }

  /**
    `download(request, what, listener)` (lines 83-245). The listener's calls
    come back as `events`; `range` is the `Range` request header sent, if any.
   */
  method Download(env: Env, temp: LocalFile, final: LocalFile)
    returns (events: seq<Event>, range: Option<string>, connected: bool)
    requires temp != final && temp.Valid() && final.Valid()
    modifies temp, final
    ensures temp.Valid() && final.Valid()
    ensures Outcome(events, temp.State(), final.State(), range, connected)
         == Run(env, old(temp.State()), old(final.State()))
  {
    range, connected := None, false;
    if !env.networkAvailable {
      events := [OnDownloadError(env.what, ErrorNetworkNotAvailable, NETWORK_MESSAGE)];
      return;
    }
    if !env.urlValid {
      events := [OnDownloadError(env.what, ErrorUrlSyntaxError, URL_MESSAGE)];
      return;
    }
    var tempBound, fault;
    events, range, connected, tempBound, fault := TryDownload(env, temp, final);
    // catch
    if fault.Some? {
      events := events + [OnDownloadError(env.what, CodeOf(fault.value.kind), fault.value.message)];
    }
    // finally
    if !env.isRange && tempBound && temp.present {
      temp.Delete();
    }
  }
}
