/**
  The errors one call of `download` reports and what causes each of them,
  the gates `onStart` waits for, and the `Range` and `Content-Range`
  headers, all proved about `DownloadModel.Run`.
 */
module RunErrors {
  import opened Wrappers
  import opened JavaLang
  import opened DownloadModel
  import opened DownloadProperties
  import opened RunProperties

  /** The two pre-checks pass, so the `try` block runs. */
  predicate Attempted(env: Env) {
    env.networkAvailable && env.urlValid
  }

  /** The injected exception is of class `kind` and carries `message`. */
  predicate Raised(env: Env, kind: FaultKind, message: string) {
    env.fault.Some? && env.fault.value.kind == kind && env.fault.value.message == message
  }

  /** A 206 answer to a range request whose non-empty `Content-Range` does not parse. */
  predicate BadContentRange(env: Env) {
    && env.statusCode == 206 && env.isRange
    && env.contentRange.Some? && |env.contentRange.value| != 0
    && ContentRangeTotal(env.contentRange.value).None?
  }

  /** A status other than 200, and other than 206 to a range request. */
  predicate BadStatus(env: Env) {
    !(env.statusCode == 206 && env.isRange) && env.statusCode != 200
  }

  /** The cause each code and message stand for. */
  predicate Explained(env: Env, code: StatusCode, message: string) {
    match code
    case ErrorNetworkNotAvailable => !env.networkAvailable && message == NETWORK_MESSAGE
    case ErrorUrlSyntaxError => env.networkAvailable && !env.urlValid && message == URL_MESSAGE
    case ErrorDownloadTimeout => Attempted(env) && Raised(env, SocketTimeout, message)
    case ErrorServerNotFound => Attempted(env) && Raised(env, UnknownHost, message)
    case ErrorServerException => Attempted(env) && BadContentRange(env) && message == CONTENT_RANGE_MESSAGE
    case ErrorStorageNotEnough =>
      Attempted(env) && TotalLength(env).Success? && env.dirSize < TotalLength(env).value && message == STORAGE_MESSAGE
    case ErrorOther =>
      Attempted(env) && (Raised(env, OtherException, message) || (BadStatus(env) && message == STATUS_MESSAGE + JavaString(env.statusCode)))
  }

  /** Every error event in `e` is explained. */
  predicate AllExplained(env: Env, e: seq<Event>) {
    forall i :: 0 <= i < |e| && e[i].OnDownloadError? ==> Explained(env, e[i].code, e[i].message)
  }

  /** The `try` block's errors are explained and any exception pending is the injected one. */
  predicate AttemptExplained(env: Env, a: Attempt) {
    AllExplained(env, a.events) && (a.fault.Some? ==> a.fault == env.fault)
  }

  /** The response check fails exactly with the non-parsing `Content-Range` and the bad status. */
  lemma TotalLengthErrors(env: Env)
    requires Attempted(env)
    ensures TotalLength(env).Failure? <==> BadContentRange(env) || BadStatus(env)
    ensures TotalLength(env).Failure? ==>
      var e := TotalLength(env).error;
      e.OnDownloadError? && e.what == env.what && Explained(env, e.code, e.message)
  {
  }

  /** A trace of `onStart`, progress reports, `onCancel` and `onFinish` holds no error. */
  lemma ShapedHasNoError(what: int, path: string, p: seq<Event>, canceled: bool, finished: bool)
    requires AllProgress(p)
    ensures var e := Shaped(what, path, p, canceled, finished);
      forall i :: 0 <= i < |e| ==> !e[i].OnDownloadError?
  {
    var e := Shaped(what, path, p, canceled, finished);
    forall i | 0 < i <= |p|
      ensures !e[i].OnDownloadError?
    {
      assert e[i] == p[i - 1];
    }
  }

  /** `Transfer` reports no error itself; any exception pending is the injected one. */
  lemma TransferExplained(env: Env, temp1: FileState, final1: FileState, range: Option<string>, total: int)
    requires temp1.present
    ensures AttemptExplained(env, Transfer(env, temp1, final1, range, total))
  {
    var w := env.what;
    if Throws(env, OpenBody) {
      assert Shaped(w, env.finalPath, [], false, false) == [OnStart(w)];
    } else {
      var c := CopyFrom(env, total, 0, |temp1.data|, 0, temp1.data);
      CopyEventKinds(env, total, 0, |temp1.data|, 0, temp1.data);
      CopyStops(env, total, 0, |temp1.data|, 0, temp1.data);
      var p := if c.canceled then c.events[..|c.events| - 1] else c.events;
      LoopEventsSplit(c.events, w, c.canceled);
      TransferEvents(env, temp1, final1, range, total, p);
      var finished := c.fault.None? && !Polled(env.cancelPolls, if c.canceled then c.next + 1 else c.next);
      ShapedHasNoError(w, env.finalPath, p, c.canceled, finished);
    }
  }

  /** The errors `Exchange` reports are explained. */
  lemma ExchangeExplained(env: Env, temp1: FileState, final1: FileState, offset: nat)
    requires Attempted(env) && temp1.present && offset == |temp1.data|
    ensures AttemptExplained(env, DownloadModel.Exchange(env, temp1, final1, offset))
  {
    if !Throws(env, OpenConnection) && !Throws(env, ReadStatus) {
      TotalLengthErrors(env);
      if TotalLength(env).Success? && env.dirSize >= TotalLength(env).value {
        var range := if env.isRange then Some(RangeValue(offset)) else None;
        TransferExplained(env, temp1, final1, range, TotalLength(env).value);
      }
    }
  }

  /** So are those of the whole `try` block. */
  lemma TryExplained(env: Env, temp0: FileState, final0: FileState)
    requires Attempted(env)
    ensures AttemptExplained(env, Try(env, temp0, final0))
  {
    if !(final0.present && env.isRange) && !(!Resumable(env.isRange, temp0) && Throws(env, CreateTemp)) {
      var final1 := if final0.present then Absent else final0;
      ExchangeExplained(env, Reconciled(env.isRange, temp0), final1, ResumeOffset(env.isRange, temp0));
    }
  }

  /** The `catch` clauses report the pending exception under the code of its class. */
  lemma ConcludeExplained(env: Env, a: Attempt)
    requires Attempted(env) && AttemptExplained(env, a)
    ensures AllExplained(env, Conclude(env, a).events)
  {
    var e := Conclude(env, a).events;
    if a.fault.Some? {
      forall i | 0 <= i < |e| && e[i].OnDownloadError?
        ensures Explained(env, e[i].code, e[i].message)
      {
        if i < |a.events| {
          assert e[i] == a.events[i];
        }
      }
    }
  }

  /**
    Every `onDownloadError` names its cause: no network, a bad URL, a socket
    timeout, an unknown host, a `Content-Range` that does not parse, too
    little storage, or another exception or a bad status line, each with its
    own message.
   */
  lemma ErrorsExplained(env: Env, temp0: FileState, final0: FileState)
    ensures AllExplained(env, Run(env, temp0, final0).events)
  {
    if Attempted(env) {
      var a := Try(env, temp0, final0);
      TryExplained(env, temp0, final0);
      ConcludeExplained(env, a);
      assert Run(env, temp0, final0) == Conclude(env, a);
    }
  }

  /**
    The pre-checks come before anything else: without a network, or with a
    malformed URL, the listener hears only that error, no connection is
    made and neither file is touched.
   */
  lemma PrecheckErrors(env: Env, temp0: FileState, final0: FileState)
    requires !Attempted(env)
    ensures var o := Run(env, temp0, final0);
      && o.events == [OnDownloadError(env.what, if env.networkAvailable then ErrorUrlSyntaxError else ErrorNetworkNotAvailable,
                                      if env.networkAvailable then URL_MESSAGE else NETWORK_MESSAGE)]
      && o.temp == temp0 && o.final == final0 && o.rangeHeader == None && !o.connected
  {
  }

  /** The status line was read: the pre-checks passed, no short-circuit, and no exception before the response. */
  predicate Responds(env: Env, temp0: FileState, final0: FileState) {
    && Attempted(env) && !(final0.present && env.isRange)
    && !(!Resumable(env.isRange, temp0) && Throws(env, CreateTemp))
    && !Throws(env, OpenConnection) && !Throws(env, ReadStatus)
  }

  /** Whether `onStart` is heard and the body opened, so that the copy loop runs. */
  predicate Copies(env: Env, temp0: FileState, final0: FileState) {
    && Responds(env, temp0, final0) && TotalLength(env).Success?
    && env.dirSize >= TotalLength(env).value && !Throws(env, OpenBody)
  }

  /** The copy loop of a call that gets that far, from the resume offset on. */
  function Loop(env: Env, temp0: FileState): Copied
    requires TotalLength(env).Success?
  {
    var temp1 := Reconciled(env.isRange, temp0);
    CopyFrom(env, TotalLength(env).value, 0, |temp1.data|, 0, temp1.data)
  }

  /** Creating the temp file, connecting or reading the status line throws: the listener hears only that error. */
  lemma EarlyFaultReported(env: Env, temp0: FileState, final0: FileState)
    requires Attempted(env) && !(final0.present && env.isRange) && env.fault.Some?
    requires !Responds(env, temp0, final0)
    ensures var f := env.fault.value;
      Run(env, temp0, final0).events == [OnDownloadError(env.what, CodeOf(f.kind), f.message)]
  {
  }

  /**
    An exception that leaves the `try` block is the injected one, and the
    listener hears it last, under the code of its class and with its message.
   */
  lemma FaultReported(env: Env, temp0: FileState, final0: FileState)
    requires Attempted(env) && Try(env, temp0, final0).fault.Some?
    ensures Try(env, temp0, final0).fault == env.fault
    ensures var f := Try(env, temp0, final0).fault.value;
      Run(env, temp0, final0).events == Try(env, temp0, final0).events + [OnDownloadError(env.what, CodeOf(f.kind), f.message)]
  {
    TryExplained(env, temp0, final0);
  }

  /** Opening the body throws: the listener hears `onStart` and then that error. */
  lemma BodyFaultReported(env: Env, temp0: FileState, final0: FileState)
    requires Responds(env, temp0, final0) && TotalLength(env).Success? && env.dirSize >= TotalLength(env).value
    requires Throws(env, OpenBody)
    ensures var f := env.fault.value;
      Run(env, temp0, final0).events == [OnStart(env.what), OnDownloadError(env.what, CodeOf(f.kind), f.message)]
  {
  }

  /**
    The read of chunk `j` throws, every poll before it having found the flag
    clear: the listener hears `onStart`, the loop's progress reports for the
    chunks before `j`, and then that error under the code of its class.
   */
  lemma ReadFaultReported(env: Env, temp0: FileState, final0: FileState, j: nat)
    requires Copies(env, temp0, final0)
    requires j <= |env.chunks| && Throws(env, ReadChunk(j)) && ClearFrom(env.cancelPolls, 0, j)
    ensures var f := env.fault.value;
      var c := Loop(env, temp0);
      && c.next == j && LoopEvents(c.events, env.what, false)
      && Run(env, temp0, final0).events == [OnStart(env.what)] + c.events + [OnDownloadError(env.what, CodeOf(f.kind), f.message)]
  {
    var temp1 := Reconciled(env.isRange, temp0);
    CopyFaultAt(env, TotalLength(env).value, 0, |temp1.data|, 0, temp1.data, j);
    CopyEventKinds(env, TotalLength(env).value, 0, |temp1.data|, 0, temp1.data);
    CopyFaultConcluded(env, temp0, final0);
  }

  /**
    The write of chunk `j` throws, every poll up to its own having found the
    flag clear: the listener hears `onStart`, the loop's progress reports for
    the chunks before `j`, and then that error under the code of its class.
   */
  lemma WriteFaultReported(env: Env, temp0: FileState, final0: FileState, j: nat)
    requires Copies(env, temp0, final0)
    requires j < |env.chunks| && Throws(env, WriteChunk(j)) && ClearFrom(env.cancelPolls, 0, j + 1)
    ensures var f := env.fault.value;
      var c := Loop(env, temp0);
      && c.next == j && LoopEvents(c.events, env.what, false)
      && Run(env, temp0, final0).events == [OnStart(env.what)] + c.events + [OnDownloadError(env.what, CodeOf(f.kind), f.message)]
  {
    var temp1 := Reconciled(env.isRange, temp0);
    assert !Polled(env.cancelPolls, j);
    CopyFaultAt(env, TotalLength(env).value, 0, |temp1.data|, 0, temp1.data, j);
    CopyEventKinds(env, TotalLength(env).value, 0, |temp1.data|, 0, temp1.data);
    CopyFaultConcluded(env, temp0, final0);
  }

  /** A copy loop that stops on a pending exception ends the call with that error after what the loop heard. */
  lemma CopyFaultConcluded(env: Env, temp0: FileState, final0: FileState)
    requires Copies(env, temp0, final0) && Loop(env, temp0).fault == env.fault && env.fault.Some?
    ensures var f := env.fault.value;
      Run(env, temp0, final0).events == [OnStart(env.what)] + Loop(env, temp0).events + [OnDownloadError(env.what, CodeOf(f.kind), f.message)]
  {
    var temp1 := Reconciled(env.isRange, temp0);
    var final1 := if final0.present then Absent else final0;
    var range := if env.isRange then Some(RangeValue(ResumeOffset(env.isRange, temp0))) else None;
    var a := Transfer(env, temp1, final1, range, TotalLength(env).value);
    assert Try(env, temp0, final0) == a;
    assert Run(env, temp0, final0) == Conclude(env, a);
  }

  /**
    `onStart` is heard exactly when the status line was read, the response
    yields a total length and the storage holds it; a response check that
    fails is the only call the listener hears.
   */
  lemma StartGate(env: Env, temp0: FileState, final0: FileState)
    ensures var e := Run(env, temp0, final0).events;
      OnStart(env.what) in e <==>
        Responds(env, temp0, final0) && TotalLength(env).Success? && env.dirSize >= TotalLength(env).value
    ensures Responds(env, temp0, final0) && TotalLength(env).Failure? ==>
      Run(env, temp0, final0).events == [TotalLength(env).error]
    ensures Responds(env, temp0, final0) && TotalLength(env).Success? && env.dirSize < TotalLength(env).value ==>
      && Run(env, temp0, final0).events == [OnDownloadError(env.what, ErrorStorageNotEnough, STORAGE_MESSAGE)]
      && Run(env, temp0, final0).temp == if env.isRange then Reconciled(env.isRange, temp0) else Absent
  {
    var e := Run(env, temp0, final0).events;
    if Responds(env, temp0, final0) && TotalLength(env).Success? && env.dirSize >= TotalLength(env).value {
      var final1 := if final0.present then Absent else final0;
      var temp1 := Reconciled(env.isRange, temp0);
      var range := if env.isRange then Some(RangeValue(ResumeOffset(env.isRange, temp0))) else None;
      TransferTrace(env, temp1, final1, range, TotalLength(env).value);
      assert Try(env, temp0, final0) == Transfer(env, temp1, final1, range, TotalLength(env).value);
      assert e[0] == OnStart(env.what);
    }
  }

  /** `Transfer` keeps the header and the connection it is given. */
  lemma TransferKeepsHeader(env: Env, temp1: FileState, final1: FileState, range: Option<string>, total: int)
    requires temp1.present
    ensures var a := Transfer(env, temp1, final1, range, total);
      a.rangeHeader == range && a.connected
  {
  }

  /** The connection is made unless obtaining it throws; a range request then sends `bytes=<offset>-`. */
  lemma ExchangeHeader(env: Env, temp1: FileState, final1: FileState, offset: nat)
    requires temp1.present && offset == |temp1.data|
    ensures var a := DownloadModel.Exchange(env, temp1, final1, offset);
      && a.connected == !Throws(env, OpenConnection)
      && a.rangeHeader == if !Throws(env, OpenConnection) && env.isRange then Some(RangeValue(offset)) else None
  {
    if !Throws(env, OpenConnection) && !Throws(env, ReadStatus) && TotalLength(env).Success? && env.dirSize >= TotalLength(env).value {
      var range := if env.isRange then Some(RangeValue(offset)) else None;
      TransferKeepsHeader(env, temp1, final1, range, TotalLength(env).value);
    }
  }

  /** Whether the `try` block gets as far as obtaining the connection without an exception. */
  predicate Connects(env: Env, temp0: FileState, final0: FileState) {
    && Attempted(env) && !(final0.present && env.isRange)
    && !(!Resumable(env.isRange, temp0) && Throws(env, CreateTemp)) && !Throws(env, OpenConnection)
  }

  /**
    The `Range` header goes out exactly when a range request reaches the
    connection, as `bytes=<offset>-` with the resume offset, even when that
    offset is 0; the connection is made exactly when the `try` block
    reaches it without an exception.
   */
  lemma RangeHeaderSent(env: Env, temp0: FileState, final0: FileState)
    ensures var o := Run(env, temp0, final0);
      && (o.connected <==> Connects(env, temp0, final0))
      && (o.rangeHeader.Some? <==> Connects(env, temp0, final0) && env.isRange)
      && (o.rangeHeader.Some? ==> o.rangeHeader.value == RangeValue(ResumeOffset(env.isRange, temp0)))
  {
    if Attempted(env) {
      var a := Try(env, temp0, final0);
      if !(final0.present && env.isRange) && !(!Resumable(env.isRange, temp0) && Throws(env, CreateTemp)) {
        var final1 := if final0.present then Absent else final0;
        ExchangeHeader(env, Reconciled(env.isRange, temp0), final1, ResumeOffset(env.isRange, temp0));
      }
      assert Run(env, temp0, final0) == Conclude(env, a);
    }
  }

  /** `Long.parseLong` reads back the decimal text of every `long` that is not negative. */
  lemma ParseDecimal(n: nat)
    requires n <= LONG_MAX
    ensures ParseLong(Decimal(n)) == Some(n)
  {
    ParseLongRoundTrip(n);
    assert JavaString(n) == Decimal(n);
  }

  /** A server reading the `Range` header recovers the resume offset from it. */
  lemma RangeHeaderRoundTrip(offset: nat)
    requires offset <= LONG_MAX
    ensures var h := RangeValue(offset);
      && |h| >= 8 && h[..6] == "bytes=" && h[|h| - 1] == '-'
      && ParseLong(h[6..|h| - 1]) == Some(offset)
  {
    var h := RangeValue(offset);
    assert h[6..|h| - 1] == Decimal(offset);
    ParseDecimal(offset);
  }

  /**
    A `Content-Range` of the form `bytes <first>-<last>/<complete>` of
    section 14.4 of RFC 9110 yields the complete length.
   */
  lemma ContentRangeOfRfcForm(first: nat, last: nat, complete: nat)
    requires complete <= LONG_MAX
    ensures ContentRangeTotal("bytes " + Decimal(first) + "-" + Decimal(last) + "/" + Decimal(complete)) == Some(complete)
  {
    var p := "bytes " + Decimal(first) + "-" + Decimal(last);
    DigitsHaveNoChar(Decimal(first), '/');
    DigitsHaveNoChar(Decimal(last), '/');
    assert '/' !in p;
    var s := p + "/" + Decimal(complete);
    assert s == p + ['/'] + Decimal(complete);
    IndexOfAfterPrefix(p, '/', Decimal(complete));
    assert s[|p| + 1..] == Decimal(complete);
    ParseDecimal(complete);
  }

  /** `*` is not a number. */
  lemma StarIsNotLong()
    ensures ParseLong("*") == None
  {
    var s := "*";
    assert s[0] == '*' && !IsDigit(s[0]);
    assert !AllDigits(s);
  }

  /**
    With `*` for an unknown complete length, as the same section allows, the
    value does not parse, so the call ends with `ERROR_SERVER_EXCEPTION`.
   */
  lemma ContentRangeUnknownLength(first: nat, last: nat)
    ensures ContentRangeTotal("bytes " + Decimal(first) + "-" + Decimal(last) + "/*") == None
  {
    var p := "bytes " + Decimal(first) + "-" + Decimal(last);
    DigitsHaveNoChar(Decimal(first), '/');
    DigitsHaveNoChar(Decimal(last), '/');
    assert '/' !in p;
    StarAfterSlash(p);
  }

  /** A value whose first `/` is followed by `*` alone does not parse. */
  lemma StarAfterSlash(p: string)
    requires '/' !in p
    ensures ContentRangeTotal(p + "/*") == None
  {
    var s := p + "/*";
    assert s == p + ['/'] + ['*'];
    IndexOfAfterPrefix(p, '/', ['*']);
    assert s[|p| + 1..] == "*";
    StarIsNotLong();
  }

  /** Without a `/` the whole value is parsed as the length. */
  lemma ContentRangeWithoutSlash(s: string)
    requires '/' !in s
    ensures ContentRangeTotal(s) == ParseLong(s)
  {
    assert s[0..] == s;
  }

  /** The status line error carries the status code, which a reader of the message can recover. */
  lemma StatusMessageRoundTrip(status: int)
    requires IsLong(status)
    ensures var m := STATUS_MESSAGE + JavaString(status);
      m[..|STATUS_MESSAGE|] == STATUS_MESSAGE && ParseLong(m[|STATUS_MESSAGE|..]) == Some(status)
  {
    var m := STATUS_MESSAGE + JavaString(status);
    assert m[|STATUS_MESSAGE|..] == JavaString(status);
    ParseLongRoundTrip(status);
  }
}
