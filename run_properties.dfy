/**
  What one whole call of `download` guarantees: the shape of the listener
  trace, the error codes and their causes, the gates before `onStart`, the
  `Range` and `Content-Range` headers, the files left behind and the progress
  values, all proved about `DownloadModel.Run`.
 */
module RunProperties {
  import opened Wrappers
  import opened JavaLang
  import opened DownloadModel
  import opened DownloadProperties

  // ---------------------------------------------------------------------
  // The shape of the trace
  // ---------------------------------------------------------------------

  /** No event ends the download. */
  predicate NoTerminal(e: seq<Event>) {
    forall i :: 0 <= i < |e| ==> !e[i].IsTerminal()
  }

  /** `onStart` can only be the first call. */
  predicate StartOnlyFirst(e: seq<Event>) {
    forall i :: 0 < i < |e| ==> !e[i].OnStart?
  }

  /** `onDownloadError` and `onFinish` can only be the last call. */
  predicate EndsOnlyLast(e: seq<Event>) {
    forall i :: 0 <= i < |e| - 1 ==> !e[i].OnDownloadError? && !e[i].OnFinish?
  }

  /** Only the last call can end the download. */
  predicate TerminalOnlyLast(e: seq<Event>) {
    forall i :: 0 <= i < |e| - 1 ==> !e[i].IsTerminal()
  }

  /** The cancel flag was first seen set by the poll after the loop, once the whole body had been read. */
  predicate LateCancel(env: Env) {
    ClearFrom(env.cancelPolls, 0, |env.chunks|) && Polled(env.cancelPolls, |env.chunks|)
  }

  /**
    What the `try` block's trace looks like before the `catch` clauses add to
    it: calls for download `what` only, `onStart` only first, an error or
    `onFinish` only last, nothing that ends the download when an exception
    is pending, and under a sticky cancel flag at most the last call ending
    the download, none only after a late cancel.
   */
  predicate AttemptShape(env: Env, a: Attempt) {
    && (a.events == [] ==> a.fault.Some?)
    && SameTask(a.events, env.what) && StartOnlyFirst(a.events) && EndsOnlyLast(a.events)
    && (a.fault.Some? ==> NoTerminal(a.events))
    && (Sticky(env.cancelPolls) ==> TerminalOnlyLast(a.events))
    && (Sticky(env.cancelPolls) && a.fault.None? && NoTerminal(a.events) ==> LateCancel(env))
  }

  /** The trace `onStart`, progress reports, then `onCancel` and `onFinish` where they happen. */
  function Shaped(what: int, path: string, p: seq<Event>, canceled: bool, finished: bool): seq<Event> {
    [OnStart(what)] + p + (if canceled then [OnCancel(what)] else []) + (if finished then [OnFinish(what, path)] else [])
  }

  /** What such a trace looks like: only `onFinish` can follow `onCancel`, and it ends the download only where they do. */
  lemma ShapedTrace(what: int, path: string, p: seq<Event>, canceled: bool, finished: bool)
    requires AllProgress(p) && SameTask(p, what)
    ensures var e := Shaped(what, path, p, canceled, finished);
      && |e| >= 1 && e[0] == OnStart(what)
      && SameTask(e, what) && StartOnlyFirst(e) && EndsOnlyLast(e)
      && (!(canceled && finished) ==> TerminalOnlyLast(e))
      && (NoTerminal(e) <==> !canceled && !finished)
  {
    var e := Shaped(what, path, p, canceled, finished);
    var n := 1 + |p|;
    forall i | 0 <= i < |e|
      ensures e[i].what == what
      ensures 0 < i ==> !e[i].OnStart?
      ensures i < n ==> !e[i].IsTerminal()
      ensures i == n && canceled ==> e[i] == OnCancel(what)
      ensures i >= n && !canceled ==> e[i] == OnFinish(what, path)
      ensures i > n ==> e[i] == OnFinish(what, path)
    {
      if i == 0 {
      } else if i < n {
        assert e[i] == p[i - 1];
      }
    }
    if canceled {
      assert e[n].IsTerminal();
    }
    if finished {
      assert e[|e| - 1].IsTerminal();
    }
  }

  /**
    The trace of `onStart`, the copy loop and the finish. Under a sticky
    cancel flag at most the last call ends the download, and when none does
    the flag was first seen set after the whole body had been read.
   */
  lemma TransferTrace(env: Env, temp1: FileState, final1: FileState, range: Option<string>, total: int)
    requires temp1.present
    ensures var a := Transfer(env, temp1, final1, range, total);
      |a.events| >= 1 && a.events[0] == OnStart(env.what) && AttemptShape(env, a)
  {
    var w := env.what;
    if Throws(env, OpenBody) {
      ShapedTrace(w, env.finalPath, [], false, false);
      assert Shaped(w, env.finalPath, [], false, false) == [OnStart(w)];
    } else {
      var c := CopyFrom(env, total, 0, |temp1.data|, 0, temp1.data);
      CopyEventKinds(env, total, 0, |temp1.data|, 0, temp1.data);
      CopyStops(env, total, 0, |temp1.data|, 0, temp1.data);
      var p := if c.canceled then c.events[..|c.events| - 1] else c.events;
      LoopEventsSplit(c.events, w, c.canceled);
      var post := if c.canceled then c.next + 1 else c.next;
      var finished := c.fault.None? && !Polled(env.cancelPolls, post);
      ShapedTrace(w, env.finalPath, p, c.canceled, finished);
      TransferEvents(env, temp1, final1, range, total, p);
      if c.canceled && Sticky(env.cancelPolls) {
        PolledSticky(env.cancelPolls, c.next, post);
      }
    }
  }

  /** The loop's events are progress reports followed, when it was canceled, by `onCancel`. */
  lemma LoopEventsSplit(added: seq<Event>, what: int, canceled: bool)
    requires LoopEvents(added, what, canceled)
    ensures var p := if canceled then added[..|added| - 1] else added;
      && AllProgress(p) && SameTask(p, what)
      && added == p + (if canceled then [OnCancel(what)] else [])
  {
    var p := if canceled then added[..|added| - 1] else added;
    forall i | 0 <= i < |p|
      ensures p[i].what == what
    {
      assert p[i] == added[i];
    }
    if canceled {
      assert added == p + [added[|added| - 1]];
    }
  }

  /** The trace `Transfer` produces once the body is open, as a `Shaped` one. */
  lemma TransferEvents(env: Env, temp1: FileState, final1: FileState, range: Option<string>, total: int, p: seq<Event>)
    requires temp1.present && !Throws(env, OpenBody)
    requires var c := CopyFrom(env, total, 0, |temp1.data|, 0, temp1.data);
      c.events == p + (if c.canceled then [OnCancel(env.what)] else [])
    ensures var c := CopyFrom(env, total, 0, |temp1.data|, 0, temp1.data);
      var finished := c.fault.None? && !Polled(env.cancelPolls, if c.canceled then c.next + 1 else c.next);
      var a := Transfer(env, temp1, final1, range, total);
      a.events == Shaped(env.what, env.finalPath, p, c.canceled, finished) && a.fault == c.fault
  {
  }

  /** A trace of at most two calls, the last one ending the download, or an empty one with an exception pending. */
  lemma ShortShape(env: Env, a: Attempt)
    requires |a.events| <= 2 && SameTask(a.events, env.what)
    requires |a.events| == 0 <==> a.fault.Some?
    requires |a.events| >= 1 ==> a.events[|a.events| - 1].IsTerminal()
    requires |a.events| == 2 ==> a.events[0].OnProgress?
    ensures AttemptShape(env, a)
  {
    if |a.events| >= 1 {
      assert !NoTerminal(a.events);
    }
  }

  /** The request and response checks keep the shape. */
  lemma ExchangeTrace(env: Env, temp1: FileState, final1: FileState, offset: nat)
    requires temp1.present && offset == |temp1.data|
    ensures AttemptShape(env, DownloadModel.Exchange(env, temp1, final1, offset))
  {
    var a := DownloadModel.Exchange(env, temp1, final1, offset);
    if !Throws(env, OpenConnection) && !Throws(env, ReadStatus) && TotalLength(env).Success? && env.dirSize >= TotalLength(env).value {
      var range := if env.isRange then Some(RangeValue(offset)) else None;
      TransferTrace(env, temp1, final1, range, TotalLength(env).value);
    } else {
      assert |a.events| <= 1;
      ShortShape(env, a);
    }
  }

  /** So does the whole `try` block. */
  lemma TryTrace(env: Env, temp0: FileState, final0: FileState)
    ensures AttemptShape(env, Try(env, temp0, final0))
  {
    if !(final0.present && env.isRange) && !(!Resumable(env.isRange, temp0) && Throws(env, CreateTemp)) {
      var final1 := if final0.present then Absent else final0;
      ExchangeTrace(env, Reconciled(env.isRange, temp0), final1, ResumeOffset(env.isRange, temp0));
    } else {
      ShortShape(env, Try(env, temp0, final0));
    }
  }

  /** Appending the event of the `catch` clause to a trace that has not ended. */
  lemma AppendError(e: seq<Event>, what: int, t: Event)
    requires SameTask(e, what) && StartOnlyFirst(e) && NoTerminal(e)
    requires t.what == what && t.OnDownloadError?
    ensures var e' := e + [t];
      SameTask(e', what) && StartOnlyFirst(e') && EndsOnlyLast(e') && TerminalOnlyLast(e') && !NoTerminal(e')
  {
    var e' := e + [t];
    assert e'[|e|] == t;
    forall i | 0 <= i < |e|
      ensures e'[i] == e[i]
    {
    }
  }

  /**
    The listener hears at least one call, each for download `what`; `onStart`
    only first; `onDownloadError` or `onFinish` only last, so at most one
    error. Under a sticky cancel flag exactly one call ends the download,
    the last, unless the flag was first seen set by the poll after the
    loop, when none does.
   */
  predicate TraceShape(env: Env, e: seq<Event>) {
    && |e| >= 1 && SameTask(e, env.what) && StartOnlyFirst(e) && EndsOnlyLast(e)
    && (Sticky(env.cancelPolls) ==> TerminalOnlyLast(e) && (e[|e| - 1].IsTerminal() || LateCancel(env)))
  }

  /** The `catch` clauses complete a well-shaped trace. */
  lemma ConcludeTrace(env: Env, a: Attempt)
    requires AttemptShape(env, a)
    ensures TraceShape(env, Conclude(env, a).events)
  {
    if a.fault.Some? {
      AppendError(a.events, env.what, OnDownloadError(env.what, CodeOf(a.fault.value.kind), a.fault.value.message));
    } else if Sticky(env.cancelPolls) && !a.events[|a.events| - 1].IsTerminal() {
      assert NoTerminal(a.events);
    }
  }

  /** Every call of `download` produces such a trace. */
  lemma RunTrace(env: Env, temp0: FileState, final0: FileState)
    ensures TraceShape(env, Run(env, temp0, final0).events)
  {
    if env.networkAvailable && env.urlValid {
      var a := Try(env, temp0, final0);
      TryTrace(env, temp0, final0);
      ConcludeTrace(env, a);
      assert Run(env, temp0, final0) == Conclude(env, a);
    }
  }
}
