/**
  The percentages one call of `download` reports to `onProgress`, and three
  concrete calls that show where the code departs from the listener's
  one-terminal-call design.
 */
module RunProgress {
  import opened Wrappers
  import opened JavaLang
  import opened DownloadModel
  import opened DownloadProperties
  import opened RunProperties
  import opened RunErrors
  import opened RunFiles

  /** `onStart` and `onFinish` report no percentage. */
  lemma FramedProgress(what: int, path: string, e: seq<Event>)
    ensures ProgressValues([OnStart(what)] + e) == ProgressValues(e)
    ensures ProgressValues(e + [OnFinish(what, path)]) == ProgressValues(e)
  {
    var start := [OnStart(what)];
    var finish := [OnFinish(what, path)];
    assert start[1..] == [] && finish[1..] == [];
    ProgressValuesAppend(start, e);
    ProgressValuesAppend(e, finish);
  }

  /** The percentages `Transfer` reports are those of the copy loop. */
  lemma TransferProgress(env: Env, temp1: FileState, final1: FileState, range: Option<string>, total: int)
    requires temp1.present
    ensures var a := Transfer(env, temp1, final1, range, total);
      var c := CopyFrom(env, total, 0, |temp1.data|, 0, temp1.data);
      ProgressValues(a.events) == if Throws(env, OpenBody) then [] else ProgressValues(c.events)
  {
    var a := Transfer(env, temp1, final1, range, total);
    if Throws(env, OpenBody) {
      NoProgressIn(a.events);
    } else {
      var c := CopyFrom(env, total, 0, |temp1.data|, 0, temp1.data);
      var e := [OnStart(env.what)] + c.events;
      FramedProgress(env.what, env.finalPath, c.events);
      FramedProgress(env.what, env.finalPath, e);
      assert a.events == e || a.events == e + [OnFinish(env.what, env.finalPath)];
    }
  }

  /** The short-circuit's 100 percent passes the throttle. */
  lemma HundredPasses(last: int)
    requires last != 100
    ensures Passes(100, last)
  {
    RemOfNatural(100, 2);
  }

  /** The error the `catch` clauses add reports no percentage. */
  lemma ConcludeProgress(env: Env, a: Attempt)
    ensures ProgressValues(Conclude(env, a).events) == ProgressValues(a.events)
  {
    if a.fault.Some? {
      var err := [OnDownloadError(env.what, CodeOf(a.fault.value.kind), a.fault.value.message)];
      ProgressValuesAppend(a.events, err);
      assert err[1..] == [];
    }
  }

  /** A trace of one call that is not progress reports no percentage; nor does the empty trace. */
  lemma NoProgressIn(e: seq<Event>)
    requires |e| <= 1 && (|e| == 1 ==> !e[0].OnProgress?)
    ensures ProgressValues(e) == []
  {
    if |e| == 1 {
      assert e[1..] == [];
    }
  }

  /**
    The percentages of a whole call: 100 alone for the short-circuit, those
    of the copy loop when it runs, and none otherwise.
   */
  lemma RunProgressValues(env: Env, temp0: FileState, final0: FileState)
    ensures var pv := ProgressValues(Run(env, temp0, final0).events);
      if Attempted(env) && final0.present && env.isRange then pv == [100]
      else if Copies(env, temp0, final0) then pv == ProgressValues(Loop(env, temp0).events)
      else pv == []
  {
    var o := Run(env, temp0, final0);
    if !Attempted(env) {
      NoProgressIn(o.events);
    } else if final0.present && env.isRange {
      var e := o.events;
      assert e[1..] == [OnFinish(env.what, env.finalPath)];
      NoProgressIn(e[1..]);
    } else {
      var a := Try(env, temp0, final0);
      ConcludeProgress(env, a);
      assert o == Conclude(env, a);
      if Responds(env, temp0, final0) && TotalLength(env).Success? && env.dirSize >= TotalLength(env).value {
        var temp1 := Reconciled(env.isRange, temp0);
        var final1 := if final0.present then Absent else final0;
        var range := if env.isRange then Some(RangeValue(ResumeOffset(env.isRange, temp0))) else None;
        var total := TotalLength(env).value;
        assert a == Transfer(env, temp1, final1, range, total);
        TransferProgress(env, temp1, final1, range, total);
      } else {
        NoProgressIn(a.events);
      }
    }
  }

  /**
    Whatever happens, each percentage reported is divisible by 2 or 3 and
    differs from the one reported before it (the first from 0).
   */
  lemma RunProgressThrottled(env: Env, temp0: FileState, final0: FileState)
    ensures Throttled(ProgressValues(Run(env, temp0, final0).events), 0)
  {
    RunProgressValues(env, temp0, final0);
    if Attempted(env) && final0.present && env.isRange {
      HundredPasses(0);
      assert Throttled([100][1..], 100);
    } else if Copies(env, temp0, final0) {
      var temp1 := Reconciled(env.isRange, temp0);
      CopyThrottles(env, TotalLength(env).value, 0, |temp1.data|, 0, temp1.data);
    }
  }

  /** A total length of 0 turns the percentages off: only the short-circuit's 100 is heard. */
  lemma ZeroTotalRunReportsNothing(env: Env, temp0: FileState, final0: FileState)
    requires TotalLength(env).Success? && TotalLength(env).value == 0
    ensures ProgressValues(Run(env, temp0, final0).events) == if Attempted(env) && final0.present && env.isRange then [100] else []
  {
    RunProgressValues(env, temp0, final0);
    if Copies(env, temp0, final0) {
      var temp1 := Reconciled(env.isRange, temp0);
      ZeroTotalReportsNothing(env, 0, |temp1.data|, 0, temp1.data);
    }
  }

  /**
    A 206 answer to a range request whose `Content-Range` is absent or empty
    is not an error: the total stays 0 and no percentage is reported.
   */
  lemma MissingContentRangeReportsNothing(env: Env, temp0: FileState, final0: FileState)
    requires env.statusCode == 206 && env.isRange && (env.contentRange.None? || env.contentRange == Some(""))
    ensures TotalLength(env) == Success(0)
    ensures ProgressValues(Run(env, temp0, final0).events) == if Attempted(env) && final0.present then [100] else []
  {
    ZeroTotalRunReportsNothing(env, temp0, final0);
  }

  /** The bounds under which the percentages are exact: a positive total that `count * 100` cannot overflow, and no more bytes than it. */
  predicate Bounded(env: Env, temp0: FileState) {
    && TotalLength(env).Success?
    && 0 < TotalLength(env).value && TotalLength(env).value * 100 <= LONG_MAX
    && ResumeOffset(env.isRange, temp0) + Remaining(env.chunks, 0) <= TotalLength(env).value
  }

  /** A percentage of a positive total starts at or above 0. */
  lemma PercentNonNegative(count: nat, total: int)
    requires total > 0
    ensures 0 <= count * 100 / total
  {
  }

  /**
    When the total length is known and the bytes resumed plus the body do
    not exceed it, the percentages rise strictly and never pass 100.
   */
  lemma RunProgressRises(env: Env, temp0: FileState, final0: FileState)
    requires Bounded(env, temp0)
    ensures RisingTo100(ProgressValues(Run(env, temp0, final0).events), 0)
  {
    RunProgressValues(env, temp0, final0);
    if Attempted(env) && final0.present && env.isRange {
      assert RisingTo100([100][1..], 100);
    } else if Copies(env, temp0, final0) {
      var temp1 := Reconciled(env.isRange, temp0);
      var total := TotalLength(env).value;
      PercentNonNegative(|temp1.data|, total);
      CopyProgressRises(env, total, 0, |temp1.data|, 0, temp1.data);
    }
  }

  /** Reaching the total length reports 100 percent, unless 100 was the last one reported. */
  lemma FullCountIsHundred(total: int, last: int)
    requires 0 < total && total * 100 <= LONG_MAX
    ensures NextLast(total, total, last) == 100
  {
    ProgressIsPercent(total, total);
    assert total * 100 / total == 100;
    if last != 100 {
      HundredPasses(last);
    }
  }

  /**
    A loop that writes every chunk from `k` on, with at least one left and
    the bytes adding up to the total, ends with `oldProgress` at 100.
   */
  lemma {:induction false} CopyEndsAtHundred(env: Env, total: int, k: nat, count: int, last: int, data: seq<byte>)
    requires k < |env.chunks| && count == |data|
    requires 0 < total && total * 100 <= LONG_MAX
    requires count + Remaining(env.chunks, k) == total
    requires CopyFrom(env, total, k, count, last, data).next == |env.chunks|
    ensures CopyFrom(env, total, k, count, last, data).lastProgress == 100
    decreases |env.chunks| - k
  {
    assert !StopsAt(env, k) by {
      if StopsAt(env, k) {
        CopyStopped(env, total, k, count, last, data);
      }
    }
    var count' := count + |env.chunks[k]|;
    var last' := NextLast(total, count', last);
    var data' := data + env.chunks[k];
    CopyStepFields(env, total, k, count, last, data, count', last', data');
    assert Remaining(env.chunks, k) == |env.chunks[k]| + Remaining(env.chunks, k + 1);
    if k + 1 == |env.chunks| {
      assert Remaining(env.chunks, k + 1) == 0;
      FullCountIsHundred(total, last);
      CopyStopped(env, total, k + 1, count', last', data');
    } else {
      CopyEndsAtHundred(env, total, k + 1, count', last', data');
    }
  }

  /**
    Under a sticky cancel flag, a download that writes a non-empty body
    whose bytes, with those resumed, make up exactly the total length and
    that reports `onFinish` reports 100 percent last.
   */
  lemma FinishReportsHundred(env: Env, temp0: FileState, final0: FileState)
    requires Attempted(env) && !(final0.present && env.isRange) && Sticky(env.cancelPolls)
    requires |env.chunks| > 0 && TotalLength(env).Success?
    requires 0 < TotalLength(env).value && TotalLength(env).value * 100 <= LONG_MAX
    requires ResumeOffset(env.isRange, temp0) + Remaining(env.chunks, 0) == TotalLength(env).value
    requires EndsWith(Run(env, temp0, final0).events, OnFinish(env.what, env.finalPath))
    ensures LastOr(ProgressValues(Run(env, temp0, final0).events), 0) == 100
  {
    var o := Run(env, temp0, final0);
    var a := Try(env, temp0, final0);
    assert o == Conclude(env, a);
    assert a.fault.None?;
    TryReachesTransfer(env, temp0, final0, OnFinish(env.what, env.finalPath));
    var temp1 := Reconciled(env.isRange, temp0);
    var final1 := if final0.present then Absent else final0;
    var range := if env.isRange then Some(RangeValue(ResumeOffset(env.isRange, temp0))) else None;
    var total := TotalLength(env).value;
    TransferFinished(env, temp1, final1, range, total);
    TransferProgress(env, temp1, final1, range, total);
    CopyThrottles(env, total, 0, |temp1.data|, 0, temp1.data);
    CopyEndsAtHundred(env, total, 0, |temp1.data|, 0, temp1.data);
  }

  // ---------------------------------------------------------------------
  // Concrete calls
  // ---------------------------------------------------------------------

  /** A plain download with id 0 to `f` whose 200 answer has the given length, body and cancel polls. */
  function Plain(contentLength: int, chunks: seq<seq<byte>>, polls: seq<bool>): Env {
    Env(0, false, true, true, "f", 200, None, contentLength, 0, chunks, polls, true, None)
  }

  /** `(int) (1 * 100 / -1)` is -100, which passes the throttle. */
  lemma ProgressOfUnknownLength()
    ensures Progress(1, -1) == -100 && Reports(-1, 1, 0)
  {
    DivIsQuotient(100, 1);
    assert Quot(100, -1) == -100;
    DivIsQuotient(100, 2);
    assert Quot(-100, 2) == -50;
  }

  /**
    A server that sends no `Content-Length` (-1) makes the percentage
    negative: one byte is reported as -100 percent.
   */
  lemma UnknownLengthGivesNegativeProgress(env: Env)
    requires env == Plain(-1, [[7]], [])
    ensures Run(env, Absent, Absent).events == [OnStart(0), OnProgress(0, -100), OnFinish(0, "f")]
  {
    UnknownLengthLoop(env);
    var c := CopyFrom(env, -1, 0, 0, 0, []);
    var a := Transfer(env, Created, Absent, None, -1);
    assert a.events == [OnStart(0)] + c.events + [OnFinish(0, "f")] && a.fault.None?;
    assert Try(env, Absent, Absent) == a;
    assert Run(env, Absent, Absent) == Conclude(env, a);
  }

  /** The copy loop of that call writes the byte and reports -100 once. */
  lemma UnknownLengthLoop(env: Env)
    requires env == Plain(-1, [[7]], [])
    ensures CopyFrom(env, -1, 0, 0, 0, []) == Copied([7], 1, -100, [OnProgress(0, -100)], 1, false, None)
  {
    ProgressOfUnknownLength();
    assert NextLast(-1, 1, 0) == -100 && Reported(0, -1, 1, 0) == [OnProgress(0, -100)];
    CopyStep(env, -1, 0, 0, 0, []);
    CopyStopped(env, -1, 1, 1, -100, [7]);
  }

  /**
    A cancel first seen by the poll after the loop ends the call with no
    terminal call at all: the listener hears only `onStart`.
   */
  lemma LateCancelLeavesNoTerminal()
    ensures Run(Plain(0, [], [true]), Absent, Absent).events == [OnStart(0)]
  {
    var env := Plain(0, [], [true]);
    CopyStopped(env, 0, 0, 0, 0, []);
  }

  /**
    A cancel flag that is set for the loop's poll and clear again for the
    poll after it gives `onCancel` and then `onFinish`.
   */
  lemma UnstickyCancelThenFinish()
    ensures Run(Plain(0, [[7]], [true, false]), Absent, Absent).events
         == [OnStart(0), OnCancel(0), OnFinish(0, "f")]
  {
    var env := Plain(0, [[7]], [true, false]);
    CopyStopped(env, 0, 0, 0, 0, []);
  }
}
