/**
  What one call of `download` leaves on disk, and the percentages it
  reports, all proved about `DownloadModel.Run`.
 */
module RunFiles {
  import opened Wrappers
  import opened JavaLang
  import opened DownloadModel
  import opened DownloadProperties
  import opened RunProperties
  import opened RunErrors

  /** The last call the listener hears is `ev`. */
  predicate EndsWith(e: seq<Event>, ev: Event) {
    |e| >= 1 && e[|e| - 1] == ev
  }

  /** `file` with `more` appended to its bytes. */
  function Extended(file: FileState, more: seq<byte>): FileState {
    file.(data := file.data + more)
  }

  // ---------------------------------------------------------------------
  // Before the request
  // ---------------------------------------------------------------------

  /**
    A range request whose final file already exists reports 100 percent and
    `onFinish` at once, connects to nothing and leaves both files as they were.
   */
  lemma FinalFileShortCircuit(env: Env, temp0: FileState, final0: FileState)
    requires Attempted(env) && final0.present && env.isRange
    ensures Run(env, temp0, final0)
         == Outcome([OnProgress(env.what, 100), OnFinish(env.what, env.finalPath)], temp0, final0, None, false)
  {
  }

  /** Without range support an existing final file is deleted first, so the call goes as if it were not there. */
  lemma StaleFinalFileIgnored(env: Env, temp0: FileState, final0: FileState)
    requires Attempted(env) && !env.isRange && final0.present
    ensures Run(env, temp0, final0) == Run(env, temp0, Absent)
  {
  }

  /** `Exchange` and `Transfer` always leave the temp file bound for the `finally` block. */
  lemma ExchangeBindsTemp(env: Env, temp1: FileState, final1: FileState, offset: nat)
    requires temp1.present && offset == |temp1.data|
    ensures DownloadModel.Exchange(env, temp1, final1, offset).tempBound
  {
    if !Throws(env, OpenConnection) && !Throws(env, ReadStatus) && TotalLength(env).Success? && env.dirSize >= TotalLength(env).value {
      var range := if env.isRange then Some(RangeValue(offset)) else None;
      assert Transfer(env, temp1, final1, range, TotalLength(env).value).tempBound;
    }
  }

  /** Without range support no temp file survives the call, whatever happens. */
  lemma NonRangeLeavesNoTemp(env: Env, temp0: FileState, final0: FileState)
    requires Attempted(env) && !env.isRange
    ensures !Run(env, temp0, final0).temp.present
  {
    var a := Try(env, temp0, final0);
    if !Throws(env, CreateTemp) || Resumable(env.isRange, temp0) {
      var final1 := if final0.present then Absent else final0;
      ExchangeBindsTemp(env, Reconciled(env.isRange, temp0), final1, ResumeOffset(env.isRange, temp0));
    }
    assert a.tempBound;
    assert Run(env, temp0, final0) == Conclude(env, a);
  }

  // ---------------------------------------------------------------------
  // After the copy loop
  // ---------------------------------------------------------------------

  /** The last call `Transfer` makes once the body is open, when it does not end with `onFinish`. */
  lemma TransferLastEvent(env: Env, temp1: FileState, total: int)
    requires temp1.present
    ensures var c := CopyFrom(env, total, 0, |temp1.data|, 0, temp1.data);
      var e := [OnStart(env.what)] + c.events;
      && (e[|e| - 1] == OnCancel(env.what) ==> c.canceled)
      && !e[|e| - 1].OnFinish?
  {
    var c := CopyFrom(env, total, 0, |temp1.data|, 0, temp1.data);
    CopyEventKinds(env, total, 0, |temp1.data|, 0, temp1.data);
    var e := [OnStart(env.what)] + c.events;
    if |c.events| > 0 {
      assert e[|e| - 1] == c.events[|c.events| - 1];
      if !c.canceled {
        assert c.events[|c.events| - 1].OnProgress?;
      } else {
        assert c.events[..|c.events| - 1] + [c.events[|c.events| - 1]] == c.events;
      }
    }
  }

  /**
    `Transfer` under a sticky cancel flag, when it reports `onFinish`: the
    whole body follows the bytes the temp file held, and that file has
    become the final file unless the rename failed.
   */
  lemma TransferFinished(env: Env, temp1: FileState, final1: FileState, range: Option<string>, total: int)
    requires temp1.present && Sticky(env.cancelPolls)
    requires var a := Transfer(env, temp1, final1, range, total);
      a.fault.None? && EndsWith(a.events, OnFinish(env.what, env.finalPath))
    ensures var a := Transfer(env, temp1, final1, range, total);
      var whole := Extended(temp1, Flatten(env.chunks));
      var c := CopyFrom(env, total, 0, |temp1.data|, 0, temp1.data);
      && c.next == |env.chunks| && !c.canceled && c.fault.None?
      && if env.renameSucceeds then a.final == whole && a.temp == Absent
      else a.temp == whole && a.final == final1
  {
    var c := CopyFrom(env, total, 0, |temp1.data|, 0, temp1.data);
    TransferLastEvent(env, temp1, total);
    CopyStops(env, total, 0, |temp1.data|, 0, temp1.data);
    CopyWrites(env, total, 0, |temp1.data|, 0, temp1.data);
    var post := if c.canceled then c.next + 1 else c.next;
    assert !Polled(env.cancelPolls, post);
    if c.canceled {
      PolledSticky(env.cancelPolls, c.next, post);
    }
    assert c.next == |env.chunks|;
    assert env.chunks[0..c.next] == env.chunks;
  }

  /**
    `Transfer` when the listener last hears `onCancel`: the loop stopped on
    chunk `n`, the first poll to see the flag set, and the temp file holds
    the chunks before it; the final file is as it was.
   */
  lemma TransferCanceled(env: Env, temp1: FileState, final1: FileState, range: Option<string>, total: int)
    requires temp1.present
    requires var a := Transfer(env, temp1, final1, range, total);
      a.fault.None? && EndsWith(a.events, OnCancel(env.what))
    ensures var a := Transfer(env, temp1, final1, range, total);
      var n := CopyFrom(env, total, 0, |temp1.data|, 0, temp1.data).next;
      && n < |env.chunks| && ClearFrom(env.cancelPolls, 0, n) && Polled(env.cancelPolls, n)
      && a.temp == Extended(temp1, Flatten(env.chunks[..n])) && a.final == final1
  {
    var c := CopyFrom(env, total, 0, |temp1.data|, 0, temp1.data);
    TransferLastEvent(env, temp1, total);
    CopyStops(env, total, 0, |temp1.data|, 0, temp1.data);
    CopyWrites(env, total, 0, |temp1.data|, 0, temp1.data);
    assert env.chunks[0..c.next] == env.chunks[..c.next];
  }

  /** The `try` block reached `Transfer`: what it was given, when the last call is `ev` and it threw nothing. */
  lemma TryReachesTransfer(env: Env, temp0: FileState, final0: FileState, ev: Event)
    requires Attempted(env) && !(final0.present && env.isRange)
    requires ev.OnFinish? || ev.OnCancel?
    requires var a := Try(env, temp0, final0);
      a.fault.None? && EndsWith(a.events, ev)
    ensures var temp1 := Reconciled(env.isRange, temp0);
      var final1 := if final0.present then Absent else final0;
      var range := if env.isRange then Some(RangeValue(ResumeOffset(env.isRange, temp0))) else None;
      && Responds(env, temp0, final0) && TotalLength(env).Success? && env.dirSize >= TotalLength(env).value
      && Try(env, temp0, final0) == Transfer(env, temp1, final1, range, TotalLength(env).value)
  {
  }

  /**
    Under a sticky cancel flag, a download that reports `onFinish` (other
    than for an existing final file) leaves at the final path the bytes the
    temp file was resumed from followed by the whole body, and no temp file.
    If the rename fails the listener still hears `onFinish`; then a range
    request keeps the complete temp file and any other request keeps no file.
   */
  lemma FinishedDownloadContents(env: Env, temp0: FileState, final0: FileState)
    requires Attempted(env) && !(final0.present && env.isRange) && Sticky(env.cancelPolls)
    requires EndsWith(Run(env, temp0, final0).events, OnFinish(env.what, env.finalPath))
    ensures var o := Run(env, temp0, final0);
      var whole := Extended(Reconciled(env.isRange, temp0), Flatten(env.chunks));
      && (env.renameSucceeds ==> o.final == whole && !o.temp.present)
      && (!env.renameSucceeds ==> !o.final.present && (if env.isRange then o.temp == whole else !o.temp.present))
  {
    var a := Try(env, temp0, final0);
    assert Run(env, temp0, final0) == Conclude(env, a);
    assert a.fault.None?;
    var ev := OnFinish(env.what, env.finalPath);
    TryReachesTransfer(env, temp0, final0, ev);
    var temp1 := Reconciled(env.isRange, temp0);
    var final1 := if final0.present then Absent else final0;
    var range := if env.isRange then Some(RangeValue(ResumeOffset(env.isRange, temp0))) else None;
    TransferFinished(env, temp1, final1, range, TotalLength(env).value);
  }

  /**
    A download that ends with `onCancel` stopped on chunk `n`, the first
    poll to see the flag set, before writing it. A range request keeps the
    temp file with the chunks before `n` appended, to be resumed; any other
    request keeps no file; the final file is gone either way.
   */
  lemma CanceledKeepsPartial(env: Env, temp0: FileState, final0: FileState)
    requires Attempted(env)
    requires EndsWith(Run(env, temp0, final0).events, OnCancel(env.what))
    ensures var o := Run(env, temp0, final0);
      exists n :: 0 <= n < |env.chunks| && ClearFrom(env.cancelPolls, 0, n) && Polled(env.cancelPolls, n)
        && !o.final.present
        && (if env.isRange then o.temp == Extended(Reconciled(env.isRange, temp0), Flatten(env.chunks[..n]))
            else !o.temp.present)
  {
    var a := Try(env, temp0, final0);
    assert Run(env, temp0, final0) == Conclude(env, a);
    assert a.fault.None?;
    assert !(final0.present && env.isRange);
    TryReachesTransfer(env, temp0, final0, OnCancel(env.what));
    var temp1 := Reconciled(env.isRange, temp0);
    var final1 := if final0.present then Absent else final0;
    var range := if env.isRange then Some(RangeValue(ResumeOffset(env.isRange, temp0))) else None;
    var total := TotalLength(env).value;
    TransferCanceled(env, temp1, final1, range, total);
    var n := CopyFrom(env, total, 0, |temp1.data|, 0, temp1.data).next;
    assert ClearFrom(env.cancelPolls, 0, n);
  }

  /** Whichever file holds the download after `Transfer` still starts with the bytes the temp file held. */
  lemma TransferKeepsPrefix(env: Env, temp1: FileState, final1: FileState, range: Option<string>, total: int)
    requires temp1.present
    ensures var a := Transfer(env, temp1, final1, range, total);
      (a.temp.present && temp1.data <= a.temp.data) || (a.final.present && temp1.data <= a.final.data)
  {
    if !Throws(env, OpenBody) {
      CopyWrites(env, total, 0, |temp1.data|, 0, temp1.data);
    }
  }

  /**
    A range request that gets past the temp-file reconciliation never loses
    the bytes it resumed from: on every exit, by error, cancel or finish,
    the temp file, or the final file it was renamed to, starts with them.
   */
  lemma RangeKeepsResumedBytes(env: Env, temp0: FileState, final0: FileState)
    requires Attempted(env) && env.isRange && !final0.present
    requires !(!Resumable(env.isRange, temp0) && Throws(env, CreateTemp))
    ensures var o := Run(env, temp0, final0);
      var resumed := Reconciled(env.isRange, temp0).data;
      (o.temp.present && resumed <= o.temp.data) || (o.final.present && resumed <= o.final.data)
  {
    var a := Try(env, temp0, final0);
    assert Run(env, temp0, final0) == Conclude(env, a);
    var temp1 := Reconciled(env.isRange, temp0);
    var offset := ResumeOffset(env.isRange, temp0);
    var range := Some(RangeValue(offset));
    if !Throws(env, OpenConnection) && !Throws(env, ReadStatus) && TotalLength(env).Success? && env.dirSize >= TotalLength(env).value {
      assert a == Transfer(env, temp1, final0, range, TotalLength(env).value);
      TransferKeepsPrefix(env, temp1, final0, range, TotalLength(env).value);
    } else {
      assert a.temp == temp1;
    }
  }
}
