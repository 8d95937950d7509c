/**
  What one call of `download` guarantees, proved about the specification in
  `DownloadModel` (and so, through `DownloadConnection.Download`'s
  postcondition, about the imperative model).
 */
module DownloadProperties {
  import opened Wrappers
  import opened JavaLang
  import opened DownloadModel

  /** The bytes of `chunks`, one after the other. */
  function Flatten(chunks: seq<seq<byte>>): seq<byte> {
    if |chunks| == 0 then [] else chunks[0] + Flatten(chunks[1..])
  }

  /** The sum of the chunk lengths, the amount `count += len` adds up. */
  function SumLengths(chunks: seq<seq<byte>>): nat {
    if |chunks| == 0 then 0 else |chunks[0]| + SumLengths(chunks[1..])
  }

  lemma {:induction false} FlattenLength(chunks: seq<seq<byte>>)
    ensures |Flatten(chunks)| == SumLengths(chunks)
  {
    if |chunks| > 0 {
      FlattenLength(chunks[1..]);
    }
  }

  /** The percentages reported to `onProgress`, in order. */
  function ProgressValues(events: seq<Event>): seq<int> {
    if |events| == 0 then []
    else (if events[0].OnProgress? then [events[0].progress] else []) + ProgressValues(events[1..])
  }

  lemma {:induction false} ProgressValuesAppend(a: seq<Event>, b: seq<Event>)
    ensures ProgressValues(a + b) == ProgressValues(a) + ProgressValues(b)
  {
    if |a| == 0 {
      assert a + b == b;
    } else {
      var head := if a[0].OnProgress? then [a[0].progress] else [];
      assert (a + b)[0] == a[0];
      assert (a + b)[1..] == a[1..] + b;
      assert ProgressValues(a + b) == head + ProgressValues(a[1..] + b);
      ProgressValuesAppend(a[1..], b);
      assert ProgressValues(a) == head + ProgressValues(a[1..]);
    }
  }

  /** Every event is a call of `onProgress`. */
  predicate AllProgress(events: seq<Event>) {
    forall i :: 0 <= i < |events| ==> events[i].OnProgress?
  }

  /** A cancellation request, once seen, stays visible to every later poll. */
  predicate Sticky(polls: seq<bool>) {
    forall i, j :: 0 <= i < j < |polls| && polls[i] ==> polls[j]
  }

  lemma PolledSticky(polls: seq<bool>, i: nat, j: nat)
    requires Sticky(polls) && i <= j && Polled(polls, i)
    ensures Polled(polls, j)
  {
    if j < |polls| {
      assert polls[i] ==> polls[j];
    } else if i < |polls| {
      assert i == |polls| - 1 || polls[|polls| - 1];
    }
  }

  /** Every poll from `from` up to `until` found the cancel flag clear. */
  predicate ClearFrom(polls: seq<bool>, from: nat, until: nat) {
    forall j :: from <= j < until ==> !Polled(polls, j)
  }

  // ---------------------------------------------------------------------
  // The copy loop
  // ---------------------------------------------------------------------

  /** Whether the loop stops at chunk `k` rather than writing it. */
  predicate StopsAt(env: Env, k: nat) {
    Throws(env, ReadChunk(k)) || k == |env.chunks| || Polled(env.cancelPolls, k) || Throws(env, WriteChunk(k))
  }

  /** Where the loop stops, nothing is written and only a cancellation is heard. */
  lemma CopyStopped(env: Env, total: int, k: nat, count: int, last: int, data: seq<byte>)
    requires k <= |env.chunks| && count == |data| && StopsAt(env, k)
    ensures var r := CopyFrom(env, total, k, count, last, data);
      && r.data == data && r.count == count && r.lastProgress == last && r.next == k
      && r.events == (if r.canceled then [OnCancel(env.what)] else [])
      && (r.canceled <==> !Throws(env, ReadChunk(k)) && k < |env.chunks| && Polled(env.cancelPolls, k))
      && (r.fault.Some? <==> Throws(env, ReadChunk(k)) || (k < |env.chunks| && !Polled(env.cancelPolls, k) && Throws(env, WriteChunk(k))))
      && (r.fault.Some? ==> r.fault == env.fault)
  {
  }

  /** Where the loop stops, it reports no progress and keeps `oldProgress`. */
  lemma NoProgressAtStop(env: Env, total: int, k: nat, count: int, last: int, data: seq<byte>)
    requires k <= |env.chunks| && count == |data| && StopsAt(env, k)
    ensures var r := CopyFrom(env, total, k, count, last, data);
      ProgressValues(r.events) == [] && r.lastProgress == last
  {
    CopyStopped(env, total, k, count, last, data);
    var r := CopyFrom(env, total, k, count, last, data);
    if r.canceled {
      assert ProgressValues(r.events) == ProgressValues(r.events[1..]);
    }
  }

  /** Where it does not stop, chunk `k` is written at `count` and the loop goes on. */
  lemma CopyStep(env: Env, total: int, k: nat, count: int, last: int, data: seq<byte>)
    requires k <= |env.chunks| && count == |data| && !StopsAt(env, k)
    ensures var count' := count + |env.chunks[k]|;
      var r := CopyFrom(env, total, k + 1, count', NextLast(total, count', last), data + env.chunks[k]);
      CopyFrom(env, total, k, count, last, data) == r.(events := Reported(env.what, total, count', last) + r.events)
  {
  }

  /** The same step, field by field, for the values the step passes on. */
  lemma CopyStepFields(env: Env, total: int, k: nat, count: int, last: int, data: seq<byte>,
                       count': int, last': int, data': seq<byte>)
    requires k <= |env.chunks| && count == |data| && !StopsAt(env, k)
    requires count' == count + |env.chunks[k]| && last' == NextLast(total, count', last) && data' == data + env.chunks[k]
    ensures var r := CopyFrom(env, total, k + 1, count', last', data');
      var c := CopyFrom(env, total, k, count, last, data);
      && c.data == r.data && c.count == r.count && c.events == Reported(env.what, total, count', last) + r.events
      && c.next == r.next && c.lastProgress == r.lastProgress && c.canceled == r.canceled && c.fault == r.fault
  {
    CopyStep(env, total, k, count, last, data);
  }

  /** Writing at the end of a file appends. */
  lemma WriteAtEnd(data: seq<byte>, bytes: seq<byte>)
    ensures WriteAt(data, |data|, bytes) == data + bytes
  {
    assert WriteAt(data, |data|, bytes) == data + bytes + [];
  }

  /** The loop's progress towards `goal` when `events` have been heard so far and `c` is what the rest of the loop does. */
  predicate OnTrack(c: Copied, events: seq<Event>, goal: Copied, events0: seq<Event>) {
    && c.data == goal.data && c.count == goal.count && c.lastProgress == goal.lastProgress
    && c.next == goal.next && c.canceled == goal.canceled && c.fault == goal.fault
    && events + c.events == events0 + goal.events
  }

  /** Writing chunk `k` and reporting its progress keeps the loop on track. */
  lemma StepOnTrack(env: Env, total: int, k: nat, count: int, last: int, data: seq<byte>,
                    events: seq<Event>, goal: Copied, events0: seq<Event>)
    requires k <= |env.chunks| && count == |data| && !StopsAt(env, k)
    requires OnTrack(CopyFrom(env, total, k, count, last, data), events, goal, events0)
    ensures var count' := count + |env.chunks[k]|;
      OnTrack(CopyFrom(env, total, k + 1, count', NextLast(total, count', last), data + env.chunks[k]),
              events + Reported(env.what, total, count', last), goal, events0)
  {
    var count' := count + |env.chunks[k]|;
    var last' := NextLast(total, count', last);
    var data' := data + env.chunks[k];
    CopyStepFields(env, total, k, count, last, data, count', last', data');
    var reported := Reported(env.what, total, count', last);
    var c' := CopyFrom(env, total, k + 1, count', last', data');
    assert events + reported + c'.events == events + (reported + c'.events);
  }

  /** Where the loop stops, being on track means having reached `goal`. */
  lemma StopOnTrack(env: Env, total: int, k: nat, count: int, last: int, data: seq<byte>,
                    events: seq<Event>, goal: Copied, events0: seq<Event>)
    requires k <= |env.chunks| && count == |data| && StopsAt(env, k)
    requires OnTrack(CopyFrom(env, total, k, count, last, data), events, goal, events0)
    ensures var canceled := !Throws(env, ReadChunk(k)) && k < |env.chunks| && Polled(env.cancelPolls, k);
      var fault := if Throws(env, ReadChunk(k)) || (k < |env.chunks| && !canceled && Throws(env, WriteChunk(k))) then env.fault else None;
      && goal.data == data && goal.count == count && goal.lastProgress == last && goal.next == k
      && goal.canceled == canceled && goal.fault == fault
      && events0 + goal.events == events + (if canceled then [OnCancel(env.what)] else [])
  {
    CopyStopped(env, total, k, count, last, data);
  }

  /**
    What the loop writes: starting at `count` (the end of the temp file),
    every chunk before the one it stops at, in order, so that `count` ends
    as the starting length plus the lengths of the chunks written.
   */
  lemma {:induction false} CopyWrites(env: Env, total: int, k: nat, count: int, last: int, data: seq<byte>)
    requires k <= |env.chunks| && count == |data|
    ensures var r := CopyFrom(env, total, k, count, last, data);
      && r.data == data + Flatten(env.chunks[k..r.next])
      && r.count == count + SumLengths(env.chunks[k..r.next])
    decreases |env.chunks| - k
  {
    if StopsAt(env, k) {
      CopyStopped(env, total, k, count, last, data);
      assert env.chunks[k..k] == [];
    } else {
      var count' := count + |env.chunks[k]|;
      var last' := NextLast(total, count', last);
      var data' := data + env.chunks[k];
      CopyStepFields(env, total, k, count, last, data, count', last', data');
      CopyWrites(env, total, k + 1, count', last', data');
      var r := CopyFrom(env, total, k + 1, count', last', data');
      var ks := env.chunks[k..r.next];
      assert ks[0] == env.chunks[k] && ks[1..] == env.chunks[k + 1..r.next];
    }
  }

  /** `c` stopped at chunk `j` with the injected exception pending and no cancellation. */
  predicate FaultedAt(env: Env, c: Copied, j: nat) {
    c.next == j && c.fault == env.fault && !c.canceled
  }

  /** The loop stops with the exception pending at a chunk whose read throws, or whose write throws after a clear poll. */
  lemma StopsAtFault(env: Env, total: int, k: nat, count: int, last: int, data: seq<byte>)
    requires k <= |env.chunks| && count == |data|
    requires Throws(env, ReadChunk(k)) || (k < |env.chunks| && !Polled(env.cancelPolls, k) && Throws(env, WriteChunk(k)))
    ensures FaultedAt(env, CopyFrom(env, total, k, count, last, data), k)
  {
    CopyStopped(env, total, k, count, last, data);
  }

  /**
    Before the chunk `j` whose read or write throws, a clear poll lets the
    loop go on, and where it stops is where the rest of the loop stops.
   */
  lemma PassesBeforeFault(env: Env, total: int, k: nat, count: int, last: int, data: seq<byte>, j: nat,
                          count': int, last': int, data': seq<byte>)
    requires k < j <= |env.chunks| && count == |data| && !Polled(env.cancelPolls, k)
    requires Throws(env, ReadChunk(j)) || Throws(env, WriteChunk(j))
    requires count' == count + |env.chunks[k]| && last' == NextLast(total, count', last) && data' == data + env.chunks[k]
    requires FaultedAt(env, CopyFrom(env, total, k + 1, count', last', data'), j)
    ensures FaultedAt(env, CopyFrom(env, total, k, count, last, data), j)
  {
    assert env.fault.value.step != ReadChunk(k) && env.fault.value.step != WriteChunk(k);
    CopyStepFields(env, total, k, count, last, data, count', last', data');
  }

  /**
    An exception thrown by the read of chunk `j`, or by its write once its
    poll found the flag clear, stops the loop at `j` with that exception
    pending, when every poll before `j` found the flag clear.
   */
  lemma {:induction false} CopyFaultAt(env: Env, total: int, k: nat, count: int, last: int, data: seq<byte>, j: nat)
    requires k <= j <= |env.chunks| && count == |data| && ClearFrom(env.cancelPolls, k, j)
    requires Throws(env, ReadChunk(j)) || (j < |env.chunks| && !Polled(env.cancelPolls, j) && Throws(env, WriteChunk(j)))
    ensures FaultedAt(env, CopyFrom(env, total, k, count, last, data), j)
    decreases j - k
  {
    if k == j {
      StopsAtFault(env, total, k, count, last, data);
    } else {
      assert !Polled(env.cancelPolls, k);
      var count' := count + |env.chunks[k]|;
      var last' := NextLast(total, count', last);
      var data' := data + env.chunks[k];
      CopyFaultAt(env, total, k + 1, count', last', data', j);
      PassesBeforeFault(env, total, k, count, last, data, j, count', last', data');
    }
  }

  /**
    Why the loop stops: every chunk written was polled with the flag clear;
    it stops on a chunk polled with the flag set (not writing it), on the
    end of the stream, or on the injected read or write fault.
   */
  lemma {:induction false} CopyStops(env: Env, total: int, k: nat, count: int, last: int, data: seq<byte>)
    requires k <= |env.chunks| && count == |data|
    ensures var r := CopyFrom(env, total, k, count, last, data);
      && ClearFrom(env.cancelPolls, k, r.next)
      && (r.canceled ==> r.fault.None? && r.next < |env.chunks| && Polled(env.cancelPolls, r.next))
      && (r.fault.None? && !r.canceled ==> r.next == |env.chunks|)
      && (r.fault.Some? ==>
            !r.canceled && r.fault == env.fault && (Throws(env, ReadChunk(r.next)) || Throws(env, WriteChunk(r.next))))
    decreases |env.chunks| - k
  {
    if StopsAt(env, k) {
      CopyStopped(env, total, k, count, last, data);
    } else {
      var count' := count + |env.chunks[k]|;
      var last' := NextLast(total, count', last);
      var data' := data + env.chunks[k];
      CopyStepFields(env, total, k, count, last, data, count', last', data');
      CopyStops(env, total, k + 1, count', last', data');
      var r := CopyFrom(env, total, k + 1, count', last', data');
      assert ClearFrom(env.cancelPolls, k + 1, r.next);
      assert !Polled(env.cancelPolls, k);
    }
  }

  /** Every event is addressed to download `what`. */
  predicate SameTask(events: seq<Event>, what: int) {
    forall i :: 0 <= i < |events| ==> events[i].what == what
  }

  /** The events the loop adds: calls of `onProgress`, then `onCancel` when it stopped on the flag. */
  predicate LoopEvents(added: seq<Event>, what: int, canceled: bool) {
    SameTask(added, what) &&
    if canceled then |added| > 0 && added[|added| - 1] == OnCancel(what) && AllProgress(added[..|added| - 1])
    else AllProgress(added)
  }

  /** Each percentage passes the throttle against the one reported before it (the first against `last`). */
  predicate Throttled(ps: seq<int>, last: int) {
    |ps| == 0 || (Passes(ps[0], last) && Throttled(ps[1..], ps[0]))
  }

  /** The last percentage reported, `last` when there is none. */
  function LastOr(ps: seq<int>, last: int): int {
    if |ps| == 0 then last else ps[|ps| - 1]
  }

  /** The percentages rise strictly from above `last` and never exceed 100. */
  predicate RisingTo100(ps: seq<int>, last: int) {
    |ps| == 0 || (last < ps[0] <= 100 && RisingTo100(ps[1..], ps[0]))
  }

  lemma {:induction false} RisingIsSorted(ps: seq<int>, last: int)
    requires RisingTo100(ps, last)
    ensures forall i :: 0 <= i < |ps| ==> last < ps[i] <= 100
    ensures forall i, j :: 0 <= i < j < |ps| ==> ps[i] < ps[j]
  {
    if |ps| > 0 {
      RisingIsSorted(ps[1..], ps[0]);
      assert forall i :: 0 < i < |ps| ==> ps[i] == ps[1..][i - 1];
    }
  }

  /** Prefixing one progress event keeps the shape of the loop's events. */
  lemma LoopEventsCons(e: seq<Event>, rest: seq<Event>, what: int, canceled: bool)
    requires AllProgress(e) && SameTask(e, what) && LoopEvents(rest, what, canceled)
    ensures LoopEvents(e + rest, what, canceled)
  {
    var added := e + rest;
    if canceled {
      assert added[..|added| - 1] == e + rest[..|rest| - 1];
    }
  }

  /** The listener hears only progress from the loop, and `onCancel` last when the flag stopped it. */
  lemma {:induction false} CopyEventKinds(env: Env, total: int, k: nat, count: int, last: int, data: seq<byte>)
    requires k <= |env.chunks| && count == |data|
    ensures var r := CopyFrom(env, total, k, count, last, data);
      LoopEvents(r.events, env.what, r.canceled)
    decreases |env.chunks| - k
  {
    if StopsAt(env, k) {
      CopyStopped(env, total, k, count, last, data);
    } else {
      var count' := count + |env.chunks[k]|;
      var last' := NextLast(total, count', last);
      var data' := data + env.chunks[k];
      CopyStepFields(env, total, k, count, last, data, count', last', data');
      CopyEventKinds(env, total, k + 1, count', last', data');
      var r := CopyFrom(env, total, k + 1, count', last', data');
      LoopEventsCons(Reported(env.what, total, count', last), r.events, env.what, r.canceled);
    }
  }

  /** The percentages in the events one write adds. */
  lemma ReportedValues(what: int, total: int, count': int, last: int, rest: seq<Event>)
    ensures ProgressValues(Reported(what, total, count', last) + rest)
         == (if Reports(total, count', last) then [Progress(count', total)] else []) + ProgressValues(rest)
  {
    var e := Reported(what, total, count', last);
    ProgressValuesAppend(e, rest);
    if Reports(total, count', last) {
      assert ProgressValues(e) == [Progress(count', total)] + ProgressValues(e[1..]);
    }
  }

  /**
    Every percentage the loop reports passes the throttle against the one it
    reported before (the first against `last`), and `oldProgress` ends as the
    last one reported.
   */
  lemma {:induction false} CopyThrottles(env: Env, total: int, k: nat, count: int, last: int, data: seq<byte>)
    requires k <= |env.chunks| && count == |data|
    ensures var r := CopyFrom(env, total, k, count, last, data);
      var ps := ProgressValues(r.events);
      Throttled(ps, last) && r.lastProgress == LastOr(ps, last)
    decreases |env.chunks| - k
  {
    if StopsAt(env, k) {
      NoProgressAtStop(env, total, k, count, last, data);
    } else {
      var count' := count + |env.chunks[k]|;
      var last' := NextLast(total, count', last);
      var data' := data + env.chunks[k];
      CopyStepFields(env, total, k, count, last, data, count', last', data');
      CopyThrottles(env, total, k + 1, count', last', data');
      var r := CopyFrom(env, total, k + 1, count', last', data');
      ReportedValues(env.what, total, count', last, r.events);
      var ps := ProgressValues(CopyFrom(env, total, k, count, last, data).events);
      if Reports(total, count', last) {
        ThrottledCons(last', ProgressValues(r.events), last);
        assert ps == [last'] + ProgressValues(r.events);
      } else {
        assert last' == last && ps == ProgressValues(r.events);
      }
    }
  }

  /** With a total of 0 the loop never calls `onProgress` (the `totalLength != 0` guard of line 207). */
  lemma {:induction false} ZeroTotalReportsNothing(env: Env, k: nat, count: int, last: int, data: seq<byte>)
    requires k <= |env.chunks| && count == |data|
    ensures ProgressValues(CopyFrom(env, 0, k, count, last, data).events) == []
    decreases |env.chunks| - k
  {
    if StopsAt(env, k) {
      NoProgressAtStop(env, 0, k, count, last, data);
    } else {
      var count' := count + |env.chunks[k]|;
      var last' := NextLast(0, count', last);
      var data' := data + env.chunks[k];
      CopyStepFields(env, 0, k, count, last, data, count', last', data');
      ZeroTotalReportsNothing(env, k + 1, count', last', data');
      ReportedValues(env.what, 0, count', last, CopyFrom(env, 0, k + 1, count', last', data').events);
    }
  }

  lemma ThrottledCons(p: int, ps: seq<int>, last: int)
    requires Passes(p, last) && Throttled(ps, p)
    ensures Throttled([p] + ps, last) && LastOr([p] + ps, last) == LastOr(ps, p)
  {
    assert ([p] + ps)[1..] == ps;
  }

  /** Dafny's `/` by a positive divisor is monotone. */
  lemma DivMonotone(x: int, y: int, t: int)
    requires 0 <= x <= y && t > 0
    ensures x / t <= y / t
  {
    if x / t > y / t {
      MulMonotone(t, y / t + 1, x / t);
      assert false;
    }
  }

  /** A share of `total` no larger than `total` is between 0 and 100 percent. */
  lemma PercentBounds(count: int, total: int)
    requires 0 <= count <= total && total > 0
    ensures 0 <= count * 100 / total <= 100
  {
    DivMonotone(count * 100, total * 100, total);
    assert total * 100 / total == 100;
  }

  /**
    While the server sends no more than it announced (and the announced
    length leaves room for `count * 100` in a `long`), the reported value is
    the exact percentage, truncated, between 0 and 100.
   */
  lemma ProgressIsPercent(count: int, total: int)
    requires 0 <= count <= total && total * 100 <= LONG_MAX
    requires total > 0
    ensures Progress(count, total) == count * 100 / total
    ensures 0 <= Progress(count, total) <= 100
  {
    var x := count * 100;
    assert 0 <= x <= total * 100;
    assert WrapLong(x) == x;
    var q := x / total;
    QuotOfNatural(x, total);
    PercentBounds(count, total);
    assert WrapLong(q) == q && WrapInt(q) == q;
  }

  /** The bytes still to come from chunk `k` on. */
  function Remaining(chunks: seq<seq<byte>>, k: nat): nat
    decreases |chunks| - k
  {
    if k >= |chunks| then 0 else |chunks[k]| + Remaining(chunks, k + 1)
  }

  /** One write under those bounds: a report rises above `last`, and the new `oldProgress` stays under the exact percentage. */
  lemma ProgressStep(total: int, count: int, count': int, last: int)
    requires total > 0 && total * 100 <= LONG_MAX
    requires 0 <= count <= count' <= total
    requires 0 <= last <= count * 100 / total
    ensures Reports(total, count', last) ==> last < Progress(count', total) <= 100
    ensures 0 <= NextLast(total, count', last) <= count' * 100 / total
  {
    ProgressIsPercent(count', total);
    DivMonotone(count * 100, count' * 100, total);
  }

  /**
    Under the same bounds the reported percentages rise strictly, stay above
    the last one reported before, and never exceed 100.
   */
  lemma {:induction false} CopyProgressRises(env: Env, total: int, k: nat, count: int, last: int, data: seq<byte>)
    requires k <= |env.chunks| && count == |data|
    requires total > 0 && total * 100 <= LONG_MAX
    requires 0 <= count && count + Remaining(env.chunks, k) <= total
    requires 0 <= last <= count * 100 / total
    ensures RisingTo100(ProgressValues(CopyFrom(env, total, k, count, last, data).events), last)
    decreases |env.chunks| - k
  {
    if StopsAt(env, k) {
      NoProgressAtStop(env, total, k, count, last, data);
    } else {
      var count' := count + |env.chunks[k]|;
      assert Remaining(env.chunks, k) == |env.chunks[k]| + Remaining(env.chunks, k + 1);
      assert count' + Remaining(env.chunks, k + 1) <= total;
      var last' := NextLast(total, count', last);
      ProgressStep(total, count, count', last);
      var data' := data + env.chunks[k];
      CopyStepFields(env, total, k, count, last, data, count', last', data');
      CopyProgressRises(env, total, k + 1, count', last', data');
      RisesAfterWrite(env.what, total, count', last, CopyFrom(env, total, k + 1, count', last', data').events);
    }
  }

  /** A report made after a write continues a rising run of percentages. */
  lemma RisesAfterWrite(what: int, total: int, count': int, last: int, rest: seq<Event>)
    requires total != 0
    requires Reports(total, count', last) ==> last < Progress(count', total) <= 100
    requires RisingTo100(ProgressValues(rest), NextLast(total, count', last))
    ensures RisingTo100(ProgressValues(Reported(what, total, count', last) + rest), last)
  {
    ReportedValues(what, total, count', last, rest);
    if Reports(total, count', last) {
      RisingCons(Progress(count', total), ProgressValues(rest), last);
    } else {
      assert Reported(what, total, count', last) + rest == rest;
    }
  }

  lemma RisingCons(p: int, ps: seq<int>, last: int)
    requires last < p <= 100 && RisingTo100(ps, p)
    ensures RisingTo100([p] + ps, last)
  {
    assert ([p] + ps)[1..] == ps;
  }
}
