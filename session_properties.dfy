/**
 * Properties of the session model in Application: how the polling loop
 * ends, what the callback sees, and what `start` leaves claimed, released
 * and closed on each of its paths.
 */
module SessionProperties {
  import opened Report
  import opened EdgeDetect
  import opened Application

  /** A transfer after which the loop stops: it succeeded and its report has the PS button down. */
  predicate StopsLoop(t: Transfer)
    requires IsReport(t.buffer)
  {
    t.result >= 0 && Decode(t.buffer).psButton
  }

  /** The snapshot the callback holds after the events `ev`, starting from `d`. */
  function LastSnapshot(ev: seq<Event>, d: Ps3): Ps3
    decreases |ev|
  {
    if ev == [] then d
    else LastSnapshot(ev[1..], if ev[0].Callback? then ev[0].info else d)
  }

  lemma {:induction false} LastSnapshotAppend(a: seq<Event>, b: seq<Event>, d: Ps3)
    ensures LastSnapshot(a + b, d) == LastSnapshot(b, LastSnapshot(a, d))
    decreases |a|
  {
    if a == [] {
      assert a + b == b;
    } else {
      var d' := if a[0].Callback? then a[0].info else d;
      assert (a + b)[0] == a[0] && (a + b)[1..] == a[1..] + b;
      assert LastSnapshot(a + b, d) == LastSnapshot(a[1..] + b, d');
      assert LastSnapshot(a, d) == LastSnapshot(a[1..], d');
      LastSnapshotAppend(a[1..], b, d');
    }
  }

  /** The snapshot one iteration leaves to the next. */
  lemma IterationSnapshot(t: Transfer, d: Ps3, sleepTime: int)
    requires IsReport(t.buffer)
    ensures var step := ProcessStep(t, d);
      LastSnapshot(step.events + SleepEvents(sleepTime), d) == step.oldData
  {
    var step := ProcessStep(t, d);
    var sleep := SleepEvents(sleepTime);
    LastSnapshotAppend(step.events, sleep, d);
    if t.result < 0 {
      assert step.events[1..] == [];
      assert LastSnapshot(step.events, d) == d;
    } else {
      var cb := step.events[1];
      assert step.events[1..] == [cb] && [cb][1..] == [];
      assert LastSnapshot([cb], d) == LastSnapshot([], step.oldData);
      assert LastSnapshot(step.events, d) == step.oldData;
    }
    if sleepTime > 0 {
      assert sleep[1..] == [];
    }
  }

  lemma {:induction false} LoopRunsOut(ts: seq<Transfer>, oldData: Ps3, sleepTime: int)
    requires ValidTransfers(ts)
    ensures var loop := RunLoop(ts, true, oldData, sleepTime);
      loop.polled <= |ts| &&
      (loop.running <==> forall i :: 0 <= i < |ts| ==> !StopsLoop(ts[i])) &&
      (loop.running ==> loop.polled == |ts|)
    decreases |ts|
  {
    if ts != [] {
      var step := ProcessStep(ts[0], oldData);
      var tail := ts[1..];
      assert forall i :: 0 <= i < |tail| ==> tail[i] == ts[i + 1];
      if !step.stopRequested {
        LoopRunsOut(tail, step.oldData, sleepTime);
        var rest := RunLoop(tail, true, step.oldData, sleepTime);
        if rest.running {
          forall i | 0 <= i < |ts| ensures !StopsLoop(ts[i]) {
            if i > 0 { assert ts[i] == tail[i - 1]; }
          }
        }
      }
    }
  }

  lemma {:induction false} LoopStopsAt(ts: seq<Transfer>, oldData: Ps3, sleepTime: int)
    requires ValidTransfers(ts)
    ensures var loop := RunLoop(ts, true, oldData, sleepTime);
      !loop.running ==>
        0 < loop.polled <= |ts| && StopsLoop(ts[loop.polled - 1]) &&
        (forall i :: 0 <= i < loop.polled - 1 ==> !StopsLoop(ts[i]))
    decreases |ts|
  {
    if ts != [] {
      var step := ProcessStep(ts[0], oldData);
      var tail := ts[1..];
      assert forall i :: 0 <= i < |tail| ==> tail[i] == ts[i + 1];
      if !step.stopRequested {
        LoopStopsAt(tail, step.oldData, sleepTime);
        var rest := RunLoop(tail, true, step.oldData, sleepTime);
        if !rest.running {
          forall i | 0 <= i < rest.polled ensures !StopsLoop(ts[i]) {
            if i > 0 { assert ts[i] == tail[i - 1]; }
          }
        }
      }
    }
  }

  /**
   * The loop runs until a successful transfer reports the PS button (that
   * iteration still completes) or the transfers run out: transfer errors
   * never end it.
   */
  lemma {:induction false} LoopEnds(ts: seq<Transfer>, oldData: Ps3, sleepTime: int)
    requires ValidTransfers(ts)
    ensures var loop := RunLoop(ts, true, oldData, sleepTime);
      loop.polled <= |ts| &&
      (loop.running <==> forall i :: 0 <= i < |ts| ==> !StopsLoop(ts[i])) &&
      (loop.running ==> loop.polled == |ts|) &&
      (!loop.running ==>
         0 < loop.polled && StopsLoop(ts[loop.polled - 1]) &&
         (forall i :: 0 <= i < loop.polled - 1 ==> !StopsLoop(ts[i])))
  {
    LoopRunsOut(ts, oldData, sleepTime);
    LoopStopsAt(ts, oldData, sleepTime);
  }

  /** While every transfer fails, the loop keeps polling, never calls the callback and keeps its snapshot. */
  lemma {:induction false} TransferErrorsKeepPolling(ts: seq<Transfer>, oldData: Ps3, sleepTime: int)
    requires ValidTransfers(ts)
    requires forall i :: 0 <= i < |ts| ==> ts[i].result < 0
    ensures var loop := RunLoop(ts, true, oldData, sleepTime);
      loop.running && loop.polled == |ts| && loop.oldData == oldData &&
      forall e :: e in loop.events ==> e == GetReport || e.Sleep?
    decreases |ts|
  {
    if ts != [] {
      var tail := ts[1..];
      assert forall i :: 0 <= i < |tail| ==> tail[i] == ts[i + 1];
      TransferErrorsKeepPolling(tail, oldData, sleepTime);
    }
  }

  /** The loop emits only control transfers, callback invocations and sleeps. */
  lemma {:induction false} LoopEventKinds(ts: seq<Transfer>, running: bool, oldData: Ps3, sleepTime: int)
    requires ValidTransfers(ts)
    ensures forall e :: e in RunLoop(ts, running, oldData, sleepTime).events ==>
      e == GetReport || e.Callback? || e.Sleep?
    decreases |ts|
  {
    if running && ts != [] {
      var step := ProcessStep(ts[0], oldData);
      var tail := ts[1..];
      assert forall i :: 0 <= i < |tail| ==> tail[i] == ts[i + 1];
      LoopEventKinds(tail, !step.stopRequested, step.oldData, sleepTime);
    }
  }

  /** After a callback that saw the PS button, only the sleep of the same iteration follows. */
  predicate QuietAfterStop(ev: seq<Event>, sleepTime: int) {
    forall j :: 0 <= j < |ev| && ev[j].Callback? && ev[j].info.psButton ==>
      ev[j + 1..] == SleepEvents(sleepTime)
  }

  /** No callback in `ev` saw the PS button. */
  predicate NoStopSeen(ev: seq<Event>) {
    forall j :: 0 <= j < |ev| ==> !(ev[j].Callback? && ev[j].info.psButton)
  }

  lemma QuietAfterStopAppend(a: seq<Event>, b: seq<Event>, sleepTime: int)
    requires NoStopSeen(a) && QuietAfterStop(b, sleepTime)
    ensures QuietAfterStop(a + b, sleepTime)
  {
    var ev := a + b;
    assert forall j :: 0 <= j < |a| ==> ev[j] == a[j];
    forall j | |a| <= j < |ev| && ev[j].Callback? && ev[j].info.psButton
      ensures ev[j + 1..] == SleepEvents(sleepTime)
    {
      var m := j - |a|;
      assert ev[j] == b[m];
      assert ev[j + 1..] == b[m + 1..];
    }
  }

  /** One iteration on its own: quiet after a stop, and free of stops unless it requested one. */
  lemma IterationQuiet(t: Transfer, d: Ps3, sleepTime: int)
    requires IsReport(t.buffer)
    ensures var step := ProcessStep(t, d);
      var ev := step.events + SleepEvents(sleepTime);
      QuietAfterStop(ev, sleepTime) && (!step.stopRequested ==> NoStopSeen(ev))
  {
    var step := ProcessStep(t, d);
    var ev := step.events + SleepEvents(sleepTime);
    assert SleepEvents(sleepTime) == [] || SleepEvents(sleepTime) == [Sleep(sleepTime)];
    assert forall j :: 0 <= j < |ev| && ev[j].Callback? ==> j == 1 && t.result >= 0;
    assert t.result >= 0 ==> ev[2..] == SleepEvents(sleepTime);
  }

  /**
   * Once the callback has seen the PS button, only the sleep of that same
   * iteration follows: no further control transfer is made.
   */
  lemma {:induction false} NothingAfterStop(ts: seq<Transfer>, oldData: Ps3, sleepTime: int)
    requires ValidTransfers(ts)
    ensures QuietAfterStop(RunLoop(ts, true, oldData, sleepTime).events, sleepTime)
    decreases |ts|
  {
    if ts != [] {
      var step := ProcessStep(ts[0], oldData);
      var tail := ts[1..];
      assert forall i :: 0 <= i < |tail| ==> tail[i] == ts[i + 1];
      var prefix := step.events + SleepEvents(sleepTime);
      var rest := RunLoop(tail, !step.stopRequested, step.oldData, sleepTime);
      IterationQuiet(ts[0], oldData, sleepTime);
      if step.stopRequested {
        assert prefix + rest.events == prefix;
      } else {
        NothingAfterStop(tail, step.oldData, sleepTime);
        QuietAfterStopAppend(prefix, rest.events, sleepTime);
      }
    }
  }

  /** Every callback in `ev` announces the edges against the snapshot held just before it. */
  predicate CallbacksConsistent(ev: seq<Event>, d: Ps3) {
    forall k :: 0 <= k < |ev| && ev[k].Callback? ==>
      ev[k].announced == Edges(LastSnapshot(ev[..k], d), ev[k].info)
  }

  lemma CallbacksConsistentAppend(a: seq<Event>, b: seq<Event>, d: Ps3)
    requires CallbacksConsistent(a, d) && CallbacksConsistent(b, LastSnapshot(a, d))
    ensures CallbacksConsistent(a + b, d)
  {
    var ev := a + b;
    forall k | 0 <= k < |ev| && ev[k].Callback?
      ensures ev[k].announced == Edges(LastSnapshot(ev[..k], d), ev[k].info)
    {
      if k < |a| {
        assert ev[k] == a[k] && ev[..k] == a[..k];
      } else {
        var m := k - |a|;
        assert ev[k] == b[m];
        assert ev[..k] == a + b[..m];
        LastSnapshotAppend(a, b[..m], d);
      }
    }
  }

  /** One iteration on its own: its callback, if any, announces the edges against `d`. */
  lemma IterationCallbacks(t: Transfer, d: Ps3, sleepTime: int)
    requires IsReport(t.buffer)
    ensures CallbacksConsistent(ProcessStep(t, d).events + SleepEvents(sleepTime), d)
  {
    var step := ProcessStep(t, d);
    var ev := step.events + SleepEvents(sleepTime);
    assert SleepEvents(sleepTime) == [] || SleepEvents(sleepTime) == [Sleep(sleepTime)];
    assert forall k :: 0 <= k < |ev| && ev[k].Callback? ==> k == 1 && t.result >= 0;
    assert ev[..1] == [GetReport] && [GetReport][1..] == [];
    assert LastSnapshot([GetReport], d) == d;
  }

  /**
   * The callback compares every snapshot with the one it kept from the
   * previous successful poll (the all-up snapshot before the first), and
   * after the loop it holds the last snapshot it received.
   */
  lemma {:induction false} CallbacksDiffPrevious(ts: seq<Transfer>, running: bool, oldData: Ps3, sleepTime: int)
    requires ValidTransfers(ts)
    ensures var loop := RunLoop(ts, running, oldData, sleepTime);
      loop.oldData == LastSnapshot(loop.events, oldData) &&
      forall k :: 0 <= k < |loop.events| && loop.events[k].Callback? ==>
        loop.events[k].announced == Edges(LastSnapshot(loop.events[..k], oldData), loop.events[k].info)
    decreases |ts|
  {
    if running && ts != [] {
      var step := ProcessStep(ts[0], oldData);
      var tail := ts[1..];
      assert forall i :: 0 <= i < |tail| ==> tail[i] == ts[i + 1];
      var prefix := step.events + SleepEvents(sleepTime);
      var rest := RunLoop(tail, !step.stopRequested, step.oldData, sleepTime);
      CallbacksDiffPrevious(tail, !step.stopRequested, step.oldData, sleepTime);
      IterationSnapshot(ts[0], oldData, sleepTime);
      IterationCallbacks(ts[0], oldData, sleepTime);
      LastSnapshotAppend(prefix, rest.events, oldData);
      assert CallbacksConsistent(rest.events, step.oldData);
      CallbacksConsistentAppend(prefix, rest.events, oldData);
      assert CallbacksConsistent(RunLoop(ts, running, oldData, sleepTime).events, oldData);
    } else {
      assert CallbacksConsistent([], oldData);
    }
  }

  /** An init failure returns 1, not the libusb code, and nothing else happens. */
  lemma InitFailure(s: Script, running: bool, oldData: Ps3, sleepTime: int)
    requires ValidScript(s) && s.initResult < 0
    ensures var o := StartSpec(s, running, oldData, sleepTime);
      o.status == 1 && o.events == [Init] && o.oldData == oldData
  {
  }

  /** If the device does not open, `start` returns -1 before any claim or transfer. */
  lemma OpenFailure(s: Script, running: bool, oldData: Ps3, sleepTime: int)
    requires ValidScript(s) && s.initResult >= 0 && !s.opens
    ensures var o := StartSpec(s, running, oldData, sleepTime);
      o.status == -1 && o.events == [Init, Open(VendorId, ProductId)] && o.oldData == oldData
  {
  }

  /** A failed descriptor query closes the handle and returns -1 without `libusb_exit`. */
  lemma ConfigFailure(s: Script, running: bool, oldData: Ps3, sleepTime: int)
    requires ValidScript(s) && s.initResult >= 0 && s.opens && s.configResult < 0
    ensures var o := StartSpec(s, running, oldData, sleepTime);
      o.status == -1 && o.events[|o.events| - 1] == Close && Exit !in o.events &&
      forall e :: e in o.events ==> !e.Claim? && !e.ControlTransfer?
  {
  }

  lemma {:induction false} ClaimEventsAt(claims: seq<int>)
    ensures |ClaimEvents(claims)| == |claims|
    ensures forall i :: 0 <= i < |claims| ==> ClaimEvents(claims)[i] == Claim(i, claims[i] == Success)
    decreases |claims|
  {
    if claims != [] {
      ClaimEventsAt(claims[..|claims| - 1]);
    }
  }

  lemma {:induction false} ReleaseEventsAt(n: nat)
    ensures |ReleaseEvents(n)| == n
    ensures forall i :: 0 <= i < n ==> ReleaseEvents(n)[i] == Release(i)
  {
    if n > 0 {
      ReleaseEventsAt(n - 1);
    }
  }

  lemma {:induction false} ReleaseEventsCount(n: nat)
    ensures forall i: nat :: multiset(ReleaseEvents(n))[Release(i)] == if i < n then 1 else 0
  {
    if n > 0 {
      ReleaseEventsCount(n - 1);
    }
  }

  lemma {:induction false} ClaimEventsOnlyClaims(claims: seq<int>)
    ensures forall e :: e in ClaimEvents(claims) ==> e.Claim?
    decreases |claims|
  {
    if claims != [] {
      ClaimEventsOnlyClaims(claims[..|claims| - 1]);
    }
  }

  /** The events of `start` once the device is open and described. */
  lemma StartIsSession(s: Script, running: bool, oldData: Ps3, sleepTime: int)
    requires ValidScript(s) && s.initResult >= 0 && s.opens && s.configResult >= 0
    ensures var loop := RunLoop(s.transfers, running, oldData, sleepTime);
      StartSpec(s, running, oldData, sleepTime)
        == Outcome(0, SessionEvents(s.claimResults, loop.events), loop.oldData, loop.running)
  {
  }

  lemma SessionClaims(claims: seq<int>, loop: seq<Event>)
    ensures var ev := SessionEvents(claims, loop);
      5 + |claims| <= |ev| && ev[..3] == [Init, Open(VendorId, ProductId), ConfigDescriptor] &&
      (forall i :: 0 <= i < |claims| ==> ev[3 + i] == Claim(i, claims[i] == Success)) &&
      ev[|ev| - 2..] == [Close, Exit]
  {
    ClaimEventsAt(claims);
    ReleaseEventsAt(|claims|);
    var ev := SessionEvents(claims, loop);
    var c := ClaimEvents(claims);
    AppendAssoc(c + loop, ReleaseEvents(|claims|), [Close, Exit]);
    AppendAssoc(c, loop, ReleaseEvents(|claims|) + [Close, Exit]);
    assert ev == [Init, Open(VendorId, ProductId), ConfigDescriptor] + (c + (loop + (ReleaseEvents(|claims|) + [Close, Exit])));
    forall i | 0 <= i < |claims| ensures ev[3 + i] == Claim(i, claims[i] == Success) {
      assert ev[3 + i] == c[i];
    }
  }

  /**
   * Once the device is open and described, `start` attempts a claim on every
   * interface in order, goes on whatever the claims return, and returns 0
   * after closing the handle and exiting libusb.
   */
  lemma ClaimsEveryInterface(s: Script, running: bool, oldData: Ps3, sleepTime: int)
    requires ValidScript(s) && s.initResult >= 0 && s.opens && s.configResult >= 0
    ensures var o := StartSpec(s, running, oldData, sleepTime);
      o.status == 0 && 5 + |s.claimResults| <= |o.events| && o.events[..3] == [Init, Open(VendorId, ProductId), ConfigDescriptor] &&
      (forall i :: 0 <= i < |s.claimResults| ==> o.events[3 + i] == Claim(i, s.claimResults[i] == Success)) &&
      o.events[|o.events| - 2..] == [Close, Exit]
  {
    StartIsSession(s, running, oldData, sleepTime);
    SessionClaims(s.claimResults, RunLoop(s.transfers, running, oldData, sleepTime).events);
  }

  lemma CountAppend<T>(a: seq<T>, b: seq<T>, x: T)
    ensures multiset(a + b)[x] == multiset(a)[x] + multiset(b)[x]
  {
  }

  lemma CountAbsent<T>(a: seq<T>, x: T)
    requires x !in a
    ensures multiset(a)[x] == 0
  {
  }

  lemma SessionReleaseCount(claims: seq<int>, loop: seq<Event>, i: nat)
    requires Release(i) !in loop
    ensures multiset(SessionEvents(claims, loop))[Release(i)] == if i < |claims| then 1 else 0
  {
    var x := Release(i);
    var p := [Init, Open(VendorId, ProductId), ConfigDescriptor];
    var c := ClaimEvents(claims);
    var r := ReleaseEvents(|claims|);
    var ce := [Close, Exit];
    ClaimEventsOnlyClaims(claims);
    ReleaseEventsCount(|claims|);
    CountAppend(p, c + loop + r + ce, x);
    CountAppend(c + loop + r, ce, x);
    CountAppend(c + loop, r, x);
    CountAppend(c, loop, x);
    CountAbsent(p, x);
    CountAbsent(c, x);
    CountAbsent(loop, x);
    CountAbsent(ce, x);
  }

  lemma SessionReleases(claims: seq<int>, loop: seq<Event>)
    requires forall e :: e in loop ==> !e.Release?
    ensures forall i: nat :: multiset(SessionEvents(claims, loop))[Release(i)] == if i < |claims| then 1 else 0
  {
    forall i: nat ensures multiset(SessionEvents(claims, loop))[Release(i)] == if i < |claims| then 1 else 0 {
      SessionReleaseCount(claims, loop, i);
    }
  }

  /** After the loop every interface is released exactly once, whether or not its claim succeeded. */
  lemma ReleasesEveryInterfaceOnce(s: Script, running: bool, oldData: Ps3, sleepTime: int)
    requires ValidScript(s) && s.initResult >= 0 && s.opens && s.configResult >= 0
    ensures var o := StartSpec(s, running, oldData, sleepTime);
      forall i: nat :: multiset(o.events)[Release(i)] == if i < |s.claimResults| then 1 else 0
  {
    var loop := RunLoop(s.transfers, running, oldData, sleepTime).events;
    StartIsSession(s, running, oldData, sleepTime);
    LoopEventKinds(s.transfers, running, oldData, sleepTime);
    SessionReleases(s.claimResults, loop);
  }

  lemma SessionNoPollAfterRelease(claims: seq<int>, loop: seq<Event>)
    requires forall e :: e in loop ==> !e.Release?
    ensures var ev := SessionEvents(claims, loop);
      forall j, k :: 0 <= j < k < |ev| && ev[j].Release? ==> !ev[k].ControlTransfer? && !ev[k].Callback?
  {
    var ev := SessionEvents(claims, loop);
    var n := |claims|;
    var before := [Init, Open(VendorId, ProductId), ConfigDescriptor] + ClaimEvents(claims) + loop;
    var after := ReleaseEvents(n) + [Close, Exit];
    ClaimEventsOnlyClaims(claims);
    ReleaseEventsAt(n);
    AppendAssoc(ClaimEvents(claims) + loop, ReleaseEvents(n), [Close, Exit]);
    AppendAssoc([Init, Open(VendorId, ProductId), ConfigDescriptor], ClaimEvents(claims) + loop, after);
    AppendAssoc([Init, Open(VendorId, ProductId), ConfigDescriptor], ClaimEvents(claims), loop);
    assert ev == before + after;
    assert forall i :: 0 <= i < |after| ==> !after[i].ControlTransfer? && !after[i].Callback? by {
      forall i | 0 <= i < |after| ensures !after[i].ControlTransfer? && !after[i].Callback? {
        if i < n { assert after[i] == ReleaseEvents(n)[i]; }
      }
    }
    assert forall e :: e in before ==> !e.Release?;
    assert forall j :: 0 <= j < |before| ==> ev[j] == before[j] && before[j] in before;
    forall j, k | 0 <= j < k < |ev| && ev[j].Release?
      ensures !ev[k].ControlTransfer? && !ev[k].Callback?
    {
      assert ev[k] == after[k - |before|];
    }
  }

  /** No control transfer and no callback follows a release. */
  lemma NoPollAfterRelease(s: Script, running: bool, oldData: Ps3, sleepTime: int)
    requires ValidScript(s) && s.initResult >= 0 && s.opens && s.configResult >= 0
    ensures var ev := StartSpec(s, running, oldData, sleepTime).events;
      forall j, k :: 0 <= j < k < |ev| && ev[j].Release? ==> !ev[k].ControlTransfer? && !ev[k].Callback?
  {
    var loop := RunLoop(s.transfers, running, oldData, sleepTime).events;
    StartIsSession(s, running, oldData, sleepTime);
    LoopEventKinds(s.transfers, running, oldData, sleepTime);
    SessionNoPollAfterRelease(s.claimResults, loop);
  }
}
