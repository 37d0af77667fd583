/**
 * The device session of src/application.cpp: `UsbManager` (start, stop, the
 * polling loop and `process`) and the callback that `main` registers with it.
 *
 * libusb is not modelled. A `Script` fixes in advance what each libusb call
 * returns, and the manager keeps a ghost `trace` of the calls it makes and of
 * the callback's invocations. The real loop has no bound; the model's loop
 * also ends when the script runs out of transfers.
 */
module Application {
  import opened Report
  import opened EdgeDetect

  /** The controller the session opens (a Sony PS3 controller). */
  const VendorId: int := 0x054C
  const ProductId: int := 0x0268

  /** The HID GET_REPORT control transfer `process` issues (section 7.2.1 of the HID 1.11 specification). */
  const RequestTypeIn: int := 0xA1  // device-to-host | class | interface
  const HidGetReport: int := 0x01
  const HidReportTypeInput: int := 0x01
  const ReportValue: int := HidReportTypeInput * 256 + 0x01
  const TransferTimeoutMs: int := 1000

  /** The libusb status of success. */
  const Success: int := 0

  /**
   * One control transfer as the transport performs it: the value
   * `libusb_control_transfer` returns (negative on error) and the contents of
   * the 49-byte buffer afterwards.
   */
  datatype Transfer = Transfer(result: int, buffer: seq<int>)

  /**
   * What libusb answers during one run: the result of `libusb_init`, whether
   * the device opens, the result of the configuration descriptor query, one
   * claim result per interface of the configuration, and the control
   * transfers in the order the loop would issue them.
   */
  datatype Script = Script(
    initResult: int,
    opens: bool,
    configResult: int,
    claimResults: seq<int>,
    transfers: seq<Transfer>)

  predicate ValidTransfers(ts: seq<Transfer>) {
    forall i :: 0 <= i < |ts| ==> IsReport(ts[i].buffer)
  }

  predicate ValidScript(s: Script) {
    ValidTransfers(s.transfers)
  }

  /** The observable steps of a run. */
  datatype Event =
    | Init
    | Open(vendor: int, product: int)
    | ConfigDescriptor
    | Claim(iface: nat, claimed: bool)
    | ControlTransfer(requestType: int, request: int, value: int, index: int, length: int, timeoutMs: int)
    | Callback(info: Ps3, announced: seq<Button>)
    | Sleep(ms: int)
    | Release(iface: nat)
    | Close
    | Exit

  const GetReport: Event :=
    ControlTransfer(RequestTypeIn, HidGetReport, ReportValue, 0, ReportLength, TransferTimeoutMs)

  /** `init`: the failure code of `libusb_init`, or 0. */
  function InitStatus(libusbResult: int): (r: int)
    ensures r <= 0
    ensures r < 0 <==> libusbResult < 0
    ensures r < 0 ==> r == libusbResult
  {
    if libusbResult < 0 then libusbResult else 0
  }

  /** The claim attempts for the interfaces 0..|claims|-1. */
  function ClaimEvents(claims: seq<int>): seq<Event>
    decreases |claims|
  {
    if claims == [] then []
    else ClaimEvents(claims[..|claims| - 1]) + [Claim(|claims| - 1, claims[|claims| - 1] == Success)]
  }

  /** The releases of the interfaces 0..n-1. */
  function ReleaseEvents(n: nat): seq<Event> {
    if n == 0 then [] else ReleaseEvents(n - 1) + [Release(n - 1)]
  }

  function SleepEvents(sleepTime: int): seq<Event> {
    if sleepTime > 0 then [Sleep(sleepTime)] else []
  }

  /** What one call of `process` does, given the callback's previous snapshot. */
  datatype Step = Step(result: int, events: seq<Event>, oldData: Ps3, stopRequested: bool)

  function ProcessStep(t: Transfer, oldData: Ps3): Step
    requires IsReport(t.buffer)
  {
    if t.result < 0 then Step(-1, [GetReport], oldData, false)
    else
      var info := Decode(t.buffer);
      Step(0, [GetReport, Callback(info, Edges(oldData, info))], info, info.psButton)
  }

  /** The state the polling loop leaves behind; `polled` counts its iterations. */
  datatype LoopState = LoopState(events: seq<Event>, oldData: Ps3, running: bool, polled: nat)

  /**
   * The polling loop of `start`: while `running`, one `process` call and then
   * a sleep when the sleep time is positive. The model also ends when the
   * transfers run out.
   */
  function RunLoop(ts: seq<Transfer>, running: bool, oldData: Ps3, sleepTime: int): LoopState
    requires ValidTransfers(ts)
    decreases |ts|
  {
    if !running || ts == [] then LoopState([], oldData, running, 0)
    else
      var step := ProcessStep(ts[0], oldData);
      var rest := RunLoop(ts[1..], !step.stopRequested, step.oldData, sleepTime);
      LoopState(step.events + SleepEvents(sleepTime) + rest.events, rest.oldData, rest.running, rest.polled + 1)
  }

  /** The result of `start` and everything it leaves behind. */
  datatype Outcome = Outcome(status: int, events: seq<Event>, oldData: Ps3, running: bool)

  /** The calls of a connected `start` around the loop's events `loop`: claims, the loop, releases, close and exit. */
  function ConnectedEvents(claims: seq<int>, loop: seq<Event>): seq<Event> {
    ClaimEvents(claims) + loop + ReleaseEvents(|claims|) + [Close, Exit]
  }

  /** The calls of a `start` that gets past the descriptor query. */
  function SessionEvents(claims: seq<int>, loop: seq<Event>): seq<Event> {
    [Init, Open(VendorId, ProductId), ConfigDescriptor] + ConnectedEvents(claims, loop)
  }

  /** `start` once the configuration descriptor is in hand. */
  function ConnectedSpec(s: Script, running: bool, oldData: Ps3, sleepTime: int): Outcome
    requires ValidScript(s)
  {
    var loop := RunLoop(s.transfers, running, oldData, sleepTime);
    Outcome(0, ConnectedEvents(s.claimResults, loop.events), loop.oldData, loop.running)
  }

  /**
   * `start` as written. `int init_status = init() < 0` binds the result of
   * the comparison, so an init failure returns 1. A failed descriptor query
   * closes the handle but skips `libusb_exit`. Claim results are only logged.
   */
  function StartSpec(s: Script, running: bool, oldData: Ps3, sleepTime: int): Outcome
    requires ValidScript(s)
  {
    var initStatus := if InitStatus(s.initResult) < 0 then 1 else 0;
    if initStatus != 0 then Outcome(initStatus, [Init], oldData, running)
    else if !s.opens then Outcome(-1, [Init, Open(VendorId, ProductId)], oldData, running)
    else if s.configResult < 0 then
      Outcome(-1, [Init, Open(VendorId, ProductId), ConfigDescriptor, Close], oldData, running)
    else
      var loop := RunLoop(s.transfers, running, oldData, sleepTime);
      Outcome(0, SessionEvents(s.claimResults, loop.events), loop.oldData, loop.running)
  }

  lemma AppendAssoc<T>(a: seq<T>, b: seq<T>, c: seq<T>)
    ensures (a + b) + c == a + (b + c)
  {
  }

  lemma RunLoopStep(ts: seq<Transfer>, i: nat, oldData: Ps3, sleepTime: int)
    requires ValidTransfers(ts) && i < |ts|
    ensures var step := ProcessStep(ts[i], oldData);
      var next := RunLoop(ts[i + 1..], !step.stopRequested, step.oldData, sleepTime);
      RunLoop(ts[i..], true, oldData, sleepTime)
        == LoopState(step.events + SleepEvents(sleepTime) + next.events, next.oldData, next.running, next.polled + 1)
  {
    assert ts[i..][0] == ts[i] && ts[i..][1..] == ts[i + 1..];
  }

  /**
   * The callback `main` registers: it stops the manager when the PS button is
   * down, announces the press edges against the snapshot it kept from the
   * previous call, and then keeps the new snapshot.
   */
  class PressMonitor {
    var oldData: Ps3

    constructor ()
      ensures oldData == Released
    {
      oldData := Released;
    }

    method Invoke(info: Ps3, manager: UsbManager) returns (announced: seq<Button>)
      modifies this, manager`running
      ensures manager.running == (old(manager.running) && !info.psButton)
      ensures announced == Edges(old(oldData), info)
      ensures oldData == info
    {
      if info.psButton {
        manager.Stop();
      }
      announced := [];
      for i := 0 to |AllButtons|
        invariant oldData == old(oldData)
        invariant manager.running == (old(manager.running) && !info.psButton)
        invariant announced == EdgesIn(AllButtons[..i], oldData, info)
      {
        var b := AllButtons[i];
        EdgesInExtend(AllButtons, i, oldData, info);
        if Pressed(info, b) && !Pressed(oldData, b) {
          announced := announced + [b];
        }
      }
      assert AllButtons[..|AllButtons|] == AllButtons;
      oldData := info;
    }
  }

  class UsbManager {
    const callback: PressMonitor
    const sleepTime: int
    var running: bool
    ghost var trace: seq<Event>

    constructor (callback: PressMonitor, sleepTime: int)
      ensures this.callback == callback && this.sleepTime == sleepTime
      ensures running && trace == []
    {
      this.callback := callback;
      this.sleepTime := sleepTime;
      running := true;
      trace := [];
    }

    /** Asks the polling loop to end after the iteration in progress. */
    method Stop()
      modifies this`running
      ensures !running
    {
      running := false;
    }

    /**
     * Fetches one report and hands its decoding to the callback; a failed
     * transfer returns -1 before the callback runs.
     */
    method Process(t: Transfer) returns (r: int)
      requires IsReport(t.buffer)
      modifies this`running, this`trace, callback
      ensures var step := ProcessStep(t, old(callback.oldData));
        r == step.result && trace == old(trace) + step.events &&
        callback.oldData == step.oldData && running == (old(running) && !step.stopRequested)
    {
      trace := trace + [GetReport];
      if t.result < 0 {
        return -1;
      }
      var data := Decode(t.buffer);
      ghost var before := callback.oldData;
      var announced := callback.Invoke(data, this);
      trace := trace + [Callback(data, announced)];
      assert announced == Edges(before, data);
      return 0;
    }

    method Start(s: Script) returns (status: int)
      requires ValidScript(s)
      modifies this`running, this`trace, callback
      ensures var o := StartSpec(s, old(running), old(callback.oldData), sleepTime);
        status == o.status && trace == old(trace) + o.events &&
        callback.oldData == o.oldData && running == o.running
    {
      var initFailed := InitStatus(s.initResult) < 0;
      trace := trace + [Init];
      var initStatus := if initFailed then 1 else 0;
      if initStatus != 0 {
        return initStatus;
      }
      trace := trace + [Open(VendorId, ProductId)];
      if !s.opens {
        return -1;
      }
      trace := trace + [ConfigDescriptor];
      if s.configResult < 0 {
        trace := trace + [Close];
        return -1;
      }
      ghost var prefix := [Init, Open(VendorId, ProductId), ConfigDescriptor];
      assert trace == old(trace) + prefix;
      status := Connected(s);
      ghost var connected := ConnectedSpec(s, old(running), old(callback.oldData), sleepTime);
      AppendAssoc(old(trace), prefix, connected.events);
    }

    /** What `start` does with an open handle and its configuration descriptor. */
    method Connected(s: Script) returns (status: int)
      requires ValidScript(s)
      modifies this`running, this`trace, callback
      ensures var o := ConnectedSpec(s, old(running), old(callback.oldData), sleepTime);
        status == o.status && trace == old(trace) + o.events &&
        callback.oldData == o.oldData && running == o.running
    {
      ghost var t0 := trace;
      ghost var claims := ClaimEvents(s.claimResults);
      ghost var loop := RunLoop(s.transfers, running, callback.oldData, sleepTime);
      ghost var releases := ReleaseEvents(|s.claimResults|);
      ClaimInterfaces(s.claimResults);
      PollLoop(s.transfers);
      AppendAssoc(t0, claims, loop.events);
      ReleaseInterfaces(|s.claimResults|);
      AppendAssoc(t0, claims + loop.events, releases);
      trace := trace + [Close, Exit];
      AppendAssoc(t0, claims + loop.events + releases, [Close, Exit]);
      return 0;
    }

    /** The claim loop of `start`: every interface is tried, a failure is only logged. */
    method ClaimInterfaces(claims: seq<int>)
      modifies this`trace
      ensures trace == old(trace) + ClaimEvents(claims)
    {
      for iface := 0 to |claims|
        invariant trace == old(trace) + ClaimEvents(claims[..iface])
      {
        assert claims[..iface + 1][..iface] == claims[..iface];
        trace := trace + [Claim(iface, claims[iface] == Success)];
      }
      assert claims[..|claims|] == claims;
    }

    /** One iteration of the polling loop: `process`, whose result is ignored, then the optional sleep. */
    method Iterate(t: Transfer)
      requires IsReport(t.buffer)
      modifies this`running, this`trace, callback
      ensures var step := ProcessStep(t, old(callback.oldData));
        trace == old(trace) + step.events + SleepEvents(sleepTime) &&
        callback.oldData == step.oldData && running == (old(running) && !step.stopRequested)
    {
      var ignored := Process(t);
      if sleepTime > 0 {
        trace := trace + [Sleep(sleepTime)];
      }
    }

    /** The polling loop of `start`. */
    method PollLoop(ts: seq<Transfer>)
      requires ValidTransfers(ts)
      modifies this`running, this`trace, callback
      ensures var loop := RunLoop(ts, old(running), old(callback.oldData), sleepTime);
        trace == old(trace) + loop.events && callback.oldData == loop.oldData && running == loop.running
    {
      ghost var whole := RunLoop(ts, running, callback.oldData, sleepTime);
      ghost var done: seq<Event> := [];
      var i := 0;
      while running && i < |ts|
        invariant 0 <= i <= |ts|
        invariant trace == old(trace) + done
        invariant var rest := RunLoop(ts[i..], running, callback.oldData, sleepTime);
          whole.events == done + rest.events &&
          whole.oldData == rest.oldData && whole.running == rest.running
      {
        ghost var step := ProcessStep(ts[i], callback.oldData);
        ghost var next := RunLoop(ts[i + 1..], !step.stopRequested, step.oldData, sleepTime);
        ghost var thisIteration := step.events + SleepEvents(sleepTime);
        RunLoopStep(ts, i, callback.oldData, sleepTime);
        Iterate(ts[i]);
        AppendAssoc(old(trace), done, thisIteration);
        AppendAssoc(done, thisIteration, next.events);
        done := done + thisIteration;
        i := i + 1;
      }
    }

    /** The release loop of `start`: every interface, whether or not its claim succeeded. */
    method ReleaseInterfaces(n: nat)
      modifies this`trace
      ensures trace == old(trace) + ReleaseEvents(n)
    {
      for iface := 0 to n
        invariant trace == old(trace) + ReleaseEvents(iface)
      {
        trace := trace + [Release(iface)];
      }
    }
  }

  /**
   * `main`: a callback whose previous snapshot starts all-up, a manager with
   * no sleep, and one `start`. Returns what `start` returned, the last
   * snapshot the callback kept and (ghost) every event of the session.
   */
  method RunMain(s: Script) returns (status: int, lastSeen: Ps3, ghost events: seq<Event>)
    requires ValidScript(s)
    ensures var o := StartSpec(s, true, Released, 0);
      status == o.status && lastSeen == o.oldData && events == o.events
  {
    var monitor := new PressMonitor();
    var manager := new UsbManager(monitor, 0);
    status := manager.Start(s);
    lastSeen := monitor.oldData;
    events := manager.trace;
  }
}
