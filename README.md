# PS3 controller poller (poclibusb), modelled in Dafny

The program opens a Sony PS3 controller (vendor 0x054C, product 0x0268)
through libusb. It claims every interface of the controller's first
configuration, then polls the controller with HID GET_REPORT control
transfers until the PS button is pressed. Each 49-byte input report is
decoded into a `ps3` snapshot and handed to a callback. The callback
announces every button that went from up to down since the snapshot it
kept, and stops the manager on the PS button. When the loop ends, the
program releases every interface, closes the device and shuts libusb down.

The model has four modules, one per concern of `src/application.cpp`:

- `Report` (report.dfy): the `ps3` struct (`Ps3`), the decoder of
  `UsbManager::process` (`Decode`), and a reference encoder (`Encode`) used
  as its partner for round-trip properties. A button group byte presses a
  button only when it EQUALS that button's single-bit code, so two buttons
  of one group are never seen down together.
- `EdgeDetect` (edge_detect.dfy): the sixteen buttons the callback compares,
  in the order it tests them, and the press edges between two snapshots
  (`Edges`).
- `Application` (application.dfy): the session.
  - libusb is replaced by a `Script`, which fixes in advance what the libusb
    calls whose results the code uses return: the `libusb_init` result, whether the device opens, the
    configuration-descriptor result, one claim result per interface, and the
    transfers in the order the loop issues them.
  - `UsbManager` is a class with the source's `running` flag. A ghost `trace`
    records every libusb call whose outcome the `Script` fixes, every sleep
    and every callback invocation.
  - The lambda `main` registers is the class `PressMonitor`, which holds
    `oldData`.
  - The methods are proved against the specification functions `ProcessStep`,
    `RunLoop`, `ConnectedSpec` and `StartSpec`.
- `SessionProperties` (session_properties.dfy): what these functions
  guarantee. It covers:
  - how the loop ends, and that transfer errors never end it;
  - that nothing is polled after the PS button;
  - what each callback compares against;
  - what each path of `start` leaves behind.

In these places the code behaves in ways a reader may not expect; the model
follows the code as written:

- A failed control transfer makes `process` return -1. `start` ignores that
  result and keeps polling, so a transfer error never ends the session.
- `int init_status = init() < 0` binds the truth value of the comparison.
  A libusb initialisation failure therefore makes `start` return 1, not the
  libusb error code.
- A failed configuration-descriptor query closes the handle and returns -1
  without calling `libusb_exit`.
- Acceleration (byte 48) is stored as the unsigned byte. Only the console
  output reinterprets it as `int8_t`.
- The report buffer always has 49 bytes, so the model has no short-report
  error case. The decoder reads whatever the buffer holds after the transfer.

## Model

| member | source | states |
|---|---|---|
| Report.Decode | src/application.cpp:173-305 | the decoder is total on 49-byte reports and stores the sticks and the acceleration as unsigned bytes; its per-button rules are stated in the rows below |
| Report.DecodeWellFormed | src/application.cpp:173-305 | every decoded snapshot presses at most one button of each group byte, and its stick and acceleration values are unsigned bytes |
| Report.DecodeGroups | src/application.cpp:173-284 | the k-th button of byte 2 (resp. byte 3) is down exactly when that byte equals the k-th single-bit code |
| Report.DecodeExactlyOne | src/application.cpp:173-284 | a group byte holding one of the eight codes presses exactly one button of its group; any other value presses none |
| Report.DecodeEncode | src/application.cpp:173-305 | decoding the reference encoding of any well-formed snapshot gives that snapshot back |
| Report.DecodeDeterminedBy | src/application.cpp:173-305 | two reports decode alike if and only if they agree on the known codes of bytes 2 and 3, on whether byte 4 is nonzero, on bytes 6-9 and on byte 48 |
| Report.EncodeDecode | src/application.cpp:286-305 | re-encoding a decoded report keeps the known group codes, the PS button's truth and the bytes 6-9 and 48 |
| EdgeDetect.AllButtonsComplete | src/application.cpp:322-384 | the callback's button list names every one of the sixteen buttons |
| EdgeDetect.Edges | src/application.cpp:322-384 | a button is announced if and only if it is down now and was up before, and no button is announced twice |
| EdgeDetect.NoEdgeWithoutPress | src/application.cpp:322-384 | a button that is up now, or was already down, is not announced |
| EdgeDetect.RepeatedSnapshotNoEdges | src/application.cpp:322-386 | comparing a snapshot with itself (buttons held or untouched) announces nothing |
| EdgeDetect.FirstSnapshotEdges | src/application.cpp:318-384 | against the value-initialised snapshot, every button that is down is announced |
| EdgeDetect.EdgesIgnoreNonButtons | src/application.cpp:322-384 | the PS button, the sticks and the acceleration do not influence which buttons are announced |
| Application.InitStatus | src/application.cpp:142-158 | `init` returns a negative libusb result unchanged and 0 otherwise |
| Application.PressMonitor.constructor | src/application.cpp:318 | the callback's previous snapshot starts with every button up and every number 0 |
| Application.PressMonitor.Invoke | src/application.cpp:319-386 | the callback stops the manager exactly when the PS button is down, announces the edges against its previous snapshot, and keeps the new snapshot |
| Application.UsbManager.constructor | src/application.cpp:68-74 | a new manager is running, keeps the given callback and sleep time, and has made no call yet |
| Application.UsbManager.Stop | src/application.cpp:132-135 | after `stop` the manager is no longer running |
| Application.UsbManager.Process | src/application.cpp:160-312 | one GET_REPORT request with the HID constants and a 1000 ms timeout; a failed transfer returns -1 without calling the callback; otherwise the decoded report goes to the callback and 0 is returned |
| Application.UsbManager.Start | src/application.cpp:76-130 | `start` returns, records and leaves behind exactly what `StartSpec` describes for the scripted libusb results |
| Application.UsbManager.Connected | src/application.cpp:97-130 | with the descriptor in hand: the claims, the polling loop, the releases, then close and exit, returning 0 |
| Application.UsbManager.ClaimInterfaces | src/application.cpp:102-111 | a claim is attempted on every interface in order, whatever the previous claims returned |
| Application.UsbManager.Iterate | src/application.cpp:113-116 | one iteration is `process` followed by a sleep only when the sleep time is positive |
| Application.UsbManager.PollLoop | src/application.cpp:113-116 | the loop's calls, the callback's final snapshot and the final `running` flag are those of `RunLoop` |
| Application.UsbManager.ReleaseInterfaces | src/application.cpp:119-122 | every interface is released in order |
| Application.RunMain | src/application.cpp:316-389 | `main` runs `start` with an all-up previous snapshot and no sleep: its status, every call and announcement of the session, and the callback's last snapshot are those of `StartSpec` with sleep time 0 |
| SessionProperties.LoopEnds | src/application.cpp:113-116 | the loop runs until a successful transfer reports the PS button (that iteration completes) and no earlier one did, or until the transfers run out |
| SessionProperties.TransferErrorsKeepPolling | src/application.cpp:166-167 | while every transfer fails the loop keeps polling, never calls the callback and keeps the previous snapshot |
| SessionProperties.LoopEventKinds | src/application.cpp:113-116 | the loop makes only control transfers, callback invocations and sleeps |
| SessionProperties.NothingAfterStop | src/application.cpp:320 | after a callback that saw the PS button, only that iteration's sleep follows |
| SessionProperties.CallbacksDiffPrevious | src/application.cpp:318-386 | every callback compares against the snapshot of the previous successful poll (all-up before the first), and after the loop the callback holds the last snapshot it received |
| SessionProperties.InitFailure | src/application.cpp:82-84 | a libusb init failure makes `start` return 1 after doing nothing else |
| SessionProperties.OpenFailure | src/application.cpp:90-95 | a device that does not open makes `start` return -1 before any claim or transfer |
| SessionProperties.ConfigFailure | src/application.cpp:98 | a failed descriptor query closes the handle and returns -1, without claims, transfers or `libusb_exit` |
| SessionProperties.ClaimsEveryInterface | src/application.cpp:102-130 | a connected `start` claims interfaces 0..n-1 in order right after the descriptor query, ends with close and exit, and returns 0 |
| SessionProperties.ReleasesEveryInterfaceOnce | src/application.cpp:119-122 | every interface of the configuration is released exactly once, whether or not its claim succeeded, and no other interface is released |
| SessionProperties.NoPollAfterRelease | src/application.cpp:113-122 | no control transfer and no callback follows any release |

## Left out

- libusb itself: its calls become the outcomes fixed by a `Script`. The device handle, the device and the configuration descriptor are not modelled beyond those outcomes.
- Console output: every `printf` and `perr`, `print_mode`, and the `int8_t` printing of the tilt axes and the acceleration. The callback's announcements are kept as a list of buttons in the trace.
- `debug_mode` and the `putenv` / `libusb_set_option` log-level setup in `init`, because they only affect logging.
- `libusb_set_auto_detach_kernel_driver`, whose result is ignored and whose effect only shows in the claim results the `Script` fixes, and `libusb_kernel_driver_active`, whose result is only printed.
- `msleep`: it becomes a `Sleep` event. Time is not modelled.
- The byte count a successful control transfer returns. A non-negative result is a success, and the decoder reads the whole buffer as the transfer left it.
- The configuration descriptor, which the source never frees. It leaves no trace.
- The return value of `main`. It is always 0 and does not depend on `start`.
- Application.UsbManager.PollLoop: the source's loop has no bound. The model's loop also ends when the script's transfers run out, and `SessionProperties.LoopEnds` states both ways of ending.
- Application.RunMain: the source's manager also gets `print_mode` and `debug_mode` set to true. They only affect logging and are not modelled.
