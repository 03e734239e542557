# gNOI OS service and gnxi_tester target history, modelled in Dafny

This project models two parts of the gnxi repository.

**The gNOI OS service** (`gnoi/os/server.go`) lets an operator install and activate an OS package on a device.

- `Install` is a streaming exchange:
  - the client sends a `TransferRequest` naming a version;
  - the server answers `Validated` if that version is already installed, then always `TransferReady`;
  - the client streams `TransferContent` chunks and then `TransferEnd`;
  - the server reports `TransferProgress`, with the bytes received so far, after each content message that raises the count of whole chunks of `chunkSize` (1,000,000) bytes;
  - at the end the server hands the buffer to the validator and installs the resulting package in the version manager.
- A goroutine (`ReceiveOS`) reads the stream and signals the coordinator over three unbuffered channels.
  - There is one producer and the channels are unbuffered, so the coordinator sees the signals in the order they are sent.
  - The model therefore runs the receiver as a method (`OsReceive.ReceiveOS`) that returns its list of signals.
  - The coordinator's `select` loop becomes a loop over that list (`OsServer.Server.Install`).
  - Each method is proved equal to a specification function (`Receive`, `InstallExchange`). The lemmas state the protocol's properties about those functions.
- `Activate` asks the version manager to select a version. An unknown version becomes a structured `NON_EXISTENT_VERSION` reply, not a call error.

**The gnxi_tester target history** (`gnxi_tester/config/history.go`) keeps a name-keyed map of devices and the last target used.

- `prepareTarget` validates its arguments and then either creates or merges an entry.
- The two viper keys become the fields of a `History` object. The method is proved equal to the transition function `Prepare`, and lemmas state each case.

Files:
- `wrappers.dfy`: `Option`.
- `os_receive.dfy`: the receiver.
- `os_manager.dfy`: the version manager.
- `os_server.dfy`: `Install` and `Activate`.
- `history.dfy`: the target history.

Modelling choices:
- The inbound stream is a sequence of `Recv` values. Reading past its end is `io.EOF`.
- Outbound, `sent` lists every message handed to `stream.Send`, in call order.
  - `sendErrors` maps a Send call's index to the transport error it fails with.
  - The source checks only the sends of `Validated` and `TransferReady`. Failures of the progress and validation-error sends are ignored, as in the source.
- `mockos.ValidateOS` is a function parameter returning `Validation(os, failure)`.
  - `os` stands for the package pointer (`None` is nil).
  - `failure` is present when the validator returns an error, and carries the error payload to send.
- The version manager's source is not part of this model. `OsManager.Manager` keeps only what `server.go` relies on:
  - the factory version is always installed;
  - `Install` adds or overwrites a version and never fails;
  - `SetRunning` fails, changing nothing, for a version that is not installed.
- The number of progress reports is at most the number of whole chunks received. It can be smaller: one message that crosses several multiples of `chunkSize` yields one report (`SingleProgressForLargeMessage`).
- Where `gnxi_tester/config/history_test.go` disagrees with `history.go`, the model follows `history.go`:
  - the test calls a five-argument `prepareTarget`;
  - it expects "Target not found";
  - it expects relative CA paths to be joined to the working directory.
  
  The code returns "Device not found" and stores the strings as given.

## Model

| member | source | states |
|---|---|---|
| `OsReceive.ReceiveOS` | gnoi/os/server.go:114-141 | the receiver's loop sends exactly the signals `Receive(input, [], 0)` describes; its invariants keep the buffer equal to the concatenated payloads of the messages read so far and `prev` equal to the whole chunks in it |
| `OsReceive.ReceiveShape` | gnoi/os/server.go:117-135 | every signal but the last is a progress report: at most one terminal signal is sent, it is the last one, and completion and error never both occur |
| `OsReceive.ReceiveTerminal` | gnoi/os/server.go:118-135 | the first non-content message decides the end. `TransferEnd` sends `Completed` with the whole buffer (all payloads before it, in order). A read error forwards that error. Any other payload sends "Unknown request type" |
| `OsReceive.ReceiveSilentAtEndOfStream` | gnoi/os/server.go:119-121 | a stream that reaches `io.EOF` before any non-content message yields only progress reports and no terminal signal at all |
| `OsReceive.ReceiveProgressValues` | gnoi/os/server.go:127-139 | each progress value is the buffer length right after some content message, and that message raised `len/chunkSize` |
| `OsReceive.ReceiveProgressBeyond` | gnoi/os/server.go:116-139 | every progress value stands for more whole chunks than had already been reported (`prev`) |
| `OsReceive.ReceiveProgressIncreasing` | gnoi/os/server.go:136-139 | successive progress values strictly increase, and so does `len/chunkSize` between them |
| `OsReceive.ReceiveProgressComplete` | gnoi/os/server.go:136-139 | every content message that raises `len/chunkSize` produces a progress report of the new length, so no crossing goes unreported |
| `OsReceive.ReceiveProgressBound` | gnoi/os/server.go:136-139 | the number of progress reports never exceeds the whole chunks among the bytes received |
| `OsReceive.SingleProgressForLargeMessage` | gnoi/os/server.go:136-139 | a single 2,000,000-byte message followed by `TransferEnd` yields exactly one progress report and then completion |
| `OsReceive.ReceiveIntended` | gnoi/os/server.go:119-121 | corrected receiver: it always ends with exactly one terminal signal. When the stream ends before any non-content message, it sends every progress report the written receiver sends and then the end-of-stream error; otherwise it sends exactly what the written receiver sends |
| `OsManager.Manager.constructor` | gnoi/os/server.go:41 | a new manager has only the factory version installed, and it is the running one |
| `OsManager.Manager.Install` | gnoi/os/server.go:110 | the version is installed afterwards with the given activation-fail message; nothing else changes |
| `OsManager.Manager.SetRunning` | gnoi/os/server.go:55 | succeeds and selects the version exactly when it is installed; otherwise returns the error and changes nothing |
| `OsServer.Server.Activate` | gnoi/os/server.go:54-61 | returns `ActivateOk` and selects the version when it is installed; otherwise returns `ActivateError(NON_EXISTENT_VERSION)` and changes nothing. The Go error is always nil |
| `OsServer.Server.Install` | gnoi/os/server.go:64-112 | sends exactly `InstallExchange`'s messages and ends with its outcome. The manager gains exactly the committed package and is otherwise unchanged |
| `OsServer.RelayBlocked` | gnoi/os/server.go:92-105 | without a terminal signal the select loop relays every progress value in order as `TransferProgress` and then waits forever, installing nothing |
| `OsServer.RelayConcludes` | gnoi/os/server.go:92-105 | the select loop relays every progress value in order as `TransferProgress` and then acts on the terminal signal: a receiver error ends the call with that error and installs nothing; completion goes to validation |
| `OsServer.RelayExtends` | gnoi/os/server.go:92-105 | the select loop only appends to what was already sent |
| `OsServer.InstallRejectsMissingRequest` | gnoi/os/server.go:67-73 | if the first read fails, or its message carries no `TransferRequest`, Install returns that error, sends nothing and installs nothing |
| `OsServer.InstallOpening` | gnoi/os/server.go:74-85 | the first message is `Validated(version)` exactly when the version is installed, followed by `TransferReady`. A failed send of either ends the call at once with that error, and nothing after it is sent or installed |
| `OsServer.InstallAfterOpening` | gnoi/os/server.go:86-111 | after the opening, Install sends the receiver's progress values in order and then ends as the first non-content message decides. `TransferEnd`: the concatenated payloads go to the validator. Read error or unknown payload: that error, nothing installed. `io.EOF`: waits forever |
| `OsServer.CommitAfterValidationFailure` | gnoi/os/server.go:106-110 | as written: after the validator rejects the package, its error payload is sent and the package is still installed, and Install returns nil |
| `OsServer.BlockedOnEarlyEndOfStream` | gnoi/os/server.go:119-121 | as written: a stream that ends before `TransferEnd` leaves Install waiting forever, with nothing installed |
| `OsServer.EndOfStreamReported` | gnoi/os/server.go:92-105 | with the corrected receiver, a stream that ends before `TransferEnd` gets the same progress messages as the written Install and then ends with the end-of-stream error, installing nothing, instead of waiting forever |
| `OsServer.FinalizeIntended` | gnoi/os/server.go:106-110 | corrected finish: after a validation error it sends the error payload after everything already sent, returns nil and installs nothing; a package is installed only when the validator reported no error, and then it behaves as written |
| `TargetHistory.History.PrepareTarget` | gnxi_tester/config/history.go:43-79 | the devices, the last target and the returned error are exactly those of `Prepare` applied to the old devices and last target |
| `TargetHistory.PrepareKeepsHistory` | gnxi_tester/config/history.go:48-51 | an empty name with a non-empty history succeeds and changes neither the map nor the last target |
| `TargetHistory.PrepareRejectsEmptyHistory` | gnxi_tester/config/history.go:44-53 | an empty name with an empty (or nil) history returns "No targets in history and no target specified" and changes nothing |
| `TargetHistory.PrepareRejectsIncompleteTarget` | gnxi_tester/config/history.go:54-57 | an unknown name with an empty address, CA or CA key returns "Device not found" and changes nothing |
| `TargetHistory.PrepareAddsTarget` | gnxi_tester/config/history.go:58-62 | an unknown name with all three fields adds exactly `Device{address, ca, caKey}` under that name |
| `TargetHistory.PrepareMergesTarget` | gnxi_tester/config/history.go:63-74 | for a known name each field is overwritten only by a non-empty argument, and the key set is unchanged |
| `TargetHistory.PrepareFrame` | gnxi_tester/config/history.go:54-77 | an error changes nothing. A success with a name makes it the last target, keeps every other entry, and adds no key but the name |
| `TargetHistory.PrepareIdempotent` | gnxi_tester/config/history.go:54-77 | applying the same update twice gives the same map, last target and result as applying it once |

## Left out

- Concurrency: the goroutine, the three channels and `select` (gnoi/os/server.go:87-105) are sequentialised as described above. Scheduling, context cancellation and concurrent calls on one manager are not modelled.
- gRPC plumbing: `Register` (gnoi/os/server.go:49-51), the `stream` object and the protobuf types beyond the message kinds above.
- `NewServer`'s seeding loop (gnoi/os/server.go:42-44): it calls `Install` with one argument, while line 110 passes two, so the file does not type-check as shown. Only the manager's construction is modelled.
- gnoi/os/server.go:108 has an unmatched `}`. The model reads the line as sending the validator's error payload.
- `mockos.ValidateOS` and the `Manager` type are not part of this model. The validator is an arbitrary function, and the manager keeps only the behaviour `server.go` relies on.
- The conversion `uint64(bb.Len())`: progress values are unbounded naturals, since a buffer cannot reach 2^64 bytes.
- Error text of transport errors: a failed read or send is a `TransportError` carrying an opaque reason.
- viper and persistence: `GetDevices`, `viper.Set` and `SetTarget`'s `viper.WriteConfig` (gnxi_tester/config/history.go:32-40, 76-77) become the two fields of `History`. A nil device map is the empty map. Write failures are not modelled.

## Findings

| source | as written | input that shows it | evidently intended | confidence | as-written member | corrected member |
|---|---|---|---|---|---|---|
| gnoi/os/server.go:106-110 | after `ValidateOS` returns an error, the error payload is sent and `manager.Install` is still called with the returned package; Install returns nil | `TransferRequest`, then `TransferEnd` right away, with a validator that rejects the empty buffer but returns a package | stop after sending the error payload, installing nothing | high; not executed | `OsServer.CommitAfterValidationFailure` | `OsServer.FinalizeIntended` |
| gnoi/os/server.go:119-121 | on `io.EOF` the receiver returns without a signal, so the coordinator's `select` waits forever | `TransferRequest`, then content messages, then end of stream | report the early end of stream as an error | high; not executed | `OsServer.BlockedOnEarlyEndOfStream` | `OsReceive.ReceiveIntended` |

`OsServer.Server.Install` models the code as written. The corrected definitions sit beside it and say how the written behaviour differs.
