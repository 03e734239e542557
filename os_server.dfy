/**
 * The gNOI OS service (gnoi/os/server.go): Install, the streaming exchange that
 * receives an OS package, validates it and installs it, and Activate, which
 * selects the version to run after the next reboot.
 *
 * Install's goroutine and channels become a call to ReceiveOS followed by a loop
 * over the signals it returns, which is the order the coordinator's select sees
 * them in. The validator (mockos.ValidateOS) is a function parameter, and the
 * outbound stream is the list of messages handed to stream.Send.
 */
module OsServer {
  import opened Wrappers
  import opened OsReceive
  import opened OsManager

  /** The payload of one InstallResponse. */
  datatype Response =
    | Validated(version: string)
    | TransferReady
    | TransferProgress(bytesReceived: nat)
    | ErrorResponse(detail: string)    // the validator's error payload

  /** The parsed package: its version and the message its activation is expected to fail with. */
  datatype Package = Package(version: string, activationFailMessage: string)

  /**
   * What mockos.ValidateOS returns: the package pointer (None is nil) and, when
   * the package is rejected, the error payload to send.
   */
  datatype Validation = Validation(os: Option<Package>, failure: Option<string>)

  /** How one Install call ends. */
  datatype Outcome =
    | Returned(err: Option<Error>)   // Install returns; None is a nil error
    | Blocked                        // the select waits forever: the receiver stopped without a signal
    | Panicked                       // nil dereference of the validator's package at the manager.Install call

  /** The messages sent, how the call ended, and the package handed to manager.Install, if any. */
  datatype Exchange = Exchange(sent: seq<Response>, outcome: Outcome, committed: Option<Package>)

  datatype ActivateErrorType = NonExistentVersion

  datatype ActivateResponse = ActivateOk | ActivateError(errorType: ActivateErrorType)

  /** The messages Install sends before receiving: Validated when the version is already installed, then TransferReady. */
  function Opening(version: string, installed: set<string>): seq<Response> {
    (if version in installed then [Validated(version)] else []) + [TransferReady]
  }

  /** No send of the opening messages fails; the i-th Send call fails when i is in `sendErrors`. */
  predicate OpeningDelivered(version: string, installed: set<string>, sendErrors: map<nat, string>) {
    forall i: nat :: i < |Opening(version, installed)| ==> i !in sendErrors
  }

  /** The TransferProgress messages for the progress signals in `signals`, in order. */
  function ProgressMessages(signals: seq<Signal>): seq<Response> {
    if signals == [] then []
    else (if signals[0].Progress? then [TransferProgress(signals[0].size)] else []) + ProgressMessages(signals[1..])
  }

  /** The end of Install once the buffer is complete, as written: the package is installed even after a validation error. */
  function Finalize(sent: seq<Response>, v: Validation): Exchange {
    var sent' := if v.failure.Some? then sent + [ErrorResponse(v.failure.value)] else sent;
    match v.os
    case None => Exchange(sent', Panicked, None)
    case Some(pkg) => Exchange(sent', Returned(None), Some(pkg))
  }

  /** How the select loop acts on the receiver's terminal signal. */
  function Conclude(sent: seq<Response>, signal: Signal, validate: seq<byte> -> Validation): Exchange
    requires !signal.Progress?
  {
    match signal
    case Failed(e) => Exchange(sent, Returned(Some(e)), None)
    case Completed(bb) => Finalize(sent, validate(bb))
  }

  /** The coordinator's select loop over the receiver's signals, after `sent` has gone out. */
  function Relay(sent: seq<Response>, signals: seq<Signal>, validate: seq<byte> -> Validation): Exchange
    decreases signals
  {
    if signals == [] then Exchange(sent, Blocked, None)
    else if signals[0].Progress? then Relay(sent + [TransferProgress(signals[0].size)], signals[1..], validate)
    else Conclude(sent, signals[0], validate)
  }

  /**
   * The whole Install exchange for a manager whose installed versions are
   * `installed`, an inbound stream `input`, failing Send calls `sendErrors`
   * and the validator `validate`.
   */
  function InstallExchange(installed: set<string>, input: seq<Recv>, sendErrors: map<nat, string>,
                           validate: seq<byte> -> Validation): Exchange
  {
    if input == [] then Exchange([], Returned(Some(EndOfStream)), None)
    else match input[0]
      case RecvFailed(reason) => Exchange([], Returned(Some(TransportError(reason))), None)
      case Received(request) =>
        if !request.TransferRequest? then Exchange([], Returned(Some(MissingTransferRequest)), None)
        else
          var version := request.version;
          if version in installed && 0 in sendErrors then
            Exchange([Validated(version)], Returned(Some(TransportError(sendErrors[0]))), None)
          else
            var opening := Opening(version, installed);
            var last := |opening| - 1;
            if last in sendErrors then Exchange(opening, Returned(Some(TransportError(sendErrors[last]))), None)
            else Relay(opening, Receive(input[1..], [], 0), validate)
  }

  class Server {
    const manager: Manager

    constructor (manager: Manager)
      ensures this.manager == manager
    {
      this.manager := manager;
    }

    /** Activate: a version that is not installed is a structured NON_EXISTENT_VERSION reply, never a call error. */
    method Activate(version: string) returns (response: ActivateResponse, err: Option<Error>)
      requires manager.Valid()
      modifies manager
      ensures manager.Valid()
      ensures err == None
      ensures response == if old(manager.IsInstalled(version)) then ActivateOk else ActivateError(NonExistentVersion)
      ensures manager.installed == old(manager.installed)
      ensures manager.running == if old(manager.IsInstalled(version)) then version else old(manager.running)
    {
      var setRunningErr := manager.SetRunning(version);
      if setRunningErr.Some? {
        return ActivateError(NonExistentVersion), None;
      }
      return ActivateOk, None;
    }

    /** Install: receives, validates and installs an OS package over one streaming exchange. */
    method Install(input: seq<Recv>, sendErrors: map<nat, string>, validate: seq<byte> -> Validation)
      returns (sent: seq<Response>, outcome: Outcome)
      requires manager.Valid()
      modifies manager
      ensures manager.Valid()
      ensures var x := InstallExchange(old(manager.Versions()), input, sendErrors, validate);
        && sent == x.sent && outcome == x.outcome
        && manager.installed == (
             if x.committed.Some?
             then old(manager.installed)[x.committed.value.version := x.committed.value.activationFailMessage]
             else old(manager.installed))
        && manager.running == old(manager.running)
    {
      ghost var installed := manager.Versions();
      sent := [];
      if |input| == 0 {
        return sent, Returned(Some(EndOfStream));
      }
      var first := input[0];
      if first.RecvFailed? {
        return sent, Returned(Some(TransportError(first.reason)));
      }
      if !first.request.TransferRequest? {
        return sent, Returned(Some(MissingTransferRequest));
      }
      var version := first.request.version;
      if manager.IsInstalled(version) {
        sent := sent + [Validated(version)];
        if 0 in sendErrors {
          return sent, Returned(Some(TransportError(sendErrors[0])));
        }
      }
      sent := sent + [TransferReady];
      if |sent| - 1 in sendErrors {
        return sent, Returned(Some(TransportError(sendErrors[|sent| - 1])));
      }
      assert sent == Opening(version, installed);

      var signals := ReceiveOS(input[1..]);
      var i := 0;
      while i < |signals| && !signals[i].Completed?
        invariant 0 <= i <= |signals|
        invariant Relay(sent, signals[i..], validate) == InstallExchange(installed, input, sendErrors, validate)
      {
        assert signals[i..][0] == signals[i] && signals[i..][1..] == signals[i + 1..];
        if signals[i].Failed? {
          return sent, Returned(Some(signals[i].err));
        }
        sent := sent + [TransferProgress(signals[i].size)];
        i := i + 1;
      }
      if i == |signals| {
        // The receiver returned at io.EOF without a signal: the select never completes.
        return sent, Blocked;
      }
      assert signals[i..][0] == signals[i];
      var validation := validate(signals[i].buffer);
      if validation.failure.Some? {
        sent := sent + [ErrorResponse(validation.failure.value)];
      }
      if validation.os.None? {
        return sent, Panicked;
      }
      manager.Install(validation.os.value.version, validation.os.value.activationFailMessage);
      return sent, Returned(None);
    }
  }

  /** Without a terminal signal the select loop relays every progress value in order and then waits forever. */
  lemma {:induction false} RelayBlocked(sent: seq<Response>, signals: seq<Signal>, validate: seq<byte> -> Validation)
    requires OnlyProgress(signals)
    decreases signals
    ensures Relay(sent, signals, validate) == Exchange(sent + ProgressMessages(signals), Blocked, None)
  {
    if signals != [] {
      var rest := signals[1..];
      assert OnlyProgress(rest) by {
        forall j | 0 <= j < |rest| ensures rest[j].Progress? {
          assert rest[j] == signals[j + 1];
        }
      }
      var sent' := sent + [TransferProgress(signals[0].size)];
      RelayBlocked(sent', rest, validate);
      assert sent' + ProgressMessages(rest) == sent + ProgressMessages(signals);
    }
  }

  /**
   * The select loop relays every progress value in order as TransferProgress and
   * then acts on the receiver's terminal signal.
   */
  lemma {:induction false} RelayConcludes(sent: seq<Response>, signals: seq<Signal>, validate: seq<byte> -> Validation)
    requires TerminalOnlyLast(signals)
    requires signals != [] && !signals[|signals| - 1].Progress?
    decreases signals
    ensures Relay(sent, signals, validate) == Conclude(sent + ProgressMessages(signals), signals[|signals| - 1], validate)
  {
    if |signals| == 1 {
      assert ProgressMessages(signals) == [];
    } else {
      assert signals[0].Progress?;
      var rest := signals[1..];
      assert TerminalOnlyLast(rest) by {
        forall j | 0 <= j < |rest| - 1 ensures rest[j].Progress? {
          assert rest[j] == signals[j + 1];
        }
      }
      assert rest[|rest| - 1] == signals[|signals| - 1];
      var sent' := sent + [TransferProgress(signals[0].size)];
      RelayConcludes(sent', rest, validate);
      assert sent' + ProgressMessages(rest) == sent + ProgressMessages(signals);
    }
  }

  /** The select loop only appends to what was already sent. */
  lemma {:induction false} RelayExtends(sent: seq<Response>, signals: seq<Signal>, validate: seq<byte> -> Validation)
    decreases signals
    ensures sent <= Relay(sent, signals, validate).sent
  {
    if signals != [] && signals[0].Progress? {
      RelayExtends(sent + [TransferProgress(signals[0].size)], signals[1..], validate);
    }
  }

  /** A first read that fails or carries no TransferRequest ends Install with an error, nothing sent and nothing installed. */
  lemma InstallRejectsMissingRequest(installed: set<string>, input: seq<Recv>, sendErrors: map<nat, string>,
                                     validate: seq<byte> -> Validation)
    requires input == [] || input[0].RecvFailed? || !input[0].request.TransferRequest?
    ensures var x := InstallExchange(installed, input, sendErrors, validate);
      && x.sent == []
      && x.committed == None
      && x.outcome == Returned(Some(
           if input == [] then EndOfStream
           else if input[0].RecvFailed? then TransportError(input[0].reason)
           else MissingTransferRequest))
  {
  }

  /**
   * The first message sent is Validated exactly when the version is already
   * installed; the opening is followed through unless one of its sends fails,
   * and a failed send ends the call at once with that error.
   */
  lemma InstallOpening(installed: set<string>, input: seq<Recv>, sendErrors: map<nat, string>,
                       validate: seq<byte> -> Validation)
    requires |input| > 0 && input[0].Received? && input[0].request.TransferRequest?
    ensures var version := input[0].request.version;
      var x := InstallExchange(installed, input, sendErrors, validate);
      var opening := Opening(version, installed);
      && |x.sent| > 0
      && (x.sent[0] == Validated(version) <==> version in installed)
      && (OpeningDelivered(version, installed, sendErrors) ==> opening <= x.sent)
      && (!OpeningDelivered(version, installed, sendErrors) ==>
            && x.sent <= opening
            && |x.sent| - 1 in sendErrors
            && (forall i :: 0 <= i < |x.sent| - 1 ==> i !in sendErrors)
            && x.outcome == Returned(Some(TransportError(sendErrors[|x.sent| - 1])))
            && x.committed == None)
  {
    var version := input[0].request.version;
    var opening := Opening(version, installed);
    if OpeningDelivered(version, installed, sendErrors) {
      assert 0 !in sendErrors && |opening| - 1 !in sendErrors;
      RelayExtends(opening, Receive(input[1..], [], 0), validate);
    } else {
      var i: nat :| i < |opening| && i in sendErrors;
    }
  }

  /**
   * Once the opening is out, Install relays the receiver's progress values in
   * order and ends as the first non-content message decides: TransferEnd hands
   * the concatenated payloads to the validator; a read error or an unknown
   * payload ends the call with that error and installs nothing; io.EOF leaves
   * the coordinator waiting forever.
   */
  lemma InstallAfterOpening(installed: set<string>, input: seq<Recv>, sendErrors: map<nat, string>,
                            validate: seq<byte> -> Validation)
    requires |input| > 0 && input[0].Received? && input[0].request.TransferRequest?
    requires OpeningDelivered(input[0].request.version, installed, sendErrors)
    ensures var x := InstallExchange(installed, input, sendErrors, validate);
      var rest := input[1..];
      var k := LeadingContent(rest);
      var relayed := Opening(input[0].request.version, installed) + ProgressMessages(Receive(rest, [], 0));
      && (k == |rest| ==> x == Exchange(relayed, Blocked, None))
      && (k < |rest| && rest[k] == Received(TransferEnd) ==> x == Finalize(relayed, validate(Payloads(rest[..k]))))
      && (k < |rest| && rest[k].RecvFailed? ==>
            x == Exchange(relayed, Returned(Some(TransportError(rest[k].reason))), None))
      && (k < |rest| && rest[k].Received? && rest[k] != Received(TransferEnd) ==>
            x == Exchange(relayed, Returned(Some(UnknownRequestType)), None))
  {
    var version := input[0].request.version;
    var opening := Opening(version, installed);
    assert 0 !in sendErrors && |opening| - 1 !in sendErrors;
    var rest := input[1..];
    var k := LeadingContent(rest);
    if k < |rest| {
      ReceiveShape(rest, [], 0);
      ReceiveTerminal(rest, [], 0);
      assert [] + Payloads(rest[..k]) == Payloads(rest[..k]);
      RelayConcludes(opening, Receive(rest, [], 0), validate);
    } else {
      ReceiveSilentAtEndOfStream(rest, [], 0);
      RelayBlocked(opening, Receive(rest, [], 0), validate);
    }
  }

  /**
   * As written: the package is installed even though the validator rejected it,
   * after its error payload has been sent.
   */
  lemma CommitAfterValidationFailure(installed: set<string>, version: string, validate: seq<byte> -> Validation)
    requires validate([]).failure.Some? && validate([]).os.Some?
    ensures var x := InstallExchange(installed, [Received(TransferRequest(version)), Received(TransferEnd)], map[], validate);
      && x.outcome == Returned(None)
      && ErrorResponse(validate([]).failure.value) in x.sent
      && x.committed == validate([]).os
  {
    var input := [Received(TransferRequest(version)), Received(TransferEnd)];
    assert input[1..] == [Received(TransferEnd)];
    assert Receive(input[1..], [], 0) == [Completed([])];
  }

  /**
   * As written: a stream that ends (io.EOF) before TransferEnd leaves Install
   * waiting forever, with nothing installed.
   */
  lemma BlockedOnEarlyEndOfStream(installed: set<string>, input: seq<Recv>, sendErrors: map<nat, string>,
                                  validate: seq<byte> -> Validation)
    requires |input| > 0 && input[0].Received? && input[0].request.TransferRequest?
    requires OpeningDelivered(input[0].request.version, installed, sendErrors)
    requires forall j :: 1 <= j < |input| ==> IsContent(input[j])
    ensures InstallExchange(installed, input, sendErrors, validate).outcome == Blocked
    ensures InstallExchange(installed, input, sendErrors, validate).committed == None
  {
    var rest := input[1..];
    var k := LeadingContent(rest);
    if k < |rest| {
      assert false;
    }
    InstallAfterOpening(installed, input, sendErrors, validate);
  }

  /** Appending a signal appends its relayed message, if any. */
  lemma {:induction false} ProgressMessagesSnoc(signals: seq<Signal>, last: Signal)
    decreases signals
    ensures ProgressMessages(signals + [last])
      == ProgressMessages(signals) + (if last.Progress? then [TransferProgress(last.size)] else [])
  {
    if signals != [] {
      assert (signals + [last])[1..] == signals[1..] + [last];
      ProgressMessagesSnoc(signals[1..], last);
    } else {
      assert signals + [last] == [last] && [last][1..] == [];
    }
  }

  /**
   * With the evidently intended receiver, a stream that ends before TransferEnd
   * no longer blocks: after the same progress messages the written Install
   * sends, the call returns the end-of-stream error and installs nothing.
   */
  lemma EndOfStreamReported(opening: seq<Response>, rest: seq<Recv>, validate: seq<byte> -> Validation)
    requires LeadingContent(rest) == |rest|
    ensures Relay(opening, ReceiveIntended(rest), validate)
      == Exchange(Relay(opening, Receive(rest, [], 0), validate).sent, Returned(Some(EndOfStream)), None)
  {
    var received := Receive(rest, [], 0);
    ReceiveSilentAtEndOfStream(rest, [], 0);
    RelayBlocked(opening, received, validate);
    ProgressMessagesSnoc(received, Failed(EndOfStream));
    RelayConcludes(opening, ReceiveIntended(rest), validate);
  }

  /**
   * The end of Install as evidently intended: after a validation error nothing
   * is installed; otherwise it behaves as written.
   */
  function FinalizeIntended(sent: seq<Response>, v: Validation): (x: Exchange)
    ensures x.committed.Some? ==> v.failure.None? && x.committed == v.os
    ensures v.failure.Some? ==> x.committed == None && x.outcome == Returned(None)
    ensures v.failure.Some? ==> x.sent == sent + [ErrorResponse(v.failure.value)]
    ensures v.failure.None? ==> x == Finalize(sent, v)
  {
    if v.failure.Some? then Exchange(sent + [ErrorResponse(v.failure.value)], Returned(None), None)
    else Finalize(sent, v)
  }
}
