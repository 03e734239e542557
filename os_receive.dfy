/**
 * The chunk receiver of the gNOI OS service (ReceiveOS in gnoi/os/server.go).
 *
 * The receiver runs as its own goroutine and talks to the Install coordinator
 * over three unbuffered channels. With one producer and unbuffered channels the
 * coordinator sees the signals in exactly the order they are sent, so the
 * receiver is modelled as a sequential method that turns the inbound stream
 * into the list of signals it sends.
 */
module OsReceive {

  /** Progress is reported after each content message that raises the count of whole chunks of this many bytes in the buffer. */
  const ChunkSize: nat := 1000000

  newtype byte = x: int | 0 <= x < 0x100

  /** The payload of one InstallRequest (a protobuf oneof; Unset is a message without one). */
  datatype Request =
    | TransferRequest(version: string)
    | TransferContent(data: seq<byte>)
    | TransferEnd
    | Unset

  /**
   * What one stream.Recv() call yields. The inbound stream is a sequence of these;
   * reading past its end is io.EOF.
   */
  datatype Recv = Received(request: Request) | RecvFailed(reason: string)

  /** The Go error values that reach a caller of Install. */
  datatype Error =
    | EndOfStream                 // io.EOF
    | TransportError(reason: string)
    | MissingTransferRequest      // "failed to receive TransferRequest"
    | UnknownRequestType          // "Unknown request type"

  /** One value sent on updateProgress, transferredOS or errorChan, respectively. */
  datatype Signal = Progress(size: nat) | Completed(buffer: seq<byte>) | Failed(err: Error)

  predicate IsContent(m: Recv) {
    m.Received? && m.request.TransferContent?
  }

  function ContentOf(m: Recv): seq<byte> {
    if IsContent(m) then m.request.data else []
  }

  /** The concatenation, in order, of the TransferContent payloads among `msgs`. */
  function Payloads(msgs: seq<Recv>): seq<byte> {
    if msgs == [] then [] else ContentOf(msgs[0]) + Payloads(msgs[1..])
  }

  /** The number of TransferContent messages at the head of `input`: the receiver's loop runs that many full rounds. */
  function LeadingContent(input: seq<Recv>): (k: nat)
    ensures k <= |input|
    ensures forall j :: 0 <= j < k ==> IsContent(input[j])
    ensures k < |input| ==> !IsContent(input[k])
  {
    if input == [] || !IsContent(input[0]) then 0 else 1 + LeadingContent(input[1..])
  }

  /** The buffer length once the first `m` messages have been read, starting from buffer `bb`. */
  function BufferLength(bb: seq<byte>, input: seq<Recv>, m: nat): nat
    requires m <= |input|
  {
    |bb| + |Payloads(input[..m])|
  }

  function ProgressCount(signals: seq<Signal>): nat {
    if signals == [] then 0 else (if signals[0].Progress? then 1 else 0) + ProgressCount(signals[1..])
  }

  /** The one signal the receiver sends before stopping on a message that is not TransferContent. */
  function TerminalSignal(m: Recv, bb: seq<byte>): Signal
    requires !IsContent(m)
  {
    match m
    case RecvFailed(reason) => Failed(TransportError(reason))
    case Received(TransferEnd) => Completed(bb)
    case Received(_) => Failed(UnknownRequestType)
  }

  /**
   * The signals the receiver sends when it reads `input` with buffer `bb` and
   * `prev` whole chunks already reported.
   */
  function Receive(input: seq<Recv>, bb: seq<byte>, prev: nat): seq<Signal> {
    if input == [] then []
    else if IsContent(input[0]) then
      var grown := bb + input[0].request.data;
      var curr := |grown| / ChunkSize;
      if curr > prev then [Progress(|grown|)] + Receive(input[1..], grown, curr)
      else Receive(input[1..], grown, prev)
    else [TerminalSignal(input[0], bb)]
  }

  /** ReceiveOS: drains the stream into a buffer, reporting progress, until a terminal event. */
  method ReceiveOS(input: seq<Recv>) returns (signals: seq<Signal>)
    ensures signals == Receive(input, [], 0)
  {
    var bb: seq<byte> := [];
    var prev: nat := 0;
    var i := 0;
    signals := [];
    while i < |input|
      invariant 0 <= i <= |input|
      invariant forall j :: 0 <= j < i ==> IsContent(input[j])
      invariant bb == Payloads(input[..i])
      invariant prev == |bb| / ChunkSize
      invariant signals + Receive(input[i..], bb, prev) == Receive(input, [], 0)
    {
      var m := input[i];
      if !IsContent(m) {
        ReceiveOSStops(input, i, bb, prev, signals);
        if m.RecvFailed? {
          signals := signals + [Failed(TransportError(m.reason))];
        } else if m.request.TransferEnd? {
          signals := signals + [Completed(bb)];
        } else {
          signals := signals + [Failed(UnknownRequestType)];
        }
        return;
      }
      ReceiveOSReads(input, i, bb, prev, signals);
      bb := bb + m.request.data;
      var curr := |bb| / ChunkSize;
      if curr > prev {
        prev := curr;
        signals := signals + [Progress(|bb|)];
      }
      i := i + 1;
    }
    assert input[i..] == [];
  }

  /** ReceiveOS's loop invariant is kept when it stops on a message that is not TransferContent. */
  lemma ReceiveOSStops(input: seq<Recv>, i: nat, bb: seq<byte>, prev: nat, signals: seq<Signal>)
    requires i < |input| && !IsContent(input[i])
    requires signals + Receive(input[i..], bb, prev) == Receive(input, [], 0)
    ensures signals + [TerminalSignal(input[i], bb)] == Receive(input, [], 0)
  {
    assert input[i..][0] == input[i];
  }

  /** ReceiveOS's loop invariant is kept by one round that reads a TransferContent message. */
  lemma ReceiveOSReads(input: seq<Recv>, i: nat, bb: seq<byte>, prev: nat, signals: seq<Signal>)
    requires i < |input| && IsContent(input[i])
    requires bb == Payloads(input[..i]) && prev == |bb| / ChunkSize
    requires signals + Receive(input[i..], bb, prev) == Receive(input, [], 0)
    ensures var grown := bb + input[i].request.data;
      var curr := |grown| / ChunkSize;
      && grown == Payloads(input[..i + 1])
      && prev <= curr
      && (if curr > prev then signals + [Progress(|grown|)] else signals) + Receive(input[i + 1..], grown, curr)
         == Receive(input, [], 0)
  {
    var unread := input[i..];
    assert unread[0] == input[i] && unread[1..] == input[i + 1..];
    var grown := bb + input[i].request.data;
    ReceiveContentStep(unread, bb, prev);
    DivMonotone(|bb|, |grown|);
    PayloadsSnoc(input[..i], input[i]);
    assert input[..i + 1] == input[..i] + [input[i]];
  }

  lemma DivMonotone(a: nat, b: nat)
    requires a <= b
    ensures a / ChunkSize <= b / ChunkSize
  {
  }

  lemma {:induction false} PayloadsSnoc(msgs: seq<Recv>, m: Recv)
    ensures Payloads(msgs + [m]) == Payloads(msgs) + ContentOf(m)
  {
    if msgs == [] {
      assert msgs + [m] == [m];
    } else {
      assert (msgs + [m])[1..] == msgs[1..] + [m];
      PayloadsSnoc(msgs[1..], m);
    }
  }

  lemma PayloadsStep(input: seq<Recv>, m: nat)
    requires 1 <= m <= |input|
    ensures Payloads(input[..m]) == ContentOf(input[0]) + Payloads(input[1..][..m - 1])
  {
    assert input[..m][1..] == input[1..][..m - 1];
  }

  /** Reading one content message first: the buffer length after `m` messages, seen from the rest of the stream. */
  lemma BufferLengthStep(bb: seq<byte>, input: seq<Recv>, m: nat)
    requires 1 <= m <= |input| && IsContent(input[0])
    ensures BufferLength(bb, input, m) == BufferLength(bb + input[0].request.data, input[1..], m - 1)
  {
    PayloadsStep(input, m);
  }

  /** One step of Receive on a content message, with the chunk counter written as |grown| / ChunkSize in both branches. */
  lemma ReceiveContentStep(input: seq<Recv>, bb: seq<byte>, prev: nat)
    requires prev == |bb| / ChunkSize
    requires input != [] && IsContent(input[0])
    ensures var grown := bb + input[0].request.data;
      Receive(input, bb, prev) ==
        (if |grown| / ChunkSize > prev then [Progress(|grown|)] else []) + Receive(input[1..], grown, |grown| / ChunkSize)
  {
    DivMonotone(|bb|, |bb + input[0].request.data|);
  }

  /** Every signal but the last is a progress report: at most one terminal signal, and it ends the list. */
  predicate TerminalOnlyLast(s: seq<Signal>) {
    forall j :: 0 <= j < |s| - 1 ==> s[j].Progress?
  }

  lemma {:induction false} ReceiveShape(input: seq<Recv>, bb: seq<byte>, prev: nat)
    ensures TerminalOnlyLast(Receive(input, bb, prev))
  {
    if input != [] && IsContent(input[0]) {
      var grown := bb + input[0].request.data;
      var curr := |grown| / ChunkSize;
      var s := Receive(input, bb, prev);
      if curr > prev {
        var s' := Receive(input[1..], grown, curr);
        ReceiveShape(input[1..], grown, curr);
        assert s == [Progress(|grown|)] + s';
        forall j | 0 <= j < |s| - 1 ensures s[j].Progress? {
          if j > 0 {
            assert s[j] == s'[j - 1];
          }
        }
      } else {
        assert s == Receive(input[1..], grown, prev);
        ReceiveShape(input[1..], grown, prev);
      }
    }
  }

  /**
   * The first message that is not TransferContent decides the one terminal
   * signal, which carries the buffer of all payloads before it.
   */
  lemma {:induction false} ReceiveTerminal(input: seq<Recv>, bb: seq<byte>, prev: nat)
    requires LeadingContent(input) < |input|
    ensures var s := Receive(input, bb, prev); var k := LeadingContent(input);
      |s| > 0 && s[|s| - 1] == TerminalSignal(input[k], bb + Payloads(input[..k]))
  {
    if !IsContent(input[0]) {
      assert input[..0] == [];
    } else {
      var rest := input[1..];
      var data := input[0].request.data;
      var grown := bb + data;
      var k := LeadingContent(input);
      var curr := |grown| / ChunkSize;
      var prev' := if curr > prev then curr else prev;
      ReceiveTerminal(rest, grown, prev');
      PayloadsStep(input, k);
      assert rest[k - 1] == input[k];
      assert bb + Payloads(input[..k]) == grown + Payloads(rest[..k - 1]);
      var s' := Receive(rest, grown, prev');
      if curr > prev {
        assert Receive(input, bb, prev) == [Progress(|grown|)] + s';
      } else {
        assert Receive(input, bb, prev) == s';
      }
    }
  }

  /** A stream that ends (io.EOF) before any other message gets no terminal signal: only progress reports. */
  predicate OnlyProgress(s: seq<Signal>) {
    forall j :: 0 <= j < |s| ==> s[j].Progress?
  }

  lemma {:induction false} ReceiveSilentAtEndOfStream(input: seq<Recv>, bb: seq<byte>, prev: nat)
    requires LeadingContent(input) == |input|
    ensures OnlyProgress(Receive(input, bb, prev))
  {
    if input != [] {
      var grown := bb + input[0].request.data;
      var curr := |grown| / ChunkSize;
      var prev' := if curr > prev then curr else prev;
      var s' := Receive(input[1..], grown, prev');
      var s := Receive(input, bb, prev);
      ReceiveSilentAtEndOfStream(input[1..], grown, prev');
      if curr > prev {
        assert s == [Progress(|grown|)] + s';
        forall j | 0 <= j < |s| ensures s[j].Progress? {
          if j > 0 {
            assert s[j] == s'[j - 1];
          }
        }
      } else {
        assert s == s';
      }
    }
  }

  /**
   * A progress report of `size` fits message `m`: `size` is the buffer length
   * right after the m-th message, and that message raised the count of whole chunks.
   */
  predicate ReportedAt(bb: seq<byte>, input: seq<Recv>, m: nat, size: nat) {
    && 1 <= m <= LeadingContent(input)
    && size == BufferLength(bb, input, m)
    && BufferLength(bb, input, m - 1) / ChunkSize < BufferLength(bb, input, m) / ChunkSize
  }

  lemma ReportedAtStep(bb: seq<byte>, input: seq<Recv>, m: nat, size: nat)
    requires input != [] && IsContent(input[0])
    requires ReportedAt(bb + input[0].request.data, input[1..], m, size)
    ensures ReportedAt(bb, input, m + 1, size)
  {
    BufferLengthStep(bb, input, m + 1);
    BufferLengthStep(bb, input, m);
  }

  /** Each progress value is the buffer length right after a content message that raised the count of whole chunks. */
  lemma {:induction false} ReceiveProgressValues(input: seq<Recv>, bb: seq<byte>, prev: nat)
    requires prev == |bb| / ChunkSize
    ensures var s := Receive(input, bb, prev);
      forall j :: 0 <= j < |s| && s[j].Progress? ==> exists m :: ReportedAt(bb, input, m, s[j].size)
  {
    if input != [] && IsContent(input[0]) {
      var rest := input[1..];
      var grown := bb + input[0].request.data;
      var curr := |grown| / ChunkSize;
      var fired := curr > prev;
      ReceiveContentStep(input, bb, prev);
      ReceiveProgressValues(rest, grown, curr);
      var s := Receive(input, bb, prev);
      var s' := Receive(rest, grown, curr);
      assert s == (if fired then [Progress(|grown|)] else []) + s';
      forall j | 0 <= j < |s| && s[j].Progress?
        ensures exists m :: ReportedAt(bb, input, m, s[j].size)
      {
        if fired && j == 0 {
          BufferLengthStep(bb, input, 1);
          assert input[..0] == [];
          assert ReportedAt(bb, input, 1, s[j].size);
        } else {
          var j' := if fired then j - 1 else j;
          assert s[j] == s'[j'];
          var m' :| ReportedAt(grown, rest, m', s'[j'].size);
          ReportedAtStep(bb, input, m', s[j].size);
        }
      }
    }
  }

  /** Every progress signal in `s` stands for more than `units` whole chunks. */
  predicate ProgressBeyond(s: seq<Signal>, units: nat) {
    forall j :: 0 <= j < |s| && s[j].Progress? ==> units < s[j].size / ChunkSize
  }

  /** Progress values in `s` strictly increase, and so does the number of whole chunks they stand for. */
  predicate ProgressIncreasing(s: seq<Signal>) {
    forall j, l :: 0 <= j < l < |s| && s[j].Progress? && s[l].Progress? ==>
      s[j].size / ChunkSize < s[l].size / ChunkSize && s[j].size < s[l].size
  }

  lemma {:induction false} ReceiveProgressBeyond(input: seq<Recv>, bb: seq<byte>, prev: nat)
    requires prev == |bb| / ChunkSize
    ensures ProgressBeyond(Receive(input, bb, prev), prev)
  {
    if input != [] && IsContent(input[0]) {
      var rest := input[1..];
      var grown := bb + input[0].request.data;
      var curr := |grown| / ChunkSize;
      ReceiveContentStep(input, bb, prev);
      ReceiveProgressBeyond(rest, grown, curr);
      var s := Receive(input, bb, prev);
      var s' := Receive(rest, grown, curr);
      if curr > prev {
        assert s == [Progress(|grown|)] + s';
        forall j | 0 <= j < |s| && s[j].Progress? ensures prev < s[j].size / ChunkSize {
          if j > 0 {
            assert s[j] == s'[j - 1];
          }
        }
      } else {
        assert s == s';
      }
    }
  }

  /** Progress values strictly increase, and so does the number of whole chunks they stand for. */
  lemma {:induction false} ReceiveProgressIncreasing(input: seq<Recv>, bb: seq<byte>, prev: nat)
    requires prev == |bb| / ChunkSize
    ensures ProgressIncreasing(Receive(input, bb, prev))
  {
    if input != [] && IsContent(input[0]) {
      var rest := input[1..];
      var grown := bb + input[0].request.data;
      var curr := |grown| / ChunkSize;
      ReceiveContentStep(input, bb, prev);
      ReceiveProgressIncreasing(rest, grown, curr);
      var s := Receive(input, bb, prev);
      var s' := Receive(rest, grown, curr);
      if curr > prev {
        ReceiveProgressBeyond(rest, grown, curr);
        assert s == [Progress(|grown|)] + s';
        forall j, l | 0 <= j < l < |s| && s[j].Progress? && s[l].Progress?
          ensures s[j].size / ChunkSize < s[l].size / ChunkSize && s[j].size < s[l].size
        {
          assert s[l] == s'[l - 1];
          if j > 0 {
            assert s[j] == s'[j - 1];
          }
          DivStrict(s[j].size, s[l].size);
        }
      } else {
        assert s == s';
      }
    }
  }

  lemma DivStrict(a: nat, b: nat)
    requires a / ChunkSize < b / ChunkSize
    ensures a < b
  {
  }

  /** No crossing goes unreported: a content message that raises the count of whole chunks always yields a progress signal. */
  lemma {:induction false} ReceiveProgressComplete(input: seq<Recv>, bb: seq<byte>, prev: nat)
    requires prev == |bb| / ChunkSize
    ensures forall m ::
      (1 <= m <= LeadingContent(input) &&
       BufferLength(bb, input, m - 1) / ChunkSize < BufferLength(bb, input, m) / ChunkSize) ==>
        Progress(BufferLength(bb, input, m)) in Receive(input, bb, prev)
  {
    if input != [] && IsContent(input[0]) {
      var rest := input[1..];
      var grown := bb + input[0].request.data;
      var curr := |grown| / ChunkSize;
      ReceiveContentStep(input, bb, prev);
      ReceiveProgressComplete(rest, grown, curr);
      var s := Receive(input, bb, prev);
      var s' := Receive(rest, grown, curr);
      assert s == (if curr > prev then [Progress(|grown|)] else []) + s';
      forall m | 1 <= m <= LeadingContent(input) &&
        BufferLength(bb, input, m - 1) / ChunkSize < BufferLength(bb, input, m) / ChunkSize
        ensures Progress(BufferLength(bb, input, m)) in s
      {
        BufferLengthStep(bb, input, m);
        if m == 1 {
          assert input[..0] == [];
        } else {
          BufferLengthStep(bb, input, m - 1);
          assert Progress(BufferLength(grown, rest, m - 1)) in s';
        }
      }
    }
  }

  /** The number of progress signals never exceeds the whole chunks in the bytes received. */
  lemma {:induction false} ReceiveProgressBound(input: seq<Recv>, bb: seq<byte>, prev: nat)
    requires prev == |bb| / ChunkSize
    ensures prev + ProgressCount(Receive(input, bb, prev)) <= BufferLength(bb, input, LeadingContent(input)) / ChunkSize
  {
    if input == [] || !IsContent(input[0]) {
      assert input[..0] == [];
    } else {
      var rest := input[1..];
      var grown := bb + input[0].request.data;
      var curr := |grown| / ChunkSize;
      ReceiveContentStep(input, bb, prev);
      ReceiveProgressBound(rest, grown, curr);
      BufferLengthStep(bb, input, LeadingContent(input));
      var s' := Receive(rest, grown, curr);
      if curr > prev {
        assert ([Progress(|grown|)] + s')[1..] == s';
      }
    }
  }

  /**
   * One content message that crosses several multiples of ChunkSize yields a
   * single progress signal; so the count of signals is not the number of whole chunks.
   */
  lemma SingleProgressForLargeMessage(data: seq<byte>)
    requires |data| == 2 * ChunkSize
    ensures Receive([Received(TransferContent(data)), Received(TransferEnd)], [], 0) ==
      [Progress(2 * ChunkSize), Completed(data)]
  {
    var input := [Received(TransferContent(data)), Received(TransferEnd)];
    assert input[1..] == [Received(TransferEnd)];
    assert ([] + data) == data;
    assert |data| / ChunkSize == 2;
    assert Receive(input[1..], data, 2) == [Completed(data)];
  }

  /**
   * The receiver as evidently intended: a stream that ends before TransferEnd
   * is reported as an error, so exactly one terminal signal is always sent.
   */
  function ReceiveIntended(input: seq<Recv>): (s: seq<Signal>)
    ensures |s| > 0 && !s[|s| - 1].Progress?
    ensures TerminalOnlyLast(s)
    ensures LeadingContent(input) < |input| ==> s == Receive(input, [], 0)
    ensures LeadingContent(input) == |input| ==> s == Receive(input, [], 0) + [Failed(EndOfStream)]
  {
    ReceiveShape(input, [], 0);
    var received := Receive(input, [], 0);
    if LeadingContent(input) < |input| then
      ReceiveTerminal(input, [], 0);
      received
    else
      ReceiveSilentAtEndOfStream(input, [], 0);
      received + [Failed(EndOfStream)]
  }
}
