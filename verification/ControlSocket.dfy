/**
 * One request on the control socket under one deadline: a non-blocking socket connects,
 * takes the request frame and hands out the reply in pieces of any size, each after a
 * wait for readiness. Clock readings (in nanoseconds) and the socket's behaviour come
 * from the environment, one `Attempt` per turn of a loop. The clock is read before a wait
 * and never between a wait and the I/O behind it.
 */
module ControlSocket {
  import opened Basics
  import opened RowReader
  import RegistryTable

  const MILLISECOND: nat := 1_000_000

  const I32_MAX: nat := 0x7FFF_FFFF

  /** How a wait ends: interrupted by a signal, ready, or timed out or failed. */
  datatype Wait = Interrupted | Ready | GivenUp

  /** One turn: the clock before the wait, how and when the wait ends, and what the socket then does. */
  datatype Attempt<IO> = Attempt(at: nat, wait: Wait, returned: nat, io: IO)

  /** How `connect` answers, and what the socket's error status says after a wait. */
  datatype Connect = Connected | InProgress | Refused

  datatype WriteStep = WouldBlock | Took(count: nat) | WriteFailed

  /** An empty chunk is the end of the stream. */
  datatype ReadStep = NotReady | Chunk(bytes: Bytes) | ReadFailed

  /** What was done when: a wait with its timeout in milliseconds, or I/O that moved some bytes. */
  datatype Action = Waited(at: nat, timeout: nat, returned: nat) | Moved(at: nat, count: nat)

  /** The socket operations that are reached before a wait fails or the deadline has come. */
  function Usable<IO>(attempts: seq<Attempt<IO>>, deadline: nat): seq<IO> {
    if attempts == [] || attempts[0].at >= deadline then []
    else match attempts[0].wait
      case Interrupted => Usable(attempts[1..], deadline)
      case Ready => [attempts[0].io] + Usable(attempts[1..], deadline)
      case GivenUp => []
  }

  /** How many of `left` bytes the socket takes. */
  function Written(steps: seq<WriteStep>, left: nat): (n: nat)
    ensures n <= left
  {
    if steps == [] || left == 0 then 0
    else match steps[0]
      case WouldBlock => Written(steps[1..], left)
      case Took(count) =>
        if count == 0 then 0
        else if count >= left then left
        else count + Written(steps[1..], left - count)
      case WriteFailed => 0
  }

  /** The bytes the socket hands out before it fails or ends. */
  function Stream(steps: seq<ReadStep>): Bytes {
    if steps == [] then []
    else match steps[0]
      case NotReady => Stream(steps[1..])
      case Chunk(bytes) => if bytes == [] then [] else bytes + Stream(steps[1..])
      case ReadFailed => []
  }

  /** No wait starts at or after the deadline or is asked to outlast it; I/O starts when its wait returned. */
  predicate PacedAt(trace: seq<Action>, k: nat, deadline: nat)
    requires k < |trace|
  {
    match trace[k]
    case Waited(at, timeout, _) => at < deadline && timeout == Timeout(at, deadline)
    case Moved(at, _) => k > 0 && trace[k - 1].Waited? && trace[k - 1].returned == at
  }

  predicate Paced(trace: seq<Action>, deadline: nat) {
    forall k | 0 <= k < |trace| :: PacedAt(trace, k, deadline)
  }

  /** Every wait was one of these turns. */
  predicate Drawn<IO>(trace: seq<Action>, attempts: seq<Attempt<IO>>) {
    forall k | 0 <= k < |trace| && trace[k].Waited? :: Turn(attempts, trace[k].at, trace[k].returned)
  }

  predicate Turn<IO>(attempts: seq<Attempt<IO>>, at: nat, returned: nat) {
    exists i | 0 <= i < |attempts| :: attempts[i].at == at && attempts[i].returned == returned
  }

  function Total(trace: seq<Action>): nat {
    if trace == [] then 0
    else Total(trace[..|trace| - 1]) + (match trace[|trace| - 1] case Moved(_, count) => count case Waited(_, _, _) => 0)
  }

  lemma {:induction false} TotalAppend(trace: seq<Action>, a: Action)
    ensures Total(trace + [a]) == Total(trace) + (match a case Moved(_, count) => count case Waited(_, _, _) => 0)
  {
    assert (trace + [a])[..|trace|] == trace;
  }

  lemma {:induction false} UsableStep<IO>(attempts: seq<Attempt<IO>>, i: nat, deadline: nat)
    requires i < |attempts| && attempts[i].at < deadline
    ensures Usable(attempts[i..], deadline) ==
      match attempts[i].wait
      case Interrupted => Usable(attempts[i + 1..], deadline)
      case Ready => [attempts[i].io] + Usable(attempts[i + 1..], deadline)
      case GivenUp => []
  {
    assert attempts[i..][1..] == attempts[i + 1..];
  }

  /** How many of `left` bytes one write takes. */
  function Taken(io: WriteStep, left: nat): nat {
    match io
    case Took(count) => if count < left then count else left
    case _ => 0
  }

  predicate GoesOn(io: WriteStep) {
    io.WouldBlock? || (io.Took? && io.count > 0)
  }

  /** After `offset` bytes the given steps are still to come. */
  predicate Sends(all: seq<WriteStep>, length: nat, steps: seq<WriteStep>, offset: nat) {
    offset <= length && Written(all, length) == offset + Written(steps, length - offset)
  }

  lemma {:induction false} SendsStep(all: seq<WriteStep>, length: nat, io: WriteStep, rest: seq<WriteStep>, offset: nat)
    requires offset < length && Sends(all, length, [io] + rest, offset)
    ensures GoesOn(io) ==> Sends(all, length, rest, offset + Taken(io, length - offset))
    ensures !GoesOn(io) ==> Written(all, length) == offset
  {
    assert ([io] + rest)[1..] == rest;
  }

  lemma {:induction false} SendsEnd(all: seq<WriteStep>, length: nat, steps: seq<WriteStep>, offset: nat)
    requires Sends(all, length, steps, offset) && (steps == [] || offset == length)
    ensures Written(all, length) == offset
  {
  }

  lemma {:induction false} StreamStep(io: ReadStep, rest: seq<ReadStep>)
    ensures Stream([io] + rest) ==
      match io
      case NotReady => Stream(rest)
      case Chunk(bytes) => if bytes == [] then [] else bytes + Stream(rest)
      case ReadFailed => []
  {
    assert ([io] + rest)[1..] == rest;
  }

  /** Recording one more action. */
  lemma {:induction false} Recorded(trace: seq<Action>, a: Action, deadline: nat)
    requires Paced(trace, deadline) && PacedAt(trace + [a], |trace|, deadline)
    ensures Paced(trace + [a], deadline)
    ensures Total(trace + [a]) == Total(trace) + (match a case Moved(_, count) => count case Waited(_, _, _) => 0)
  {
    TotalAppend(trace, a);
    forall k | 0 <= k < |trace + [a]|
      ensures PacedAt(trace + [a], k, deadline)
    {
      if k < |trace| { assert PacedAt(trace, k, deadline); }
    }
  }

  /** The timeout of one wait: the greatest whole number of milliseconds that fits, as far as the system call takes it. */
  function Timeout(at: nat, deadline: nat): (timeout: nat)
    requires at < deadline
    ensures timeout <= I32_MAX && at + timeout * MILLISECOND <= deadline
    ensures timeout == I32_MAX || at + (timeout + 1) * MILLISECOND > deadline
  {
    var whole := (deadline - at) / MILLISECOND;
    if whole <= I32_MAX then whole else I32_MAX
  }

  /** `poll_fd_ready`: wait again after every interruption, for what is left of the same deadline. */
  method PollReady<IO>(attempts: seq<Attempt<IO>>, start: nat, deadline: nat)
    returns (ready: bool, next: nat, trace: seq<Action>)
    requires start <= |attempts|
    ensures Paced(trace, deadline) && Drawn(trace, attempts) && Total(trace) == 0
    ensures ready ==> start <= next < |attempts| && attempts[next].at < deadline
    ensures ready ==> trace != [] && trace[|trace| - 1].Waited? && trace[|trace| - 1].returned == attempts[next].returned
    ensures Usable(attempts[start..], deadline)
         == if ready then [attempts[next].io] + Usable(attempts[next + 1..], deadline) else []
  {
    next, trace := start, [];
    while next < |attempts| && attempts[next].at < deadline
      invariant start <= next <= |attempts|
      invariant Usable(attempts[start..], deadline) == Usable(attempts[next..], deadline)
      invariant Paced(trace, deadline) && Drawn(trace, attempts) && Total(trace) == 0
    {
      UsableStep(attempts, next, deadline);
      var at, returned := attempts[next].at, attempts[next].returned;
      assert Turn(attempts, at, returned);
      Recorded(trace, Waited(at, Timeout(at, deadline), returned), deadline);
      trace := trace + [Waited(at, Timeout(at, deadline), returned)];
      match attempts[next].wait
      case Interrupted => next := next + 1;
      case GivenUp => return false, next, trace;
      case Ready => return true, next, trace;
    }
    ready := false;
  }

  /** One wait and, if it succeeds, the I/O behind it, which moves `count` bytes. */
  method WaitAndMove<IO>(attempts: seq<Attempt<IO>>, start: nat, deadline: nat, before: seq<Action>, count: IO -> nat)
    returns (ready: bool, next: nat, trace: seq<Action>)
    requires start <= |attempts| && Paced(before, deadline) && Drawn(before, attempts)
    ensures Paced(trace, deadline) && Drawn(trace, attempts)
    ensures ready ==> start <= next < |attempts| && Total(trace) == Total(before) + count(attempts[next].io)
    ensures !ready ==> Total(trace) == Total(before)
    ensures Usable(attempts[start..], deadline)
         == if ready then [attempts[next].io] + Usable(attempts[next + 1..], deadline) else []
  {
    ready, next, trace := PollReady(attempts, start, deadline);
    Joined(before, trace, attempts, deadline);
    trace := before + trace;
    if ready {
      var moved := Moved(attempts[next].returned, count(attempts[next].io));
      Recorded(trace, moved, deadline);
      trace := trace + [moved];
    }
  }

  /** The write loop: how much of a frame of this length reaches the peer. */
  method SendBytes(length: nat, attempts: seq<Attempt<WriteStep>>, deadline: nat)
    returns (offset: nat, trace: seq<Action>)
    ensures offset == Written(Usable(attempts, deadline), length)
    ensures Paced(trace, deadline) && Drawn(trace, attempts) && Total(trace) == offset
  {
    var i := 0;
    offset, trace := 0, [];
    assert attempts[0..] == attempts;
    ghost var all := Usable(attempts, deadline);
    ghost var steps := all;
    while offset < length
      invariant 0 <= i <= |attempts| && steps == Usable(attempts[i..], deadline)
      invariant Sends(all, length, steps, offset)
      invariant Paced(trace, deadline) && Drawn(trace, attempts) && Total(trace) == offset
      decreases |attempts| - i
    {
      var left := length - offset;
      var ready, next;
      ready, next, trace := WaitAndMove(attempts, i, deadline, trace, (io: WriteStep) => Taken(io, left));
      if !ready {
        SendsEnd(all, length, steps, offset);
        return;
      }
      var io := attempts[next].io;
      steps := Usable(attempts[next + 1..], deadline);
      SendsStep(all, length, io, steps, offset);
      i := next + 1;
      if !GoesOn(io) {
        return;
      }
      offset := offset + Taken(io, left);
    }
    SendsEnd(all, length, steps, offset);
  }

  /** What reaches the peer is a prefix of the frame, each byte once and in order. */
  method SendFrame(frame: Bytes, attempts: seq<Attempt<WriteStep>>, deadline: nat)
    returns (sent: Bytes, complete: bool, trace: seq<Action>)
    ensures sent == frame[..Written(Usable(attempts, deadline), |frame|)]
    ensures complete <==> sent == frame
    ensures Paced(trace, deadline) && Drawn(trace, attempts) && Total(trace) == |sent|
  {
    var offset;
    offset, trace := SendBytes(|frame|, attempts, deadline);
    sent, complete := frame[..offset], offset == |frame|;
  }

  /** A newline in the next chunk ends the line there, whatever follows it. */
  lemma {:induction false} LineEndsInChunk(response: Bytes, chunk: Bytes, rest: Bytes)
    requires Plain(response)
    ensures HasNewline(chunk) ==>
      HasNewline(response + (chunk + rest)) && Row(response + (chunk + rest)) == response + Row(chunk)
    ensures !HasNewline(chunk) ==> Plain(response + chunk)
  {
    PrefixRow(chunk, rest);
    RowAfter(response, chunk + rest);
    RowAfter(response, chunk);
  }

  /** How many bytes one read hands out. */
  function Handed(io: ReadStep): nat {
    if io.Chunk? then |io.bytes| else 0
  }

  /** What was read so far holds no newline, and these steps bring the rest of the stream. */
  predicate Receives(stream: Bytes, response: Bytes, steps: seq<ReadStep>) {
    Plain(response) && stream == response + Stream(steps)
  }

  lemma {:induction false} ReceivesStep(stream: Bytes, response: Bytes, io: ReadStep, rest: seq<ReadStep>)
    requires Receives(stream, response, [io] + rest)
    ensures io.NotReady? ==> Receives(stream, response, rest)
    ensures io.ReadFailed? || io == Chunk([]) ==> !HasNewline(stream)
    ensures io.Chunk? && HasNewline(io.bytes) ==> HasNewline(stream) && Row(stream) == response + Row(io.bytes)
    ensures io.Chunk? && io.bytes != [] && !HasNewline(io.bytes) ==> Receives(stream, response + io.bytes, rest)
  {
    StreamStep(io, rest);
    if io.Chunk? && io.bytes != [] {
      LineEndsInChunk(response, io.bytes, Stream(rest));
      MoreOfRow([], response, io.bytes, Stream(rest));
    } else if !io.NotReady? {
      assert stream == response;
    }
  }

  /** The read loop: the bytes up to and including the first newline, however they were chunked. */
  method ReceiveLine(attempts: seq<Attempt<ReadStep>>, deadline: nat)
    returns (line: Option<Bytes>, trace: seq<Action>)
    ensures
      var stream := Stream(Usable(attempts, deadline));
      line == if HasNewline(stream) then Some(Row(stream) + [NEWLINE]) else None
    ensures Paced(trace, deadline) && Drawn(trace, attempts) && (line.Some? ==> |line.value| <= Total(trace))
  {
    var response: Bytes, i := [], 0;
    trace := [];
    assert attempts[0..] == attempts;
    ghost var steps := Usable(attempts, deadline);
    ghost var stream := Stream(steps);
    while true
      invariant 0 <= i <= |attempts| && steps == Usable(attempts[i..], deadline)
      invariant Receives(stream, response, steps)
      invariant Paced(trace, deadline) && Drawn(trace, attempts) && Total(trace) == |response|
      decreases |attempts| - i
    {
      var ready, next;
      ready, next, trace := WaitAndMove(attempts, i, deadline, trace, Handed);
      if !ready {
        assert stream == response;
        return None, trace;
      }
      var io := attempts[next].io;
      steps := Usable(attempts[next + 1..], deadline);
      ReceivesStep(stream, response, io, steps);
      i := next + 1;
      if io.ReadFailed? || io == Chunk([]) {
        return None, trace;
      }
      if io.Chunk? {
        if HasNewline(io.bytes) {
          return Some(response + Row(io.bytes) + [NEWLINE]), trace;
        }
        response := response + io.bytes;
      }
    }
  }

  // ---- When I/O starts ----

  /** All I/O starts by the deadline. */
  predicate StartsInTime(trace: seq<Action>, deadline: nat) {
    forall a | a in trace :: a.Moved? ==> a.at <= deadline
  }

  /** Every wait that I/O follows returned by the deadline. */
  predicate WaitsEndInTime(trace: seq<Action>, deadline: nat) {
    forall k | 0 < k < |trace| && trace[k].Moved? && trace[k - 1].Waited? :: trace[k - 1].returned <= deadline
  }

  /** A wait returns no later than its timeout allows. */
  predicate KeepsTimeout<IO>(attempt: Attempt<IO>, deadline: nat) {
    attempt.at < deadline ==> attempt.returned <= attempt.at + Timeout(attempt.at, deadline) * MILLISECOND
  }

  /** I/O starts by the deadline exactly when the wait before it returned by then: nothing is checked between. */
  lemma {:induction false} StartsInTimeExactly(trace: seq<Action>, deadline: nat)
    requires Paced(trace, deadline)
    ensures StartsInTime(trace, deadline) <==> WaitsEndInTime(trace, deadline)
  {
    if WaitsEndInTime(trace, deadline) {
      forall a | a in trace && a.Moved?
        ensures a.at <= deadline
      {
        var k :| 0 <= k < |trace| && trace[k] == a;
        assert PacedAt(trace, k, deadline);
      }
    } else {
      var k :| 0 < k < |trace| && trace[k].Moved? && trace[k - 1].Waited? && trace[k - 1].returned > deadline;
      assert PacedAt(trace, k, deadline) && trace[k] in trace;
    }
  }

  /** Waits that keep their timeouts are enough. */
  lemma {:induction false} KeptTimeoutsSuffice<IO>(trace: seq<Action>, attempts: seq<Attempt<IO>>, deadline: nat)
    requires Paced(trace, deadline) && Drawn(trace, attempts)
    requires forall i | 0 <= i < |attempts| :: KeepsTimeout(attempts[i], deadline)
    ensures StartsInTime(trace, deadline)
  {
    forall k | 0 < k < |trace| && trace[k].Moved? && trace[k - 1].Waited?
      ensures trace[k - 1].returned <= deadline
    {
      var wait := trace[k - 1];
      assert PacedAt(trace, k - 1, deadline) && Turn(attempts, wait.at, wait.returned);
      var i :| 0 <= i < |attempts| && attempts[i].at == wait.at && attempts[i].returned == wait.returned;
      assert KeepsTimeout(attempts[i], deadline);
    }
    StartsInTimeExactly(trace, deadline);
  }

  /** A wait that returns late is followed by the write all the same: the frame is sent whole, after the deadline. */
  lemma {:induction false} LateWriteIsSent(frame: Bytes, at: nat, returned: nat, deadline: nat, trace: seq<Action>)
    requires frame != [] && at < deadline < returned
    requires
      var attempts := [Attempt(at, Ready, returned, Took(|frame|))];
      Paced(trace, deadline) && Drawn(trace, attempts) && Total(trace) == Written(Usable(attempts, deadline), |frame|)
    ensures Written(Usable([Attempt(at, Ready, returned, Took(|frame|))], deadline), |frame|) == |frame|
    ensures !StartsInTime(trace, deadline)
  {
    var attempts := [Attempt(at, Ready, returned, Took(|frame|))];
    UsableStep(attempts, 0, deadline);
    assert attempts[0..] == attempts && attempts[1..] == [];
    var k := SomeMoved(trace);
    assert PacedAt(trace, k, deadline) && trace[k] in trace;
    assert Turn(attempts, trace[k - 1].at, trace[k - 1].returned);
  }

  lemma {:induction false} SomeMoved(trace: seq<Action>) returns (k: nat)
    requires Total(trace) > 0
    ensures k < |trace| && trace[k].Moved?
  {
    if trace[|trace| - 1].Moved? {
      k := |trace| - 1;
    } else {
      k := SomeMoved(trace[..|trace| - 1]);
    }
  }

  // ---- One request ----

  /** The socket's error status clears after one wait, or after a second one if it was still connecting. */
  predicate Settles(steps: seq<Connect>) {
    |steps| > 0 && (steps[0] == Connected || (steps[0] == InProgress && |steps| > 1 && steps[1] == Connected))
  }

  predicate Connects(path: Bytes, first: Connect, links: seq<Connect>) {
    0 !in path && (first == Connected || (first == InProgress && Settles(links)))
  }

  /** `control_socket_connect_deadline`: at most two waits, under the caller's deadline. */
  method ConnectBy(path: Bytes, first: Connect, links: seq<Attempt<Connect>>, deadline: nat)
    returns (connected: bool, trace: seq<Action>)
    ensures connected <==> Connects(path, first, Usable(links, deadline))
    ensures Paced(trace, deadline) && Drawn(trace, links) && Total(trace) == 0
  {
    connected, trace := false, [];
    if 0 in path || first == Refused {
      return;
    }
    if first == Connected {
      return true, trace;
    }
    assert links[0..] == links;
    var ready, next, waits := PollReady(links, 0, deadline);
    trace := waits;
    if !ready || links[next].io != InProgress {
      return ready && links[next].io == Connected, trace;
    }
    ready, next, waits := PollReady(links, next + 1, deadline);
    Joined(trace, waits, links, deadline);
    trace := trace + waits;
    connected := ready && links[next].io == Connected;
  }

  /** The three parts of a request, as the environment answers them. */
  datatype Peer = Peer(
    first: Connect,
    links: seq<Attempt<Connect>>,
    takes: seq<Attempt<WriteStep>>,
    chunks: seq<Attempt<ReadStep>>)

  /** The reply as text: valid UTF-8 that is not empty once trimmed. */
  function Text(line: Bytes, decode: Bytes -> Option<string>): Option<string> {
    match decode(line)
    case None => None
    case Some(text) => if RegistryTable.Trim(text) == "" then None else Some(RegistryTable.Trim(text))
  }

  /** A line is a reply exactly when it is valid text with something in it, and the reply is that without the white space around it. */
  lemma {:induction false} TextExactly(line: Bytes, decode: Bytes -> Option<string>, reply: string)
    ensures Text(line, decode) == Some(reply) <==>
      decode(line).Some? && reply != "" && RegistryTable.IsTrimOf(reply, decode(line).value)
    ensures Text(line, decode) == None <==> decode(line).None? || IsBlank(decode(line).value)
  {
    if decode(line).Some? {
      var text := decode(line).value;
      RegistryTable.TrimExactly(text, reply);
      RegistryTable.TrimExactly(text, "");
      if IsBlank(text) {
        assert text[..0] == "" && text[0..] == text && IsBlank(text[..0]);
        assert text[0..0] == "";
      } else if RegistryTable.IsTrimOf("", text) {
        var i, j :| 0 <= i <= j <= |text| && IsBlank(text[..i]) && "" == text[i..j] && IsBlank(text[j..]);
        RegistryTable.AroundIsBlank(text, i, j);
      }
    }
  }

  /**
   * `control_socket_request_line_bounded`; `finished` is the last clock reading, `latest`
   * the last representable one and `decode` the strict UTF-8 decoder.
   */
  method Request(
    path: Bytes, request: Bytes, began: nat, budget: nat, latest: nat, peer: Peer, finished: nat,
    decode: Bytes -> Option<string>)
    returns (sent: Bytes, reply: Option<string>, trace: seq<Action>)
    ensures sent <= request + [NEWLINE]
    ensures began + budget > latest ==> reply == None && sent == [] && trace == []
    ensures !Connects(path, peer.first, Usable(peer.links, began + budget)) ==> reply == None && sent == []
    ensures Paced(trace, began + budget)
    ensures |sent| <= Total(trace)
    ensures
      (forall i | 0 <= i < |peer.links| :: KeepsTimeout(peer.links[i], began + budget))
      && (forall i | 0 <= i < |peer.takes| :: KeepsTimeout(peer.takes[i], began + budget))
      && (forall i | 0 <= i < |peer.chunks| :: KeepsTimeout(peer.chunks[i], began + budget))
      ==> StartsInTime(trace, began + budget)
    ensures
      var deadline := began + budget;
      var stream := Stream(Usable(peer.chunks, deadline));
      var text := Text(Row(stream) + [NEWLINE], decode);
      reply == if deadline <= latest && sent == request + [NEWLINE] && HasNewline(stream) && finished <= deadline
               then text else None
  {
    sent, reply, trace := [], None, [];
    if began + budget > latest {
      return;
    }
    var deadline := began + budget;
    var connected, linking := ConnectBy(path, peer.first, peer.links, deadline);
    InTime(linking, peer.links, deadline);
    trace := linking;
    if !connected {
      return;
    }
    var complete, sending;
    sent, complete, sending := SendFrame(request + [NEWLINE], peer.takes, deadline);
    InTime(sending, peer.takes, deadline);
    JoinedPaces(trace, sending, deadline);
    trace := trace + sending;
    if !complete {
      return;
    }
    var line, reading := ReceiveLine(peer.chunks, deadline);
    InTime(reading, peer.chunks, deadline);
    JoinedPaces(trace, reading, deadline);
    trace := trace + reading;
    if line.None? || finished > deadline {
      return;
    }
    reply := Text(line.value, decode);
  }

  lemma {:induction false} InTime<IO>(trace: seq<Action>, attempts: seq<Attempt<IO>>, deadline: nat)
    requires Paced(trace, deadline) && Drawn(trace, attempts)
    ensures (forall i | 0 <= i < |attempts| :: KeepsTimeout(attempts[i], deadline)) ==> StartsInTime(trace, deadline)
  {
    if forall i | 0 <= i < |attempts| :: KeepsTimeout(attempts[i], deadline) {
      KeptTimeoutsSuffice(trace, attempts, deadline);
    }
  }

  lemma {:induction false} JoinedPaces(a: seq<Action>, b: seq<Action>, deadline: nat)
    requires Paced(a, deadline) && Paced(b, deadline)
    ensures Paced(a + b, deadline) && Total(a + b) == Total(a) + Total(b)
    ensures StartsInTime(a, deadline) && StartsInTime(b, deadline) ==> StartsInTime(a + b, deadline)
  {
    TotalJoin(a, b);
    forall k | 0 <= k < |a + b|
      ensures PacedAt(a + b, k, deadline)
    {
      if k < |a| {
        assert PacedAt(a, k, deadline);
      } else {
        assert PacedAt(b, k - |a|, deadline);
      }
    }
  }

  lemma {:induction false} Joined<IO>(a: seq<Action>, b: seq<Action>, attempts: seq<Attempt<IO>>, deadline: nat)
    requires Paced(a, deadline) && Paced(b, deadline) && Drawn(a, attempts) && Drawn(b, attempts)
    ensures Paced(a + b, deadline) && Drawn(a + b, attempts) && Total(a + b) == Total(a) + Total(b)
  {
    JoinedPaces(a, b, deadline);
  }

  lemma {:induction false} TotalJoin(a: seq<Action>, b: seq<Action>)
    ensures Total(a + b) == Total(a) + Total(b)
  {
    if b == [] {
      assert a + b == a;
    } else {
      assert (a + b)[..|a + b| - 1] == a + b[..|b| - 1];
      TotalJoin(a, b[..|b| - 1]);
    }
  }
}
