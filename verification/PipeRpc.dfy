/**
  The credential channel (src/common/ipc.cpp, `call` and `serve`): any number of callers behind one lock, and one
  server, on two byte streams.

  A state changes in steps: the start of a call, taking the lock, a write or read of any number of octets on either
  side, an answer of the handler, the end of the server. Every interleaving of them is a run. The handler may answer
  anything, or throw.
 */
module PipeRpc {
  import opened Bytes
  import opened PipeFrames

  type CallerId = nat

  /** How a call ends: with a response, or with an exception. */
  datatype Outcome<J> = Response(value: J) | Failed

  /** `call` numbers the requests sent; it exists for the proof only. */
  datatype Caller<J> =
    | Idle
    | Waiting(request: J)
    | Sending(request: J, call: nat, rest: bytes)
    | Receiving(request: J, call: nat, got: bytes)
    | Done(request: J, call: nat, outcome: Outcome<J>)

  datatype Server<J> =
    | Reading(got: bytes)
    | Handling(request: J)
    | Writing(rest: bytes)
    | Stopped

  /** `sent` and `answered` record which caller sent each request, and what the handler's side answered to each. */
  datatype State<J> = State(
    callers: map<CallerId, Caller<J>>,
    lock: Option<CallerId>,
    toServer: bytes,
    toClient: bytes,
    server: Server<J>,
    sent: seq<(CallerId, J)>,
    answered: seq<(J, J)>)

  datatype Step<J> =
    | Call(c: CallerId, request: J)
    | Lock(c: CallerId)
    | Write(c: CallerId, n: nat)
    | Read(c: CallerId, n: nat)
    | EndOfStream(c: CallerId)
    | ServerRead(n: nat)
    | Answer(response: Option<J>)
    | ServerWrite(n: nat)
    | Stop

  function CallerOf<J>(s: State<J>, c: CallerId): Caller<J> {
    if c in s.callers then s.callers[c] else Idle
  }

  /** The lock's holder finishes, one way or the other. */
  function Finish<J>(s: State<J>, c: CallerId, request: J, call: nat, outcome: Outcome<J>): State<J> {
    s.(callers := s.callers[c := Done(request, call, outcome)], lock := None)
  }

  function Outgoing<J(==)>(codec: Codec<J>, j: J): bytes {
    Frame(codec.dump(j))
  }

  predicate CanSend<J(==)>(codec: Codec<J>, j: J) {
    Sendable(codec.dump(j))
  }

  /** The message of a complete frame. */
  function Message(frame: bytes): bytes
    requires |frame| >= 4
  {
    frame[4..]
  }

  /** One step, or `None` where it is not possible. `broker` is the answer when the handler throws. */
  function Next<J(==)>(codec: Codec<J>, broker: J, s: State<J>, step: Step<J>): Option<State<J>> {
    match step
    case Call(c, request) =>
      if CallerOf(s, c).Idle? || CallerOf(s, c).Done? then Some(s.(callers := s.callers[c := Waiting(request)]))
        else None
    case Lock(c) =>
      if !CallerOf(s, c).Waiting? || s.lock.Some? then None else
        var q := CallerOf(s, c).request;
        if !CanSend(codec, q) then Some(Finish(s, c, q, 0, Failed))
        else
          var x := Sending(q, |s.sent|, Outgoing(codec, q));
          Some(s.(callers := s.callers[c := x], lock := Some(c), sent := s.sent + [(c, q)]))
    case Write(c, n) =>
      if !CallerOf(s, c).Sending? then None else NextWrite(s, c, n)
    case Read(c, n) =>
      if !CallerOf(s, c).Receiving? then None else NextRead(codec, s, c, n)
    case EndOfStream(c) =>
      if CallerOf(s, c).Receiving? && s.toClient == [] && s.server.Stopped?
      then Some(Finish(s, c, CallerOf(s, c).request, CallerOf(s, c).call, Failed)) else None
    case ServerRead(n) =>
      if !s.server.Reading? then None else NextServerRead(codec, s, n)
    case Answer(response) =>
      if !s.server.Handling? then None else
        var r := if response.Some? then response.value else broker;
        Some(s.(answered := s.answered + [(s.server.request, r)],
                server := if CanSend(codec, r) then Writing(Outgoing(codec, r)) else Stopped))
    case ServerWrite(n) =>
      if !s.server.Writing? || !(1 <= n <= |s.server.rest|) then None else
        var rest := s.server.rest[n..];
        Some(s.(toClient := s.toClient + s.server.rest[..n],
          server := if rest == [] then Reading([]) else Writing(rest)))
    case Stop => Some(s.(server := Stopped))
  }

  /** Writing to a server that has closed its end fails. */
  function NextWrite<J>(s: State<J>, c: CallerId, n: nat): Option<State<J>>
    requires CallerOf(s, c).Sending?
  {
    var me := CallerOf(s, c);
    if s.server.Stopped? then Some(Finish(s, c, me.request, me.call, Failed))
    else if !(1 <= n <= |me.rest|) then None
    else
      var rest := me.rest[n..];
      var x := if rest == [] then Receiving(me.request, me.call, []) else Sending(me.request, me.call, rest);
      Some(s.(toServer := s.toServer + me.rest[..n], callers := s.callers[c := x]))
  }

  function NextRead<J(==)>(codec: Codec<J>, s: State<J>, c: CallerId, n: nat): Option<State<J>>
    requires CallerOf(s, c).Receiving?
  {
    var me := CallerOf(s, c);
    match Wanted(me.got)
    case None => Some(Finish(s, c, me.request, me.call, Failed))
    case Some(w) =>
      if !(1 <= n <= w && n <= |s.toClient|) then None else
        var got := me.got + s.toClient[..n];
        var after := s.(toClient := s.toClient[n..]);
        if |got| < 4 || Wanted(got) != Some(0) then
          Some(after.(callers := s.callers[c := Receiving(me.request, me.call, got)]))
        else
          match Parsed(codec, Message(got))
          case Ok(j) => Some(Finish(after, c, me.request, me.call, Response(j)))
          case Err(_) => Some(Finish(after, c, me.request, me.call, Failed))
  }

  function NextServerRead<J(==)>(codec: Codec<J>, s: State<J>, n: nat): Option<State<J>>
    requires s.server.Reading?
  {
    match Wanted(s.server.got)
    case None => Some(s.(server := Stopped))
    case Some(w) =>
      if !(1 <= n <= w && n <= |s.toServer|) then None else
        var got := s.server.got + s.toServer[..n];
        var after := s.(toServer := s.toServer[n..]);
        if |got| < 4 || Wanted(got) != Some(0) then Some(after.(server := Reading(got)))
        else
          match Parsed(codec, Message(got))
          case Ok(j) => Some(after.(server := Handling(j)))
          case Err(_) => Some(after.(server := Stopped))
  }

  // ---- The invariant ----

  /** Exactly the lock's holder is in the middle of a call. */
  ghost predicate OneHolder<J>(s: State<J>) {
    (s.lock.Some? ==> s.lock.value in s.callers) &&
    forall c <- s.callers :: (s.callers[c].Sending? || s.callers[c].Receiving?) <==> s.lock == Some(c)
  }

  /** Each answer is to the request sent at the same place. */
  ghost predicate Matched<J>(s: State<J>) {
    |s.answered| <= |s.sent| && forall k | 0 <= k < |s.answered| :: s.answered[k].0 == s.sent[k].1
  }

  /** A response is the answer to the caller's own request. */
  ghost predicate OwnAnswer<J>(s: State<J>, c: CallerId, x: Caller<J>)
    requires |s.answered| <= |s.sent|
  {
    x.Done? && x.outcome.Response? ==>
      x.call < |s.answered| && s.sent[x.call] == (c, x.request) && s.answered[x.call] == (x.request, x.outcome.value)
  }

  ghost predicate OwnAnswers<J>(s: State<J>)
    requires |s.answered| <= |s.sent|
  {
    forall c <- s.callers :: OwnAnswer(s, c, s.callers[c])
  }

  /** What is on the streams, while caller `x` holds the lock for the request numbered `x.call`. */
  ghost predicate StreamsWith<J>(codec: Codec<J>, s: State<J>, c: CallerId, x: Caller<J>)
    requires x.Sending? || x.Receiving?
  {
    && x.call == |s.sent| - 1 && s.sent[x.call] == (c, x.request) && CanSend(codec, x.request)
    && match x
       case Sending(q, k, rest) =>
         && rest != [] && s.toClient == []
         && (s.server.Stopped? ||
             (s.server.Reading? && |s.answered| == k && s.server.got + s.toServer + rest == Outgoing(codec, q)))
       case Receiving(q, k, got) =>
         match s.server
         case Reading(read) =>
           if |s.answered| == k then
             got == [] && s.toClient == [] && s.toServer != [] && read + s.toServer == Outgoing(codec, q)
           else
             && |s.answered| == k + 1 && read == [] && s.toServer == [] && s.toClient != []
             && CanSend(codec, s.answered[k].1) && got + s.toClient == Outgoing(codec, s.answered[k].1)
         case Handling(r) => |s.answered| == k && r == q && got == [] && s.toClient == [] && s.toServer == []
         case Writing(rest) =>
           && |s.answered| == k + 1 && s.toServer == [] && rest != []
           && CanSend(codec, s.answered[k].1) && got + s.toClient + rest == Outgoing(codec, s.answered[k].1)
         case Stopped =>
           if |s.answered| == k then got == [] && s.toClient == []
           else
             && |s.answered| == k + 1
             && (got + s.toClient == [] ||
                 (CanSend(codec, s.answered[k].1) && got + s.toClient <= Outgoing(codec, s.answered[k].1) &&
                  got != Outgoing(codec, s.answered[k].1)))
  }

  /** Between calls both streams are empty. */
  ghost predicate StreamsIdle<J>(s: State<J>) {
    s.toClient == [] && (s.server.Stopped? || (s.server == Reading([]) && s.toServer == [] && |s.answered| == |s.sent|))
  }

  ghost predicate Core<J>(codec: Codec<J>, s: State<J>) {
    && OneHolder(s) && Matched(s) && OwnAnswers(s)
    && match s.lock
       case None => StreamsIdle(s)
       case Some(c) => StreamsWith(codec, s, c, s.callers[c])
  }

  /** Octets that stand together in the frame of `j`, from position `i` on. */
  ghost predicate PieceAt<J>(codec: Codec<J>, j: J, piece: bytes, i: int) {
    0 <= i <= |Outgoing(codec, j)| - |piece| && Outgoing(codec, j)[i..i + |piece|] == piece
  }

  /** Nothing, or octets of one of the requests sent. */
  ghost predicate OfRequest<J>(codec: Codec<J>, s: State<J>, stream: bytes) {
    stream == [] || exists k, i :: 0 <= k < |s.sent| && PieceAt(codec, s.sent[k].1, stream, i)
  }

  /** Nothing, or octets of one of the answers given. */
  ghost predicate OfAnswer<J>(codec: Codec<J>, s: State<J>, stream: bytes) {
    stream == [] || exists k, i :: 0 <= k < |s.answered| && PieceAt(codec, s.answered[k].1, stream, i)
  }

  ghost predicate Inv<J>(codec: Codec<J>, s: State<J>) {
    Core(codec, s) && OfRequest(codec, s, s.toServer)
  }

  function Initial<J>(): State<J> {
    State(map[], None, [], [], Reading([]), [], [])
  }

  // ---- Every step keeps it ----

  /** Changing one caller between two states with the same history, the others being as they were. */
  lemma ChangeCaller<J>(s: State<J>, after: State<J>, c: CallerId, x: Caller<J>)
    requires OneHolder(s) && Matched(s) && OwnAnswers(s) && Matched(after)
    requires after.callers == s.callers[c := x] && s.sent <= after.sent && s.answered <= after.answered
    requires s.lock == None || s.lock == Some(c)
    requires after.lock == if x.Sending? || x.Receiving? then Some(c) else if s.lock == Some(c) then None else s.lock
    requires OwnAnswer(after, c, x)
    ensures OneHolder(after) && OwnAnswers(after)
  {
    forall d <- after.callers
      ensures OwnAnswer(after, d, after.callers[d])
    {
      if d != c {
        assert OwnAnswer(s, d, s.callers[d]);
      }
    }
  }

  lemma KeepCallers<J>(s: State<J>, after: State<J>)
    requires OneHolder(s) && Matched(s) && OwnAnswers(s) && Matched(after)
    requires after.callers == s.callers && after.lock == s.lock && s.sent <= after.sent && s.answered <= after.answered
    ensures OneHolder(after) && OwnAnswers(after)
  {
    forall d <- after.callers
      ensures OwnAnswer(after, d, after.callers[d])
    {
      assert OwnAnswer(s, d, s.callers[d]);
    }
  }

  lemma CallKeepsCore<J(!new)>(codec: Codec<J>, broker: J, s: State<J>, c: CallerId, request: J)
    requires Core(codec, s) && Next(codec, broker, s, Call(c, request)).Some?
    ensures Core(codec, Next(codec, broker, s, Call(c, request)).value)
  {
    hide StreamsWith;
    var after := Next(codec, broker, s, Call(c, request)).value;
    forall d <- after.callers
      ensures OwnAnswer(after, d, after.callers[d])
    {
      if d != c {
        assert OwnAnswer(s, d, s.callers[d]);
      }
    }
    if s.lock.Some? {
      SameStreams(codec, s, after, s.lock.value, s.callers[s.lock.value]);
    }
  }

  lemma SameStreams<J>(codec: Codec<J>, s: State<J>, after: State<J>, c: CallerId, x: Caller<J>)
    requires x.Sending? || x.Receiving?
    requires StreamsWith(codec, s, c, x)
    requires after.(callers := s.callers, lock := s.lock) == s
    ensures StreamsWith(codec, after, c, x)
  {
  }

  lemma LockKeepsCore<J(!new)>(codec: Codec<J>, broker: J, s: State<J>, c: CallerId)
    requires Core(codec, s) && Next(codec, broker, s, Lock(c)).Some?
    ensures Core(codec, Next(codec, broker, s, Lock(c)).value)
  {
    var after := Next(codec, broker, s, Lock(c)).value;
    ChangeCaller(s, after, c, after.callers[c]);
    var q := s.callers[c].request;
    if !s.server.Stopped? && CanSend(codec, q) {
      var frame := Outgoing(codec, q);
      assert after.server.got + after.toServer + frame == frame;
    }
  }

  lemma WriteKeepsCore<J(!new)>(codec: Codec<J>, broker: J, s: State<J>, c: CallerId, n: nat)
    requires Core(codec, s) && Next(codec, broker, s, Write(c, n)).Some?
    ensures Core(codec, Next(codec, broker, s, Write(c, n)).value)
  {
    var after := Next(codec, broker, s, Write(c, n)).value;
    ChangeCaller(s, after, c, after.callers[c]);
    var me := s.callers[c];
    if !s.server.Stopped? {
      var got := s.server.got;
      assert me.rest == me.rest[..n] + me.rest[n..];
      assert got + after.toServer + me.rest[n..] == Outgoing(codec, me.request);
      assert me.rest[n..] == [] ==> got + (s.toServer + me.rest[..n]) + me.rest[n..] == got + after.toServer;
    }
  }

  /** What a reader that has `got` of a frame in hand does with `n` more octets from the stream. */
  lemma ReadOn(message: bytes, got: bytes, stream: bytes, tail: bytes, n: nat)
    requires Sendable(message) && got + stream + tail == Frame(message) && got != Frame(message)
    ensures Wanted(got).Some?
    ensures n <= |stream| && n <= Wanted(got).value ==>
      var more := got + stream[..n];
      && more + stream[n..] + tail == Frame(message)
      && (|more| >= 4 && Wanted(more) == Some(0) <==> more == Frame(message))
      && (more == Frame(message) ==> stream[n..] == [] && tail == [] && Message(more) == message)
  {
    var frame := Frame(message);
    assert got == frame[..|got|];
    WantedInFrame(message, got);
    if n <= |stream| {
      var more := got + stream[..n];
      assert stream == stream[..n] + stream[n..];
      assert more + stream[n..] + tail == frame;
      assert more == frame[..|more|];
      WantedInFrame(message, more);
      if more == frame {
        assert |stream[n..]| + |tail| == 0;
        assert frame[4..] == message;
      }
    }
  }

  /** A read leaves the rest of the response on the stream, or takes the last of it. */
  lemma ReadLeaves<J(!new)>(codec: Codec<J>, broker: J, s: State<J>, c: CallerId, n: nat)
    requires Faithful(codec) && Core(codec, s) && Next(codec, broker, s, Read(c, n)).Some?
    ensures var after := Next(codec, broker, s, Read(c, n)).value;
      var x := after.callers[c];
      |after.answered| <= |after.sent| && OwnAnswer(after, c, x) &&
      if x.Receiving? then StreamsWith(codec, after, c, x) else x.Done? && StreamsIdle(after)
  {
    hide OwnAnswers, Frame, Sendable, LengthOf;
    var me := s.callers[c];
    var k := me.call;
    if |s.answered| == k + 1 && me.got + s.toClient != [] {
      var r := s.answered[k].1;
      var tail := if s.server.Writing? then s.server.rest
                  else if s.server.Stopped? then Outgoing(codec, r)[|me.got + s.toClient|..] else [];
      assert me.got + s.toClient + tail == Outgoing(codec, r);
      ReadOn(codec.dump(r), me.got, s.toClient, tail, n);
      assert codec.parse(codec.dump(r)) == Some(r);
    }
  }

  lemma ReadKeepsCore<J(!new)>(codec: Codec<J>, broker: J, s: State<J>, c: CallerId, n: nat)
    requires Faithful(codec) && Core(codec, s) && Next(codec, broker, s, Read(c, n)).Some?
    ensures Core(codec, Next(codec, broker, s, Read(c, n)).value)
  {
    ReadLeaves(codec, broker, s, c, n);
    hide StreamsWith, StreamsIdle, OwnAnswer;
    var after := Next(codec, broker, s, Read(c, n)).value;
    ChangeCaller(s, after, c, after.callers[c]);
  }

  lemma EndOfStreamKeepsCore<J(!new)>(codec: Codec<J>, broker: J, s: State<J>, c: CallerId)
    requires Core(codec, s) && Next(codec, broker, s, EndOfStream(c)).Some?
    ensures Core(codec, Next(codec, broker, s, EndOfStream(c)).value)
  {
    var after := Next(codec, broker, s, EndOfStream(c)).value;
    ChangeCaller(s, after, c, after.callers[c]);
  }

  lemma ServerReadKeepsCore<J(!new)>(codec: Codec<J>, broker: J, s: State<J>, n: nat)
    requires Faithful(codec) && Core(codec, s) && Next(codec, broker, s, ServerRead(n)).Some?
    ensures Core(codec, Next(codec, broker, s, ServerRead(n)).value)
  {
    var after := Next(codec, broker, s, ServerRead(n)).value;
    KeepCallers(s, after);
    if s.lock.Some? {
      var x := s.callers[s.lock.value];
      if |s.answered| == x.call {
        var tail := if x.Sending? then x.rest else [];
        assert s.server.got + s.toServer + tail == Outgoing(codec, x.request);
        ReadOn(codec.dump(x.request), s.server.got, s.toServer, tail, n);
        assert codec.parse(codec.dump(x.request)) == Some(x.request);
      }
    }
  }

  lemma AnswerKeepsCore<J(!new)>(codec: Codec<J>, broker: J, s: State<J>, response: Option<J>)
    requires Core(codec, s) && Next(codec, broker, s, Answer(response)).Some?
    ensures Core(codec, Next(codec, broker, s, Answer(response)).value)
  {
    var after := Next(codec, broker, s, Answer(response)).value;
    var r := after.answered[|s.answered|].1;
    assert [] + [] + Outgoing(codec, r) == Outgoing(codec, r);
    KeepCallers(s, after);
  }

  lemma ServerWriteKeepsCore<J(!new)>(codec: Codec<J>, broker: J, s: State<J>, n: nat)
    requires Core(codec, s) && Next(codec, broker, s, ServerWrite(n)).Some?
    ensures Core(codec, Next(codec, broker, s, ServerWrite(n)).value)
  {
    var after := Next(codec, broker, s, ServerWrite(n)).value;
    KeepCallers(s, after);
    var x := s.callers[s.lock.value];
    var rest := s.server.rest;
    assert rest == rest[..n] + rest[n..];
    assert x.got + after.toClient + rest[n..] == x.got + s.toClient + rest;
    assert rest[n..] == [] ==> x.got + after.toClient + rest[n..] == x.got + after.toClient;
  }

  lemma StopKeepsCore<J(!new)>(codec: Codec<J>, broker: J, s: State<J>)
    requires Core(codec, s)
    ensures Core(codec, Next(codec, broker, s, Stop).value)
  {
    var after := Next(codec, broker, s, Stop).value;
    KeepCallers(s, after);
  }

  lemma PartOf<J>(codec: Codec<J>, j: J, read: bytes, stream: bytes, rest: bytes)
    requires read + stream + rest == Outgoing(codec, j)
    ensures PieceAt(codec, j, stream, |read|)
  {
    assert (read + stream + rest)[|read|..|read| + |stream|] == stream;
  }

  /** While the server runs, what it has not read is the end of what it asked for, or all there is of it so far. */
  lemma UnreadRequest<J>(codec: Codec<J>, s: State<J>)
    requires Core(codec, s) && !s.server.Stopped?
    ensures OfRequest(codec, s, s.toServer)
  {
    if s.lock.Some? && s.toServer != [] {
      var x := s.callers[s.lock.value];
      var rest := if x.Sending? then x.rest else [];
      assert s.server.got + s.toServer + rest == Outgoing(codec, x.request);
      PartOf(codec, x.request, s.server.got, s.toServer, rest);
      assert s.sent[x.call].1 == x.request;
    }
  }

  lemma ShorterPiece<J>(codec: Codec<J>, s: State<J>, stream: bytes, n: nat)
    requires OfRequest(codec, s, stream) && n <= |stream|
    ensures OfRequest(codec, s, stream[n..])
  {
    if stream != [] {
      var k, i :| 0 <= k < |s.sent| && PieceAt(codec, s.sent[k].1, stream, i);
      var frame := Outgoing(codec, s.sent[k].1);
      assert stream[n..] == frame[i + n..i + |stream|];
      assert PieceAt(codec, s.sent[k].1, stream[n..], i + n);
    }
  }

  lemma SameRequests<J>(codec: Codec<J>, s: State<J>, after: State<J>, stream: bytes)
    requires OfRequest(codec, s, stream) && s.sent <= after.sent
    ensures OfRequest(codec, after, stream)
  {
    if stream != [] {
      var k, i :| 0 <= k < |s.sent| && PieceAt(codec, s.sent[k].1, stream, i);
      assert after.sent[k] == s.sent[k];
    }
  }

  lemma StepKeepsRequests<J(!new)>(codec: Codec<J>, broker: J, s: State<J>, step: Step<J>)
    requires Faithful(codec) && Inv(codec, s) && Next(codec, broker, s, step).Some?
    ensures OfRequest(codec, Next(codec, broker, s, step).value, Next(codec, broker, s, step).value.toServer)
  {
    hide Core, OfRequest, Outgoing;
    var after := Next(codec, broker, s, step).value;
    if step.Write? && !s.server.Stopped? {
      WriteKeepsCore(codec, broker, s, step.c, step.n);
      UnreadRequest(codec, after);
    } else if step.ServerRead? && after.toServer != s.toServer {
      ShorterPiece(codec, s, s.toServer, step.n);
      SameRequests(codec, s, after, after.toServer);
    } else {
      SameRequests(codec, s, after, s.toServer);
    }
  }

  lemma StepKeepsInv<J(!new)>(codec: Codec<J>, broker: J, s: State<J>, step: Step<J>)
    requires Faithful(codec) && Inv(codec, s) && Next(codec, broker, s, step).Some?
    ensures Inv(codec, Next(codec, broker, s, step).value)
  {
    StepKeepsRequests(codec, broker, s, step);
    hide Core, OfRequest, Next;
    match step
    case Call(c, request) => CallKeepsCore(codec, broker, s, c, request);
    case Lock(c) => LockKeepsCore(codec, broker, s, c);
    case Write(c, n) => WriteKeepsCore(codec, broker, s, c, n);
    case Read(c, n) => ReadKeepsCore(codec, broker, s, c, n);
    case EndOfStream(c) => EndOfStreamKeepsCore(codec, broker, s, c);
    case ServerRead(n) => ServerReadKeepsCore(codec, broker, s, n);
    case Answer(response) => AnswerKeepsCore(codec, broker, s, response);
    case ServerWrite(n) => ServerWriteKeepsCore(codec, broker, s, n);
    case Stop => StopKeepsCore(codec, broker, s);
  }

  // ---- Runs ----

  function Run<J(==)>(codec: Codec<J>, broker: J, steps: seq<Step<J>>): Option<State<J>> {
    if steps == [] then Some(Initial()) else
      match Run(codec, broker, steps[..|steps| - 1])
      case None => None
      case Some(s) => Next(codec, broker, s, steps[|steps| - 1])
  }

  lemma {:induction false} RunsKeepInv<J(!new)>(codec: Codec<J>, broker: J, steps: seq<Step<J>>)
    requires Faithful(codec) && Run(codec, broker, steps).Some?
    ensures Inv(codec, Run(codec, broker, steps).value)
  {
    if steps == [] {
    } else {
      RunsKeepInv(codec, broker, steps[..|steps| - 1]);
      StepKeepsInv(codec, broker, Run(codec, broker, steps[..|steps| - 1]).value, steps[|steps| - 1]);
    }
  }

  /**
    In every run, a response a caller has received is the answer given to that caller's own request, to which no
    other call has a claim. While nobody is in a call, nothing is left on either stream of a live channel.
   */
  lemma RunsAreSafe<J(!new)>(codec: Codec<J>, broker: J, steps: seq<Step<J>>)
    requires Faithful(codec) && Run(codec, broker, steps).Some?
    ensures var s := Run(codec, broker, steps).value;
      && |s.answered| <= |s.sent|
      && (forall c <- s.callers | s.callers[c].Done? && s.callers[c].outcome.Response? ::
            var x := s.callers[c];
            x.call < |s.answered| && s.sent[x.call] == (c, x.request) &&
              s.answered[x.call] == (x.request, x.outcome.value))
      && (forall c, d | c in s.callers && d in s.callers && c != d && Succeeded(s.callers[c]) &&
        Succeeded(s.callers[d]) ::
            s.callers[c].call != s.callers[d].call)
      && (s.lock.None? && !s.server.Stopped? ==> s.toServer == [] && s.toClient == [] && s.server == Reading([]))
  {
    RunsKeepInv(codec, broker, steps);
    var s := Run(codec, broker, steps).value;
    assert forall c <- s.callers :: OwnAnswer(s, c, s.callers[c]);
  }

  predicate Succeeded<J>(x: Caller<J>) {
    x.Done? && x.outcome.Response?
  }

  /**
    In every run, also once the server has stopped or a caller has given up, each stream holds nothing but octets that
    stand together in one frame: of a request that was sent, or of an answer that was given.
   */
  lemma StreamsAreRemainders<J(!new)>(codec: Codec<J>, broker: J, steps: seq<Step<J>>)
    requires Faithful(codec) && Run(codec, broker, steps).Some?
    ensures var s := Run(codec, broker, steps).value;
      OfRequest(codec, s, s.toServer) && OfAnswer(codec, s, s.toClient)
  {
    RunsKeepInv(codec, broker, steps);
    UnreadAnswer(codec, Run(codec, broker, steps).value);
  }

  lemma UnreadAnswer<J>(codec: Codec<J>, s: State<J>)
    requires Core(codec, s)
    ensures OfAnswer(codec, s, s.toClient)
  {
    if s.lock.Some? && s.toClient != [] {
      var x := s.callers[s.lock.value];
      var r := s.answered[x.call].1;
      var frame := Outgoing(codec, r);
      var rest := frame[|x.got + s.toClient|..];
      assert x.got + s.toClient <= frame by {
        if s.server.Writing? {
          assert (x.got + s.toClient + s.server.rest)[..|x.got + s.toClient|] == x.got + s.toClient;
        }
      }
      PartOf(codec, r, x.got, s.toClient, rest);
    }
  }

  /**
    Between calls, with the server ready for a request, caller `c` has sent request `q`: several moments of the call.
   */
  function During<J>(b: State<J>, c: CallerId, x: Caller<J>, q: J, toServer: bytes, toClient: bytes, server: Server<J>,
                     answered: seq<(J, J)>): State<J> {
    State(b.callers[c := x], if x.Done? then None else Some(c), toServer, toClient, server, b.sent + [(c, q)],
          b.answered + answered)
  }

  ghost predicate Ready<J>(b: State<J>, c: CallerId) {
    && b.lock == None && b.toServer == [] && b.toClient == [] && b.server == Reading([])
    && (CallerOf(b, c).Idle? || CallerOf(b, c).Done?)
  }

  lemma RequestIsSent<J(!new)>(codec: Codec<J>, broker: J, b: State<J>, before: seq<Step<J>>, c: CallerId, q: J)
    returns (steps: seq<Step<J>>)
    requires CanSend(codec, q) && Ready(b, c) && Run(codec, broker, before) == Some(b)
    ensures Run(codec, broker, steps) ==
            Some(During(b, c, Receiving(q, |b.sent|, []), q, Outgoing(codec, q), [], Reading([]), []))
  {
    hide Run;
    var request, k := Outgoing(codec, q), |b.sent|;
    var waiting := b.(callers := b.callers[c := Waiting(q)]);
    var sending := During(b, c, Sending(q, k, request), q, [], [], Reading([]), []);
    Replaced(b.callers, c, Waiting(q), Sending(q, k, request));
    Replaced(b.callers, c, Sending(q, k, request), Receiving(q, k, []));
    steps := OneStep(codec, broker, before, Call(c, q), b, waiting);
    assert b.answered + [] == b.answered;
    steps := OneStep(codec, broker, steps, Lock(c), waiting, sending);
    assert request[..|request|] == request && [] + request == request;
    steps := OneStep(codec, broker, steps, Write(c, |request|), sending,
                     During(b, c, Receiving(q, k, []), q, request, [], Reading([]), []));
  }

  lemma ServerReadStep<J(!new)>(codec: Codec<J>, broker: J, steps: seq<Step<J>>, s: State<J>, n: nat, after: State<J>)
    returns (more: seq<Step<J>>)
    requires Run(codec, broker, steps) == Some(s) && s.server.Reading? && NextServerRead(codec, s, n) == Some(after)
    ensures Run(codec, broker, more) == Some(after)
  {
    hide Run, NextServerRead;
    more := OneStep(codec, broker, steps, ServerRead(n), s, after);
  }

  lemma ReadStep<J(!new)>(codec: Codec<J>, broker: J, steps: seq<Step<J>>, s: State<J>, c: CallerId, n: nat,
                          after: State<J>)
    returns (more: seq<Step<J>>)
    requires Run(codec, broker, steps) == Some(s)
    requires CallerOf(s, c).Receiving? && NextRead(codec, s, c, n) == Some(after)
    ensures Run(codec, broker, more) == Some(after)
  {
    hide Run, NextRead;
    more := OneStep(codec, broker, steps, Read(c, n), s, after);
  }

  /** A server about to read a request gets its length, and then the request. */
  lemma ServerReadsRequest<J(!new)>(codec: Codec<J>, b: State<J>, c: CallerId, q: J)
    requires Faithful(codec) && CanSend(codec, q) && codec.isObject(q)
    ensures var message, head, x := codec.dump(q), Length(|codec.dump(q)|), Receiving(q, |b.sent|, []);
      && NextServerRead(codec, During(b, c, x, q, Outgoing(codec, q), [], Reading([]), []), 4)
         == Some(During(b, c, x, q, message, [], Reading(head), []))
      && NextServerRead(codec, During(b, c, x, q, message, [], Reading(head), []), |message|)
         == Some(During(b, c, x, q, [], [], Handling(q), []))
  {
    FrameInTwoReads(codec.dump(q));
    assert codec.parse(codec.dump(q)) == Some(q);
    hide Frame, Wanted, Length;
  }

  lemma RequestArrives<J(!new)>(codec: Codec<J>, broker: J, b: State<J>, before: seq<Step<J>>, c: CallerId, q: J)
    returns (steps: seq<Step<J>>)
    requires Faithful(codec) && CanSend(codec, q) && codec.isObject(q)
    requires Ready(b, c) && Run(codec, broker, before) == Some(b)
    ensures Run(codec, broker, steps) == Some(During(b, c, Receiving(q, |b.sent|, []), q, [], [], Handling(q), []))
  {
    hide Run, Next, NextServerRead, Frame, Length, Faithful, CanSend, Ready;
    var message, x := codec.dump(q), Receiving(q, |b.sent|, []);
    var sent := During(b, c, x, q, Outgoing(codec, q), [], Reading([]), []);
    var half := During(b, c, x, q, message, [], Reading(Length(|message|)), []);
    ServerReadsRequest(codec, b, c, q);
    steps := RequestIsSent(codec, broker, b, before, c, q);
    steps := ServerReadStep(codec, broker, steps, sent, 4, half);
    steps := ServerReadStep(codec, broker, steps, half, |message|, NextServerRead(codec, half, |message|).value);
  }

  lemma ReplyIsSent<J(!new)>(codec: Codec<J>, broker: J, b: State<J>, before: seq<Step<J>>, c: CallerId, q: J, r: J)
    returns (steps: seq<Step<J>>)
    requires Faithful(codec) && CanSend(codec, q) && CanSend(codec, r) && codec.isObject(q)
    requires Ready(b, c) && Run(codec, broker, before) == Some(b)
    ensures Run(codec, broker, steps) ==
            Some(During(b, c, Receiving(q, |b.sent|, []), q, [], Outgoing(codec, r), Reading([]), [(q, r)]))
  {
    hide Run, Ready;
    var reply, x := Outgoing(codec, r), Receiving(q, |b.sent|, []);
    var handling := During(b, c, x, q, [], [], Handling(q), []);
    var writing := During(b, c, x, q, [], [], Writing(reply), [(q, r)]);
    steps := RequestArrives(codec, broker, b, before, c, q);
    assert handling.answered + [(q, r)] == writing.answered;
    steps := OneStep(codec, broker, steps, Answer(Some(r)), handling, writing);
    assert reply[..|reply|] == reply && [] + reply == reply;
    steps := OneStep(codec, broker, steps, ServerWrite(|reply|), writing,
                     During(b, c, x, q, [], reply, Reading([]), [(q, r)]));
  }

  lemma CallerReadsReply<J(!new)>(codec: Codec<J>, b: State<J>, c: CallerId, q: J, r: J)
    requires Faithful(codec) && CanSend(codec, r) && codec.isObject(r)
    ensures var message, head, k := codec.dump(r), Length(|codec.dump(r)|), |b.sent|;
      && NextRead(codec, During(b, c, Receiving(q, k, []), q, [], Outgoing(codec, r), Reading([]), [(q, r)]), c, 4)
         == Some(During(b, c, Receiving(q, k, head), q, [], message, Reading([]), [(q, r)]))
      && NextRead(codec, During(b, c, Receiving(q, k, head), q, [], message, Reading([]), [(q, r)]), c, |message|)
         == Some(During(b, c, Done(q, k, Response(r)), q, [], [], Reading([]), [(q, r)]))
  {
    FrameInTwoReads(codec.dump(r));
    assert codec.parse(codec.dump(r)) == Some(r);
    hide Frame, Wanted, Length;
    var head, k := Length(|codec.dump(r)|), |b.sent|;
    Replaced(b.callers, c, Receiving(q, k, []), Receiving(q, k, head));
    Replaced(b.callers, c, Receiving(q, k, head), Done(q, k, Response(r)));
  }

  /**
    A call can succeed: after any run that has left the server alive and nobody in a call, some continuation hands a
    caller that is not waiting the handler's answer.
   */
  lemma CallSucceeds<J(!new)>(codec: Codec<J>, broker: J, before: seq<Step<J>>, c: CallerId, q: J, r: J)
    returns (steps: seq<Step<J>>)
    requires Faithful(codec) && CanSend(codec, q) && CanSend(codec, r) && codec.isObject(q) && codec.isObject(r)
    requires Run(codec, broker, before).Some?
    requires var b := Run(codec, broker, before).value;
             b.lock == None && !b.server.Stopped? && (CallerOf(b, c).Idle? || CallerOf(b, c).Done?)
    ensures Run(codec, broker, steps).Some?
    ensures CallerOf(Run(codec, broker, steps).value, c) ==
            Done(q, |Run(codec, broker, before).value.sent|, Response(r))
    ensures Run(codec, broker, steps).value.lock == None && !Run(codec, broker, steps).value.server.Stopped?
  {
    var b := Run(codec, broker, before).value;
    RunsAreSafe(codec, broker, before);
    hide Run, Next, NextRead, Frame, Length, Faithful, CanSend;
    var message, k := codec.dump(r), |b.sent|;
    var replied := During(b, c, Receiving(q, k, []), q, [], Outgoing(codec, r), Reading([]), [(q, r)]);
    var half := During(b, c, Receiving(q, k, Length(|message|)), q, [], message, Reading([]), [(q, r)]);
    CallerReadsReply(codec, b, c, q, r);
    steps := ReplyIsSent(codec, broker, b, before, c, q, r);
    steps := ReadStep(codec, broker, steps, replied, c, 4, half);
    steps := ReadStep(codec, broker, steps, half, c, |message|, NextRead(codec, half, c, |message|).value);
  }

  lemma Replaced<J>(m: map<CallerId, Caller<J>>, c: CallerId, x: Caller<J>, y: Caller<J>)
    ensures m[c := x][c := y] == m[c := y]
  {
  }

  lemma FrameInTwoReads(message: bytes)
    requires Sendable(message)
    ensures var f, head := Frame(message), Length(|message|);
      && Wanted([]) == Some(4) && f[..4] == head && f[4..] == message && f[..|f|] == f && f[|f|..] == []
      && Wanted(head) == Some(|message|) && message[..|message|] == message && message[|message|..] == []
      && [] + head == head && [] + f == f && Wanted(f) == Some(0) && f == head + message
      && Message(head + message) == message
  {
    WantedInFrame(message, []);
    WantedInFrame(message, Length(|message|));
    WantedInFrame(message, Frame(message));
  }

  lemma OneStep<J(!new)>(codec: Codec<J>, broker: J, steps: seq<Step<J>>, step: Step<J>, s: State<J>, after: State<J>)
    returns (more: seq<Step<J>>)
    requires Run(codec, broker, steps) == Some(s) && Next(codec, broker, s, step) == Some(after)
    ensures Run(codec, broker, more) == Some(after)
  {
    more := steps + [step];
    assert more[..|steps|] == steps;
  }
}
