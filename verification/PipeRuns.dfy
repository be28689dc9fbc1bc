/** What runs of the credential channel consist of: whose requests, whose answers, and that no call is ever stuck. */
module PipeRuns {
  import opened Bytes
  import opened PipeFrames
  import opened PipeRpc

  // ---- Requests and answers come from where they should ----

  /** What the handler answered, in order; the broker's message where it threw. */
  function Given<J>(broker: J, steps: seq<Step<J>>): seq<J> {
    if steps == [] then [] else
      var last := steps[|steps| - 1];
      Given(broker, steps[..|steps| - 1]) +
      if !last.Answer? then [] else match last.response case Some(r) => [r] case None => [broker]
  }

  ghost predicate AnsweredAs<J>(s: State<J>, given: seq<J>) {
    |s.answered| == |given| && forall k | 0 <= k < |given| :: s.answered[k].1 == given[k]
  }

  /** In every run the answers are the handler's, one for each time it was asked. */
  lemma {:induction false} AnswersAreGiven<J(!new)>(codec: Codec<J>, broker: J, steps: seq<Step<J>>)
    requires Run(codec, broker, steps).Some?
    ensures AnsweredAs(Run(codec, broker, steps).value, Given(broker, steps))
  {
    if steps == [] {
    } else {
      var most, last := steps[..|steps| - 1], steps[|steps| - 1];
      AnswersAreGiven(codec, broker, most);
      OneMoreGiven(codec, broker, Run(codec, broker, most).value, last, Given(broker, most));
    }
  }

  lemma OneMoreGiven<J(!new)>(codec: Codec<J>, broker: J, s: State<J>, step: Step<J>, given: seq<J>)
    requires AnsweredAs(s, given) && Next(codec, broker, s, step).Some?
    ensures AnsweredAs(Next(codec, broker, s, step).value, given +
      if !step.Answer? then [] else match step.response case Some(r) => [r] case None => [broker])
  {
    hide Frame, Wanted, Sendable;
    assert given + [] == given;
  }

  ghost predicate Asked<J(!new)>(steps: seq<Step<J>>, c: CallerId, q: J) {
    exists i :: 0 <= i < |steps| && steps[i] == Call(c, q)
  }

  /** Every request sent, and every request a caller is busy with, is one it was called with. */
  ghost predicate OnlyAsked<J(!new)>(s: State<J>, steps: seq<Step<J>>) {
    && (forall k | 0 <= k < |s.sent| :: Asked(steps, s.sent[k].0, s.sent[k].1))
    && (forall c <- s.callers :: s.callers[c].Idle? || Asked(steps, c, s.callers[c].request))
  }

  lemma {:induction false} RequestsAreAsked<J(!new)>(codec: Codec<J>, broker: J, steps: seq<Step<J>>)
    requires Run(codec, broker, steps).Some?
    ensures OnlyAsked(Run(codec, broker, steps).value, steps)
  {
    if steps == [] {
    } else {
      var most, last := steps[..|steps| - 1], steps[|steps| - 1];
      RequestsAreAsked(codec, broker, most);
      assert steps == most + [last];
      var s := Run(codec, broker, most).value;
      StillAsked(s, most, last);
      assert last.Call? ==> Asked(steps, last.c, last.request) by {
        assert steps[|most|] == last;
      }
      hide Run, Asked;
      OneMoreAsked(codec, broker, s, last, steps);
    }
  }

  lemma StillAsked<J(!new)>(s: State<J>, most: seq<Step<J>>, last: Step<J>)
    requires OnlyAsked(s, most)
    ensures OnlyAsked(s, most + [last])
  {
    forall c, q | Asked(most, c, q) ensures Asked(most + [last], c, q) {
      var i :| 0 <= i < |most| && most[i] == Call(c, q);
      assert (most + [last])[i] == Call(c, q);
    }
  }

  lemma OneMoreAsked<J(!new)>(codec: Codec<J>, broker: J, s: State<J>, step: Step<J>, steps: seq<Step<J>>)
    requires OnlyAsked(s, steps) && Next(codec, broker, s, step).Some?
    requires step.Call? ==> Asked(steps, step.c, step.request)
    ensures OnlyAsked(Next(codec, broker, s, step).value, steps)
  {
    hide Frame, Wanted, Sendable, Asked;
  }

  // ---- No call is ever stuck ----

  /** A caller that is in a call, or waits to enter one. */
  ghost predicate Busy<J>(s: State<J>, c: CallerId) {
    c in s.callers && !s.callers[c].Idle? && !s.callers[c].Done?
  }

  /** A step that takes a call further: no new call, and not the end of the server. */
  predicate Advances<J>(step: Step<J>) {
    !step.Call? && !step.Stop?
  }

  /** A receiver in the middle of a frame takes the next octet, if there is one. */
  lemma MoreIsWanted(message: bytes, got: bytes, coming: bytes)
    requires Sendable(message) && got + coming <= Frame(message) && coming != []
    ensures Wanted(got).Some? && Wanted(got).value >= 1
  {
    assert got <= Frame(message) && got != Frame(message);
    WantedInFrame(message, got);
  }

  lemma HolderAdvances<J(!new)>(codec: Codec<J>, broker: J, s: State<J>, c: CallerId) returns (step: Step<J>)
    requires Core(codec, s) && s.lock == Some(c)
    ensures Advances(step) && Next(codec, broker, s, step).Some?
  {
    hide Frame, Wanted;
    var x := s.callers[c];
    if x.Sending? {
      step := Write(c, 1);
    } else {
      step := ReceiverAdvances(codec, broker, s, c);
    }
  }

  lemma ReceiverAdvances<J(!new)>(codec: Codec<J>, broker: J, s: State<J>, c: CallerId) returns (step: Step<J>)
    requires Core(codec, s) && s.lock == Some(c) && s.callers[c].Receiving?
    ensures Advances(step) && Next(codec, broker, s, step).Some?
  {
    hide Frame, Wanted;
    var x := s.callers[c];
    match s.server
    case Reading(read) =>
      if |s.answered| == x.call {
        MoreIsWanted(codec.dump(x.request), read, s.toServer);
        step := ServerRead(1);
      } else {
        MoreIsWanted(codec.dump(s.answered[x.call].1), x.got, s.toClient);
        step := Read(c, 1);
      }
    case Handling(_) =>
      step := Answer(None);
    case Writing(_) =>
      step := ServerWrite(1);
    case Stopped =>
      if s.toClient == [] {
        step := EndOfStream(c);
      } else {
        MoreIsWanted(codec.dump(s.answered[x.call].1), x.got, s.toClient);
        step := Read(c, 1);
      }
  }

  /** In every run, as long as a caller is busy, some step can be taken that takes a call further. */
  lemma CallsAreNeverStuck<J(!new)>(codec: Codec<J>, broker: J, steps: seq<Step<J>>, c: CallerId)
    returns (step: Step<J>)
    requires Faithful(codec) && Run(codec, broker, steps).Some? && Busy(Run(codec, broker, steps).value, c)
    ensures Advances(step) && Run(codec, broker, steps + [step]).Some?
  {
    var s := Run(codec, broker, steps).value;
    RunsKeepInv(codec, broker, steps);
    hide Run, Frame, Wanted, StreamsWith;
    if s.lock.Some? {
      step := HolderAdvances(codec, broker, s, s.lock.value);
    } else {
      assert s.callers[c].Waiting?;
      step := Lock(c);
    }
    RunOn(codec, broker, steps, step);
  }

  lemma RunOn<J(!new)>(codec: Codec<J>, broker: J, steps: seq<Step<J>>, step: Step<J>)
    requires Run(codec, broker, steps).Some?
    ensures Run(codec, broker, steps + [step]) == Next(codec, broker, Run(codec, broker, steps).value, step)
  {
    assert (steps + [step])[..|steps|] == steps;
  }

  // ---- And every call ends ----

  /** The octets of the longest frame; and the most an answer can take, before it is given. */
  const OCTETS: nat := MAX_MESSAGE + 4
  const ANSWER: nat := 3 * OCTETS + 2

  /** A bound on the steps the call of `x` can still take: an octet is written, read and counted once each. */
  function CallWork<J>(s: State<J>, x: Caller<J>): nat {
    match x
    case Sending(_, _, rest) => if s.server.Stopped? then 1 else 3 * |rest| + 2 * |s.toServer| + ANSWER + 3
    case Receiving(_, call, _) =>
      (match s.server
       case Reading(_) => if |s.answered| == call then 2 * |s.toServer| + ANSWER + 2 else 2 * |s.toClient| + 1
       case Handling(_) => ANSWER + 1
       case Writing(rest) => 3 * |rest| + 2 * |s.toClient| + 2
       case Stopped => 2 * |s.toClient| + 1)
    case _ => 0
  }

  function Work<J>(s: State<J>): nat {
    match s.lock case None => 0 case Some(c) => CallWork(s, CallerOf(s, c))
  }

  lemma CallerStepIsWork<J(!new)>(codec: Codec<J>, broker: J, s: State<J>, step: Step<J>)
    requires Core(codec, s) && Next(codec, broker, s, step).Some?
    requires step.Write? || step.Read? || step.EndOfStream?
    ensures s.lock.Some? && Work(Next(codec, broker, s, step).value) < Work(s)
  {
    hide Frame, Wanted, Sendable;
    assert CallerOf(s, step.c).Sending? || CallerOf(s, step.c).Receiving?;
    assert s.lock == Some(step.c);
  }

  lemma ServerStepIsWork<J(!new)>(codec: Codec<J>, broker: J, s: State<J>, step: Step<J>)
    requires Core(codec, s) && Next(codec, broker, s, step).Some?
    requires step.ServerRead? || step.Answer? || step.ServerWrite?
    ensures s.lock.Some? && Work(Next(codec, broker, s, step).value) < Work(s)
  {
    hide Frame, Wanted;
    WantedAtStart();
    if step.Answer? {
      FrameSize(codec.dump(if step.response.Some? then step.response.value else broker));
    }
  }

  lemma FrameSize(message: bytes)
    ensures |Frame(message)| == 4 + |message|
  {
  }

  lemma WantedAtStart()
    ensures Wanted([]) == Some(4)
  {
  }

  /** Callers that wait for the lock. */
  ghost function Queue<J>(s: State<J>): set<CallerId> {
    set c | c in s.callers && s.callers[c].Waiting?
  }

  /** The most a call can take, from the lock on. */
  const CALL: nat := 3 * OCTETS + ANSWER + 3

  /** A bound on the steps that can follow without a new call. */
  ghost function Bound<J>(s: State<J>): nat {
    Work(s) + |Queue(s)| * (CALL + 1)
  }

  lemma LockIsWork<J(!new)>(codec: Codec<J>, broker: J, s: State<J>, c: CallerId)
    requires Core(codec, s) && Next(codec, broker, s, Lock(c)).Some?
    ensures Work(Next(codec, broker, s, Lock(c)).value) <= CALL && Work(s) == 0
    ensures c in Queue(s) && Queue(Next(codec, broker, s, Lock(c)).value) == Queue(s) - {c}
  {
    hide Frame, Wanted;
    FrameSize(codec.dump(s.callers[c].request));
  }

  lemma SameQueue<J(!new)>(codec: Codec<J>, broker: J, s: State<J>, step: Step<J>)
    requires Core(codec, s) && Next(codec, broker, s, step).Some? && Advances(step) && !step.Lock?
    ensures Queue(Next(codec, broker, s, step).value) == Queue(s)
  {
    hide Frame, Wanted, Sendable, StreamsWith;
  }

  /** Every step that is no new call, nor the end of the server, uses up part of the bound. */
  lemma StepsAreBounded<J(!new)>(codec: Codec<J>, broker: J, s: State<J>, step: Step<J>)
    requires Core(codec, s) && Next(codec, broker, s, step).Some? && Advances(step)
    ensures Bound(Next(codec, broker, s, step).value) < Bound(s)
  {
    hide Core, Next, Queue, Work;
    if step.Lock? {
      LockIsWork(codec, broker, s, step.c);
      LessQueue(|Queue(s)|, step.c, Queue(s));
    } else {
      SameQueue(codec, broker, s, step);
      if step.Write? || step.Read? || step.EndOfStream? {
        CallerStepIsWork(codec, broker, s, step);
      } else {
        ServerStepIsWork(codec, broker, s, step);
      }
    }
  }

  lemma LessQueue(n: nat, c: CallerId, q: set<CallerId>)
    requires c in q && n == |q|
    ensures |q - {c}| == n - 1 && n * (CALL + 1) == (n - 1) * (CALL + 1) + CALL + 1
  {
  }

  /** After any run, at most so many steps can follow before there is a new call or the server ends. */
  lemma {:induction false} CallsEnd<J(!new)>(codec: Codec<J>, broker: J, before: seq<Step<J>>, more: seq<Step<J>>)
    requires Faithful(codec) && Run(codec, broker, before).Some? && Run(codec, broker, before + more).Some?
    requires forall step <- more :: Advances(step)
    ensures |more| + Bound(Run(codec, broker, before + more).value) <= Bound(Run(codec, broker, before).value)
  {
    hide Core, Next, Bound;
    if more == [] {
      assert before + more == before;
    } else {
      var most, last := more[..|more| - 1], more[|more| - 1];
      assert more == most + [last];
      assert (before + more)[..|before + more| - 1] == before + most;
      CallsEnd(codec, broker, before, most);
      RunsKeepInv(codec, broker, before + most);
      StepsAreBounded(codec, broker, Run(codec, broker, before + most).value, last);
    }
  }
}
