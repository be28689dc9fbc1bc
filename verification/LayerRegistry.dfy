/**
  The OpenXR layer's handle registry (runtime/openxr-layer/OpenXRLayer.cpp).

  Every intercepted call looks its handle up under the lock, calls the runtime without it, and updates the maps under
  it again. Threads may be anywhere between the two; `pending` holds the calls that are in the runtime.
 */
module LayerRegistry {
  import opened Bytes

  type Handle = nat
  type Thread = nat

  datatype Function =
    CreateSession | DestroyInstance | DestroySession | CreateSpace | DestroySpace | LocateSpace | LocateViews

  /** `id` tells apart objects the program tells apart by address. */
  datatype Instance = Instance(id: nat, handle: Handle, ovr: bool, functions: set<Function>)

  datatype Session = Session(id: nat, handle: Handle, instance: Instance)

  datatype Registry = Registry(
    instances: map<Handle, Instance>,
    sessions: map<Handle, Session>,
    spaces: map<Handle, Session>,
    nextId: nat)

  const HANDLE_INVALID: int := -12
  const FUNCTION_UNSUPPORTED: int := -7

  predicate Succeeded(result: int) {
    result >= 0
  }

  // ---- The sections under the lock ----

  function Emplace<V>(m: map<Handle, V>, h: Handle, v: V): map<Handle, V> {
    if h in m then m else m[h := v]
  }

  function AddInstance(r: Registry, h: Handle, ovr: bool, functions: set<Function>): Registry {
    r.(instances := Emplace(r.instances, h, Instance(r.nextId, h, ovr, functions)), nextId := r.nextId + 1)
  }

  function AddSession(r: Registry, h: Handle, i: Instance): Registry {
    r.(sessions := Emplace(r.sessions, h, Session(r.nextId, h, i)), nextId := r.nextId + 1)
  }

  function AddSpace(r: Registry, h: Handle, s: Session): Registry {
    r.(spaces := Emplace(r.spaces, h, s))
  }

  function Without(m: map<Handle, Session>, i: Instance): map<Handle, Session> {
    map h <- m | m[h].instance != i :: m[h]
  }

  function RemoveInstance(r: Registry, i: Instance): Registry {
    r.(instances := r.instances - {i.handle}, sessions := Without(r.sessions, i), spaces := Without(r.spaces, i))
  }

  function RemoveSession(r: Registry, s: Session): Registry {
    r.(sessions := r.sessions - {s.handle}, spaces := map h <- r.spaces | r.spaces[h] != s :: r.spaces[h])
  }

  function RemoveSpace(r: Registry, h: Handle): Registry {
    r.(spaces := r.spaces - {h})
  }

  // ---- The ownership hierarchy ----

  ghost predicate HasInstance(r: Registry, i: Instance) {
    i.handle in r.instances && r.instances[i.handle] == i
  }

  ghost predicate HasSession(r: Registry, s: Session) {
    s.handle in r.sessions && r.sessions[s.handle] == s
  }

  /** Every space's session is registered, and every session's instance. */
  ghost predicate Hierarchy(r: Registry) {
    && (forall h <- r.instances :: r.instances[h].handle == h && r.instances[h].id < r.nextId)
    && (forall h <- r.sessions ::
          r.sessions[h].handle == h && r.sessions[h].id < r.nextId && HasInstance(r, r.sessions[h].instance))
    && (forall h <- r.spaces :: HasSession(r, r.spaces[h]))
  }

  // ---- Calls ----

  /** A call that has found its object and is in the runtime. */
  datatype Call =
    | CreatingSession(instance: Instance)
    | CreatingSpace(session: Session)
    | DestroyingInstance(instance: Instance)
    | DestroyingSession(session: Session)
    | DestroyingSpace(space: Handle, session: Session)
    | Locating(session: Session)

  /** What a call does before it enters the runtime: the first lookup, and the error it returns instead of going on. */
  function Lookup(r: Registry, f: Function, h: Handle): Result<Call, int> {
    match f
    case CreateSession | DestroyInstance =>
      if h !in r.instances || f !in r.instances[h].functions then Err(HANDLE_INVALID)
      else if f == CreateSession then Ok(CreatingSession(r.instances[h]))
      else Ok(DestroyingInstance(r.instances[h]))
    case DestroySession | CreateSpace | LocateViews =>
      if h !in r.sessions then Err(HANDLE_INVALID)
      else if f !in r.sessions[h].instance.functions then Err(FUNCTION_UNSUPPORTED)
      else if f == DestroySession then Ok(DestroyingSession(r.sessions[h]))
      else if f == CreateSpace then Ok(CreatingSpace(r.sessions[h]))
      else Ok(Locating(r.sessions[h]))
    case DestroySpace | LocateSpace =>
      if h !in r.spaces then Err(HANDLE_INVALID)
      else if f !in r.spaces[h].instance.functions then Err(FUNCTION_UNSUPPORTED)
      else if f == DestroySpace then Ok(DestroyingSpace(h, r.spaces[h]))
      else Ok(Locating(r.spaces[h]))
  }

  /** What a call does when the runtime has returned `result`, having written the handle `output`. */
  function Conclude(r: Registry, call: Call, result: int, output: Handle): Registry {
    if !Succeeded(result) then r else
      match call
      case CreatingSession(i) => AddSession(r, output, i)
      case CreatingSpace(s) => AddSpace(r, output, s)
      case DestroyingInstance(i) => RemoveInstance(r, i)
      case DestroyingSession(s) => RemoveSession(r, s)
      case DestroyingSpace(h, _) => RemoveSpace(r, h)
      case Locating(_) => r
  }

  // ---- Runs ----

  datatype State = State(registry: Registry, pending: map<Thread, Call>)

  datatype Step =
    | CreateInstance(result: int, output: Handle, ovr: bool, functions: set<Function>)
    | Start(t: Thread, f: Function, h: Handle)
    | Finish(t: Thread, result: int, output: Handle)

  ghost predicate Uses(call: Call, i: Instance) {
    match call
    case CreatingSession(j) => i == j
    case DestroyingInstance(j) => i == j
    case _ => call.session.instance == i
  }

  ghost predicate UsesSession(call: Call, s: Session) {
    match call
    case CreatingSession(_) => false
    case DestroyingInstance(_) => false
    case _ => call.session == s
  }

  /**
    A call does not destroy what the other one is using: the external synchronisation OpenXR asks of applications
    (OpenXR 1.0, Fundamentals chapter, "Threading Behavior").
   */
  ghost predicate Compatible(call: Call, other: Call) {
    match call
    case DestroyingInstance(i) => !Uses(other, i)
    case DestroyingSession(s) => !UsesSession(other, s)
    case _ => true
  }

  ghost predicate Synchronised(pending: map<Thread, Call>) {
    forall t, u | t in pending && u in pending && t != u :: Compatible(pending[t], pending[u])
  }

  /** The runtime may answer anything; applications keep to the synchronisation rules and use a thread for one call. */
  ghost predicate Allowed(s: State, step: Step) {
    match step
    case CreateInstance(_, _, _, _) => true
    case Start(t, f, h) => t !in s.pending && Synchronised(Apply(s, step).pending)
    case Finish(t, _, _) => t in s.pending
  }

  function Apply(s: State, step: Step): State {
    match step
    case CreateInstance(result, output, ovr, functions) =>
      if Succeeded(result) then s.(registry := AddInstance(s.registry, output, ovr, functions)) else s
    case Start(t, f, h) =>
      var found := Lookup(s.registry, f, h);
      if found.Ok? then s.(pending := s.pending[t := found.value]) else s
    case Finish(t, result, output) =>
      if t in s.pending then State(Conclude(s.registry, s.pending[t], result, output), s.pending - {t}) else s
  }

  function After(s: State, steps: seq<Step>): State
    decreases |steps|
  {
    if steps == [] then s else After(Apply(s, steps[0]), steps[1..])
  }

  ghost predicate Run(s: State, steps: seq<Step>)
    decreases |steps|
  {
    steps == [] || (Allowed(s, steps[0]) && Run(Apply(s, steps[0]), steps[1..]))
  }

  const NOTHING := State(Registry(map[], map[], map[], 0), map[])

  // ---- Safety over runs ----

  /** The object a call found is still registered. */
  ghost predicate Live(r: Registry, call: Call) {
    match call
    case CreatingSession(i) => HasInstance(r, i)
    case DestroyingInstance(i) => HasInstance(r, i)
    case _ => HasSession(r, call.session)
  }

  ghost predicate AllLive(s: State) {
    forall t <- s.pending :: Live(s.registry, s.pending[t])
  }

  ghost predicate Inv(s: State) {
    Hierarchy(s.registry) && Synchronised(s.pending) && AllLive(s)
  }

  /** A call finds objects that are registered, all the way up. */
  lemma LookupIsLive(r: Registry, f: Function, h: Handle)
    requires Hierarchy(r)
    ensures Lookup(r, f, h).Ok? ==> Live(r, Lookup(r, f, h).value)
  {
  }

  lemma ConcludeKeepsHierarchy(r: Registry, call: Call, result: int, output: Handle)
    requires Hierarchy(r) && Live(r, call)
    ensures Hierarchy(Conclude(r, call, result, output))
  {
  }

  /** The end of one call takes nothing away from another that the rules let run beside it. */
  lemma ConcludeKeepsOther(r: Registry, call: Call, result: int, output: Handle, other: Call)
    requires Hierarchy(r) && Live(r, call) && Live(r, other) && Compatible(call, other)
    ensures Live(Conclude(r, call, result, output), other)
  {
  }

  lemma StepKeepsInv(s: State, step: Step)
    requires Inv(s) && Allowed(s, step)
    ensures Inv(Apply(s, step))
  {
    match step
    case CreateInstance(_, _, _, _) =>
    case Start(t, f, h) =>
      LookupIsLive(s.registry, f, h);
    case Finish(t, result, output) =>
      hide Hierarchy, Live, Compatible, Conclude;
      ConcludeKeepsHierarchy(s.registry, s.pending[t], result, output);
      forall u <- s.pending | u != t ensures Live(Conclude(s.registry, s.pending[t], result, output), s.pending[u]) {
        ConcludeKeepsOther(s.registry, s.pending[t], result, output, s.pending[u]);
      }
  }

  /** In every reachable state every space's session and every session's instance is registered. */
  lemma {:induction false} RunsKeepInv(s: State, steps: seq<Step>)
    requires Inv(s) && Run(s, steps)
    ensures Inv(After(s, steps))
    decreases |steps|
  {
    if steps == [] {
    } else {
      StepKeepsInv(s, steps[0]);
      RunsKeepInv(Apply(s, steps[0]), steps[1..]);
    }
  }

  lemma NothingHasInv()
    ensures Inv(NOTHING)
  {
  }

  ghost predicate Reachable(s: State) {
    exists steps :: Run(NOTHING, steps) && After(NOTHING, steps) == s
  }

  /** Every space's session and every session's instance is registered, and so is what any call in the runtime uses. */
  lemma ReachableIsSafe(s: State)
    requires Reachable(s)
    ensures Hierarchy(s.registry) && AllLive(s)
  {
    var steps :| Run(NOTHING, steps) && After(NOTHING, steps) == s;
    NothingHasInv();
    RunsKeepInv(NOTHING, steps);
  }

  // ---- What the steps do to one handle ----

  datatype Thing = AnInstance(h: Handle) | ASession(h: Handle) | ASpace(h: Handle)

  /** What the registry holds for a handle. */
  function Held(r: Registry, x: Thing): Option<(Option<Instance>, Option<Session>)> {
    match x
    case AnInstance(h) => if h in r.instances then Some((Some(r.instances[h]), None)) else None
    case ASession(h) => if h in r.sessions then Some((None, Some(r.sessions[h]))) else None
    case ASpace(h) => if h in r.spaces then Some((None, Some(r.spaces[h]))) else None
  }

  /** The handle of the session or instance that owns `x`, as far up as `kind` says. */
  ghost predicate Within(r: Registry, x: Thing, owner: Thing) {
    match owner
    case AnInstance(i) =>
      (match x
       case AnInstance(h) => h == i
       case ASession(h) => h in r.sessions && r.sessions[h].instance.handle == i
       case ASpace(h) => h in r.spaces && r.spaces[h].instance.handle == i)
    case ASession(s) => x == owner || (x.ASpace? && x.h in r.spaces && r.spaces[x.h].handle == s)
    case ASpace(_) => x == owner
  }

  /** The thing a destroying call was given. */
  function Target(call: Call): Option<Thing> {
    match call
    case DestroyingInstance(i) => Some(AnInstance(i.handle))
    case DestroyingSession(s) => Some(ASession(s.handle))
    case DestroyingSpace(h, _) => Some(ASpace(h))
    case _ => None
  }

  /** The step is the end of a successful destruction of `x` or of something it belongs to. */
  ghost predicate Destroys(s: State, step: Step, x: Thing) {
    && step.Finish? && step.t in s.pending && Succeeded(step.result)
    && Target(s.pending[step.t]).Some? && Within(s.registry, x, Target(s.pending[step.t]).value)
  }

  /** The step is the end of a successful creation whose handle is `x`. */
  ghost predicate Creates(s: State, step: Step, x: Thing) {
    match step
    case CreateInstance(result, output, _, _) => Succeeded(result) && x == AnInstance(output)
    case Finish(t, result, output) =>
      && t in s.pending && Succeeded(result)
      && ((s.pending[t].CreatingSession? && x == ASession(output)) ||
          (s.pending[t].CreatingSpace? && x == ASpace(output)))
    case Start(_, _, _) => false
  }

  /**
    A successful destruction removes exactly the handle and its descendants, and everything else leaves every
    registered handle as it was: in particular a destruction that fails.
   */
  lemma HeldAfter(s: State, step: Step, x: Thing)
    requires Inv(s) && Allowed(s, step)
    ensures Held(s.registry, x).Some? ==>
              Held(Apply(s, step).registry, x) == if Destroys(s, step, x) then None else Held(s.registry, x)
    ensures Held(s.registry, x).None? ==> (Held(Apply(s, step).registry, x).Some? <==> Creates(s, step, x))
  {
    if step.Finish? {
      assert Live(s.registry, s.pending[step.t]);
    }
  }

  /** The calls that take the handle `x`. */
  predicate Takes(f: Function, x: Thing) {
    match f
    case CreateSession | DestroyInstance => x.AnInstance?
    case DestroySession | CreateSpace | LocateViews => x.ASession?
    case DestroySpace | LocateSpace => x.ASpace?
  }

  lemma UnheldIsInvalid(r: Registry, f: Function, x: Thing)
    requires Takes(f, x) && Held(r, x).None?
    ensures Lookup(r, f, x.h) == Err(HANDLE_INVALID)
  {
  }

  /** Exactly when a call is refused, and with which of OpenXR's error codes; otherwise it enters the runtime. */
  lemma RefusedExactly(r: Registry, f: Function, x: Thing)
    requires Takes(f, x)
    ensures match Held(r, x)
            case None => Lookup(r, f, x.h) == Err(-12)
            case Some((Some(i), _)) => if f in i.functions then Lookup(r, f, x.h).Ok? else Lookup(r, f, x.h) == Err(-12)
            case Some((None, Some(s))) =>
              if f in s.instance.functions then Lookup(r, f, x.h).Ok? else Lookup(r, f, x.h) == Err(-7)
            case Some((None, None)) => true
  {
  }

  /** Any negative result is a failure and changes nothing; any other counts as success. */
  lemma OnlyFailuresAreNegative(r: Registry, call: Call, result: int, output: Handle)
    ensures result < 0 ==> Conclude(r, call, result, output) == r
    ensures result >= 0 ==> Conclude(r, call, result, output) == Conclude(r, call, 0, output)
    ensures result >= 0 && Target(call).Some? ==> Held(Conclude(r, call, result, output), Target(call).value).None?
  {
  }

  ghost predicate NeverCreated(s: State, steps: seq<Step>, x: Thing)
    decreases |steps|
  {
    steps == [] || (!Creates(s, steps[0], x) && NeverCreated(Apply(s, steps[0]), steps[1..], x))
  }

  ghost predicate NeverDestroyed(s: State, steps: seq<Step>, x: Thing)
    decreases |steps|
  {
    steps == [] || (!Destroys(s, steps[0], x) && NeverDestroyed(Apply(s, steps[0]), steps[1..], x))
  }

  lemma {:induction false} UnheldStays(s: State, steps: seq<Step>, x: Thing)
    requires Inv(s) && Run(s, steps) && NeverCreated(s, steps, x)
    requires Held(s.registry, x).None?
    ensures Held(After(s, steps).registry, x).None?
    decreases |steps|
  {
    if steps == [] {
    } else {
      HeldAfter(s, steps[0], x);
      StepKeepsInv(s, steps[0]);
      UnheldStays(Apply(s, steps[0]), steps[1..], x);
    }
  }

  /** A registered handle keeps its object through every run that does not destroy it or what it belongs to. */
  lemma {:induction false} HeldStays(s: State, steps: seq<Step>, x: Thing)
    requires Inv(s) && Run(s, steps) && NeverDestroyed(s, steps, x)
    requires Held(s.registry, x).Some?
    ensures Held(After(s, steps).registry, x) == Held(s.registry, x)
    decreases |steps|
  {
    if steps == [] {
    } else {
      HeldAfter(s, steps[0], x);
      StepKeepsInv(s, steps[0]);
      HeldStays(Apply(s, steps[0]), steps[1..], x);
    }
  }

  /**
    Once a destruction has succeeded, every call on the handle or on one of its descendants is refused, through every
    run in which the runtime does not issue that handle again.
   */
  lemma DestroyedStaysInvalid(s: State, step: Step, steps: seq<Step>, x: Thing, f: Function)
    requires Inv(s) && Run(s, [step] + steps) && Destroys(s, step, x) && Held(s.registry, x).Some?
    requires NeverCreated(Apply(s, step), steps, x) && Takes(f, x)
    ensures Lookup(After(s, [step] + steps).registry, f, x.h) == Err(HANDLE_INVALID)
  {
    assert ([step] + steps)[1..] == steps;
    HeldAfter(s, step, x);
    StepKeepsInv(s, step);
    UnheldStays(Apply(s, step), steps, x);
    UnheldIsInvalid(After(s, [step] + steps).registry, f, x);
  }

  // ---- Handles the runtime issues again ----

  /** The object the end of a successful creation makes. */
  function Created(s: State, step: Step, x: Thing): (Option<Instance>, Option<Session>)
    requires Creates(s, step, x)
  {
    match step
    case CreateInstance(_, output, ovr, functions) => (Some(Instance(s.registry.nextId, output, ovr, functions)), None)
    case Finish(t, _, output) =>
      (None, Some(match s.pending[t]
                  case CreatingSession(i) => Session(s.registry.nextId, output, i)
                  case CreatingSpace(session) => session))
  }

  /**
    Exact condition: what was created is registered if and only if its handle was not, or (which only a space's can be)
    was registered for the same session.
   */
  lemma CreatedIsHeld(s: State, step: Step, x: Thing)
    requires Inv(s) && Allowed(s, step) && Creates(s, step, x)
    ensures Held(Apply(s, step).registry, x) == Some(Created(s, step, x)) <==>
            Held(s.registry, x).None? || (x.ASpace? && Held(s.registry, x) == Some(Created(s, step, x)))
  {
  }

  /** The call destroys `x`, or something it belongs to, if it succeeds. */
  ghost predicate Covers(r: Registry, call: Call, x: Thing) {
    Target(call).Some? && Within(r, x, Target(call).value)
  }

  /** The threads that are destroying `x`, or something it belongs to. */
  ghost function Destroyers(s: State, x: Thing): set<Thread> {
    set t | t in s.pending && Covers(s.registry, s.pending[t], x)
  }

  /** Over the run no call that would destroy `x` enters the runtime. */
  ghost predicate NoneStarts(s: State, steps: seq<Step>, x: Thing)
    decreases |steps|
  {
    steps == [] ||
    (!(steps[0].Start? && var found := Lookup(s.registry, steps[0].f, steps[0].h);
       found.Ok? && Covers(s.registry, found.value, x)) &&
     NoneStarts(Apply(s, steps[0]), steps[1..], x))
  }

  /** None of the calls these threads are in succeeds. */
  ghost predicate NoneSucceeds(threads: set<Thread>, steps: seq<Step>)
    decreases |steps|
  {
    steps == [] ||
    if !steps[0].Finish? then NoneSucceeds(threads, steps[1..])
    else !(steps[0].t in threads && Succeeded(steps[0].result)) && NoneSucceeds(threads - {steps[0].t}, steps[1..])
  }

  /** The registry holds this for `x` all along the run. */
  ghost predicate Stays(s: State, steps: seq<Step>, x: Thing, v: (Option<Instance>, Option<Session>))
    decreases |steps|
  {
    Held(s.registry, x) == Some(v) && (steps == [] || Stays(Apply(s, steps[0]), steps[1..], x, v))
  }

  lemma SameCovers(r: Registry, later: Registry, call: Call, x: Thing)
    requires Held(r, x) == Held(later, x) && Held(r, x).Some?
    ensures Covers(r, call, x) <==> Covers(later, call, x)
  {
  }

  /** A step that neither ends a destruction of `x` with success nor starts one. */
  lemma DestroyersAfter(s: State, step: Step, x: Thing)
    requires Inv(s) && Allowed(s, step) && Held(s.registry, x).Some? && !Destroys(s, step, x)
    requires NoneStarts(s, [step], x)
    ensures Destroyers(Apply(s, step), x) == if step.Finish? then Destroyers(s, x) - {step.t} else Destroyers(s, x)
  {
    hide Inv, Covers, Held, Conclude;
    HeldAfter(s, step, x);
    var after := Apply(s, step);
    forall t <- after.pending
      ensures Covers(after.registry, after.pending[t], x) <==> Covers(s.registry, after.pending[t], x)
    {
      SameCovers(s.registry, after.registry, after.pending[t], x);
    }
  }

  lemma {:induction false} StaysExactly(s: State, steps: seq<Step>, x: Thing)
    requires Inv(s) && Run(s, steps) && Held(s.registry, x).Some? && NoneStarts(s, steps, x)
    ensures Stays(s, steps, x, Held(s.registry, x).value) <==> NoneSucceeds(Destroyers(s, x), steps)
    decreases |steps|
  {
    if steps == [] {
    } else {
      hide Inv, Covers, Held, Apply;
      HeldAfter(s, steps[0], x);
      StepKeepsInv(s, steps[0]);
      if Destroys(s, steps[0], x) {
        DestroyedHere(s, steps[0], x);
      } else {
        NoneStartsNow(s, steps, x);
        DestroyersAfter(s, steps[0], x);
        NotDestroyedHere(s, steps[0], x);
        StaysExactly(Apply(s, steps[0]), steps[1..], x);
      }
    }
  }

  lemma DestroyedHere(s: State, step: Step, x: Thing)
    requires Destroys(s, step, x)
    ensures step.Finish? && step.t in Destroyers(s, x) && Succeeded(step.result)
  {
  }

  lemma NotDestroyedHere(s: State, step: Step, x: Thing)
    requires Allowed(s, step) && !Destroys(s, step, x)
    ensures step.Finish? ==> !(step.t in Destroyers(s, x) && Succeeded(step.result))
  {
  }

  lemma NoneStartsNow(s: State, steps: seq<Step>, x: Thing)
    requires steps != [] && NoneStarts(s, steps, x)
    ensures NoneStarts(s, [steps[0]], x)
  {
    assert [steps[0]][1..] == [];
  }

  /**
    Exact condition: what was created stays, through any run that starts no destruction of it or of what it belongs to,
    if and only if it was registered when it was created and no destruction already in the runtime then succeeds.
   */
  lemma CreatedStays(s: State, step: Step, steps: seq<Step>, x: Thing)
    requires Inv(s) && Run(s, [step] + steps) && Creates(s, step, x)
    requires NoneStarts(Apply(s, step), steps, x)
    ensures var after := Apply(s, step);
            Stays(after, steps, x, Created(s, step, x)) <==>
            Held(after.registry, x) == Some(Created(s, step, x)) && NoneSucceeds(Destroyers(after, x), steps)
  {
    assert ([step] + steps)[1..] == steps;
    hide Inv, Held, Created, Destroyers;
    StepKeepsInv(s, step);
    if Held(Apply(s, step).registry, x) == Some(Created(s, step, x)) {
      StaysExactly(Apply(s, step), steps, x);
    }
  }

  /**
    The runtime may issue a handle again as soon as it has destroyed the old one, which is before the layer erases its
    entry. An instance created in between is never registered, though it was created and not destroyed.
   */
  lemma ReissuedHandleIsLost()
    ensures var steps := [CreateInstance(0, 1, true, {DestroyInstance}), Start(0, DestroyInstance, 1),
                          CreateInstance(0, 1, true, {DestroyInstance}), Finish(0, 0, 0)];
            Run(NOTHING, steps) && Lookup(After(NOTHING, steps).registry, DestroyInstance, 1) == Err(HANDLE_INVALID)
  {
    var i := Instance(0, 1, true, {DestroyInstance});
    var s1 := State(Registry(map[1 := i], map[], map[], 1), map[]);
    var s2 := s1.(pending := map[0 := DestroyingInstance(i)]);
    var s3 := s2.(registry := s1.registry.(nextId := 2));
    var a, b, c, d := CreateInstance(0, 1, true, {DestroyInstance}), Start(0, DestroyInstance, 1),
      CreateInstance(0, 1, true, {DestroyInstance}), Finish(0, 0, 0);
    assert Apply(NOTHING, a) == s1 && Apply(s1, b) == s2 && Apply(s2, c) == s3;
    var s4 := Apply(s3, d);
    assert 1 !in s4.registry.instances;
    assert Synchronised(s2.pending);
    assert [a, b, c, d][1..] == [b, c, d] && [b, c, d][1..] == [c, d] && [c, d][1..] == [d] && [d][1..] == [];
    assert After(s4, []) == s4;
    assert Run(s3, [d]) && After(s3, [d]) == s4;
    assert Run(s2, [c, d]) && After(s2, [c, d]) == s4;
    assert Run(s1, [b, c, d]) && After(s1, [b, c, d]) == s4;
  }

  /** Any registered space can be lost in the same way: it is destroyed, created again, and refused. */
  lemma ReissuedSpaceIsLost(s: State, h: Handle)
    requires Inv(s) && s.pending == map[] && h in s.registry.spaces
    requires {CreateSpace, DestroySpace} <= s.registry.spaces[h].instance.functions
    ensures var owner := s.registry.spaces[h].handle;
            var steps := [Start(0, DestroySpace, h), Start(1, CreateSpace, owner), Finish(1, 0, h), Finish(0, 0, 0)];
            Run(s, steps) && Lookup(After(s, steps).registry, LocateSpace, h) == Err(HANDLE_INVALID)
  {
    var session := s.registry.spaces[h];
    var a, b := Start(0, DestroySpace, h), Start(1, CreateSpace, session.handle);
    var c, d := Finish(1, 0, h), Finish(0, 0, 0);
    assert HasSession(s.registry, session) && CreateSpace in session.instance.functions &&
      DestroySpace in session.instance.functions;
    var s1 := s.(pending := map[0 := DestroyingSpace(h, session)]);
    var s2 := s.(pending := map[0 := DestroyingSpace(h, session), 1 := CreatingSpace(session)]);
    assert Apply(s, a) == s1 && Apply(s1, b) == s2;
    var s3 := Apply(s2, c);
    assert s3.registry == s.registry && s3.pending == map[0 := DestroyingSpace(h, session)];
    var s4 := Apply(s3, d);
    assert h !in s4.registry.spaces;
    hide Apply, Lookup, Conclude;
    assert [a, b, c, d][1..] == [b, c, d] && [b, c, d][1..] == [c, d] && [c, d][1..] == [d] && [d][1..] == [];
    assert After(s4, []) == s4;
    assert Run(s3, [d]) && After(s3, [d]) == s4;
    assert Run(s2, [c, d]) && After(s2, [c, d]) == s4;
    assert Run(s1, [b, c, d]) && After(s1, [b, c, d]) == s4;
  }

  // ---- The time a pose is asked for ----

  /** `converted` is the runtime's time for the current Windows clock, when it has one. */
  function PoseTime(i: Instance, time: int, converted: Option<int>): (r: int)
    ensures time != 0 || !i.ovr || converted.None? ==> r == time
    ensures time == 0 && i.ovr && converted.Some? ==> converted == Some(r)
  {
    if time != 0 || !i.ovr || converted.None? then time else converted.value
  }

  // ---- The maps in place ----

  /** What a whole call returns and leaves, when no other thread's section falls between its two. */
  function Called(r: Registry, f: Function, h: Handle, answer: int, output: Handle): (int, Registry) {
    match Lookup(r, f, h)
    case Ok(call) => (answer, Conclude(r, call, answer, output))
    case Err(code) => (code, r)
  }

  /** The layer's globals. The runtime's answer to a call is a parameter of it. */
  class Layer {
    var instances: map<Handle, Instance>
    var sessions: map<Handle, Session>
    var spaces: map<Handle, Session>
    var nextId: nat

    constructor ()
      ensures Value() == NOTHING.registry
    {
      instances, sessions, spaces, nextId := map[], map[], map[], 0;
    }

    function Value(): Registry
      reads this
    {
      Registry(instances, sessions, spaces, nextId)
    }

    method EraseSpacesOf(i: Instance)
      modifies this`spaces
      ensures spaces == Without(old(spaces), i)
    {
      var left := spaces.Keys;
      while left != {}
        invariant left <= spaces.Keys
        invariant spaces.Keys == set h <- old(spaces) | h in left || old(spaces)[h].instance != i
        invariant forall h <- spaces :: spaces[h] == old(spaces)[h]
        decreases |left|
      {
        var h :| h in left;
        left := left - {h};
        if spaces[h].instance == i {
          spaces := spaces - {h};
        }
      }
    }

    method EraseSessionsOf(i: Instance)
      modifies this`sessions
      ensures sessions == Without(old(sessions), i)
    {
      var left := sessions.Keys;
      while left != {}
        invariant left <= sessions.Keys
        invariant sessions.Keys == set h <- old(sessions) | h in left || old(sessions)[h].instance != i
        invariant forall h <- sessions :: sessions[h] == old(sessions)[h]
        decreases |left|
      {
        var h :| h in left;
        left := left - {h};
        if sessions[h].instance == i {
          sessions := sessions - {h};
        }
      }
    }

    /** The section under the lock of a successful destroyInstance. */
    method EraseInstance(i: Instance)
      modifies this`instances, this`sessions, this`spaces
      ensures Value() == RemoveInstance(old(Value()), i)
    {
      EraseSpacesOf(i);
      EraseSessionsOf(i);
      instances := instances - {i.handle};
    }

    /** The section under the lock of a successful destroySession. */
    method EraseSession(s: Session)
      modifies this`sessions, this`spaces
      ensures Value() == RemoveSession(old(Value()), s)
    {
      var left := spaces.Keys;
      while left != {}
        invariant left <= spaces.Keys
        invariant spaces.Keys == set h <- old(spaces) | h in left || old(spaces)[h] != s
        invariant forall h <- spaces :: spaces[h] == old(spaces)[h]
        invariant sessions == old(sessions)
        decreases |left|
      {
        var h :| h in left;
        left := left - {h};
        if spaces[h] == s {
          spaces := spaces - {h};
        }
      }
      sessions := sessions - {s.handle};
    }

    method DestroyInstance(h: Handle, answer: int) returns (result: int)
      requires Hierarchy(Value())
      modifies this
      ensures (result, Value()) == Called(old(Value()), Function.DestroyInstance, h, answer, 0)
      ensures Hierarchy(Value())
    {
      ghost var before := Value();
      if h !in instances || Function.DestroyInstance !in instances[h].functions {
        return HANDLE_INVALID;
      }
      var i := instances[h];
      if Succeeded(answer) {
        EraseInstance(i);
        ConcludeKeepsHierarchy(before, DestroyingInstance(i), answer, 0);
      }
      return answer;
    }

    method CreateSession(h: Handle, answer: int, output: Handle) returns (result: int)
      requires Hierarchy(Value())
      modifies this
      ensures (result, Value()) == Called(old(Value()), Function.CreateSession, h, answer, output)
      ensures Hierarchy(Value())
    {
      ghost var before := Value();
      if h !in instances || Function.CreateSession !in instances[h].functions {
        return HANDLE_INVALID;
      }
      var i := instances[h];
      if Succeeded(answer) {
        var session := Session(nextId, output, i);
        nextId := nextId + 1;
        if output !in sessions {
          sessions := sessions[output := session];
        }
        ConcludeKeepsHierarchy(before, CreatingSession(i), answer, output);
      }
      return answer;
    }

    method DestroySession(h: Handle, answer: int) returns (result: int)
      requires Hierarchy(Value())
      modifies this
      ensures (result, Value()) == Called(old(Value()), Function.DestroySession, h, answer, 0)
      ensures Hierarchy(Value())
    {
      ghost var before := Value();
      if h !in sessions {
        return HANDLE_INVALID;
      }
      var s := sessions[h];
      if Function.DestroySession !in s.instance.functions {
        return FUNCTION_UNSUPPORTED;
      }
      if Succeeded(answer) {
        EraseSession(s);
        ConcludeKeepsHierarchy(before, DestroyingSession(s), answer, 0);
      }
      return answer;
    }

    method CreateSpace(h: Handle, answer: int, output: Handle) returns (result: int)
      requires Hierarchy(Value())
      modifies this
      ensures (result, Value()) == Called(old(Value()), Function.CreateSpace, h, answer, output)
      ensures Hierarchy(Value())
    {
      ghost var before := Value();
      if h !in sessions {
        return HANDLE_INVALID;
      }
      var s := sessions[h];
      if Function.CreateSpace !in s.instance.functions {
        return FUNCTION_UNSUPPORTED;
      }
      if Succeeded(answer) {
        if output !in spaces {
          spaces := spaces[output := s];
        }
        ConcludeKeepsHierarchy(before, CreatingSpace(s), answer, output);
      }
      return answer;
    }

    method DestroySpace(h: Handle, answer: int) returns (result: int)
      requires Hierarchy(Value())
      modifies this
      ensures (result, Value()) == Called(old(Value()), Function.DestroySpace, h, answer, 0)
      ensures Hierarchy(Value())
    {
      ghost var before := Value();
      if h !in spaces {
        return HANDLE_INVALID;
      }
      var s := spaces[h];
      if Function.DestroySpace !in s.instance.functions {
        return FUNCTION_UNSUPPORTED;
      }
      if Succeeded(answer) {
        spaces := spaces - {h};
        ConcludeKeepsHierarchy(before, DestroyingSpace(h, s), answer, 0);
      }
      return answer;
    }

    method CreateInstance(answer: int, output: Handle, ovr: bool, functions: set<Function>) returns (result: int)
      requires Hierarchy(Value())
      modifies this
      ensures result == answer
      ensures Value() == if Succeeded(answer) then AddInstance(old(Value()), output, ovr, functions) else old(Value())
      ensures Hierarchy(Value())
    {
      if Succeeded(answer) {
        var i := Instance(nextId, output, ovr, functions);
        nextId := nextId + 1;
        if output !in instances {
          instances := instances[output := i];
        }
      }
      return answer;
    }

    /** The runtime is called only if `asked` is a time; that is the time it is asked for. */
    method LocateSpace(h: Handle, time: int, converted: Option<int>, answer: int)
      returns (result: int, asked: Option<int>)
      ensures result == Called(Value(), Function.LocateSpace, h, answer, 0).0
      ensures asked == if Lookup(Value(), Function.LocateSpace, h).Ok?
                       then Some(PoseTime(spaces[h].instance, time, converted)) else None
    {
      if h !in spaces {
        return HANDLE_INVALID, None;
      }
      var s := spaces[h];
      if Function.LocateSpace !in s.instance.functions {
        return FUNCTION_UNSUPPORTED, None;
      }
      return answer, Some(PoseTime(s.instance, time, converted));
    }

    /** As `LocateSpace`; a call without `info` is passed on without a time. */
    method LocateViews(h: Handle, info: Option<int>, converted: Option<int>, answer: int)
      returns (result: int, asked: Option<Option<int>>)
      ensures result == Called(Value(), Function.LocateViews, h, answer, 0).0
      ensures asked == if Lookup(Value(), Function.LocateViews, h).Err? then None
                       else if info.None? then Some(None)
                       else Some(Some(PoseTime(sessions[h].instance, info.value, converted)))
    {
      if h !in sessions {
        return HANDLE_INVALID, None;
      }
      var s := sessions[h];
      if Function.LocateViews !in s.instance.functions {
        return FUNCTION_UNSUPPORTED, None;
      }
      if info.None? {
        return answer, Some(None);
      }
      return answer, Some(Some(PoseTime(s.instance, info.value, converted)));
    }
  }
}
