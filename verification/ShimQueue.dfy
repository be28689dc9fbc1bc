/**
  The shim's message ring (compat/riftlift-platform-shim.c, `push`, `new_message`, `ovr_PopMessage`, `ovr_FreeMessage`).

  Each method is one step under the queue's lock (or one interlocked increment), so a sequence of calls is an
  interleaving of the game's thread with any number of job threads: a request is `NewMessage` and, later, a job's
  `Push`.
 */
module ShimQueue {
  import opened Bytes

  const SLOTS: nat := 64
  const FIRST_REQUEST: int := 1000

  datatype Message = Message(id: int, kind: int)

  /** What the game may hand back: nothing, a message of the shim (by its magic number) or the original library's. */
  datatype Handed = Null | Ours(m: Message) | Original

  datatype Fate = Delivered | Dropped

  /** A message that has left the queue: how, and how many messages had been pushed by then. */
  datatype Departure = Departure(fate: Fate, pushes: nat)

  /** The messages of a ring from `head` up to `tail`. */
  function Window(slots: seq<Option<Message>>, head: nat, tail: nat): (w: seq<Option<Message>>)
    requires |slots| == SLOTS && head < SLOTS && tail < SLOTS
    ensures |w| < SLOTS && (head + |w|) % SLOTS == tail
  {
    if head <= tail then slots[head..tail] else slots[head..] + slots[..tail]
  }

  function Values(w: seq<Option<Message>>): seq<Message>
    requires forall i | 0 <= i < |w| :: w[i].Some?
  {
    seq(|w|, i requires 0 <= i < |w| => w[i].value)
  }

  /** The messages handed to the game, in the order they were. */
  function DeliveredOf(pushed: seq<Message>, departures: seq<Departure>): seq<Message>
    requires |departures| <= |pushed|
  {
    if departures == [] then [] else
      var n := |departures| - 1;
      DeliveredOf(pushed, departures[..n]) + if departures[n].fate == Delivered then [pushed[n]] else []
  }

  /** The k-th message pushed left while fewer than 64 had been pushed since; a dropped one, at the last moment. */
  predicate InTime(k: nat, d: Departure) {
    match d.fate
    case Delivered => k < d.pushes < k + 64
    case Dropped => d.pushes == k + 63
  }

  lemma WindowAdvance(slots: seq<Option<Message>>, head: nat, tail: nat)
    requires |slots| == SLOTS && head < SLOTS && tail < SLOTS && head != tail
    ensures Window(slots, head, tail) != [] && Window(slots, head, tail)[0] == slots[head]
    ensures Window(slots, (head + 1) % SLOTS, tail) == Window(slots, head, tail)[1..]
  {
    hide Window;
    if head + 1 == SLOTS {
      WindowWraps(slots, tail);
    } else {
      WindowMoves(slots, head, tail);
    }
  }

  lemma FirstOf<T>(s: seq<T>, i: nat, j: nat)
    requires i < j <= |s|
    ensures s[i..j] == [s[i]] + s[i + 1..j]
  {
  }

  lemma Regroup<T>(a: seq<T>, b: seq<T>, c: seq<T>)
    ensures (a + b) + c == a + (b + c)
  {
  }

  lemma WindowMoves(slots: seq<Option<Message>>, head: nat, tail: nat)
    requires |slots| == SLOTS && head + 1 < SLOTS && tail < SLOTS && head != tail
    ensures Window(slots, head, tail) == [slots[head]] + Window(slots, head + 1, tail)
  {
    if head < tail {
      FirstOf(slots, head, tail);
    } else {
      FirstOf(slots, head, |slots|);
      assert slots[head..|slots|] == slots[head..] && slots[head + 1..|slots|] == slots[head + 1..];
      Regroup([slots[head]], slots[head + 1..], slots[..tail]);
    }
  }

  lemma WindowWraps(slots: seq<Option<Message>>, tail: nat)
    requires |slots| == SLOTS && tail < SLOTS - 1
    ensures Window(slots, SLOTS - 1, tail) == [slots[SLOTS - 1]] + Window(slots, 0, tail)
  {
    assert slots[SLOTS - 1..] == [slots[SLOTS - 1]];
    assert slots[0..tail] == slots[..tail];
  }

  lemma WindowAppend(slots: seq<Option<Message>>, head: nat, tail: nat, m: Message)
    requires |slots| == SLOTS && head < SLOTS && tail < SLOTS && (tail + 1) % SLOTS != head
    ensures Window(slots[tail := Some(m)], head, (tail + 1) % SLOTS) == Window(slots, head, tail) + [Some(m)]
  {
  }

  lemma WindowForget(slots: seq<Option<Message>>, head: nat, tail: nat)
    requires |slots| == SLOTS && head < SLOTS && tail < SLOTS && head != tail
    ensures Window(slots[head := None], (head + 1) % SLOTS, tail) == Window(slots, (head + 1) % SLOTS, tail)
  {
  }

  class Queue {
    const slots: array<Option<Message>>
    var head: nat
    var tail: nat
    var nextRequest: int

    ghost var issued: seq<Message>
    ghost var inFlight: set<Message>
    ghost var pushed: seq<Message>
    ghost var departures: seq<Departure>
    ghost var delivered: seq<Message>
    ghost var held: set<Message>
    ghost var freed: set<Message>

    /** The ring is a queue of the messages pushed last. */
    ghost predicate RingHolds()
      reads `head, `tail, `pushed, `departures, slots
    {
      && slots.Length == SLOTS && head < SLOTS && tail < SLOTS
      && var w := Window(slots[..], head, tail);
      && (forall i | 0 <= i < |w| :: w[i].Some?)
      && |departures| + |w| == |pushed|
      && Values(w) == pushed[|departures|..]
    }

    /** Every message issued is in exactly one place. */
    ghost predicate PlacesHold()
      reads `nextRequest, `issued, `inFlight, `pushed, `departures, `held, `freed
    {
      && nextRequest == FIRST_REQUEST + |issued|
      && (forall i | 0 <= i < |issued| :: issued[i].id == FIRST_REQUEST + 1 + i)
      && |departures| <= |pushed|
      && (forall i, j | 0 <= i < j < |pushed| :: pushed[i] != pushed[j])
      && inFlight !! (set m <- pushed)
      && inFlight + (set m <- pushed) == (set m <- issued)
      && held !! freed && held + freed == (set m <- pushed[..|departures|])
    }

    /** Messages leave in the order they came; one is dropped only when 63 newer ones are waiting behind it. */
    ghost predicate OrderHolds()
      reads `pushed, `departures, `delivered
    {
      && |departures| <= |pushed|
      && delivered == DeliveredOf(pushed, departures)
      && forall k | 0 <= k < |departures| :: InTime(k, departures[k])
    }

    ghost predicate Valid()
      reads this, slots
    {
      RingHolds() && PlacesHold() && OrderHolds()
    }

    /** The queue's contents, oldest first. */
    ghost function Contents(): seq<Message>
      requires Valid()
      reads this, slots
    {
      pushed[|departures|..]
    }

    constructor ()
      ensures Valid() && Contents() == [] && issued == [] && fresh(slots)
    {
      slots := new Option<Message>[SLOTS](_ => None);
      head, tail, nextRequest := 0, 0, FIRST_REQUEST;
      issued, inFlight, pushed, departures, delivered, held, freed := [], {}, [], [], [], {}, {};
    }

    /** Ids increase from one message to the next, whichever thread asks. */
    method NewMessage(kind: int) returns (m: Message)
      requires Valid()
      modifies `nextRequest, `issued, `inFlight
      ensures Valid() && Contents() == old(Contents())
      ensures m.id == old(nextRequest) + 1 == nextRequest && m.kind == kind
      ensures issued == old(issued) + [m] && inFlight == old(inFlight) + {m}
      ensures forall i | 0 <= i < |old(issued)| :: old(issued)[i].id < m.id
    {
      nextRequest := nextRequest + 1;
      m := Message(nextRequest, kind);
      assert forall i | 0 <= i < |issued| :: issued[i].id < m.id;
      assert m !in (set x <- issued);
      issued := issued + [m];
      inFlight := inFlight + {m};
      assert (set x <- issued) == (set x <- old(issued)) + {m};
    }

    /** The ring after its oldest message has left it. */
    lemma RingAdvances()
      requires RingHolds() && head != tail
      ensures |departures| < |pushed| && slots[head] == Some(pushed[|departures|])
      ensures var w := Window(slots[..], (head + 1) % SLOTS, tail);
        && (forall i | 0 <= i < |w| :: w[i].Some?)
        && |departures| + 1 + |w| == |pushed| && Values(w) == pushed[|departures| + 1..]
    {
      WindowAdvance(slots[..], head, tail);
      var w := Window(slots[..], head, tail);
      assert Values(w)[0] == w[0].value;
      assert Values(w)[1..] == Values(w[1..]);
      assert pushed[|departures|..][1..] == pushed[|departures| + 1..];
    }

    /** The oldest message leaves the queue: to the game, or, when the ring is full, freed. */
    ghost method Depart(fate: Fate)
      requires PlacesHold() && OrderHolds() && |departures| < |pushed|
      requires InTime(|departures|, Departure(fate, |pushed|))
      modifies `departures, `delivered, `held, `freed
      ensures PlacesHold() && OrderHolds()
      ensures departures == old(departures) + [Departure(fate, |pushed|)]
      ensures var m := pushed[|old(departures)|];
        if fate == Delivered then delivered == old(delivered) + [m] && held == old(held) + {m} && freed == old(freed)
        else delivered == old(delivered) && held == old(held) && freed == old(freed) + {m}
    {
      var k := |departures|;
      var m := pushed[k];
      departures := departures + [Departure(fate, |pushed|)];
      assert departures[..k] == old(departures);
      if fate == Delivered {
        delivered := delivered + [m];
        held := held + {m};
      } else {
        freed := freed + {m};
      }
      assert pushed[..k + 1] == pushed[..k] + [m];
      assert m !in pushed[..k];
    }

    /** `push`: a 64th message waiting would be one too many; the oldest is freed. */
    method Push(m: Message)
      requires Valid() && m in inFlight
      modifies slots, `head, `tail, `inFlight, `pushed, `departures, `freed, `delivered, `held
      ensures Valid()
      ensures Contents() == (if |old(Contents())| == 63 then old(Contents())[1..] else old(Contents())) + [m]
      ensures pushed == old(pushed) + [m] && inFlight == old(inFlight) - {m}
      ensures delivered == old(delivered) && held == old(held)
      ensures freed == old(freed) + if |old(Contents())| == 63 then {old(Contents())[0]} else {}
    {
      hide PlacesHold, OrderHolds;
      var next := (tail + 1) % SLOTS;
      if next == head {
        DropOldest();
      }
      Append(m);
    }

    method DropOldest()
      requires Valid() && (tail + 1) % SLOTS == head
      modifies `head, `departures, `freed, `delivered, `held
      ensures Valid() && |old(Contents())| == SLOTS - 1 && Contents() == old(Contents())[1..]
      ensures freed == old(freed) + {old(Contents())[0]} && delivered == old(delivered) && held == old(held)
      ensures (tail + 1) % SLOTS != head
    {
      hide PlacesHold, OrderHolds;
      assert |Window(slots[..], head, tail)| == SLOTS - 1;
      Leave(Dropped);
    }

    /** The head of the ring moves past the oldest message. */
    method Leave(fate: Fate)
      requires Valid() && head != tail && InTime(|departures|, Departure(fate, |pushed|))
      modifies `head, `departures, `freed, `delivered, `held
      ensures Valid() && head == (old(head) + 1) % SLOTS
      ensures |old(departures)| < |pushed| && old(slots[head]) == Some(old(Contents())[0])
      ensures |old(Contents())| > 0 && Contents() == old(Contents())[1..]
      ensures var m := old(Contents())[0];
        if fate == Delivered then delivered == old(delivered) + [m] && held == old(held) + {m} && freed == old(freed)
        else delivered == old(delivered) && held == old(held) && freed == old(freed) + {m}
    {
      hide PlacesHold, OrderHolds;
      RingAdvances();
      Depart(fate);
      head := (head + 1) % SLOTS;
    }

    /** A message in flight joins the end of the queue's history. */
    ghost method Arrive(m: Message)
      requires PlacesHold() && OrderHolds() && m in inFlight
      modifies `inFlight, `pushed
      ensures PlacesHold() && OrderHolds()
      ensures pushed == old(pushed) + [m] && inFlight == old(inFlight) - {m}
    {
      pushed := pushed + [m];
      inFlight := inFlight - {m};
      assert pushed[..|departures|] == old(pushed)[..|departures|];
      assert (set x <- pushed) == (set x <- old(pushed)) + {m};
      SameDeliveries(old(pushed), pushed, departures);
    }

    method Append(m: Message)
      requires Valid() && m in inFlight && (tail + 1) % SLOTS != head
      modifies slots, `tail, `inFlight, `pushed
      ensures Valid()
      ensures pushed == old(pushed) + [m] && inFlight == old(inFlight) - {m}
    {
      hide PlacesHold, OrderHolds;
      WindowAppend(slots[..], head, tail, m);
      ghost var w := Window(slots[..], head, tail);
      slots[tail] := Some(m);
      tail := (tail + 1) % SLOTS;
      Arrive(m);
      assert Values(w + [Some(m)]) == Values(w) + [m];
      assert pushed[|departures|..] == old(pushed)[|departures|..] + [m];
    }

    /** `ovr_PopMessage`: the oldest message, if there is one. */
    method Pop() returns (r: Option<Message>)
      requires Valid()
      modifies slots, `head, `departures, `delivered, `held, `freed
      ensures Valid() && pushed == old(pushed) && freed == old(freed)
      ensures if old(Contents()) == [] then r == None && delivered == old(delivered) && held == old(held)
        else
          && r == Some(old(Contents())[0]) && Contents() == old(Contents())[1..]
          && delivered == old(delivered) + [r.value] && held == old(held) + {r.value}
    {
      hide PlacesHold, OrderHolds;
      r := None;
      if head != tail {
        var at := head;
        r := slots[at];
        WindowForget(slots[..], at, tail);
        Leave(Delivered);
        slots[at] := None;
      }
    }

    /** `ovr_FreeMessage`: the game gives back a message it was handed; anything else is the original library's. */
    method Free(handed: Handed) returns (forwarded: bool)
      requires Valid() && (handed.Ours? ==> handed.m in held)
      modifies `held, `freed
      ensures Valid() && Contents() == old(Contents())
      ensures forwarded <==> !handed.Ours?
      ensures if handed.Ours? then held == old(held) - {handed.m} && freed == old(freed) + {handed.m}
              else held == old(held) && freed == old(freed)
    {
      if !handed.Ours? {
        return true;
      }
      held := held - {handed.m};
      freed := freed + {handed.m};
      return false;
    }
  }

  lemma {:induction false} SameDeliveries(pushed: seq<Message>, more: seq<Message>, departures: seq<Departure>)
    requires |departures| <= |pushed| && pushed <= more
    ensures DeliveredOf(more, departures) == DeliveredOf(pushed, departures)
  {
    if departures == [] {
    } else {
      SameDeliveries(pushed, more, departures[..|departures| - 1]);
    }
  }

  /** `at` are the positions of the deliveries, in order, and `ms` are the messages pushed there. */
  ghost predicate Picked(ms: seq<Message>, pushed: seq<Message>, departures: seq<Departure>, at: seq<nat>)
    requires |departures| <= |pushed|
  {
    && |at| == |ms|
    && (forall i | 0 <= i < |at| ::
          at[i] < |departures| && departures[at[i]].fate == Delivered && ms[i] == pushed[at[i]])
    && (forall i, j | 0 <= i < j < |at| :: at[i] < at[j])
    && (forall k | 0 <= k < |departures| && departures[k].fate == Delivered :: k in at)
  }

  lemma PickOne(ms: seq<Message>, pushed: seq<Message>, departures: seq<Departure>, d: Departure, at: seq<nat>)
    requires |departures| < |pushed| && Picked(ms, pushed, departures, at) && d.fate == Delivered
    ensures Picked(ms + [pushed[|departures|]], pushed, departures + [d], at + [|departures|])
  {
    var n, more := |departures|, at + [|departures|];
    assert forall k | k in at :: k in more;
    assert more[|at|] == n;
  }

  lemma PickNone(ms: seq<Message>, pushed: seq<Message>, departures: seq<Departure>, d: Departure, at: seq<nat>)
    requires |departures| < |pushed| && Picked(ms, pushed, departures, at) && d.fate != Delivered
    ensures Picked(ms, pushed, departures + [d], at)
  {
  }

  /** The deliveries are a subsequence of the pushes: in push order, and none twice when no message is pushed twice. */
  lemma {:induction false} DeliveredInPushOrder(pushed: seq<Message>, departures: seq<Departure>) returns (at: seq<nat>)
    requires |departures| <= |pushed|
    ensures Picked(DeliveredOf(pushed, departures), pushed, departures, at)
  {
    if departures == [] {
      at := [];
    } else {
      hide Picked;
      var n := |departures| - 1;
      var most, d := departures[..n], departures[n];
      var ms := DeliveredOf(pushed, most);
      at := DeliveredInPushOrder(pushed, most);
      assert departures == most + [d];
      if d.fate == Delivered {
        PickOne(ms, pushed, most, d, at);
        at := at + [n];
      } else {
        PickNone(ms, pushed, most, d, at);
        assert ms + [] == ms;
      }
    }
  }
}
