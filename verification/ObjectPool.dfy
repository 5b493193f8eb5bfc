/**
 `Pool`: objects that are handed out, returned, tossed, validated and drained. What the pool counts, and in which order
 objects come back.
 */
module ObjectPool {
  import opened Wrappers

  const MAX_RANGE := 6

  /** An object waiting in the pool; tickets are numbered in the order in which objects were put in. */
  datatype Idle = Idle(id: nat, ticket: nat)

  /**
   The pool, newest idle object first, with what is known outside of it: the objects in use, those destroyed in that
   order, how many were created, the next ticket, and how many idle objects `validate` dropped since the last drain.
   */
  datatype State = State(idle: seq<Idle>, count: int, used: int, maxRange: int,
                         out: set<nat>, destroyed: seq<nat>, created: nat, tickets: nat, dropped: nat)

  const EMPTY := State([], 0, 0, MAX_RANGE, {}, [], 0, 0, 0)

  function PutFirst(s: State, id: nat): State {
    s.(idle := [Idle(id, s.tickets)] + s.idle, tickets := s.tickets + 1, count := s.count + 1)
  }

  function Destroyed(s: State, id: nat): State {
    s.(destroyed := s.destroyed + [id], used := s.used - 1)
  }

  /** `n` objects created and put in. */
  function Filled(s: State, n: nat): State {
    if n == 0 then s
    else
      var before := Filled(s, n - 1);
      PutFirst(before, before.created).(created := before.created + 1, used := before.used + 1)
  }

  /** `prime` objects asked for; creation may fail after `made` of them. */
  function Primed(s: State, prime: int, made: nat): State {
    Filled(s.(maxRange := if s.maxRange == MAX_RANGE && prime < s.maxRange then prime else s.maxRange), made)
  }

  /** Which object a request is answered with: the one idle for longest, or a new one. */
  function Taken(s: State): nat {
    if s.idle == [] then s.created else s.idle[|s.idle| - 1].id
  }

  function Got(s: State): State {
    if s.idle == [] then s.(created := s.created + 1, used := s.used + 1, out := s.out + {s.created})
    else s.(idle := s.idle[..|s.idle| - 1], count := s.count - 1, out := s.out + {Taken(s)})
  }

  predicate Keeps(s: State) {
    s.count < s.maxRange
  }

  /** An object in use comes back. */
  function Offered(s: State, id: nat): State {
    var back := s.(out := s.out - {id});
    if Keeps(s) then PutFirst(back, id) else Destroyed(back, id)
  }

  function Tossed(s: State, id: nat): State {
    Destroyed(s.(out := s.out - {id}), id)
  }

  /** The idle objects in `bad` are destroyed, from the `i`-th on; they go on being counted. */
  function Dropped(s: State, i: nat, bad: set<nat>): State
    requires i <= |s.idle|
    decreases |s.idle| - i
  {
    if i == |s.idle| then s
    else if s.idle[i].id in bad then
      Dropped(Destroyed(s, s.idle[i].id).(idle := s.idle[..i] + s.idle[i + 1..], dropped := s.dropped + 1), i, bad)
    else Dropped(s, i + 1, bad)
  }

  function Emptied(s: State): State
    decreases |s.idle|
  {
    if s.idle == [] then s else Emptied(Destroyed(s, s.idle[0].id).(idle := s.idle[1..]))
  }

  function Drained(s: State): State {
    Emptied(s).(count := 0, dropped := 0)
  }

  /** The books of the pool. */
  ghost predicate Balanced(s: State) {
    && s.used == |s.idle| + |s.out|
    && s.count == |s.idle| + s.dropped
    && |s.idle| + |s.out| + |s.destroyed| == s.created
    && OnePlace(s)
    && InOrder(s)
  }

  /** No object is in two places, or twice in one. */
  ghost predicate OnePlace(s: State) {
    && (forall i :: 0 <= i < |s.idle| ==>
        s.idle[i].id < s.created && s.idle[i].id !in s.out && s.idle[i].id !in s.destroyed)
    && (forall i, j :: 0 <= i < j < |s.idle| ==> s.idle[i].id != s.idle[j].id)
    && (forall id :: id in s.out ==> id < s.created && id !in s.destroyed)
    && (forall i :: 0 <= i < |s.destroyed| ==> s.destroyed[i] < s.created)
    && (forall i, j :: 0 <= i < j < |s.destroyed| ==> s.destroyed[i] != s.destroyed[j])
  }

  /** Older tickets are further back. */
  ghost predicate InOrder(s: State) {
    && (forall i :: 0 <= i < |s.idle| ==> s.idle[i].ticket < s.tickets)
    && (forall i, j :: 0 <= i < j < |s.idle| ==> s.idle[i].ticket > s.idle[j].ticket)
  }

  datatype Event = Prime(prime: int, made: nat) | Get | Done(id: nat) | Toss(id: nat) | Validate(bad: set<nat>) | Drain

  function Step(s: State, e: Event): State {
    match e
    case Prime(prime, made) => Primed(s, prime, made)
    case Get => Got(s)
    case Done(id) => Offered(s, id)
    case Toss(id) => Tossed(s, id)
    case Validate(bad) => Dropped(s, 0, bad)
    case Drain => Drained(s)
  }

  function Run(s: State, events: seq<Event>): State
    decreases |events|
  {
    if events == [] then s else Run(Step(s, events[0]), events[1..])
  }

  /** What is given back is in use: every object handed out is finished once. */
  predicate Fits(s: State, e: Event) {
    (e.Done? ==> e.id in s.out) && (e.Toss? ==> e.id in s.out)
  }

  predicate Lawful(s: State, events: seq<Event>)
    decreases |events|
  {
    events == [] || (Fits(s, events[0]) && Lawful(Step(s, events[0]), events[1..]))
  }

  /** A new object put in. */
  lemma OneFilled(s: State)
    requires Balanced(s)
    ensures Balanced(PutFirst(s, s.created).(created := s.created + 1, used := s.used + 1))
  {
    hide InOrder;
    OrderFilled(s);
  }

  lemma OrderFilled(s: State)
    requires InOrder(s)
    ensures InOrder(PutFirst(s, s.created).(created := s.created + 1, used := s.used + 1))
  {
  }

  lemma {:induction false} FilledBalanced(s: State, n: nat)
    requires Balanced(s)
    ensures Balanced(Filled(s, n))
  {
    hide Balanced, PutFirst;
    if n > 0 {
      FilledBalanced(s, n - 1);
      OneFilled(Filled(s, n - 1));
    }
  }

  lemma OneDropped(s: State, i: nat)
    requires Balanced(s) && i < |s.idle|
    ensures Balanced(Destroyed(s, s.idle[i].id).(idle := s.idle[..i] + s.idle[i + 1..], dropped := s.dropped + 1))
  {
  }

  lemma {:induction false} DroppedBalanced(s: State, i: nat, bad: set<nat>)
    requires Balanced(s) && i <= |s.idle|
    ensures Balanced(Dropped(s, i, bad))
    decreases |s.idle| - i
  {
    hide Balanced, Destroyed;
    if i == |s.idle| {
    } else if s.idle[i].id in bad {
      var t := Destroyed(s, s.idle[i].id).(idle := s.idle[..i] + s.idle[i + 1..], dropped := s.dropped + 1);
      OneDropped(s, i);
      DroppedBalanced(t, i, bad);
    } else {
      DroppedBalanced(s, i + 1, bad);
    }
  }

  /** While the pool is emptied, the books are out of step by what has left. */
  lemma {:induction false} EmptiedBalanced(s: State)
    requires Balanced(s.(count := |s.idle|, dropped := 0))
    ensures Emptied(s).idle == [] && Balanced(Emptied(s).(count := 0, dropped := 0))
    decreases |s.idle|
  {
    if s.idle != [] {
      var t := Destroyed(s, s.idle[0].id).(idle := s.idle[1..]);
      assert Balanced(t.(count := |t.idle|, dropped := 0));
      EmptiedBalanced(t);
    }
  }

  lemma GotBalanced(s: State)
    requires Balanced(s)
    ensures Balanced(Got(s)) && Taken(s) !in s.out && Taken(s) !in s.destroyed
  {
  }

  lemma KeptBalanced(s: State, id: nat)
    requires Balanced(s) && id in s.out
    ensures Balanced(PutFirst(s.(out := s.out - {id}), id))
  {
  }

  lemma TossedBalanced(s: State, id: nat)
    requires Balanced(s) && id in s.out
    ensures Balanced(Tossed(s, id))
  {
  }

  lemma OfferedBalanced(s: State, id: nat)
    requires Balanced(s) && id in s.out
    ensures Balanced(Offered(s, id))
  {
    hide Balanced;
    KeptBalanced(s, id);
    TossedBalanced(s, id);
  }

  lemma StepBalanced(s: State, e: Event)
    requires Balanced(s) && Fits(s, e)
    ensures Balanced(Step(s, e))
  {
    hide Balanced;
    match e
    case Prime(prime, made) => FirstPrimed(s, prime, made);
    case Get => GotBalanced(s);
    case Done(id) => OfferedBalanced(s, id);
    case Toss(id) => TossedBalanced(s, id);
    case Validate(bad) => DroppedBalanced(s, 0, bad);
    case Drain => DrainedBalanced(s);
  }

  lemma FirstPrimed(s: State, prime: int, made: nat)
    requires Balanced(s)
    ensures Balanced(Primed(s, prime, made))
  {
    FilledBalanced(s.(maxRange := if s.maxRange == MAX_RANGE && prime < s.maxRange then prime else s.maxRange), made);
  }

  lemma DrainedBalanced(s: State)
    requires Balanced(s)
    ensures Balanced(Drained(s))
  {
    EmptiedBalanced(s);
  }

  /**
   Conservation over every run: `used` is the number of objects idle or in use, `count` that of the idle ones and of
   those dropped by `validate` since the last drain, every object ever created is idle, in use or destroyed, and none
   is in two of these places or destroyed twice.
   */
  lemma {:induction false} RunBalanced(s: State, events: seq<Event>)
    requires Balanced(s) && Lawful(s, events)
    ensures Balanced(Run(s, events))
    decreases |events|
  {
    if events != [] {
      StepBalanced(s, events[0]);
      RunBalanced(Step(s, events[0]), events[1..]);
    }
  }

  /** Every ticket that is, or will be, in the pool. */
  ghost predicate AllFrom(s: State, floor: nat) {
    floor <= s.tickets && forall i :: 0 <= i < |s.idle| ==> floor <= s.idle[i].ticket
  }

  lemma {:induction false} RunConcat(s: State, a: seq<Event>, b: seq<Event>)
    ensures Run(s, a + b) == Run(Run(s, a), b)
    ensures Lawful(s, a + b) <==> Lawful(s, a) && Lawful(Run(s, a), b)
    decreases |a|
  {
    hide Step, Fits;
    if a == [] {
      assert a + b == b;
    } else {
      assert (a + b)[1..] == a[1..] + b;
      RunConcat(Step(s, a[0]), a[1..], b);
    }
  }

  /** No object that was put in before comes into the pool again. */
  lemma {:induction false} FloorStays(s: State, events: seq<Event>, floor: nat)
    requires Balanced(s) && Lawful(s, events) && AllFrom(s, floor)
    ensures AllFrom(Run(s, events), floor)
    decreases |events|
  {
    hide Balanced, Step;
    if events != [] {
      StepBalanced(s, events[0]);
      StepFrom(s, events[0], floor);
      FloorStays(Step(s, events[0]), events[1..], floor);
    }
  }

  /**
   First in, first out, over every run: of two idle objects handed out, the one handed out first was put in first. The
   object handed out is the last of the list.
   */
  lemma FirstInFirstOut(s: State, a: seq<Event>, b: seq<Event>)
    requires Balanced(s) && Lawful(s, a + [Get] + b)
    requires Run(s, a).idle != [] && Run(s, a + [Get] + b).idle != []
    ensures var t, u := Run(s, a).idle, Run(s, a + [Get] + b).idle;
            t[|t| - 1].ticket < u[|u| - 1].ticket
  {
    hide Balanced, Run, Lawful;
    var before := Run(s, a);
    RunConcat(s, a + [Get], b);
    RunSnoc(s, a, Get);
    RunBalanced(s, a);
    var floor := before.idle[|before.idle| - 1].ticket;
    StepBalanced(before, Get);
    OldestFirst(before);
    FloorStays(Step(before, Get), b, floor + 1);
  }

  lemma OldestFirst(s: State)
    requires Balanced(s) && s.idle != []
    ensures AllFrom(Step(s, Get), s.idle[|s.idle| - 1].ticket + 1)
  {
  }

  lemma StepFrom(s: State, e: Event, floor: nat)
    requires Balanced(s) && AllFrom(s, floor)
    ensures AllFrom(Step(s, e), if e.Get? && s.idle != [] then s.idle[|s.idle| - 1].ticket + 1 else floor)
  {
    match e
    case Prime(prime, made) =>
      FilledFrom(s.(maxRange := if s.maxRange == MAX_RANGE && prime < s.maxRange then prime else s.maxRange), made,
                 floor);
    case Get =>
    case Done(id) =>
    case Toss(id) =>
    case Validate(bad) =>
      DroppedFrom(s, 0, bad, floor);
    case Drain =>
      EmptiedFrom(s, floor);
  }

  lemma {:induction false} FilledFrom(s: State, n: nat, floor: nat)
    requires AllFrom(s, floor)
    ensures AllFrom(Filled(s, n), floor)
  {
    if n > 0 {
      FilledFrom(s, n - 1, floor);
    }
  }

  lemma {:induction false} DroppedFrom(s: State, i: nat, bad: set<nat>, floor: nat)
    requires AllFrom(s, floor) && i <= |s.idle|
    ensures AllFrom(Dropped(s, i, bad), floor)
    decreases |s.idle| - i
  {
    if i == |s.idle| {
    } else if s.idle[i].id in bad {
      DroppedFrom(Destroyed(s, s.idle[i].id).(idle := s.idle[..i] + s.idle[i + 1..], dropped := s.dropped + 1), i,
                  bad, floor);
    } else {
      DroppedFrom(s, i + 1, bad, floor);
    }
  }

  lemma {:induction false} EmptiedFrom(s: State, floor: nat)
    requires AllFrom(s, floor)
    ensures AllFrom(Emptied(s), floor)
    decreases |s.idle|
  {
    if s.idle != [] {
      EmptiedFrom(Destroyed(s, s.idle[0].id).(idle := s.idle[1..]), floor);
    }
  }

  /** What `validate` leaves idle: the good ones. */
  lemma {:induction false} DroppedAreBad(s: State, i: nat, bad: set<nat>)
    requires i <= |s.idle|
    ensures forall x :: x in Dropped(s, i, bad).idle <==> x in s.idle[..i] || (x in s.idle[i..] && x.id !in bad)
    decreases |s.idle| - i
  {
    if i == |s.idle| {
    } else if s.idle[i].id in bad {
      var t := Destroyed(s, s.idle[i].id).(idle := s.idle[..i] + s.idle[i + 1..], dropped := s.dropped + 1);
      assert t.idle[..i] == s.idle[..i] && t.idle[i..] == s.idle[i + 1..]
             && s.idle[i..] == [s.idle[i]] + s.idle[i + 1..];
      DroppedAreBad(t, i, bad);
    } else {
      assert s.idle[..i + 1] == s.idle[..i] + [s.idle[i]] && s.idle[i..] == [s.idle[i]] + s.idle[i + 1..];
      DroppedAreBad(s, i + 1, bad);
    }
  }

  lemma {:induction false} DroppedOrNot(s: State, i: nat, bad: set<nat>)
    requires i <= |s.idle|
    ensures Dropped(s, i, bad).dropped == s.dropped <==> forall x :: x in s.idle[i..] ==> x.id !in bad
    decreases |s.idle| - i
  {
    if i == |s.idle| {
    } else if s.idle[i].id in bad {
      assert s.idle[i] in s.idle[i..];
      DroppedStarves(Destroyed(s, s.idle[i].id).(idle := s.idle[..i] + s.idle[i + 1..], dropped := s.dropped + 1), i,
                     bad);
    } else {
      assert s.idle[i..] == [s.idle[i]] + s.idle[i + 1..];
      DroppedOrNot(s, i + 1, bad);
    }
  }

  predicate Undrained(events: seq<Event>) {
    forall e :: e in events ==> !e.Drain?
  }

  /** Once `validate` has dropped as many as the pool may keep, no returned object is kept any more, until a drain. */
  lemma {:induction false} NothingKeptUntilDrained(s: State, events: seq<Event>)
    requires Balanced(s) && Lawful(s, events) && s.dropped >= s.maxRange && Undrained(events)
    ensures Run(s, events).dropped >= Run(s, events).maxRange && !Keeps(Run(s, events))
    decreases |events|
  {
    if events != [] {
      assert events[0] in events;
      StepBalanced(s, events[0]);
      StepStarves(s, events[0]);
      NothingKeptUntilDrained(Step(s, events[0]), events[1..]);
    }
  }

  function Gets(n: nat): (r: seq<Event>)
    ensures |r| == n && Undrained(r)
  {
    seq(n, _ => Get)
  }

  /** When every idle object is in use, only the dropped ones are still counted. */
  lemma {:induction false} AllTaken(s: State)
    requires s.count == |s.idle| + s.dropped
    ensures Lawful(s, Gets(|s.idle|))
    ensures var t := Run(s, Gets(|s.idle|)); t.count == s.dropped && t.maxRange == s.maxRange
    decreases |s.idle|
  {
    if s.idle != [] {
      var rest := Gets(|s.idle|)[1..];
      assert rest == Gets(|s.idle| - 1) && Gets(|s.idle|)[0] == Get;
      AllTaken(Got(s));
    }
  }

  /** The object waits in the pool. */
  ghost predicate Waits(s: State, id: nat) {
    exists i :: 0 <= i < |s.idle| && s.idle[i].id == id
  }

  lemma {:induction false} RunSnoc(s: State, events: seq<Event>, e: Event)
    ensures Run(s, events + [e]) == Step(Run(s, events), e)
    ensures Lawful(s, events + [e]) <==> Lawful(s, events) && Fits(Run(s, events), e)
    decreases |events|
  {
    hide Step, Fits;
    var all := events + [e];
    if events == [] {
      assert all == [e] && all[1..] == [];
    } else {
      assert all[1..] == events[1..] + [e];
      RunSnoc(Step(s, events[0]), events[1..], e);
    }
  }

  /** The object given back at the end of a run without a drain. */
  ghost predicate EndsIn(s: State, events: seq<Event>, id: nat) {
    Undrained(events) && Lawful(s, events + [Done(id)])
  }

  /** When all idle objects are in use, a new one can be had, and given back to the pool. */
  lemma KeptAfterAll(s: State)
    requires Balanced(s) && s.dropped < s.maxRange
    ensures var events := Gets(|s.idle|) + [Get];
            EndsIn(s, events, s.created) && Waits(Run(s, events + [Done(s.created)]), s.created)
  {
    hide Lawful, Run;
    var gets := Gets(|s.idle|);
    AllTaken(s);
    var all := Run(s, gets);
    RunSnoc(s, gets, Get);
    RunSnoc(s, gets + [Get], Done(s.created));
    AllGot(s);
    OneMoreKept(all);
  }

  lemma {:induction false} AllGot(s: State)
    ensures var t := Run(s, Gets(|s.idle|)); t.idle == [] && t.created == s.created
    decreases |s.idle|
  {
    if s.idle != [] {
      var rest := Gets(|s.idle|)[1..];
      assert rest == Gets(|s.idle| - 1) && Gets(|s.idle|)[0] == Get;
      AllGot(Got(s));
    }
  }

  lemma OneMoreKept(s: State)
    requires s.idle == [] && s.count < s.maxRange
    ensures var t := Step(s, Get);
            s.created in t.out && Waits(Step(t, Done(s.created)), s.created)
  {
    var t := Step(Step(s, Get), Done(s.created));
    assert t.idle[0].id == s.created;
  }

  /**
   The price of dropped objects going on being counted: in no run without a drain is an object given back kept exactly
   when `validate` has dropped as many as the pool may keep; every object given back is destroyed then.
   */
  lemma NothingKeptIff(s: State)
    requires Balanced(s)
    ensures s.dropped >= s.maxRange <==>
            !exists events, id :: EndsIn(s, events, id) && Waits(Run(s, events + [Done(id)]), id)
    ensures s.dropped >= s.maxRange <==>
            forall events, id :: EndsIn(s, events, id) ==> id in Run(s, events + [Done(id)]).destroyed
  {
    hide Lawful, Run, Undrained, Balanced;
    if s.dropped >= s.maxRange {
      forall events, id | EndsIn(s, events, id)
        ensures !Waits(Run(s, events + [Done(id)]), id) && id in Run(s, events + [Done(id)]).destroyed
      {
        RunSnoc(s, events, Done(id));
        NothingKeptUntilDrained(s, events);
        RunBalanced(s, events);
        GivenBack(Run(s, events), id);
      }
    } else {
      KeptAfterAll(s);
      var events, id := Gets(|s.idle|) + [Get], s.created;
      assert EndsIn(s, events, id) && Waits(Run(s, events + [Done(id)]), id);
      RunBalanced(s, events + [Done(id)]);
      WaitsAlive(Run(s, events + [Done(id)]), id);
    }
  }

  lemma WaitsAlive(s: State, id: nat)
    requires Balanced(s) && Waits(s, id)
    ensures id !in s.destroyed
  {
  }

  // ---------------------------------------------------------------- each operation, by what it changes

  /**
   An object given back is the newest idle one, and nothing is destroyed, while the idle objects and those dropped are
   fewer than the pool may keep; otherwise it is destroyed, and the idle ones stay.
   */
  lemma GivenBack(s: State, id: nat)
    requires Balanced(s) && id in s.out
    ensures var t := Step(s, Done(id));
            && t.out == s.out - {id} && t.created == s.created && t.maxRange == s.maxRange && t.dropped == s.dropped
            && if |s.idle| + s.dropped < s.maxRange
               then |t.idle| > 0 && t.idle[0].id == id && t.idle[1..] == s.idle
                    && t.destroyed == s.destroyed && t.used == s.used
               else t.idle == s.idle && !Waits(t, id)
                    && t.destroyed == s.destroyed + [id] && id in t.destroyed && t.used == s.used - 1
  {
  }

  /** A request takes the last idle object out of the list, or else an object that was never there before. */
  lemma TakenOut(s: State)
    requires Balanced(s)
    ensures var t := Step(s, Get);
            && t.destroyed == s.destroyed && t.maxRange == s.maxRange && t.dropped == s.dropped
            && if |s.idle| > 0
               then var last := |s.idle| - 1;
                    t.idle == s.idle[..last] && t.out == s.out + {s.idle[last].id}
                    && t.created == s.created && t.used == s.used
               else t.idle == [] && t.out == s.out + {s.created}
                    && t.created == s.created + 1 && t.used == s.used + 1
  {
  }

  /** A tossed object is destroyed, however many the pool may still keep. */
  lemma ThrownAway(s: State, id: nat)
    requires Balanced(s) && id in s.out
    ensures var t := Step(s, Toss(id));
            && t.out == s.out - {id} && t.destroyed == s.destroyed + [id] && t.used == s.used - 1
            && t.idle == s.idle && t.created == s.created && t.maxRange == s.maxRange && t.dropped == s.dropped
  {
  }

  /** The first priming for less than six objects lowers the range for good; every object made is idle, newest first. */
  lemma PutIn(s: State, prime: int, made: nat)
    requires Balanced(s)
    ensures var t := Step(s, Prime(prime, made));
            && t.maxRange == (if s.maxRange == 6 && prime < 6 then prime else s.maxRange)
            && t.out == s.out && t.destroyed == s.destroyed && t.dropped == s.dropped
            && t.created == s.created + made && t.used == s.used + made
            && |t.idle| == made + |s.idle| && t.idle[made..] == s.idle
            && forall i :: 0 <= i < made ==> t.idle[i].id == s.created + made - 1 - i
  {
    FilledIds(s.(maxRange := if s.maxRange == 6 && prime < 6 then prime else s.maxRange), made);
  }

  lemma {:induction false} FilledIds(s: State, n: nat)
    ensures var t := Filled(s, n);
            && t.maxRange == s.maxRange && t.out == s.out && t.destroyed == s.destroyed && t.dropped == s.dropped
            && t.created == s.created + n && t.used == s.used + n
            && |t.idle| == n + |s.idle| && t.idle[n..] == s.idle
            && forall i :: 0 <= i < n ==> t.idle[i].id == s.created + n - 1 - i
  {
    if n > 0 {
      FilledIds(s, n - 1);
    }
  }

  /** Draining destroys the idle objects, the newest first, and forgets those dropped before. */
  lemma DrainedOut(s: State)
    requires Balanced(s)
    ensures var t := Step(s, Drain);
            && t.idle == [] && t.count == 0 && t.dropped == 0 && t.used == |s.out|
            && t.out == s.out && t.created == s.created && t.maxRange == s.maxRange
            && |t.destroyed| == |s.destroyed| + |s.idle| && t.destroyed[..|s.destroyed|] == s.destroyed
            && forall i :: 0 <= i < |s.idle| ==> t.destroyed[|s.destroyed| + i] == s.idle[i].id
  {
    EmptiedIds(s);
    DrainedBalanced(s);
  }

  lemma {:induction false} EmptiedIds(s: State)
    ensures var t := Emptied(s);
            && t.idle == [] && t.out == s.out && t.created == s.created && t.maxRange == s.maxRange
            && |t.destroyed| == |s.destroyed| + |s.idle| && t.destroyed[..|s.destroyed|] == s.destroyed
            && forall i :: 0 <= i < |s.idle| ==> t.destroyed[|s.destroyed| + i] == s.idle[i].id
    decreases |s.idle|
  {
    if s.idle != [] {
      var t := Destroyed(s, s.idle[0].id).(idle := s.idle[1..]);
      EmptiedIds(t);
      assert Emptied(s).destroyed[..|s.destroyed| + 1][..|s.destroyed|] == s.destroyed;
      assert Emptied(s).destroyed[|s.destroyed|] == t.destroyed[|s.destroyed|];
    }
  }

  /** Validating destroys the idle objects gone bad, and no other object; they stay counted until a drain. */
  lemma SortedOut(s: State, bad: set<nat>)
    requires Balanced(s)
    ensures var t := Step(s, Validate(bad));
            && (forall x :: x in t.idle <==> x in s.idle && x.id !in bad) && InOrder(t)
            && (forall id :: id in t.destroyed <==> id in s.destroyed || (id in bad && Waits(s, id)))
            && t.out == s.out && t.created == s.created && t.maxRange == s.maxRange && t.count == s.count
            && t.used == s.used - (|s.idle| - |t.idle|) && t.dropped == s.dropped + |s.idle| - |t.idle|
  {
    DroppedAreBad(s, 0, bad);
    DroppedStarves(s, 0, bad);
    DroppedIds(s, 0, bad);
    DroppedBalanced(s, 0, bad);
    assert s.idle[0..] == s.idle;
  }

  lemma {:induction false} DroppedIds(s: State, i: nat, bad: set<nat>)
    requires i <= |s.idle|
    ensures var t := Dropped(s, i, bad);
            && (forall id :: id in t.destroyed <==>
                  id in s.destroyed || (id in bad && exists k :: i <= k < |s.idle| && s.idle[k].id == id))
            && t.out == s.out && t.created == s.created && t.count == s.count
            && t.used == s.used - (|s.idle| - |t.idle|)
    decreases |s.idle| - i
  {
    if i == |s.idle| {
    } else if s.idle[i].id in bad {
      var t := Destroyed(s, s.idle[i].id).(idle := s.idle[..i] + s.idle[i + 1..], dropped := s.dropped + 1);
      DroppedIds(t, i, bad);
      forall id | id in bad
        ensures (exists k :: i <= k < |s.idle| && s.idle[k].id == id) <==>
                id == s.idle[i].id || exists k :: i <= k < |t.idle| && t.idle[k].id == id
      {
        if k :| i < k < |s.idle| && s.idle[k].id == id {
          assert t.idle[k - 1].id == id;
        }
        if k :| i <= k < |t.idle| && t.idle[k].id == id {
          assert s.idle[k + 1].id == id;
        }
      }
    } else {
      DroppedIds(s, i + 1, bad);
    }
  }

  lemma StepStarves(s: State, e: Event)
    requires !e.Drain?
    ensures Step(s, e).dropped >= s.dropped && Step(s, e).maxRange <= s.maxRange
  {
    match e
    case Prime(prime, made) =>
      FilledStarves(s.(maxRange := if s.maxRange == MAX_RANGE && prime < s.maxRange then prime else s.maxRange), made);
    case Validate(bad) =>
      DroppedStarves(s, 0, bad);
    case _ =>
  }

  lemma {:induction false} FilledStarves(s: State, n: nat)
    ensures Filled(s, n).dropped == s.dropped && Filled(s, n).maxRange == s.maxRange
  {
    if n > 0 {
      FilledStarves(s, n - 1);
    }
  }

  lemma {:induction false} DroppedStarves(s: State, i: nat, bad: set<nat>)
    requires i <= |s.idle|
    ensures Dropped(s, i, bad).dropped >= s.dropped && Dropped(s, i, bad).maxRange == s.maxRange
    ensures Dropped(s, i, bad).dropped - s.dropped == |s.idle| - |Dropped(s, i, bad).idle|
    decreases |s.idle| - i
  {
    if i == |s.idle| {
    } else if s.idle[i].id in bad {
      DroppedStarves(Destroyed(s, s.idle[i].id).(idle := s.idle[..i] + s.idle[i + 1..], dropped := s.dropped + 1), i,
                     bad);
    } else {
      DroppedStarves(s, i + 1, bad);
    }
  }

  /** Makes objects, which may fail, and destroys them; some may have gone bad meanwhile. */
  class Creator {
    var broken: set<nat>
    var created: nat
    ghost var destroyed: seq<nat>

    constructor ()
      ensures created == 0 && destroyed == []
    {
      created, destroyed, broken := 0, [], {};
    }

    method Create() returns (t: Option<nat>)
      modifies this`created
      ensures t.Some? ==> t.value == old(created) && created == old(created) + 1
      ensures t.None? ==> created == old(created)
    {
      var fails: bool := *;
      if fails {
        return None;
      }
      created := created + 1;
      return Some(created - 1);
    }

    method Destroy(t: nat)
      modifies this`destroyed
      ensures destroyed == old(destroyed) + [t]
    {
      destroyed := destroyed + [t];
    }

    predicate IsValid(t: nat)
      reads this
    {
      t !in broken
    }
  }

  /** An object as the pool hands it out. */
  class Pooled {
    const content: nat
    var pool: Pool?

    constructor (content: nat, pool: Pool)
      ensures this.content == content && this.pool == pool
    {
      this.content, this.pool := content, pool;
    }

    method Done()
      requires pool != null ==> pool.Valid() && content in pool.state.out
      modifies pool, if pool == null then {} else {pool.creator}
      ensures pool == old(pool)
      ensures pool != null ==> pool.Valid() && pool.state == Offered(old(pool.state), content)
      ensures pool != null ==>
                if old(pool != null && pool.count < pool.maxRange)
                then pool.list == [this] + old(pool.list) && pool.creator.destroyed == old(pool.creator.destroyed)
                else pool.list == old(pool.list)
                     && pool.creator.destroyed == old(pool.creator.destroyed) + [content]
    {
      if pool != null {
        pool.Offer(this);
      }
    }

    method Toss()
      requires pool != null ==> pool.Books()
      modifies this`pool, pool, if pool == null then {} else {pool.creator}
      ensures pool == null
      ensures old(pool) != null ==>
                old(pool).Books() && old(pool).state == Tossed(old(pool.state), content)
                    && old(pool).list == old(pool.list)
      ensures old(pool) != null ==>
                old(pool).creator.broken == old(pool.creator.broken) && old(pool).maxRange == old(pool.maxRange)
      ensures old(pool != null && pool.Valid() && content in pool.state.out) ==> old(pool).Valid()
    {
      if pool != null {
        ghost var p, s := pool, pool.state;
        pool.Destroy(content);
        pool.state := Tossed(s, content);
      }
      pool := null;
      hide Balanced;
    }
  }

  class Pool {
    var list: seq<Pooled>
    var count: int
    var used: int
    var maxRange: int
    const creator: Creator
    ghost var state: State

    /** The counters are those of the state. */
    ghost predicate Books()
      reads this, creator
    {
      && count == state.count && used == state.used && maxRange == state.maxRange
      && creator.created == state.created && creator.destroyed == state.destroyed
    }

    /** The list is the idle objects. */
    ghost predicate Listed()
      reads this, list
    {
      |list| == |state.idle|
          && forall i :: 0 <= i < |list| ==> list[i].content == state.idle[i].id && list[i].pool == this
    }

    ghost predicate Valid()
      reads this, creator, list
    {
      Books() && Listed() && Balanced(state)
    }

    constructor (creator: Creator)
      requires creator.created == 0 && creator.destroyed == []
      ensures Valid() && state == EMPTY && this.creator == creator
    {
      list, count, used, maxRange := [], 0, 0, MAX_RANGE;
      this.creator := creator;
      state := EMPTY;
    }

    method AddFirst(pt: Pooled)
      requires pt.pool == this && Listed()
      modifies this`list, this`count, this`state
      ensures Listed() && list == [pt] + old(list) && count == old(count) + 1
              && state == PutFirst(old(state), pt.content)
    {
      list := [pt] + list;
      count := count + 1;
      state := PutFirst(state, pt.content);
    }

    method PrimeOne() returns (failed: bool)
      requires Books() && Listed()
      modifies this, creator`created
      ensures Books() && Listed()
      ensures state == if failed then old(state)
                       else PutFirst(old(state), old(state.created)).(created := old(state.created) + 1,
                                                                      used := old(state.used) + 1)
    {
      var t := creator.Create();
      failed := t.None?;
      if !failed {
        var pt := new Pooled(t.value, this);
        AddFirst(pt);
        used := used + 1;
        state := state.(created := state.created + 1, used := state.used + 1);
      }
    }

    /** `failed` when the creator threw, after `made` objects. */
    method Prime(prime: int) returns (failed: bool, ghost made: nat)
      requires Valid()
      modifies this, creator`created
      ensures Valid() && state == Primed(old(state), prime, made)
      ensures made <= (if prime < 0 then 0 else prime) && (!failed ==> made == if prime < 0 then 0 else prime)
    {
      hide Balanced;
      if maxRange == MAX_RANGE && prime < maxRange {
        maxRange := prime;
      }
      ghost var start := state.(maxRange := maxRange);
      state := start;
      made := 0;
      var i := 0;
      FirstPrimed(old(state), prime, 0);
      while i < prime
        invariant 0 <= i && (i <= prime || i == 0) && made == i
        invariant Books() && Listed() && state == Filled(start, made)
      {
        failed := PrimeOne();
        if failed {
          FirstPrimed(old(state), prime, made);
          return;
        }
        made := made + 1;
        i := i + 1;
      }
      FirstPrimed(old(state), prime, made);
      failed := false;
    }

    /** Null when the creator threw. */
    method Get() returns (pt: Pooled?)
      requires Valid()
      modifies this, creator`created
      ensures Valid()
      ensures pt == null ==> old(state.idle) == [] && state == old(state)
      ensures pt != null ==> state == Got(old(state)) && pt.content == Taken(old(state)) && pt.pool == this
      ensures pt != null ==> pt.content !in old(state.out) && pt.content in state.out
    {
      hide Balanced;
      GotBalanced(state);
      if |list| == 0 {
        var t := creator.Create();
        if t.None? {
          return null;
        }
        pt := new Pooled(t.value, this);
        used := used + 1;
      } else {
        pt := list[|list| - 1];
        list := list[..|list| - 1];
        count := count - 1;
      }
      state := Got(state);
    }

    method Offer(usedP: Pooled)
      requires Valid() && usedP.pool == this && usedP.content in state.out
      modifies this, creator`destroyed
      ensures Valid() && state == Offered(old(state), usedP.content)
      ensures if old(count < maxRange)
                then list == [usedP] + old(list) && used == old(used) && creator.destroyed == old(creator.destroyed)
                else list == old(list) && used == old(used) - 1
                     && creator.destroyed == old(creator.destroyed) + [usedP.content]
    {
      hide Balanced;
      OfferedBalanced(state, usedP.content);
      state := state.(out := state.out - {usedP.content});
      if count < maxRange {
        AddFirst(usedP);
      } else {
        Destroy(usedP.content);
        state := Destroyed(state, usedP.content);
      }
    }

    method Destroy(t: nat)
      modifies this`used, creator`destroyed
      ensures used == old(used) - 1 && creator.destroyed == old(creator.destroyed) + [t]
    {
      creator.Destroy(t);
      used := used - 1;
    }

    /** No object is listed twice, and none of the list is in use. */
    ghost predicate Once()
      reads this, list
    {
      && (forall i, j :: 0 <= i < j < |list| ==> list[i] != list[j])
      && (forall i :: 0 <= i < |list| ==> list[i].content !in state.out)
    }

    lemma ListedOnce()
      requires Valid()
      ensures Once()
    {
    }

    /** One idle object out, in the middle of the list. */
    method Remove(i: nat)
      requires Books() && Listed() && Once() && i < |list|
      modifies this, creator, list[i]
      ensures Books() && Listed() && Once() && list == old(list[..i] + list[i + 1..])
              && creator.broken == old(creator.broken)
      ensures state == Destroyed(old(state), old(state.idle[i].id)).(idle := old(state.idle[..i] + state.idle[i + 1..]),
                                                                     dropped := old(state.dropped) + 1)
    {
      hide Balanced;
      var t := list[i];
      assert state.out - {t.content} == state.out;
      t.Toss();
      list := list[..i] + list[i + 1..];
      state := state.(idle := state.idle[..i] + state.idle[i + 1..], dropped := state.dropped + 1);
    }

    method Validate() returns (rv: bool)
      requires Valid()
      modifies this, creator, list
      ensures Valid() && state == Dropped(old(state), 0, creator.broken) && creator.broken == old(creator.broken)
      ensures rv <==> forall x :: x in old(state.idle) ==> x.id !in creator.broken
    {
      hide Balanced;
      hide Once;
      ListedOnce();
      DroppedBalanced(state, 0, creator.broken);
      DroppedOrNot(state, 0, creator.broken);
      rv := true;
      var i := 0;
      while i < |list|
        invariant 0 <= i <= |list| && Books() && Listed() && Once() && creator.broken == old(creator.broken)
        invariant forall p :: p in list ==> p in old(list)
        invariant Dropped(state, i, creator.broken) == Dropped(old(state), 0, creator.broken)
        invariant state.dropped >= old(state.dropped) && (rv <==> state.dropped == old(state.dropped))
        decreases |list| - i
      {
        if !creator.IsValid(list[i].content) {
          rv := false;
          assert list[i] in list;
          Remove(i);
        } else {
          i := i + 1;
        }
      }
    }

    method Drain()
      requires Valid()
      modifies this, creator`destroyed
      ensures Valid() && state == Drained(old(state))
    {
      hide Balanced;
      DrainedBalanced(state);
      while |list| > 0
        invariant Listed() && used == state.used && maxRange == state.maxRange
        invariant creator.created == state.created && creator.destroyed == state.destroyed
        invariant Emptied(state) == Emptied(old(state))
      {
        var pt := list[0];
        list := list[1..];
        used := used - 1;
        creator.Destroy(pt.content);
        state := Destroyed(state, pt.content).(idle := state.idle[1..]);
      }
      count := 0;
      state := state.(count := 0, dropped := 0);
    }
  }
}
