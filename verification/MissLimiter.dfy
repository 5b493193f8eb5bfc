/**
 The lock-out map of `AbsUserCache`: how often wrong credentials may be tried, and why the thread that cleans the map
 cannot be noticed.
 */
module MissLimiter {
  import opened Wrappers

  const MIN_INTERVAL := 60000
  const MAX_TRIES := 3

  /** What is known of a key: tries after the first one are counted until `until`. */
  datatype Window = Window(until: int, ttl: nat, tries: nat)

  type Windows = map<string, Window>

  /** The windows after an attempt at time `now`. */
  function Tried(m: Windows, key: string, now: int, interval: nat): Windows {
    if key !in m then
      m[key := Window(now + interval, interval, 0)]
    else if now > m[key].until then
      m[key := Window(now + m[key].ttl, m[key].ttl, 0)]
    else
      m[key := m[key].(tries := m[key].tries + 1)]
  }

  predicate Allowed(m: Windows, key: string, now: int) {
    key in m && now <= m[key].until ==> m[key].tries + 1 < MAX_TRIES
  }

  function Swept(m: Windows, key: string, now: int): Windows {
    if key in m && m[key].until < now then m - {key} else m
  }

  /** A wrong credential, or the cleaner looking at one key. */
  datatype Event = Attempt(key: string, at: int) | Sweep(key: string, at: int)

  function After(m: Windows, e: Event, interval: nat): Windows {
    match e
    case Attempt(key, at) => Tried(m, key, at, interval)
    case Sweep(key, at) => Swept(m, key, at)
  }

  function AfterAll(m: Windows, events: seq<Event>, interval: nat): Windows
    decreases |events|
  {
    if events == [] then m else AfterAll(After(m, events[0], interval), events[1..], interval)
  }

  /** What the callers are told, attempt by attempt. */
  function Answers(m: Windows, events: seq<Event>, interval: nat): seq<bool>
    decreases |events|
  {
    if events == [] then []
    else
      (if events[0].Attempt? then [Allowed(m, events[0].key, events[0].at)] else [])
      + Answers(After(m, events[0], interval), events[1..], interval)
  }

  function Attempts(events: seq<Event>): seq<Event> {
    if events == [] then [] else (if events[0].Attempt? then [events[0]] else []) + Attempts(events[1..])
  }

  /** The clock does not go back, and starts at `now`. */
  predicate InOrder(events: seq<Event>, now: int) {
    events == [] || (now <= events[0].at && InOrder(events[1..], events[0].at))
  }

  predicate OneInterval(m: Windows, interval: nat) {
    forall k :: k in m ==> m[k].ttl == interval
  }

  /** `cleaned` lacks windows of `m` that are over. */
  ghost predicate Cleaned(cleaned: Windows, m: Windows, now: int) {
    forall k ::
      && (k in cleaned ==> k in m && cleaned[k] == m[k])
      && (k in m && k !in cleaned ==> m[k].until < now)
  }

  /** The cleaner is unobservable: every caller gets the answer it would get without it. */
  lemma CleanerUnobservable(m: Windows, events: seq<Event>, interval: nat, now: int)
    requires OneInterval(m, interval) && InOrder(events, now)
    ensures Answers(m, events, interval) == Answers(m, Attempts(events), interval)
  {
    CleanedAnswers(m, m, events, interval, now);
  }

  /** An attempt is answered alike, and the windows stay alike. */
  lemma TriedAlike(cleaned: Windows, m: Windows, key: string, at: int, interval: nat, now: int)
    requires OneInterval(m, interval) && Cleaned(cleaned, m, now) && now <= at
    ensures Allowed(cleaned, key, at) == Allowed(m, key, at)
    ensures OneInterval(Tried(m, key, at, interval), interval)
    ensures Cleaned(Tried(cleaned, key, at, interval), Tried(m, key, at, interval), at)
  {
  }

  lemma SweptAlike(cleaned: Windows, m: Windows, key: string, at: int, now: int)
    requires Cleaned(cleaned, m, now) && now <= at
    ensures Cleaned(Swept(cleaned, key, at), m, at)
  {
  }

  lemma {:induction false} CleanedAnswers(cleaned: Windows, m: Windows, events: seq<Event>, interval: nat, now: int)
    requires OneInterval(m, interval) && Cleaned(cleaned, m, now) && InOrder(events, now)
    ensures Answers(cleaned, events, interval) == Answers(m, Attempts(events), interval)
    decreases |events|
  {
    hide Cleaned, OneInterval, Tried, Swept, Allowed;
    if events == [] {
    } else {
      var e := events[0];
      match e {
        case Attempt(key, at) =>
          var attempts := Attempts(events);
          assert attempts[0] == e && attempts[1..] == Attempts(events[1..]);
          TriedAlike(cleaned, m, key, at, interval, now);
          CleanedAnswers(After(cleaned, e, interval), After(m, e, interval), events[1..], interval, at);
        case Sweep(key, at) =>
          SweptAlike(cleaned, m, key, at, now);
          CleanedAnswers(After(cleaned, e, interval), m, events[1..], interval, at);
          assert Attempts(events) == Attempts(events[1..]);
      }
    }
  }

  lemma AnswersStep(m: Windows, e: Event, rest: seq<Event>, interval: nat)
    ensures Answers(m, [e] + rest, interval) ==
              (if e.Attempt? then [Allowed(m, e.key, e.at)] else []) + Answers(After(m, e, interval), rest, interval)
    ensures Attempts([e] + rest) == (if e.Attempt? then [e] else []) + Attempts(rest)
    ensures forall now :: InOrder([e] + rest, now) <==> now <= e.at && InOrder(rest, e.at)
  {
    assert ([e] + rest)[1..] == rest;
  }

  /** An attempt at time `s` and three at time `t`. */
  function OneAndThree(key: string, s: int, t: int): seq<Event> {
    [Attempt(key, s)] + ([Attempt(key, t)] + ([Attempt(key, t)] + ([Attempt(key, t)] + [])))
  }

  lemma OneAndThreeAnswers(m: Windows, key: string, s: int, t: int, interval: nat)
    requires s <= t
    ensures Attempts(OneAndThree(key, s, t)) == OneAndThree(key, s, t) && InOrder(OneAndThree(key, s, t), s)
    ensures var m1 := Tried(m, key, s, interval);
            var m2 := Tried(m1, key, t, interval);
            Answers(m, OneAndThree(key, s, t), interval) ==
              [Allowed(m, key, s), Allowed(m1, key, t), Allowed(m2, key, t),
               Allowed(Tried(m2, key, t, interval), key, t)]
  {
    var e := Attempt(key, t);
    var m1 := Tried(m, key, s, interval);
    var m2 := Tried(m1, key, t, interval);
    var m3 := Tried(m2, key, t, interval);
    AnswersStep(m3, e, [], interval);
    AnswersStep(m2, e, [e] + [], interval);
    AnswersStep(m1, e, [e] + ([e] + []), interval);
    AnswersStep(m, Attempt(key, s), [e] + ([e] + ([e] + [])), interval);
  }

  lemma FourthAnswer(m: Windows, key: string, s: int, t: int, interval: nat)
    requires s <= t
    ensures var four := OneAndThree(key, s, t);
            && Attempts(four) == four && InOrder(four, s)
            && |Answers(m, four, interval)| == 4
            && Answers(m, four, interval)[3] == FourthAllowed(m, key, s, t, interval)
  {
    hide Answers, Attempts, Tried, Allowed, OneAndThree, InOrder;
    OneAndThreeAnswers(m, key, s, t, interval);
  }

  /** A sweep in front. */
  lemma SweptFirst(m: Windows, key: string, s: int, rest: seq<Event>, interval: nat, now: int)
    ensures var events := [Sweep(key, s)] + rest;
            && Answers(m, events, interval) == Answers(Swept(m, key, s), rest, interval)
            && Attempts(events) == Attempts(rest) && (InOrder(events, now) <==> now <= s && InOrder(rest, s))
  {
    hide Swept;
    var answers := Answers(Swept(m, key, s), rest, interval);
    assert ([Sweep(key, s)] + rest)[1..] == rest && [] + answers == answers && [] + Attempts(rest) == Attempts(rest);
  }

  /** The cleaner takes a finished window away, and then come an attempt and three more after the shorter interval. */
  function Noticing(m: Windows, key: string, interval: nat, now: int): seq<Event>
    requires key in m
  {
    var s := (if m[key].until < now then now else m[key].until) + 1;
    [Sweep(key, s)] + OneAndThree(key, s, s + (if m[key].ttl < interval then m[key].ttl else interval) + 1)
  }

  /**
   With another interval it can be noticed: a window that is renewed keeps the length it was opened with, a window that
   was removed gets that of the cache at hand.
   */
  lemma CleanerObservable(m: Windows, key: string, interval: nat, now: int)
    requires key in m && m[key].ttl != interval
    ensures var events := Noticing(m, key, interval, now);
            InOrder(events, now) && Answers(m, events, interval) != Answers(m, Attempts(events), interval)
  {
    hide Answers, Attempts, Tried, Allowed, Swept, OneAndThree, FourthAllowed;
    var s := (if m[key].until < now then now else m[key].until) + 1;
    var t := s + (if m[key].ttl < interval then m[key].ttl else interval) + 1;
    SweptFirst(m, key, s, OneAndThree(key, s, t), interval, now);
    FourthAnswer(m, key, s, t, interval);
    FourthAnswer(Swept(m, key, s), key, s, t, interval);
    LastDiffers(m, key, s, t, interval);
  }

  /** Of the last three attempts the window with the longer interval refuses one. */
  lemma LastDiffers(m: Windows, key: string, s: int, t: int, interval: nat)
    requires key in m && m[key].until < s && m[key].ttl != interval
    requires t == s + (if m[key].ttl < interval then m[key].ttl else interval) + 1
    ensures FourthAllowed(m, key, s, t, interval) != FourthAllowed(Swept(m, key, s), key, s, t, interval)
  {
  }

  predicate FourthAllowed(m: Windows, key: string, s: int, t: int, interval: nat) {
    Allowed(Tried(Tried(Tried(m, key, s, interval), key, t, interval), key, t, interval), key, t)
  }

  ghost predicate Same(m: Windows, events: seq<Event>, interval: nat) {
    Answers(m, events, interval) == Answers(m, Attempts(events), interval)
  }

  /** The cleaner is unobservable in all runs from a map exactly when its windows all have the interval of the cache. */
  lemma UnobservableIff(m: Windows, interval: nat, now: int)
    ensures (forall events: seq<Event> :: InOrder(events, now) ==> Same(m, events, interval)) <==>
              OneInterval(m, interval)
  {
    if OneInterval(m, interval) {
      forall events: seq<Event> | InOrder(events, now) ensures Same(m, events, interval) {
        CleanerUnobservable(m, events, interval, now);
      }
    } else {
      var key :| key in m && m[key].ttl != interval;
      CleanerObservable(m, key, interval, now);
      assert !Same(m, Noticing(m, key, interval, now), interval);
    }
  }

  /** How many of the attempts on `key` were allowed. */
  function Granted(attempts: seq<Event>, answers: seq<bool>, key: string): nat
    requires |attempts| == |answers|
  {
    if attempts == [] then 0
    else (if attempts[0].key == key && answers[0] then 1 else 0) + Granted(attempts[1..], answers[1..], key)
  }

  lemma {:induction false} AttemptsTwice(events: seq<Event>)
    ensures Attempts(Attempts(events)) == Attempts(events)
    ensures forall e :: e in Attempts(events) ==> e.Attempt? && e in events
  {
    if events != [] {
      AttemptsTwice(events[1..]);
      if events[0].Attempt? {
        assert Attempts(events)[1..] == Attempts(events[1..]);
      } else {
        assert Attempts(events) == Attempts(events[1..]);
      }
    }
  }

  lemma {:induction false} OneAnswerEach(m: Windows, events: seq<Event>, interval: nat)
    ensures |Answers(m, events, interval)| == |Attempts(events)|
    decreases |events|
  {
    if events != [] {
      OneAnswerEach(After(m, events[0], interval), events[1..], interval);
    }
  }

  lemma {:induction false} StillInOrder(events: seq<Event>, earlier: int, now: int)
    requires InOrder(events, now) && earlier <= now
    ensures InOrder(Attempts(events), earlier)
  {
    if events != [] {
      StillInOrder(events[1..], if events[0].Attempt? then events[0].at else earlier, events[0].at);
      if events[0].Attempt? {
        assert Attempts(events)[1..] == Attempts(events[1..]);
      } else {
        assert Attempts(events) == Attempts(events[1..]);
      }
    }
  }

  predicate OnlyAttempts(events: seq<Event>) {
    forall e :: e in events ==> e.Attempt?
  }

  /** The attempts allowed in a run without sweeps. */
  function Rate(m: Windows, attempts: seq<Event>, interval: nat, key: string): nat
    requires OnlyAttempts(attempts)
    decreases |attempts|
  {
    if attempts == [] then 0
    else
      assert attempts[0] in attempts;
      (if attempts[0].key == key && Allowed(m, key, attempts[0].at) then 1 else 0)
      + Rate(After(m, attempts[0], interval), attempts[1..], interval, key)
  }

  lemma {:induction false} RateIsGranted(m: Windows, attempts: seq<Event>, interval: nat, key: string)
    requires OnlyAttempts(attempts)
    ensures Attempts(attempts) == attempts && |Answers(m, attempts, interval)| == |attempts|
    ensures Granted(attempts, Answers(m, attempts, interval), key) == Rate(m, attempts, interval, key)
    decreases |attempts|
  {
    OneAnswerEach(m, attempts, interval);
    if attempts != [] {
      assert attempts[0] in attempts;
      RateIsGranted(After(m, attempts[0], interval), attempts[1..], interval, key);
      assert Answers(m, attempts, interval)[1..] == Answers(After(m, attempts[0], interval), attempts[1..], interval);
    }
  }

  /** From the middle of a window on; `more` windows may still begin. */
  lemma {:induction false} RateInWindow(m: Windows, events: seq<Event>, interval: nat, key: string, now: int,
                                        last: int, more: nat)
    requires key in m && m[key].ttl == interval && m[key].until - interval <= now
    requires OnlyAttempts(events) && InOrder(events, now) && forall e :: e in events ==> e.at <= last
    requires last - (m[key].until - interval) < (more + 1) * (interval + 1)
    ensures Rate(m, events, interval, key) <= (if m[key].tries < 2 then 2 - m[key].tries else 0) + 3 * more
    decreases |events|
  {
    if events != [] {
      var e := events[0];
      assert e in events;
      var n := After(m, e, interval);
      if e.key == key && e.at > m[key].until {
        OneWindowFewer(more, interval + 1);
        RateInWindow(n, events[1..], interval, key, e.at, last, more - 1);
      } else {
        RateInWindow(n, events[1..], interval, key, e.at, last, more);
      }
    }
  }

  lemma OneWindowFewer(more: nat, length: nat)
    ensures (more + 1) * length == more * length + length
    ensures more == 0 ==> (more + 1) * length == length
  {
  }

  /** From before the first window on. */
  lemma {:induction false} RateFromStart(m: Windows, events: seq<Event>, interval: nat, key: string, now: int,
                                         first: int, last: int, more: nat)
    requires key !in m && last - first < (more + 1) * (interval + 1)
    requires OnlyAttempts(events) && InOrder(events, now)
    requires forall e :: e in events ==> e.at <= last && (e.key == key ==> first <= e.at)
    ensures Rate(m, events, interval, key) <= 3 * (1 + more)
    decreases |events|
  {
    if events != [] {
      var e := events[0];
      assert e in events;
      var n := After(m, e, interval);
      if e.key == key {
        RateInWindow(n, events[1..], interval, key, e.at, last, more);
      } else {
        RateFromStart(n, events[1..], interval, key, e.at, first, last, more);
      }
    }
  }

  /**
   The rate: from its first attempt, no earlier than `first`, up to `last`, a key is allowed at most three attempts, and
   three more for every window, of the interval and a millisecond, that fits in between; whatever the cleaner does.
   */
  lemma RateBound(m: Windows, events: seq<Event>, interval: nat, key: string, now: int, first: int, last: int)
    requires OneInterval(m, interval) && key !in m && InOrder(events, now) && first <= last
    requires forall e :: e in events ==> e.at <= last && (e.key == key ==> first <= e.at)
    ensures |Attempts(events)| == |Answers(m, events, interval)|
    ensures Granted(Attempts(events), Answers(m, events, interval), key) <= 3 * (1 + (last - first) / (interval + 1))
  {
    var attempts, more := Attempts(events), (last - first) / (interval + 1);
    OneAnswerEach(m, events, interval);
    CleanerUnobservable(m, events, interval, now);
    AttemptsTwice(events);
    StillInOrder(events, now, now);
    RateIsGranted(m, attempts, interval, key);
    WholeWindows(last - first, interval + 1);
    RateFromStart(m, attempts, interval, key, now, first, last, more);
  }

  lemma WholeWindows(d: nat, length: nat)
    requires length > 0
    ensures d < (d / length + 1) * length
  {
    OneWindowFewer(d / length, length);
  }

  /** Three attempts at once, and three more as soon as each window is over. */
  function Bursts(key: string, at: int, interval: nat, more: nat): seq<Event>
    decreases more
  {
    Burst(key, at) + if more == 0 then [] else Bursts(key, at + interval + 1, interval, more - 1)
  }

  function Burst(key: string, at: int): seq<Event> {
    [Attempt(key, at), Attempt(key, at), Attempt(key, at)]
  }

  lemma {:induction false} BurstsSpan(key: string, at: int, interval: nat, more: nat)
    ensures forall e :: e in Bursts(key, at, interval, more) ==>
              e.Attempt? && e.key == key && e.at <= at + more * (interval + 1)
    decreases more
  {
    if more > 0 {
      OneWindowFewer(more - 1, interval + 1);
      BurstsSpan(key, at + interval + 1, interval, more - 1);
    }
  }

  lemma {:induction false} BurstsInOrder(key: string, at: int, interval: nat, more: nat)
    ensures InOrder(Bursts(key, at, interval, more), at)
    decreases more
  {
    var later := at + interval + 1;
    if more > 0 {
      BurstsInOrder(key, later, interval, more - 1);
    }
    ThreeTimes(key, at, if more == 0 then [] else Bursts(key, later, interval, more - 1));
  }

  lemma ThreeTimes(key: string, at: int, rest: seq<Event>)
    requires InOrder(rest, at)
    ensures InOrder(Burst(key, at) + rest, at)
  {
    var e := Attempt(key, at);
    Later(e, rest);
    Later(e, [e] + rest);
    Later(e, [e] + ([e] + rest));
    assert Burst(key, at) + rest == [e] + ([e] + ([e] + rest));
  }

  lemma Later(e: Event, rest: seq<Event>)
    requires InOrder(rest, e.at)
    ensures InOrder([e] + rest, e.at)
  {
    assert ([e] + rest)[1..] == rest;
  }

  /** The bound is reached, for every number of windows. */
  lemma RateReached(m: Windows, key: string, at: int, interval: nat, more: nat)
    requires key in m ==> m[key].until < at && m[key].ttl == interval
    ensures OnlyAttempts(Bursts(key, at, interval, more)) && InOrder(Bursts(key, at, interval, more), at)
    ensures forall e :: e in Bursts(key, at, interval, more) ==> e.at <= at + more * (interval + 1)
    ensures Rate(m, Bursts(key, at, interval, more), interval, key) == 3 * (1 + more)
  {
    BurstsInOrder(key, at, interval, more);
    BurstsSpan(key, at, interval, more);
    BurstsRate(m, key, at, interval, more);
  }

  lemma {:induction false} BurstsRate(m: Windows, key: string, at: int, interval: nat, more: nat)
    requires key in m ==> m[key].until < at && m[key].ttl == interval
    ensures OnlyAttempts(Bursts(key, at, interval, more))
    ensures Rate(m, Bursts(key, at, interval, more), interval, key) == 3 * (1 + more)
    decreases more
  {
    var later := at + interval + 1;
    var rest := if more == 0 then [] else Bursts(key, later, interval, more - 1);
    hide Rate;
    if more > 0 {
      var n := Tried(Tried(Tried(m, key, at, interval), key, at, interval), key, at, interval);
      BurstsRate(n, key, later, interval, more - 1);
    }
    BurstStep(m, key, at, interval, rest);
  }

  lemma BurstStep(m: Windows, key: string, at: int, interval: nat, rest: seq<Event>)
    requires key in m ==> m[key].until < at
    requires OnlyAttempts(rest)
    ensures OnlyAttempts(Burst(key, at) + rest)
    ensures Rate(m, Burst(key, at) + rest, interval, key) ==
              3 + Rate(Tried(Tried(Tried(m, key, at, interval), key, at, interval), key, at, interval), rest,
                       interval, key)
  {
    var e := Attempt(key, at);
    assert Burst(key, at) + rest == [e] + ([e] + ([e] + rest));
    RateStep(Tried(Tried(m, key, at, interval), key, at, interval), e, rest, interval, key);
    RateStep(Tried(m, key, at, interval), e, [e] + rest, interval, key);
    RateStep(m, e, [e] + ([e] + rest), interval, key);
  }

  lemma RateStep(m: Windows, e: Event, rest: seq<Event>, interval: nat, key: string)
    requires e.Attempt? && OnlyAttempts(rest) && e.key == key
    ensures OnlyAttempts([e] + rest)
    ensures Rate(m, [e] + rest, interval, key) ==
              (if Allowed(m, key, e.at) then 1 else 0) + Rate(Tried(m, key, e.at, interval), rest, interval, key)
  {
    assert ([e] + rest)[1..] == rest;
  }

  /** One record of the map, as the program keeps it. */
  class Miss {
    var timestamp: int
    const timetolive: nat
    var tries: nat

    constructor (timeInterval: nat, now: int)
      ensures View() == Window(now + timeInterval, timeInterval, 0)
    {
      timestamp := now + timeInterval;
      timetolive := timeInterval;
      tries := 0;
    }

    function View(): Window
      reads this
    {
      Window(timestamp, timetolive, tries)
    }

    method MayContinue(ts: int) returns (go: bool)
      modifies this
      ensures View() == if ts > old(timestamp) then Window(ts + timetolive, timetolive, 0)
                        else Window(old(timestamp), timetolive, old(tries) + 1)
      ensures go <==> (ts > old(timestamp) || old(tries) + 1 < MAX_TRIES)
    {
      if ts > timestamp {
        tries := 0;
        timestamp := ts + timetolive;
      } else {
        tries := tries + 1;
        if MAX_TRIES <= tries {
          return false;
        }
      }
      return true;
    }
  }

  /** The map, one for all caches. */
  class MissMap {
    var entries: map<string, Miss>

    ghost predicate Valid()
      reads this
    {
      forall j, k :: j in entries && k in entries && j != k ==> entries[j] != entries[k]
    }

    ghost function View(): Windows
      reads this, entries.Values
    {
      map k | k in entries :: entries[k].View()
    }

    constructor ()
      ensures Valid() && View() == map[]
    {
      entries := map[];
    }

    method Put(mkey: string, now: int, interval: nat)
      requires Valid() && mkey !in entries
      modifies this
      ensures Valid() && fresh(entries.Values - old(entries.Values))
      ensures View() == old(View())[mkey := Window(now + interval, interval, 0)]
    {
      var miss := new Miss(interval, now);
      entries := entries[mkey := miss];
    }

    /** One turn of the cleaning loop. */
    method CleanKey(key: string, now: int)
      requires Valid()
      modifies this
      ensures Valid() && entries.Values <= old(entries.Values) && View() == Swept(old(View()), key, now)
    {
      if key in entries {
        var timeLeft := entries[key].timestamp - now;
        if timeLeft < 0 {
          entries := entries - {key};
        }
      }
    }
  }

  class AbsUserCache {
    /** The interval of the cleaning thread, if there is one. */
    const clean: Option<nat>
    const missMap: MissMap

    function Interval(): nat {
      if clean.None? then MIN_INTERVAL else clean.value
    }

    /** A cache joins the map as it is. */
    constructor (cleanInterval: int, missMap: MissMap)
      ensures this.missMap == missMap
      ensures Interval() == if cleanInterval < 60000 then 60000 else cleanInterval
      ensures clean.None? <==> cleanInterval <= 0
    {
      clean := if cleanInterval <= 0 then None
               else Some(if cleanInterval < MIN_INTERVAL then MIN_INTERVAL else cleanInterval);
      this.missMap := missMap;
    }

    /** A cache made from another one shares its keys, too, but not the cleaner, and so not the interval. */
    constructor From(cache: AbsUserCache)
      ensures missMap == cache.missMap && Interval() == 60000
    {
      clean := None;
      missMap := cache.missMap;
    }

    method AddMiss(mkey: string, now: int) returns (go: bool)
      requires missMap.Valid()
      modifies missMap, missMap.entries.Values
      ensures missMap.Valid() && fresh(missMap.entries.Values - old(missMap.entries.Values))
      ensures missMap.View() == Tried(old(missMap.View()), mkey, now, Interval())
      ensures go <==> Allowed(old(missMap.View()), mkey, now)
    {
      if mkey !in missMap.entries {
        missMap.Put(mkey, now, Interval());
        go := true;
      } else {
        go := missMap.entries[mkey].MayContinue(now);
      }
    }

    /** The cleaning loop, over the keys in the order of the map; the clock is read for every key. */
    method CleanMisses(keys: seq<string>, clock: seq<int>) returns (ghost sweeps: seq<Event>)
      requires missMap.Valid() && |clock| == |keys|
      modifies missMap
      ensures missMap.Valid() && |sweeps| == |keys|
                && forall i :: 0 <= i < |keys| ==> sweeps[i] == Sweep(keys[i], clock[i])
      ensures missMap.View() == AfterAll(old(missMap.View()), sweeps, Interval())
    {
      sweeps := [];
      for i := 0 to |keys|
        invariant missMap.Valid() && missMap.entries.Values <= old(missMap.entries.Values)
        invariant |sweeps| == i && forall j :: 0 <= j < i ==> sweeps[j] == Sweep(keys[j], clock[j])
        invariant missMap.View() == AfterAll(old(missMap.View()), sweeps, Interval())
      {
        AfterOneMore(old(missMap.View()), sweeps, Sweep(keys[i], clock[i]), Interval());
        missMap.CleanKey(keys[i], clock[i]);
        sweeps := sweeps + [Sweep(keys[i], clock[i])];
      }
    }
  }

  lemma {:induction false} AfterOneMore(m: Windows, events: seq<Event>, e: Event, interval: nat)
    ensures AfterAll(m, events + [e], interval) == After(AfterAll(m, events, interval), e, interval)
    decreases |events|
  {
    if events == [] {
      assert [e][1..] == [];
    } else {
      assert (events + [e])[1..] == events[1..] + [e];
      AfterOneMore(After(m, events[0], interval), events[1..], e, interval);
    }
  }
}
