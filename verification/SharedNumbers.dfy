/**
 Element types that share prefix and suffix share one sequence of numbers. When a number can then be in use twice: the
 query for released numbers does not ask for the element type, the query for a row to reuse does.
 */
module SharedNumbers {
  import opened Wrappers
  import opened SequenceFormat
  import opened NameTable
  import opened SequenceGenerator
  import opened NameAttempts
  import opened Allocator

  /** The same search under another element type. */
  function As(q: Quest, elementType: string): Quest {
    q.(elementType := elementType)
  }

  /** Requests and releases, each on behalf of an element type. */
  type Run = seq<(string, Demand)>

  function ServeTypes(q: Quest, rows: seq<Row>, run: Run): seq<Row>
    requires Sound(q)
    decreases run
  {
    if |run| == 0 then rows else ServeTypes(q, Serve(As(q, run[0].0), rows, run[0].1), run[1..])
  }

  /** A run of requests for these types, and of releases. */
  predicate Over(types: set<string>, run: Run) {
    forall i :: 0 <= i < |run| ==> run[i].0 in types && !run[i].1.Elsewhere?
  }

  /** No two rows in use have the same number. */
  predicate NumbersDistinct(rows: seq<Row>) {
    forall i, j :: 0 <= i < j < |rows| && rows[i].released != Yes && rows[j].released != Yes ==>
      rows[i].seqNum != rows[j].seqNum
  }

  // ---------------------------------------------------------------- one type

  lemma {:induction false} ReleaseAllKeepsDense(q: Quest, rows: seq<Row>, keys: seq<Option<string>>)
    requires Dense(q, rows)
    ensures Dense(q, ReleaseAll(rows, keys))
    decreases keys
  {
    if |keys| > 0 {
      ReleaseKeepsDense(q, rows, keys[0]);
      ReleaseAllKeepsDense(q, Release(rows, keys[0]), keys[1..]);
    }
  }

  lemma ServeKeepsDense(q: Quest, rows: seq<Row>, demand: Demand)
    requires Regular(q) && Dense(q, rows) && !demand.Elsewhere?
    ensures Dense(q, Serve(q, rows, demand))
  {
    hide Outcome, Regular, Dense, Store, Taken, NextSlot;
    match demand {
      case Free(keys) => ReleaseAllKeepsDense(q, rows, keys);
      case Ask(externalId) =>
        RequestRefines(q, rows);
        if NextSlot(q, Taken(rows)).Some? {
          StoreRefines(q, rows, externalId);
        }
    }
  }

  lemma {:induction false} OneTypeStaysDense(q: Quest, t: string, rows: seq<Row>, run: Run)
    requires Regular(q) && Dense(As(q, t), rows) && Over({t}, run)
    ensures Dense(As(q, t), ServeTypes(q, rows, run))
    decreases run
  {
    if |run| > 0 {
      ServeKeepsDense(As(q, t), rows, run[0].1);
      OneTypeStaysDense(q, t, Serve(As(q, t), rows, run[0].1), run[1..]);
    }
  }

  // ---------------------------------------------------------------- one number

  /** At most the start number is taken. */
  ghost predicate OneNumber(q: Quest, rows: seq<Row>) {
    |rows| <= 1 && (|rows| == 1 ==> IsMine(q, rows[0]) && rows[0].seqNum == Some(q.policy.start))
  }

  /** With the start number taken and no room for another, every request is refused. */
  lemma NoRoom(q: Quest, rows: seq<Row>)
    requires Regular(q) && OneNumber(q, rows) && NumberAt(q, 1) > q.policy.max && |rows| == 1
    ensures Outcome(rows, q) == Err(AllUsed)
  {
    MaxUnique(rows, (row: Row) => InFamily(row, q.prefix, q.suffix), FindMax(rows, q.prefix, q.suffix),
              Some(q.policy.start));
    assert FindNextReleased(rows, q.policy.start, q.prefix, q.suffix) == None;
    FirstAttempt(ChooserOf(rows, q), CheckerOf(rows, q), q.maxGenAttempt);
  }

  lemma ServeKeepsOne(q: Quest, rows: seq<Row>, demand: Demand)
    requires Regular(q) && OneNumber(q, rows) && NumberAt(q, 1) > q.policy.max && !demand.Elsewhere?
    ensures OneNumber(q, Serve(q, rows, demand))
  {
    match demand {
      case Free(keys) => ReleasedRows(rows, keys);
      case Ask(externalId) =>
        if |rows| == 1 {
          NoRoom(q, rows);
        } else {
          RequestRefines(q, rows);
          if NextSlot(q, Taken(rows)).Some? {
            StoreRefines(q, rows, externalId);
          }
        }
    }
  }

  lemma {:induction false} RunKeepsOne(q: Quest, rows: seq<Row>, run: Run, types: set<string>)
    requires Regular(q) && OneNumber(q, rows) && NumberAt(q, 1) > q.policy.max && Over(types, run)
    ensures OneNumber(q, ServeTypes(q, rows, run))
    decreases run
  {
    if |run| > 0 {
      ServeKeepsOne(As(q, run[0].0), rows, run[0].1);
      RunKeepsOne(q, Serve(As(q, run[0].0), rows, run[0].1), run[1..], types);
    }
  }

  // ---------------------------------------------------------------- two types and two numbers

  /** A full family with a released slot, asked for another type: the slot's number is taken by an additional row. */
  lemma OtherTypeTakesSlot(q: Quest, u: string, rows: seq<Row>, b: Option<string>) returns (row: Row)
    requires Regular(q) && Dense(q, rows) && u != q.elementType
    requires NumberAt(q, |rows|) > q.policy.max && HighestFree(Taken(rows)).Some?
    ensures var k := HighestFree(Taken(rows)).value;
            && NameOf(q, NumberAt(q, k)).Some?
            && row == NewRow(u, NameOf(q, NumberAt(q, k)).value, b, NumberAt(q, k), Some(q.prefix), q.suffix)
    ensures Serve(As(q, u), rows, Ask(b)) == rows + [row]
  {
    hide Dense, Choose, Attempts, Format, FindByName, NumberAt;
    var k, other := HighestFree(Taken(rows)).value, As(q, u);
    FirstChoice(q, rows);
    SlotIsFree(q, rows, k);
    var name := NameOf(q, NumberAt(q, k)).value;
    assert NameOf(other, NumberAt(q, k)) == Some(name);
    NotOfType(q, rows, u, name);
    FirstAttempt(ChooserOf(rows, other), CheckerOf(rows, other), other.maxGenAttempt);
    row := NewRow(u, name, b, NumberAt(q, k), Some(q.prefix), q.suffix);
  }

  lemma NotOfType(q: Quest, rows: seq<Row>, u: string, name: string)
    requires Dense(q, rows) && u != q.elementType
    ensures forall released :: FindByName(rows, u, name, released).NoRow?
  {
    forall i, released | 0 <= i < |rows| ensures !Names(rows[i], u, name, released) {
      assert IsSlot(q, rows[i], i);
    }
  }

  /** The additional row changes neither the maximum nor what is released. */
  lemma ChoiceUnchanged(q: Quest, rows: seq<Row>, row: Row, k: nat)
    requires Regular(q) && Dense(q, rows) && k < |rows| && row.released == Unset && row.seqNum == Some(NumberAt(q, k))
    ensures Choose(rows + [row], q.policy, q.prefix, q.suffix, None, 0, 1, q.increments) ==
            Choose(rows, q.policy, q.prefix, q.suffix, None, 0, 1, q.increments)
  {
    var all := rows + [row];
    var family := (r: Row) => InFamily(r, q.prefix, q.suffix);
    var free := (r: Row) => Recyclable(r, q.prefix, q.suffix, q.policy.start);
    DenseMax(q, rows);
    NumberOrder(q, |rows| - 1, k);
    assert all[..|rows|] == rows;
    assert FindMax(all, q.prefix, q.suffix) == FindMax(rows, q.prefix, q.suffix);
    assert MaxWhere(all, free) == MaxWhere(rows, free);
  }

  /** Asked again for the first type, the number is handed out once more. */
  lemma HandedOutTwice(q: Quest, u: string, rows: seq<Row>, a: Option<string>, b: Option<string>)
    requires Regular(q) && Dense(q, rows) && u != q.elementType
    requires NumberAt(q, |rows|) > q.policy.max && HighestFree(Taken(rows)).Some?
    ensures !NumbersDistinct(Serve(q, Serve(As(q, u), rows, Ask(b)), Ask(a)))
  {
    hide Dense, Choose, Attempts, NameOf, FindByName, NumberAt;
    var k := HighestFree(Taken(rows)).value;
    var row := OtherTypeTakesSlot(q, u, rows, b);
    var all, name := rows + [row], NameOf(q, NumberAt(q, k)).value;
    FirstChoice(q, rows);
    ChoiceUnchanged(q, rows, row, k);
    SlotIsFree(q, rows, k);
    LastByName(rows, row, q.elementType, name, false);
    FirstAttempt(ChooserOf(all, q), CheckerOf(all, q), q.maxGenAttempt);
    ReusedRow(q, rows, k);
    LastByName(rows, row, q.elementType, name, true);
    var final := Serve(q, all, Ask(a));
    assert final == all[k := NewRow(q.elementType, name, a, NumberAt(q, k), Some(q.prefix), q.suffix)];
    assert final[k].seqNum == final[|rows|].seqNum;
  }

  /** Requests of one type without an external id. */
  function Asks(t: string, n: nat): (r: Run)
    ensures |r| == n
  {
    seq(n, _ => (t, Ask(None)))
  }

  lemma {:induction false} ServeConcat(q: Quest, rows: seq<Row>, a: Run, b: Run)
    requires Sound(q)
    ensures ServeTypes(q, rows, a + b) == ServeTypes(q, ServeTypes(q, rows, a), b)
    decreases a
  {
    if |a| == 0 {
      assert a + b == b;
    } else {
      assert (a + b)[1..] == a[1..] + b;
      ServeConcat(q, Serve(As(q, a[0].0), rows, a[0].1), a[1..], b);
    }
  }

  /** Every slot taken, none under an external id. */
  ghost predicate Anonymous(rows: seq<Row>) {
    forall i :: 0 <= i < |rows| ==> rows[i].released != Yes && rows[i].externalId == None
  }

  lemma AskFills(q: Quest, rows: seq<Row>, externalId: Option<string>) returns (row: Row)
    requires Regular(q) && Dense(q, rows) && NumberAt(q, |rows|) <= q.policy.max
    ensures row.released == Unset && row.externalId == externalId
    ensures Serve(q, rows, Ask(externalId)) == rows + [row] && Dense(q, rows + [row])
  {
    RequestRefines(q, rows);
    StoreRefines(q, rows, externalId);
    var name := NameOf(q, NumberAt(q, |rows|)).value;
    row := NewRow(q.elementType, name, externalId, NumberAt(q, |rows|), Some(q.prefix), q.suffix);
  }

  lemma {:induction false} Filled(q: Quest, t: string, n: nat)
    requires Regular(q) && (n > 0 ==> NumberAt(q, n - 1) <= q.policy.max)
    ensures var rows := ServeTypes(q, [], Asks(t, n)); |rows| == n && Dense(As(q, t), rows) && Anonymous(rows)
    decreases n
  {
    hide Regular, Serve, NumberAt;
    SoundIs(q);
    if n > 0 {
      var qt := As(q, t);
      assert Regular(qt) && NumberAt(q, n - 1) == NumberAt(qt, n - 1) by { SameNumbers(q, t, n - 1); }
      if n > 1 {
        Earlier(q, n - 2, n - 1);
      }
      Filled(q, t, n - 1);
      var rows := ServeTypes(q, [], Asks(t, n - 1));
      var row := AskFills(qt, rows, None);
      assert Asks(t, n) == Asks(t, n - 1) + [(t, Ask(None))];
      ServeConcat(q, [], Asks(t, n - 1), [(t, Ask(None))]);
      ServeOne(q, rows, t, Ask(None));
    }
  }

  lemma SameNumbers(q: Quest, t: string, k: nat)
    requires Regular(q)
    ensures Regular(As(q, t)) && NumberAt(As(q, t), k) == NumberAt(q, k)
  {
  }

  lemma Earlier(q: Quest, i: nat, j: nat)
    requires Regular(q) && i < j
    ensures NumberAt(q, i) < NumberAt(q, j)
  {
    NumberOrder(q, i, j);
  }

  lemma ServeOne(q: Quest, rows: seq<Row>, t: string, demand: Demand)
    requires Sound(q)
    ensures ServeTypes(q, rows, [(t, demand)]) == Serve(As(q, t), rows, demand)
  {
    var run := [(t, demand)];
    assert run[1..] == [];
  }

  /** How many numbers the policy has room for. */
  lemma Capacity(q: Quest) returns (n: nat)
    requires Regular(q) && NumberAt(q, 1) <= q.policy.max
    ensures n >= 2 && NumberAt(q, n - 1) <= q.policy.max < NumberAt(q, n)
  {
    n := 2;
    while NumberAt(q, n) <= q.policy.max
      invariant n >= 2 && NumberAt(q, n - 1) <= q.policy.max
      decreases q.policy.max - NumberAt(q, n)
    {
      NumberOrder(q, n, n + 1);
      n := n + 1;
    }
  }

  const MARK: Option<string> := Some("last")

  /** All numbers are taken, the last one is released, and then both types ask. */
  function Sharing(t: string, u: string, n: nat): Run
    requires n > 0
  {
    Asks(t, n - 1) + ([(t, Ask(MARK))] + ([(t, Demand.Free([MARK]))] + ([(u, Ask(None))] + [(t, Ask(None))])))
  }

  lemma SharedTwice(q: Quest, t: string, u: string, n: nat)
    requires Regular(q) && t != u && n >= 2 && NumberAt(q, n - 1) <= q.policy.max < NumberAt(q, n)
    ensures !NumbersDistinct(ServeTypes(q, [], Sharing(t, u, n)))
  {
    hide Regular, Dense, Serve, NumberAt, HighestFree;
    var qt := As(q, t);
    assert Sound(q) by { SoundIs(q); }
    SameNumbers(q, t, n - 1);
    SameNumbers(q, t, n);
    Earlier(q, n - 2, n - 1);
    Filled(q, t, n - 1);
    var rows := ServeTypes(q, [], Asks(t, n - 1));
    var row := AskFills(qt, rows, MARK);
    var free := ReleaseAll(rows + [row], [MARK]);
    LastReleased(qt, rows, row);
    HandedOutTwice(qt, u, free, None, None);
    assert As(qt, u) == As(q, u);
    var end := [(u, Ask(None))] + [(t, Ask(None))];
    ServeConcat(q, [], Asks(t, n - 1), [(t, Ask(MARK))] + ([(t, Demand.Free([MARK]))] + end));
    ServeConcat(q, rows, [(t, Ask(MARK))], [(t, Demand.Free([MARK]))] + end);
    ServeOne(q, rows, t, Ask(MARK));
    ServeConcat(q, rows + [row], [(t, Demand.Free([MARK]))], end);
    ServeOne(q, rows + [row], t, Demand.Free([MARK]));
    assert Serve(qt, rows + [row], Demand.Free([MARK])) == free by { FreeReleases(qt, rows + [row], [MARK]); }
    ServeConcat(q, free, [(u, Ask(None))], [(t, Ask(None))]);
    ServeOne(q, free, u, Ask(None));
    ServeOne(q, Serve(As(q, u), free, Ask(None)), t, Ask(None));
  }

  lemma FreeReleases(q: Quest, rows: seq<Row>, keys: seq<Option<string>>)
    requires Sound(q)
    ensures Serve(q, rows, Demand.Free(keys)) == ReleaseAll(rows, keys)
  {
  }

  /** Only the marked row is released, and it is the highest free slot. */
  lemma LastReleased(q: Quest, rows: seq<Row>, row: Row)
    requires Dense(q, rows + [row]) && Anonymous(rows) && |rows| > 0 && row.externalId == MARK
    ensures var free := ReleaseAll(rows + [row], [MARK]);
            Dense(q, free) && |free| == |rows| + 1 && HighestFree(Taken(free)).Some?
  {
    ReleaseAllKeepsDense(q, rows + [row], [MARK]);
    ReleasedRows(rows + [row], [MARK]);
  }

  // ---------------------------------------------------------------- exactly when

  /**
   Over all runs of requests and releases, numbers in use are distinct exactly when a single element type uses the
   family, or the policy has room for one number only.
   */
  lemma NumbersDistinctIff(q: Quest, types: set<string>)
    requires Regular(q)
    ensures Sound(q)
    ensures (forall run: Run :: Over(types, run) ==> NumbersDistinct(ServeTypes(q, [], run)))
            <==> (forall t, u :: t in types && u in types ==> t == u) || NumberAt(q, 1) > q.policy.max
  {
    hide Regular, Dense, NumberAt, Serve, NumbersDistinct;
    SoundIs(q);
    if NumberAt(q, 1) > q.policy.max {
      forall run: Run | Over(types, run) ensures NumbersDistinct(ServeTypes(q, [], run)) {
        OneRoom(q, run, types);
      }
    } else if t, u :| t in types && u in types && t != u {
      var n := Capacity(q);
      SharedTwice(q, t, u, n);
      assert Over(types, Sharing(t, u, n));
    } else {
      forall run: Run | Over(types, run) ensures NumbersDistinct(ServeTypes(q, [], run)) {
        OneType(q, run, types);
      }
    }
  }

  lemma OneRoom(q: Quest, run: Run, types: set<string>)
    requires Regular(q) && NumberAt(q, 1) > q.policy.max && Over(types, run)
    ensures NumbersDistinct(ServeTypes(q, [], run))
  {
    RunKeepsOne(q, [], run, types);
  }

  lemma OneType(q: Quest, run: Run, types: set<string>)
    requires Regular(q) && Over(types, run) && forall t, u :: t in types && u in types ==> t == u
    ensures NumbersDistinct(ServeTypes(q, [], run))
  {
    if |run| > 0 {
      var t := run[0].0;
      assert forall i :: 0 <= i < |run| ==> run[i].0 == t;
      OneTypeStaysDense(q, t, [], run);
      DenseIsSafe(As(q, t), ServeTypes(q, [], run));
    }
  }
}
