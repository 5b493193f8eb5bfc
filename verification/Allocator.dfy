/**
 The allocator that one naming type, prefix and suffix see under a fixed policy, over every run of requests for a
 name, releases and rows stored for others: its rows refine a row of slots, taken in order and then recycled from the
 top.
 */
module Allocator {
  import opened Wrappers
  import opened SequenceFormat
  import opened NameTable
  import opened SequenceGenerator
  import opened NameAttempts
  import opened NamingPolicy
  import NameGenerator

  /** A policy with a positive increment that can format its numbers, without a name operation. */
  ghost predicate Regular(q: Quest) {
    && Sound(q) && q.policy.increment > 0 && (q.kind == ALPHA || q.length > 0)
    && (forall name: string :: q.operate(name) == name)
    && q.suffix != Some("")
  }

  /** The number of slot `k`. */
  function NumberAt(q: Quest, k: int): int {
    q.policy.start + k * q.policy.increment
  }

  lemma NumberOrder(q: Quest, i: int, j: int)
    requires q.policy.increment > 0
    ensures NumberAt(q, i) < NumberAt(q, j) <==> i < j
    ensures NumberAt(q, i + 1) == NumberAt(q, i) + q.policy.increment
  {
    TimesOrder(i, j, q.policy.increment);
    TimesNext(i, q.policy.increment);
  }

  lemma TimesOrder(i: int, j: int, d: int)
    requires d > 0
    ensures i * d < j * d <==> i < j
  {
    if i < j {
      TimesGap(i, j, d);
    } else if i > j {
      TimesGap(j, i, d);
    }
  }

  lemma TimesGap(i: int, j: int, d: int)
    requires d > 0 && i < j
    ensures i * d < j * d
  {
    assert j * d - i * d == (j - i) * d;
  }

  lemma TimesNext(i: int, d: int)
    ensures (i + 1) * d == i * d + d
  {
  }

  // ---------------------------------------------------------------- names

  lemma ComposeInjective(prefix: string, a: string, b: string, suffix: Option<string>)
    requires Compose(prefix, a, suffix) == Compose(prefix, b, suffix)
    ensures a == b
  {
    var tail := if suffix.Some? then suffix.value else "";
    var s := Compose(prefix, a, suffix);
    assert s == prefix + a + tail == prefix + b + tail;
    assert s[|prefix|..|s| - |tail|] == a && s[|prefix|..|s| - |tail|] == b;
  }

  /** Different numbers get different names. */
  lemma NameInjective(q: Quest, m: int, n: int)
    requires Regular(q) && NameOf(q, m) == NameOf(q, n)
    ensures m == n
  {
    var s, t := Format(m, q.kind, q.length), Format(n, q.kind, q.length);
    assert s.Some? && t.Some?;
    ComposeInjective(q.prefix, s.value, t.value, q.suffix);
    FormatInjective(m, n, q.kind, q.length);
  }

  // ---------------------------------------------------------------- the table as slots

  /** Row `row` is slot `k`. */
  ghost predicate IsSlot(q: Quest, row: Row, k: nat) {
    && row.elementType == q.elementType && row.prefix == Some(q.prefix) && row.suffix == q.suffix
    && row.seqNum == Some(NumberAt(q, k)) && NameOf(q, NumberAt(q, k)) == Some(row.name)
    && NumberAt(q, k) <= q.policy.max
  }

  /** The rows are the first slots, in order and without gaps. */
  ghost predicate Dense(q: Quest, rows: seq<Row>) {
    forall k :: 0 <= k < |rows| ==> IsSlot(q, rows[k], k)
  }

  /** Which slots are taken. */
  function Taken(rows: seq<Row>): (r: seq<bool>)
    ensures |r| == |rows| && forall k :: 0 <= k < |rows| ==> r[k] == (rows[k].released != Yes)
  {
    seq(|rows|, k requires 0 <= k < |rows| => rows[k].released != Yes)
  }

  /** The highest free slot, the very first one excepted. */
  function HighestFree(taken: seq<bool>): (r: Option<nat>)
    ensures r.Some? ==> 0 < r.value < |taken| && !taken[r.value] && forall k :: r.value < k < |taken| ==> taken[k]
    ensures r.None? ==> forall k :: 0 < k < |taken| ==> taken[k]
  {
    if |taken| <= 1 then None
    else if !taken[|taken| - 1] then Some(|taken| - 1)
    else
      var front := taken[..|taken| - 1];
      HighestFree(front)
  }

  /** The slot that the next request gets: a new one while the maximum allows it, then the highest free one. */
  function NextSlot(q: Quest, taken: seq<bool>): (r: Option<nat>)
    ensures r.Some? ==> r.value <= |taken|
  {
    if NumberAt(q, |taken|) <= q.policy.max then Some(|taken|) else HighestFree(taken)
  }

  function Take(taken: seq<bool>, k: nat): seq<bool>
    requires k <= |taken|
  {
    if k == |taken| then taken + [true] else taken[k := true]
  }

  // ---------------------------------------------------------------- one request refines one slot

  lemma DenseMax(q: Quest, rows: seq<Row>)
    requires Regular(q) && Dense(q, rows)
    ensures FindMax(rows, q.prefix, q.suffix) == if |rows| == 0 then None else Some(NumberAt(q, |rows| - 1))
  {
    if |rows| > 0 {
      forall k | 0 <= k < |rows| ensures NumberAt(q, k) <= NumberAt(q, |rows| - 1) {
        NumberOrder(q, |rows| - 1, k);
      }
      assert IsSlot(q, rows[|rows| - 1], |rows| - 1);
      MaxUnique(rows, (row: Row) => InFamily(row, q.prefix, q.suffix), FindMax(rows, q.prefix, q.suffix),
                Some(NumberAt(q, |rows| - 1)));
    }
  }

  lemma DenseReleased(q: Quest, rows: seq<Row>)
    requires Regular(q) && Dense(q, rows)
    ensures var k := HighestFree(Taken(rows));
            FindNextReleased(rows, q.policy.start, q.prefix, q.suffix) ==
                if k.None? then None else Some(NumberAt(q, k.value))
  {
    var free := HighestFree(Taken(rows));
    var p := (row: Row) => Recyclable(row, q.prefix, q.suffix, q.policy.start);
    forall k | 0 <= k < |rows| ensures p(rows[k]) <==> k > 0 && rows[k].released == Yes {
      assert IsSlot(q, rows[k], k);
      NumberOrder(q, 0, k);
    }
    var expected := if free.None? then None else Some(NumberAt(q, free.value));
    forall k | 0 <= k < |rows| && p(rows[k]) ensures expected.Some? && rows[k].seqNum.value <= expected.value {
      assert IsSlot(q, rows[k], k);
      NumberOrder(q, free.value, k);
    }
    if free.Some? {
      assert IsSlot(q, rows[free.value], free.value);
    }
    MaxUnique(rows, p, FindNextReleased(rows, q.policy.start, q.prefix, q.suffix), expected);
  }

  /** The row that bears a slot's name is that slot. */
  lemma SlotByName(q: Quest, rows: seq<Row>, k: nat, i: nat)
    requires Regular(q) && Dense(q, rows) && i < |rows| && NameOf(q, NumberAt(q, k)) == Some(rows[i].name)
    ensures i == k
  {
    assert IsSlot(q, rows[i], i);
    NameInjective(q, NumberAt(q, i), NumberAt(q, k));
    NumberOrder(q, i, k);
    NumberOrder(q, k, i);
  }

  /** The chosen slot's name is not in use. */
  lemma SlotIsFree(q: Quest, rows: seq<Row>, k: nat)
    requires Regular(q) && Dense(q, rows) && (k < |rows| ==> rows[k].released == Yes)
    ensures var name := NameOf(q, NumberAt(q, k));
            name.Some? && FindByName(rows, q.elementType, name.value, false).NoRow?
  {
    var name := NameOf(q, NumberAt(q, k)).value;
    forall i | 0 <= i < |rows| ensures !Names(rows[i], q.elementType, name, false) {
      if rows[i].name == name {
        SlotByName(q, rows, k, i);
      }
    }
  }

  /** A request is served on the first attempt, by the slot that the allocator would give, or not at all. */
  lemma RequestRefines(q: Quest, rows: seq<Row>)
    requires Regular(q) && Dense(q, rows)
    ensures var k := NextSlot(q, Taken(rows));
            Outcome(rows, q) ==
            if k.None? then Err(AllUsed)
            else Ok(SeqGenData(Some(q.prefix), q.suffix, NumberAt(q, k.value), NameOf(q, NumberAt(q, k.value)).value))
    ensures NextSlot(q, Taken(rows)).Some? ==> NameOf(q, NumberAt(q, NextSlot(q, Taken(rows)).value)).Some?
  {
    var slot := NextSlot(q, Taken(rows));
    FirstChoice(q, rows);
    if slot.Some? {
      SlotIsFree(q, rows, slot.value);
    }
    FirstAttempt(ChooserOf(rows, q), CheckerOf(rows, q), q.maxGenAttempt);
  }

  /** An attempt that is refused, or whose name is free, is the only one. */
  lemma FirstAttempt(choose: Chooser, check: Checker, max: nat)
    requires max >= 1
    ensures var c, r := choose(None, 0, 1), Attempts(choose, check, max, 0, 0, None).result;
            && (c.Refused? ==> r == Err(c.error))
            && (!c.Refused? && check(c.n).Free? ==> r == Ok((c.n, check(c.n).name)))
  {
  }

  lemma FirstChoice(q: Quest, rows: seq<Row>)
    requires Regular(q) && Dense(q, rows)
    ensures var k := NextSlot(q, Taken(rows));
            var c := Choose(rows, q.policy, q.prefix, q.suffix, None, 0, 1, q.increments);
            if k.None? then c == Refused(AllUsed) else !c.Refused? && c.n == NumberAt(q, k.value)
  {
    hide Dense, FindMax, FindNextReleased, Taken, HighestFree;
    DenseMax(q, rows);
    DenseReleased(q, rows);
    NumberOrder(q, |rows| - 1, |rows|);
  }

  /** The row stored for a request takes the slot: appended, or in place of the released row. */
  lemma StoreRefines(q: Quest, rows: seq<Row>, externalId: Option<string>)
    requires Regular(q) && Dense(q, rows) && NextSlot(q, Taken(rows)).Some?
    ensures var k := NextSlot(q, Taken(rows)).value;
            var name := NameOf(q, NumberAt(q, k));
            name.Some? &&
            var row := NewRow(q.elementType, name.value, externalId, NumberAt(q, k), Some(q.prefix), q.suffix);
            var rows' := Store(rows, row);
            && rows' == (if k == |rows| then rows + [row] else rows[k := row])
            && Dense(q, rows') && Taken(rows') == Take(Taken(rows), k)
  {
    var k := NextSlot(q, Taken(rows)).value;
    SlotIsFree(q, rows, k);
    ReusedRow(q, rows, k);
    var row := NewRow(q.elementType, NameOf(q, NumberAt(q, k)).value, externalId, NumberAt(q, k), Some(q.prefix),
                      q.suffix);
    SlotTaken(q, rows, k, row);
  }

  lemma SlotTaken(q: Quest, rows: seq<Row>, k: nat, row: Row)
    requires Dense(q, rows) && k <= |rows| && IsSlot(q, row, k) && row.released != Yes
    ensures var rows' := if k == |rows| then rows + [row] else rows[k := row];
            Dense(q, rows') && Taken(rows') == Take(Taken(rows), k)
  {
    var rows' := if k == |rows| then rows + [row] else rows[k := row];
    forall i | 0 <= i < |rows'| ensures IsSlot(q, rows'[i], i) {
      assert i < |rows| ==> IsSlot(q, rows[i], i);
    }
  }

  /** The released row of a name is the slot's own, if it exists. */
  lemma ReusedRow(q: Quest, rows: seq<Row>, k: nat)
    requires Regular(q) && Dense(q, rows) && k <= |rows| && (k < |rows| ==> rows[k].released == Yes)
    requires NameOf(q, NumberAt(q, k)).Some?
    ensures FindByName(rows, q.elementType, NameOf(q, NumberAt(q, k)).value, true) ==
              if k < |rows| then OneRow(k) else NoRow
  {
    var name := NameOf(q, NumberAt(q, k)).value;
    forall i | 0 <= i < |rows| ensures Names(rows[i], q.elementType, name, true) <==> i == k {
      if Names(rows[i], q.elementType, name, true) {
        SlotByName(q, rows, k, i);
      }
      assert IsSlot(q, rows[i], i);
    }
    FoundAlone(rows, q.elementType, name, true, k);
  }

  // ---------------------------------------------------------------- rows of others

  predicate IsMine(q: Quest, row: Row) {
    row.prefix == Some(q.prefix) && row.suffix == q.suffix
  }

  /** The rows of the family, in order. */
  function Mine(q: Quest, rows: seq<Row>): (r: seq<Row>)
    ensures |r| <= |rows|
    ensures forall row :: row in r <==> row in rows && IsMine(q, row)
  {
    if |rows| == 0 then []
    else
      var front, last := rows[..|rows| - 1], rows[|rows| - 1];
      assert rows == front + [last];
      Mine(q, front) + if IsMine(q, last) then [last] else []
  }

  /** A row of another family that bears none of the names of this one. */
  ghost predicate Apart(q: Quest, row: Row) {
    && (row.prefix != Some(q.prefix) || row.suffix != q.suffix)
    && (row.elementType == q.elementType ==> forall k: nat :: NameOf(q, NumberAt(q, k)) != Some(row.name))
  }

  /** The rows of the family are the first slots; the other rows are of no concern to it. */
  ghost predicate Settled(q: Quest, rows: seq<Row>) {
    Dense(q, Mine(q, rows)) && forall row :: row in rows ==> IsMine(q, row) || Apart(q, row)
  }

  lemma MineAppend(q: Quest, rows: seq<Row>, row: Row)
    ensures Mine(q, rows + [row]) == Mine(q, rows) + if IsMine(q, row) then [row] else []
  {
    assert (rows + [row])[..|rows|] == rows;
  }

  /** A row replaced by one that is as much of the family. */
  lemma {:induction false} MineReplaced(q: Quest, rows: seq<Row>, i: nat, row: Row)
    requires i < |rows| && (IsMine(q, rows[i]) <==> IsMine(q, row))
    ensures var mine, n := Mine(q, rows), |Mine(q, rows[..i])|;
            if IsMine(q, row) then n < |mine| && Mine(q, rows[i := row]) == mine[n := row]
            else Mine(q, rows[i := row]) == mine
    decreases |rows|
  {
    hide Mine, IsMine;
    var n := |rows| - 1;
    var front, last := rows[..n], rows[n];
    assert rows == front + [last];
    MineAppend(q, front, last);
    if i == n {
      assert rows[i := row] == front + [row];
      MineAppend(q, front, row);
    } else {
      MineReplaced(q, front, i, row);
      assert rows[i := row] == front[i := row] + [last] && rows[..i] == front[..i];
      MineAppend(q, front[i := row], last);
    }
  }

  lemma {:induction false} MineReleased(q: Quest, rows: seq<Row>, key: Option<string>)
    ensures Mine(q, Release(rows, key)) == Release(Mine(q, rows), key)
    decreases |rows|
  {
    hide Mine, IsMine;
    if |rows| == 0 {
      NothingMine(q, rows);
      assert Release(rows, key) == rows;
    } else {
      var n := |rows| - 1;
      var front, last := rows[..n], rows[n];
      assert rows == front + [last];
      MineReleased(q, front, key);
      MineAppend(q, front, last);
      ReleaseAppend(front, last, key);
      ReleaseAppend(Mine(q, front), last, key);
      MineAppend(q, Release(front, key), Release([last], key)[0]);
      SameFamily(q, last, key);
      assert Mine(q, front) + [] == Mine(q, front);
    }
  }

  lemma {:induction false} NothingMine(q: Quest, rows: seq<Row>)
    requires forall row :: row in rows ==> !IsMine(q, row)
    ensures Mine(q, rows) == []
    decreases |rows|
  {
    if |rows| > 0 {
      NothingMine(q, rows[..|rows| - 1]);
      assert rows[|rows| - 1] in rows;
    }
  }

  lemma SameFamily(q: Quest, row: Row, key: Option<string>)
    ensures IsMine(q, Release([row], key)[0]) <==> IsMine(q, row)
  {
  }

  lemma ReleaseAppend(rows: seq<Row>, row: Row, key: Option<string>)
    ensures Release(rows + [row], key) == Release(rows, key) + [Release([row], key)[0]]
  {
  }

  /** The queries for numbers see the family only. */
  lemma QueriesProject(q: Quest, rows: seq<Row>, above: int)
    ensures FindMax(rows, q.prefix, q.suffix) == FindMax(Mine(q, rows), q.prefix, q.suffix)
    ensures FindNextReleased(rows, above, q.prefix, q.suffix) ==
              FindNextReleased(Mine(q, rows), above, q.prefix, q.suffix)
  {
    var mine := Mine(q, rows);
    MaxProjects(q, rows, (row: Row) => InFamily(row, q.prefix, q.suffix));
    MaxProjects(q, rows, (row: Row) => Recyclable(row, q.prefix, q.suffix, above));
  }

  lemma MaxProjects(q: Quest, rows: seq<Row>, p: Row -> bool)
    requires forall row :: p(row) ==> IsMine(q, row)
    ensures MaxWhere(rows, p) == MaxWhere(Mine(q, rows), p)
  {
    var mine, m := Mine(q, rows), MaxWhere(Mine(q, rows), p);
    forall i | 0 <= i < |rows| && p(rows[i]) && rows[i].seqNum.Some?
      ensures m.Some? && rows[i].seqNum.value <= m.value
    {
      assert rows[i] in mine;
    }
    if m.Some? {
      var i :| 0 <= i < |mine| && p(mine[i]) && mine[i].seqNum == m;
      assert mine[i] in rows;
    }
    MaxUnique(rows, p, MaxWhere(rows, p), m);
  }

  /** The query for a name of the family sees the family only. */
  lemma {:induction false} NameProjects(q: Quest, rows: seq<Row>, name: string, released: bool)
    requires forall row :: row in rows && Names(row, q.elementType, name, released) ==> IsMine(q, row)
    ensures var a := FindByName(rows, q.elementType, name, released);
            var b := FindByName(Mine(q, rows), q.elementType, name, released);
            match a
            case NoRow => b.NoRow?
            case OneRow(i) => i < |rows| && b == OneRow(|Mine(q, rows[..i])|)
            case ManyRows => b.ManyRows?
    decreases |rows|
  {
    hide Mine, IsMine, FindByName;
    if |rows| == 0 {
      NothingMine(q, rows);
    } else {
      var n := |rows| - 1;
      var front, last := rows[..n], rows[n];
      assert rows == front + [last];
      NameProjects(q, front, name, released);
      MineAppend(q, front, last);
      LastByName(front, last, q.elementType, name, released);
      LastByName(Mine(q, front), last, q.elementType, name, released);
      assert Mine(q, front) + [] == Mine(q, front);
      var found := FindByName(front, q.elementType, name, released);
      if found.OneRow? {
        assert front[..found.index] == rows[..found.index];
      }
      assert front == rows[..n];
    }
  }

  lemma LastByName(front: seq<Row>, last: Row, elementType: string, name: string, released: bool)
    ensures var r := FindByName(front, elementType, name, released);
            FindByName(front + [last], elementType, name, released) ==
            if !Names(last, elementType, name, released) then r else if r.NoRow? then OneRow(|front|) else ManyRows
  {
    assert (front + [last])[..|front|] == front;
  }

  /** A row with the name of a slot is of the family. */
  lemma SlotNameIsMine(q: Quest, rows: seq<Row>, k: nat, name: string)
    requires Settled(q, rows) && NameOf(q, NumberAt(q, k)) == Some(name)
    ensures forall row, released :: row in rows && Names(row, q.elementType, name, released) ==> IsMine(q, row)
  {
  }

  /** A request gets what it would get if there were no other rows. */
  lemma OutcomeProjects(q: Quest, rows: seq<Row>)
    requires Regular(q) && Settled(q, rows)
    ensures Outcome(rows, q) == Outcome(Mine(q, rows), q)
  {
    hide Attempts, Choose, Mine, Apart, FindByName, Dense;
    var mine := Mine(q, rows);
    ChoiceProjects(q, rows);
    FirstChoice(q, mine);
    FirstAttempt(ChooserOf(rows, q), CheckerOf(rows, q), q.maxGenAttempt);
    FirstAttempt(ChooserOf(mine, q), CheckerOf(mine, q), q.maxGenAttempt);
    var slot := NextSlot(q, Taken(mine));
    if slot.Some? {
      SlotIsFree(q, mine, slot.value);
      var name := NameOf(q, NumberAt(q, slot.value)).value;
      SlotNameIsMine(q, rows, slot.value, name);
      NameProjects(q, rows, name, false);
    }
  }

  lemma ChoiceProjects(q: Quest, rows: seq<Row>)
    requires Sound(q)
    ensures Choose(rows, q.policy, q.prefix, q.suffix, None, 0, 1, q.increments) ==
            Choose(Mine(q, rows), q.policy, q.prefix, q.suffix, None, 0, 1, q.increments)
  {
    hide FindMax, FindNextReleased, Mine;
    QueriesProject(q, rows, q.policy.start);
  }

  /** Storing a row of the family is storing it among the rows of the family. */
  lemma StoreProjects(q: Quest, rows: seq<Row>, k: nat, row: Row)
    requires Settled(q, rows) && IsMine(q, row) && row.elementType == q.elementType
    requires NameOf(q, NumberAt(q, k)) == Some(row.name)
    ensures Mine(q, Store(rows, row)) == Store(Mine(q, rows), row)
  {
    hide Mine, Settled, IsMine, FindByName, NameOf;
    SlotNameIsMine(q, rows, k, row.name);
    NameProjects(q, rows, row.name, true);
    var found := FindByName(rows, row.elementType, row.name, true);
    if found.OneRow? {
      FoundNames(rows, row.elementType, row.name, true);
      assert rows[found.index] in rows;
      MineReplaced(q, rows, found.index, row);
    } else {
      MineAppend(q, rows, row);
    }
  }

  lemma FoundNames(rows: seq<Row>, elementType: string, name: string, released: bool)
    ensures var r := FindByName(rows, elementType, name, released);
            r.OneRow? ==> r.index < |rows| && Names(rows[r.index], elementType, name, released)
  {
  }

  lemma StoredRows(rows: seq<Row>, row: Row)
    ensures forall other :: other in Store(rows, row) ==> other in rows || other == row
  {
  }

  lemma NotMine(q: Quest, row: Row)
    requires Apart(q, row)
    ensures !IsMine(q, row)
  {
  }

  /** Storing a row of others leaves the family alone. */
  lemma ElsewhereKeepsSettled(q: Quest, rows: seq<Row>, row: Row)
    requires Settled(q, rows) && Apart(q, row)
    ensures Settled(q, Store(rows, row)) && Mine(q, Store(rows, row)) == Mine(q, rows)
  {
    hide Mine, IsMine, FindByName, NameOf, Dense;
    MineAreSlots(q, rows);
    StoredRows(rows, row);
    NotMine(q, row);
    var found := FindByName(rows, row.elementType, row.name, true);
    if found.OneRow? {
      FoundNames(rows, row.elementType, row.name, true);
      assert rows[found.index] in rows;
      MineReplaced(q, rows, found.index, row);
    } else {
      MineAppend(q, rows, row);
      assert Mine(q, rows) + [] == Mine(q, rows);
    }
  }

  lemma MineAreSlots(q: Quest, rows: seq<Row>)
    requires Settled(q, rows)
    ensures forall row :: row in rows && IsMine(q, row) ==>
              row.elementType == q.elementType && exists k: nat :: NameOf(q, NumberAt(q, k)) == Some(row.name)
  {
    var mine := Mine(q, rows);
    forall row | row in rows && IsMine(q, row)
      ensures row.elementType == q.elementType && exists k: nat :: NameOf(q, NumberAt(q, k)) == Some(row.name)
    {
      assert row in mine;
      var k :| 0 <= k < |mine| && mine[k] == row;
      assert IsSlot(q, mine[k], k);
    }
  }

  lemma ReleaseKeepsDense(q: Quest, rows: seq<Row>, key: Option<string>)
    requires Dense(q, rows)
    ensures Dense(q, Release(rows, key))
  {
    forall k | 0 <= k < |rows| ensures IsSlot(q, Release(rows, key)[k], k) {
      assert IsSlot(q, rows[k], k);
    }
  }

  lemma ReleaseKeepsSettled(q: Quest, rows: seq<Row>, key: Option<string>)
    requires Settled(q, rows)
    ensures Settled(q, Release(rows, key))
  {
    MineReleased(q, rows, key);
    ReleaseKeepsDense(q, Mine(q, rows), key);
    forall row | row in Release(rows, key) ensures IsMine(q, row) || Apart(q, row) {
      var i :| 0 <= i < |rows| && Release(rows, key)[i] == row;
      assert rows[i] in rows;
    }
  }

  // ---------------------------------------------------------------- runs

  /** A request for a name of the family, the release of ids, or a row stored for another family. */
  datatype Demand = Ask(externalId: Option<string>) | Free(keys: seq<Option<string>>) | Elsewhere(row: Row)

  /** A request for a name as one step: on failure the table stays as it is. */
  function Serve(q: Quest, rows: seq<Row>, demand: Demand): seq<Row>
    requires Sound(q)
  {
    match demand
    case Free(keys) => ReleaseAll(rows, keys)
    case Elsewhere(row) => Store(rows, row)
    case Ask(externalId) =>
      match Outcome(rows, q)
      case Err(_) => rows
      case Ok(data) => Store(rows, NewRow(q.elementType, data.name, externalId, data.number, data.prefix, data.suffix))
  }

  function ServeAll(q: Quest, rows: seq<Row>, demands: seq<Demand>): seq<Row>
    requires Sound(q)
    decreases demands
  {
    if |demands| == 0 then rows else ServeAll(q, Serve(q, rows, demands[0]), demands[1..])
  }

  /** Each demand is served over the table that the demands before it left. */
  lemma {:induction false} ServeAllSnoc(q: Quest, rows: seq<Row>, demands: seq<Demand>, demand: Demand)
    requires Sound(q)
    ensures ServeAll(q, rows, demands + [demand]) == Serve(q, ServeAll(q, rows, demands), demand)
    decreases demands
  {
    hide Serve;
    var all := demands + [demand];
    if |demands| == 0 {
      assert all == [demand] && all[1..] == [];
    } else {
      assert all[1..] == demands[1..] + [demand];
      ServeAllSnoc(q, Serve(q, rows, demands[0]), demands[1..], demand);
    }
  }

  /** What a demand does to the table: a row of others is there afterwards, and released ids are marked. */
  lemma Served(q: Quest, rows: seq<Row>, demand: Demand)
    requires Sound(q)
    ensures var rows' := Serve(q, rows, demand);
            match demand
            case Elsewhere(row) => row in rows' && KeepsUsed(rows, rows') && |rows'| <= |rows| + 1
            case Free(keys) =>
              && |rows'| == |rows|
              && forall i :: 0 <= i < |rows| ==>
                   rows'[i] == if rows[i].externalId in keys then rows[i].(released := Yes) else rows[i]
            case Ask(externalId) =>
              && KeepsUsed(rows, rows')
              && (Outcome(rows, q).Err? ==> rows' == rows)
              && (Outcome(rows, q).Ok? ==>
                    exists row :: row in rows' && row.elementType == q.elementType && row.released == Unset
                                  && row.name == Outcome(rows, q).value.name && row.externalId == externalId
                                  && row.seqNum == Some(Outcome(rows, q).value.number))
  {
    hide Outcome, Store;
    match demand {
      case Elsewhere(row) =>
        StoreKeepsUsed(rows, row);
        StoreGrows(rows, row);
      case Free(keys) => ReleasedRows(rows, keys);
      case Ask(externalId) =>
        if Outcome(rows, q).Ok? {
          var data := Outcome(rows, q).value;
          StoreKeepsUsed(rows, NewRow(q.elementType, data.name, externalId, data.number, data.prefix, data.suffix));
        }
    }
  }

  lemma StoreGrows(rows: seq<Row>, row: Row)
    ensures |Store(rows, row)| <= |rows| + 1
  {
  }

  /** What others store stands apart from the family. */
  ghost predicate OthersApart(q: Quest, demands: seq<Demand>) {
    forall i :: 0 <= i < |demands| && demands[i].Elsewhere? ==> Apart(q, demands[i].row)
  }

  lemma {:induction false} ReleaseAllKeepsSettled(q: Quest, rows: seq<Row>, keys: seq<Option<string>>)
    requires Settled(q, rows)
    ensures Settled(q, ReleaseAll(rows, keys))
    decreases keys
  {
    if |keys| > 0 {
      ReleaseKeepsSettled(q, rows, keys[0]);
      ReleaseAllKeepsSettled(q, Release(rows, keys[0]), keys[1..]);
    }
  }

  /** A request takes the slot that the allocator gives, or changes nothing. */
  lemma AskKeepsSettled(q: Quest, rows: seq<Row>, externalId: Option<string>)
    requires Regular(q) && Settled(q, rows)
    ensures var next, taken := Serve(q, rows, Ask(externalId)), Taken(Mine(q, rows));
            && Settled(q, next)
            && (NextSlot(q, taken).None? ==> next == rows)
            && (NextSlot(q, taken).Some? ==> Taken(Mine(q, next)) == Take(taken, NextSlot(q, taken).value))
  {
    hide Outcome, Settled, Dense, IsSlot, Store, Mine, Apart, NameOf, NextSlot, Taken;
    var mine := Mine(q, rows);
    SettledMine(q, rows);
    OutcomeProjects(q, rows);
    RequestRefines(q, mine);
    var slot := NextSlot(q, Taken(mine));
    if slot.Some? {
      StoreRefines(q, mine, externalId);
      var name := NameOf(q, NumberAt(q, slot.value)).value;
      var row := NewRow(q.elementType, name, externalId, NumberAt(q, slot.value), Some(q.prefix), q.suffix);
      StoreProjects(q, rows, slot.value, row);
      StoredRows(rows, row);
      SettledAgain(q, Store(rows, row));
    }
  }

  lemma SettledMine(q: Quest, rows: seq<Row>)
    requires Settled(q, rows)
    ensures Dense(q, Mine(q, rows)) && forall row :: row in rows ==> IsMine(q, row) || Apart(q, row)
  {
  }

  lemma SettledAgain(q: Quest, rows: seq<Row>)
    requires Dense(q, Mine(q, rows)) && forall row :: row in rows ==> IsMine(q, row) || Apart(q, row)
    ensures Settled(q, rows)
  {
  }

  /** Over every run the rows of the family stay the first slots, whatever others store between. */
  lemma {:induction false} RunStaysDense(q: Quest, rows: seq<Row>, demands: seq<Demand>)
    requires Regular(q) && Settled(q, rows) && OthersApart(q, demands)
    ensures Settled(q, ServeAll(q, rows, demands))
    decreases demands
  {
    hide Regular, Settled, Outcome, Apart;
    if |demands| > 0 {
      var rest := demands[1..];
      assert forall i :: 0 <= i < |rest| ==> rest[i] == demands[i + 1];
      match demands[0] {
        case Free(keys) => ReleaseAllKeepsSettled(q, rows, keys);
        case Elsewhere(row) => ElsewhereKeepsSettled(q, rows, row);
        case Ask(externalId) => AskKeepsSettled(q, rows, externalId);
      }
      assert Sound(q) by { SoundIs(q); }
      RunStaysDense(q, Serve(q, rows, demands[0]), rest);
    }
  }

  lemma SoundIs(q: Quest)
    requires Regular(q)
    ensures Sound(q)
  {
  }

  /**
   Each row's number is on the grid and within the maximum, no two rows share a number or a name, and the rows do
   not exceed the capacity of the policy.
   */
  ghost predicate Safe(q: Quest, rows: seq<Row>) {
    && (forall k :: 0 <= k < |rows| ==> rows[k].seqNum == Some(NumberAt(q, k)) && NumberAt(q, k) <= q.policy.max)
    && (forall i, j :: 0 <= i < j < |rows| ==> rows[i].seqNum != rows[j].seqNum && rows[i].name != rows[j].name)
    && (|rows| > 0 ==> (|rows| - 1) * q.policy.increment <= q.policy.max - q.policy.start)
  }

  /** After every run from a table without rows of the family, its rows are safe. */
  lemma RunSafety(q: Quest, rows: seq<Row>, demands: seq<Demand>)
    requires Regular(q) && OthersApart(q, demands) && forall row :: row in rows ==> Apart(q, row)
    ensures Safe(q, Mine(q, ServeAll(q, rows, demands)))
  {
    NothingMine(q, rows);
    RunStaysDense(q, rows, demands);
    DenseIsSafe(q, Mine(q, ServeAll(q, rows, demands)));
  }

  lemma DenseIsSafe(q: Quest, rows: seq<Row>)
    requires Regular(q) && Dense(q, rows)
    ensures Safe(q, rows)
  {
    forall k | 0 <= k < |rows| ensures IsSlot(q, rows[k], k) {
    }
    forall i, j | 0 <= i < j < |rows| ensures rows[i].seqNum != rows[j].seqNum && rows[i].name != rows[j].name {
      NumberOrder(q, i, j);
      assert IsSlot(q, rows[i], i) && IsSlot(q, rows[j], j);
      if rows[i].name == rows[j].name {
        SlotByName(q, rows, i, j);
      }
    }
    if |rows| > 0 {
      assert IsSlot(q, rows[|rows| - 1], |rows| - 1);
    }
  }

  /**
   In every reachable table a request fails exactly when the next new number passes the maximum and no row of the family
   but that of the start number is released: the start number itself is never handed out again.
   */
  lemma RequestFailsIff(q: Quest, rows: seq<Row>, demands: seq<Demand>)
    requires Regular(q) && OthersApart(q, demands) && forall row :: row in rows ==> Apart(q, row)
    ensures var table := ServeAll(q, rows, demands);
            var mine := Mine(q, table);
            Outcome(table, q).Err? <==>
            NumberAt(q, |mine|) > q.policy.max && forall k :: 0 < k < |mine| ==> mine[k].released != Yes
  {
    var table := ServeAll(q, rows, demands);
    NothingMine(q, rows);
    RunStaysDense(q, rows, demands);
    OutcomeProjects(q, table);
    RequestRefines(q, Mine(q, table));
  }

  // ---------------------------------------------------------------- requests

  /**
   A request for one element whose numbered recipe refers to no other is one step of the allocator, and in a settled
   table it gets the name of the next slot, or is refused when there is none.
   */
  lemma RequestIsServed(model: NamingModel, namingType: string, element: Element, rows: seq<Row>, maxGenAttempt: int,
                        increments: Option<seq<int>>, r: Result<NameGenerator.Response, Failure>, stored: seq<Row>)
    requires NameGenerator.SelfContained(model, element) && (increments.Some? ==> |increments.value| > 0)
    requires NameGenerator.AnsweredAlone(model, namingType, element, rows, maxGenAttempt, increments, r, stored)
    requires Numbered(NameGenerator.ValuesAlone(model, element), model.recipe.value, model.sequence.scope)
    ensures var q := NameGenerator.QuestFor(model, namingType, NameGenerator.ValuesAlone(model, element),
                                            maxGenAttempt, increments);
            && Sound(q) && StoreAll(rows, stored) == Serve(q, rows, Ask(ValueOf(element, EXTERNAL_KEY)))
            && (Regular(q) && Settled(q, rows) ==>
                  var slot := NextSlot(q, Taken(Mine(q, rows)));
                  if slot.None? then r == Err(AllUsed)
                  else r.Ok? && NameOf(q, NumberAt(q, slot.value)) == Some(r.value.value))
  {
    hide Outcome, Settled, Mine, Taken, NextSlot, Store, NameOf, NameGenerator.ValuesAlone;
    var q := NameGenerator.QuestFor(model, namingType, NameGenerator.ValuesAlone(model, element), maxGenAttempt,
                                    increments);
    if stored != [] {
      assert StoreAll(rows, stored) == Store(rows, stored[0]);
    }
    if Regular(q) && Settled(q, rows) {
      SettledMine(q, rows);
      OutcomeProjects(q, rows);
      RequestRefines(q, Mine(q, rows));
    }
  }
}
