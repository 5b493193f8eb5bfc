/** The table of generated names and the queries that the name generator puts to it. */
module NameTable {
  import opened Wrappers

  /** The IS_RELEASED column: null, 'N' or 'Y'. */
  datatype Flag = Unset | No | Yes

  datatype Row = Row(elementType: string, name: string, externalId: Option<string>, seqNum: Option<int>,
                     prefix: Option<string>, suffix: Option<string>, released: Flag)

  /** What a query for a single entity yields; several matches make it throw. */
  datatype Single = NoRow | OneRow(index: nat) | ManyRows

  // ---------------------------------------------------------------- query meanings

  /** `prefix=:prefix and ((suffix is null and :suffix is null) or suffix=:suffix)` */
  predicate InFamily(row: Row, prefix: string, suffix: Option<string>) {
    row.prefix == Some(prefix) && row.suffix == suffix
  }

  /** `r` is the maximum of the sequence numbers of the rows that satisfy `p`; null numbers do not count. */
  ghost predicate IsMaxOf(rows: seq<Row>, p: Row -> bool, r: Option<int>) {
    && (forall i :: 0 <= i < |rows| && p(rows[i]) && rows[i].seqNum.Some? ==>
        r.Some? && rows[i].seqNum.value <= r.value)
    && (r.Some? ==> exists i :: 0 <= i < |rows| && p(rows[i]) && rows[i].seqNum == r)
  }

  /** `select max(sequenceNumber) ... where p` */
  function MaxWhere(rows: seq<Row>, p: Row -> bool): (r: Option<int>)
    ensures IsMaxOf(rows, p, r)
  {
    if |rows| == 0 then None
    else
      var front, last := rows[..|rows| - 1], rows[|rows| - 1];
      var m := MaxWhere(front, p);
      assert forall i :: 0 <= i < |front| ==> front[i] == rows[i];
      if p(last) && last.seqNum.Some? && (m.None? || m.value < last.seqNum.value) then last.seqNum else m
  }

  lemma MaxUnique(rows: seq<Row>, p: Row -> bool, a: Option<int>, b: Option<int>)
    requires IsMaxOf(rows, p, a) && IsMaxOf(rows, p, b)
    ensures a == b
  {
  }

  function FindMax(rows: seq<Row>, prefix: string, suffix: Option<string>): Option<int> {
    MaxWhere(rows, (row: Row) => InFamily(row, prefix, suffix))
  }

  /** A released row of the family with a number above `above`. */
  predicate Recyclable(row: Row, prefix: string, suffix: Option<string>, above: int) {
    InFamily(row, prefix, suffix) && row.released == Yes && row.seqNum.Some? && row.seqNum.value > above
  }

  /** The largest released number above `above`. */
  function FindNextReleased(rows: seq<Row>, above: int, prefix: string, suffix: Option<string>): (r: Option<int>)
    ensures r.Some? ==> exists i :: 0 <= i < |rows| && Recyclable(rows[i], prefix, suffix, above) && rows[i].seqNum == r
    ensures forall i :: 0 <= i < |rows| && Recyclable(rows[i], prefix, suffix, above) ==>
              r.Some? && rows[i].seqNum.value <= r.value
    ensures r.Some? ==> r.value > above
  {
    MaxWhere(rows, (row: Row) => Recyclable(row, prefix, suffix, above))
  }

  /** Of a prefix and suffix only the rows with these very columns count: none has a number above the maximum. */
  lemma MaxByColumns(rows: seq<Row>, prefix: string, suffix: Option<string>)
    ensures var r := FindMax(rows, prefix, suffix);
            && (forall row :: row in rows && row.prefix == Some(prefix) && row.suffix == suffix && row.seqNum.Some? ==>
                  r.Some? && row.seqNum.value <= r.value)
            && (r.Some? ==>
                  exists row :: row in rows && row.prefix == Some(prefix) && row.suffix == suffix && row.seqNum == r)
  {
    var family := (row: Row) => InFamily(row, prefix, suffix);
    var r := MaxWhere(rows, family);
    if r.Some? {
      var i :| 0 <= i < |rows| && family(rows[i]) && rows[i].seqNum == r;
      assert rows[i] in rows;
    }
  }

  /** The same for the released rows among them whose number is above a bound. */
  lemma ReleasedByColumns(rows: seq<Row>, above: int, prefix: string, suffix: Option<string>)
    ensures var r := FindNextReleased(rows, above, prefix, suffix);
            && (forall row :: row in rows && row.prefix == Some(prefix) && row.suffix == suffix && row.released == Yes
                              && row.seqNum.Some? && row.seqNum.value > above ==>
                  r.Some? && row.seqNum.value <= r.value)
            && (r.Some? ==>
                  && r.value > above
                  && exists row :: row in rows && row.prefix == Some(prefix) && row.suffix == suffix
                                   && row.released == Yes && row.seqNum == r)
  {
    var r := FindNextReleased(rows, above, prefix, suffix);
    forall row | row in rows && Recyclable(row, prefix, suffix, above) ensures r.Some? && row.seqNum.value <= r.value {
      var i :| 0 <= i < |rows| && rows[i] == row;
    }
  }

  lemma MaxSnoc(rows: seq<Row>, last: Row, p: Row -> bool)
    ensures var m := MaxWhere(rows, p);
            MaxWhere(rows + [last], p) ==
            if p(last) && last.seqNum.Some? && (m.None? || m.value < last.seqNum.value) then last.seqNum else m
  {
    hide IsMaxOf;
    assert (rows + [last])[..|rows|] == rows;
  }

  lemma {:induction false} MaxIgnores(a: seq<Row>, row: Row, b: seq<Row>, p: Row -> bool)
    requires !p(row)
    ensures MaxWhere(a + [row] + b, p) == MaxWhere(a + b, p)
    decreases b
  {
    hide MaxWhere, IsMaxOf;
    if |b| == 0 {
      assert a + [row] + b == a + [row] && a + b == a;
      MaxSnoc(a, row, p);
    } else {
      var front, last := b[..|b| - 1], b[|b| - 1];
      assert a + [row] + b == a + [row] + front + [last] && a + b == a + front + [last];
      MaxSnoc(a + [row] + front, last, p);
      MaxSnoc(a + front, last, p);
      MaxIgnores(a, row, front, p);
    }
  }

  /** A row whose prefix or suffix differs, wherever it is added, changes neither query. */
  lemma OtherColumns(a: seq<Row>, row: Row, b: seq<Row>, above: int, prefix: string, suffix: Option<string>)
    requires row.prefix != Some(prefix) || row.suffix != suffix
    ensures FindMax(a + [row] + b, prefix, suffix) == FindMax(a + b, prefix, suffix)
    ensures FindNextReleased(a + [row] + b, above, prefix, suffix) == FindNextReleased(a + b, above, prefix, suffix)
  {
    MaxIgnores(a, row, b, (r: Row) => InFamily(r, prefix, suffix));
    MaxIgnores(a, row, b, (r: Row) => Recyclable(r, prefix, suffix, above));
  }

  predicate Names(row: Row, elementType: string, name: string, released: bool) {
    row.elementType == elementType && row.name == name && (row.released == Yes) == released
  }

  /** The single row with this type and name whose released flag is set, or unset. */
  function FindByName(rows: seq<Row>, elementType: string, name: string, released: bool): (r: Single)
    ensures r.NoRow? <==> forall i :: 0 <= i < |rows| ==> !Names(rows[i], elementType, name, released)
    ensures r.OneRow? ==> r.index < |rows| && Names(rows[r.index], elementType, name, released)
    ensures r.OneRow? ==> forall i :: 0 <= i < |rows| && Names(rows[i], elementType, name, released) ==> i == r.index
    ensures r.ManyRows? ==> exists i, j :: 0 <= i < j < |rows| && Names(rows[i], elementType, name, released)
                                           && Names(rows[j], elementType, name, released)
  {
    if |rows| == 0 then NoRow
    else
      var front, last := rows[..|rows| - 1], rows[|rows| - 1];
      var r := FindByName(front, elementType, name, released);
      assert forall i :: 0 <= i < |front| ==> front[i] == rows[i];
      if !Names(last, elementType, name, released) then r
      else if r.NoRow? then OneRow(|rows| - 1)
      else ManyRows
  }

  // ---------------------------------------------------------------- the key

  /** Element type and name identify a row, released or not. */
  ghost predicate KeyUnique(rows: seq<Row>) {
    forall i, j :: 0 <= i < j < |rows| ==> rows[i].elementType != rows[j].elementType || rows[i].name != rows[j].name
  }

  /** While the key is unique, queries by name never find several rows. */
  lemma KeyMakesSingle(rows: seq<Row>, elementType: string, name: string, released: bool)
    requires KeyUnique(rows)
    ensures !FindByName(rows, elementType, name, released).ManyRows?
  {
  }

  /** The one row that qualifies is the row found. */
  lemma FoundAlone(rows: seq<Row>, elementType: string, name: string, released: bool, k: nat)
    requires forall i :: 0 <= i < |rows| ==> (Names(rows[i], elementType, name, released) <==> i == k)
    ensures FindByName(rows, elementType, name, released) == if k < |rows| then OneRow(k) else NoRow
  {
  }

  /** The row written for a newly generated name. */
  function NewRow(elementType: string, name: string, externalId: Option<string>, seqNum: int,
                  prefix: Option<string>, suffix: Option<string>): Row {
    Row(elementType, name, externalId, Some(seqNum), prefix, suffix, Unset)
  }

  /** Storing a row: a released one of the same type and name is reused in place. */
  function Store(rows: seq<Row>, row: Row): (r: seq<Row>)
    ensures |rows| <= |r| <= |rows| + 1
  {
    match FindByName(rows, row.elementType, row.name, true)
    case OneRow(i) => rows[i := row]
    case _ => rows + [row]
  }

  /** A row in use whose name no row in use bears. */
  predicate Valid(rows: seq<Row>, row: Row) {
    row.released == Unset && FindByName(rows, row.elementType, row.name, false).NoRow?
  }

  /** Storing a name that passed validation keeps the key unique. */
  lemma StoreKeepsKey(rows: seq<Row>, row: Row)
    requires KeyUnique(rows) && Valid(rows, row)
    ensures KeyUnique(Store(rows, row))
  {
    KeyMakesSingle(rows, row.elementType, row.name, true);
    var r := FindByName(rows, row.elementType, row.name, true);
    if r.NoRow? {
      forall i | 0 <= i < |rows| ensures rows[i].elementType != row.elementType || rows[i].name != row.name {
        assert !Names(rows[i], row.elementType, row.name, true) && !Names(rows[i], row.elementType, row.name, false);
      }
    }
  }

  /** A stored row is there, and no row in use has changed. */
  ghost predicate KeepsUsed(rows: seq<Row>, rows': seq<Row>) {
    |rows| <= |rows'| && forall i :: 0 <= i < |rows| && rows[i].released != Yes ==> rows'[i] == rows[i]
  }

  lemma StoreKeepsUsed(rows: seq<Row>, row: Row)
    ensures KeepsUsed(rows, Store(rows, row)) && row in Store(rows, row)
  {
    var r := FindByName(rows, row.elementType, row.name, true);
    if r.OneRow? {
      assert Store(rows, row)[r.index] == row;
    } else {
      assert Store(rows, row)[|rows|] == row;
    }
  }

  /** Releasing: every row with this external id, a missing id matching the rows that have none. */
  function Release(rows: seq<Row>, externalId: Option<string>): (r: seq<Row>)
    ensures |r| == |rows|
    ensures forall i :: 0 <= i < |rows| ==>
              r[i] == if rows[i].externalId == externalId then rows[i].(released := Yes) else rows[i]
  {
    seq(|rows|, i requires 0 <= i < |rows| =>
      if rows[i].externalId == externalId then rows[i].(released := Yes) else rows[i])
  }

  lemma ReleaseKeepsKey(rows: seq<Row>, externalId: Option<string>)
    requires KeyUnique(rows)
    ensures KeyUnique(Release(rows, externalId))
  {
  }

  /** At most one row in use bears a given name of a given type. */
  lemma KeyMeansOneHolder(rows: seq<Row>, i: nat, j: nat)
    requires KeyUnique(rows) && i < |rows| && j < |rows|
    requires rows[i].elementType == rows[j].elementType && rows[i].name == rows[j].name
    ensures i == j
  {
  }

  // ---------------------------------------------------------------- what a request does to the table

  /** Rows stored one after the other. */
  function StoreAll(rows: seq<Row>, stored: seq<Row>): seq<Row>
    decreases stored
  {
    if |stored| == 0 then rows else StoreAll(Store(rows, stored[0]), stored[1..])
  }

  /** Each row is stored in use, under a name that no row in use bore at that moment. */
  ghost predicate Validated(rows: seq<Row>, stored: seq<Row>)
    decreases stored
  {
    |stored| == 0 ||
    (Valid(rows, stored[0]) && Validated(Store(rows, stored[0]), stored[1..]))
  }

  /** The table `rows'` comes from `rows` by storing validated rows only. */
  ghost predicate Effect(rows: seq<Row>, stored: seq<Row>, rows': seq<Row>) {
    Validated(rows, stored) && rows' == StoreAll(rows, stored)
  }

  lemma EffectHead(rows: seq<Row>, stored: seq<Row>, rows': seq<Row>)
    requires |stored| > 0
    ensures Effect(rows, stored, rows') <==>
              Valid(rows, stored[0]) && Effect(Store(rows, stored[0]), stored[1..], rows')
  {
  }

  lemma {:induction false} EffectConcat(rows: seq<Row>, a: seq<Row>, rows': seq<Row>, b: seq<Row>, rows'': seq<Row>)
    requires Effect(rows, a, rows') && Effect(rows', b, rows'')
    ensures Effect(rows, a + b, rows'')
    decreases a
  {
    if |a| == 0 {
      assert a + b == b;
    } else {
      var all, next := a + b, Store(rows, a[0]);
      EffectHead(rows, a, rows');
      EffectConcat(next, a[1..], rows', b, rows'');
      assert all[1..] == a[1..] + b && all[0] == a[0];
      EffectHead(rows, all, rows'');
    }
  }

  /** Storing validated rows keeps the key unique and every row in use as it is. */
  lemma {:induction false} EffectKeeps(rows: seq<Row>, stored: seq<Row>, rows': seq<Row>)
    requires Effect(rows, stored, rows')
    ensures KeepsUsed(rows, rows') && (KeyUnique(rows) ==> KeyUnique(rows'))
    decreases stored
  {
    if |stored| > 0 {
      StoreKeepsUsed(rows, stored[0]);
      if KeyUnique(rows) {
        StoreKeepsKey(rows, stored[0]);
      }
      EffectKeeps(Store(rows, stored[0]), stored[1..], rows');
    }
  }

  // ---------------------------------------------------------------- runs

  /** A committed request: rows stored by a generation, or external ids released. */
  datatype Event = Generated(stored: seq<Row>) | Released(keys: seq<Option<string>>)

  function ReleaseAll(rows: seq<Row>, keys: seq<Option<string>>): (r: seq<Row>)
    ensures |r| == |rows|
    decreases keys
  {
    if |keys| == 0 then rows else ReleaseAll(Release(rows, keys[0]), keys[1..])
  }

  /** Releasing ids in turn marks every row that has one of them. */
  lemma {:induction false} ReleasedRows(rows: seq<Row>, keys: seq<Option<string>>)
    ensures forall i :: 0 <= i < |rows| ==>
              ReleaseAll(rows, keys)[i] == if rows[i].externalId in keys then rows[i].(released := Yes) else rows[i]
    decreases keys
  {
    if |keys| > 0 {
      ReleasedRows(Release(rows, keys[0]), keys[1..]);
      assert forall key :: key in keys <==> key == keys[0] || key in keys[1..];
    }
  }

  function Apply(rows: seq<Row>, event: Event): seq<Row> {
    match event
    case Generated(stored) => StoreAll(rows, stored)
    case Released(keys) => ReleaseAll(rows, keys)
  }

  function Run(rows: seq<Row>, events: seq<Event>): seq<Row>
    decreases events
  {
    if |events| == 0 then rows else Run(Apply(rows, events[0]), events[1..])
  }

  /** Each event works on the table that the events before it left. */
  lemma {:induction false} RunSnoc(rows: seq<Row>, events: seq<Event>, event: Event)
    ensures Run(rows, events + [event]) == Apply(Run(rows, events), event)
    decreases events
  {
    hide Apply;
    var all := events + [event];
    if |events| == 0 {
      assert all == [event] && all[1..] == [];
    } else {
      assert all[1..] == events[1..] + [event];
      RunSnoc(Apply(rows, events[0]), events[1..], event);
    }
  }

  /** Every generation of the run stored validated rows. */
  ghost predicate Lawful(rows: seq<Row>, events: seq<Event>)
    decreases events
  {
    |events| == 0 ||
    ((events[0].Generated? ==> Validated(rows, events[0].stored)) && Lawful(Apply(rows, events[0]), events[1..]))
  }

  lemma {:induction false} ReleaseAllKeepsKey(rows: seq<Row>, keys: seq<Option<string>>)
    requires KeyUnique(rows)
    ensures KeyUnique(ReleaseAll(rows, keys))
    decreases keys
  {
    if |keys| > 0 {
      ReleaseKeepsKey(rows, keys[0]);
      ReleaseAllKeepsKey(Release(rows, keys[0]), keys[1..]);
    }
  }

  /**
   Over every run of generations and releases, type and name stay a key: a name has at most one row, in use or not.
   */
  lemma {:induction false} RunKeepsKey(rows: seq<Row>, events: seq<Event>)
    requires KeyUnique(rows) && Lawful(rows, events)
    ensures KeyUnique(Run(rows, events))
    decreases events
  {
    if |events| > 0 {
      var next := Apply(rows, events[0]);
      match events[0] {
        case Generated(stored) => EffectKeeps(rows, stored, next);
        case Released(keys) => ReleaseAllKeepsKey(rows, keys);
      }
      RunKeepsKey(next, events[1..]);
    }
  }

  class Table {
    var rows: seq<Row>

    constructor (rows: seq<Row>)
      ensures this.rows == rows
    {
      this.rows := rows;
    }

    /** `DbNameValidator.validate`: no row in use bears the name; None when the query finds several. */
    method Validate(elementType: string, name: string) returns (valid: Option<bool>)
      ensures valid == match FindByName(rows, elementType, name, false)
                       case NoRow => Some(true) case OneRow(_) => Some(false) case ManyRows => None
    {
      var found := FindByName(rows, elementType, name, false);
      valid := if found.ManyRows? then None else Some(found.NoRow?);
    }

    /** `NameGenerator.storeGeneratedName`. */
    method StoreGeneratedName(row: Row) returns (ok: bool)
      modifies this
      ensures ok <==> !FindByName(old(rows), row.elementType, row.name, true).ManyRows?
      ensures rows == if ok then Store(old(rows), row) else old(rows)
    {
      var released := FindByName(rows, row.elementType, row.name, true);
      if released.ManyRows? {
        return false;
      }
      if released.OneRow? {
        rows := rows[released.index := row];
      } else {
        rows := rows + [row];
      }
      ok := true;
    }

    /** `releaseNetworkElementName`: element by element, every row found is marked. */
    method ReleaseNames(keys: seq<Option<string>>)
      modifies this
      ensures |rows| == |old(rows)|
      ensures forall i :: 0 <= i < |rows| ==>
                rows[i] == if old(rows)[i].externalId in keys then old(rows)[i].(released := Yes) else old(rows)[i]
      ensures rows == Apply(old(rows), Released(keys))
    {
      ReleasedRows(rows, keys);
      for k := 0 to |keys|
        invariant |rows| == |old(rows)|
        invariant forall i :: 0 <= i < |rows| ==>
                    rows[i] ==
                    if old(rows)[i].externalId in keys[..k] then old(rows)[i].(released := Yes) else old(rows)[i]
      {
        ghost var before := rows;
        for i := 0 to |rows|
          invariant |rows| == |before|
          invariant forall j :: 0 <= j < |rows| ==> rows[j] == if j < i then Release(before, keys[k])[j] else before[j]
        {
          if rows[i].externalId == keys[k] {
            rows := rows[i := rows[i].(released := Yes)];
          }
        }
        assert keys[..k + 1] == keys[..k] + [keys[k]];
      }
      assert keys[..|keys|] == keys;
    }
  }
}
