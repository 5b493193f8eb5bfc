/** Choosing the next number of a sequence: fresh ones up to the maximum, then the largest released one. */
module SequenceGenerator {
  import opened Wrappers
  import opened SequenceFormat
  import opened NameTable

  datatype Failure = AllUsed | NoIncrementParameter | Unformattable | Ambiguous | TooManyAttempts | NotValid
                   | MissingItem | NoPolicy | NoNamingType | NoModel | NoRecipe

  /** The numbers of a policy that the choice depends on. */
  datatype Policy = Policy(start: int, increment: int, max: int)

  datatype Choice = Fresh(n: int) | Recycled(n: int) | Refused(error: Failure)

  /** The distance from the number tried last to the next one when the family has no rows yet. */
  function NextIncrement(increments: seq<int>, attempt: nat): int
    requires |increments| > 0 && attempt >= 2
  {
    if attempt <= |increments| then increments[attempt - 2] else increments[|increments| - 1]
  }

  /** The fresh number that comes next, before it is compared with the maximum. */
  function NextFresh(dbMax: Option<int>, policy: Policy, last: int, attempt: nat, increments: seq<int>): int
    requires attempt >= 2 && dbMax.None? ==> |increments| > 0
  {
    if attempt < 2 then (if dbMax.Some? then dbMax.value + policy.increment else policy.start)
    else last + if dbMax.Some? then policy.increment else NextIncrement(increments, attempt)
  }

  /** What one call of `generate` chooses; `tried` is the released number chosen before in this transaction. */
  function Choose(rows: seq<Row>, policy: Policy, prefix: string, suffix: Option<string>, tried: Option<int>,
                  last: int, attempt: nat, increments: Option<seq<int>>): Choice
    requires increments.Some? ==> |increments.value| > 0
  {
    if tried.Some? then
      var n := FindNextReleased(rows, tried.value, prefix, suffix);
      if n.Some? then Recycled(n.value) else Refused(AllUsed)
    else
      var dbMax := FindMax(rows, prefix, suffix);
      if attempt >= 2 && dbMax.None? && increments.None? then Refused(NoIncrementParameter)
      else
        var n := NextFresh(dbMax, policy, last, attempt, if increments.Some? then increments.value else []);
        if n <= policy.max then Fresh(n)
        else
          var r := FindNextReleased(rows, policy.start, prefix, suffix);
          if r.Some? then Recycled(r.value) else Refused(AllUsed)
  }

  /** `SequenceGenerator.generate`. */
  method Generate(table: Table, prefix: string, suffix: Option<string>, seqParams: PolicySequence,
                  lastSequenceNumber: Option<int>, attemptCount: nat, increments: Option<seq<int>>)
    returns (r: Result<int, Failure>)
    requires increments.Some? ==> |increments.value| > 0
    requires attemptCount >= 1 && (attemptCount >= 2 ==> lastSequenceNumber.Some?)
    modifies seqParams`maxValue, seqParams`lastReleaseSeqNumTried
    ensures seqParams.Max() == old(seqParams.Max())
    ensures var policy := Policy(seqParams.startValue, seqParams.increment, seqParams.Max());
            var last := if lastSequenceNumber.Some? then lastSequenceNumber.value else 0;
            var tried := old(seqParams.lastReleaseSeqNumTried);
            match Choose(table.rows, policy, prefix, suffix, tried, last, attemptCount, increments)
            case Fresh(n) => r == Ok(n) && seqParams.lastReleaseSeqNumTried == tried
            case Recycled(n) => r == Ok(n) && seqParams.lastReleaseSeqNumTried == if tried.Some? then tried else Some(n)
            case Refused(e) => r == Err(e) && seqParams.lastReleaseSeqNumTried == tried
  {
    hide FindMax;
    hide FindNextReleased;
    hide NextIncrement;
    if seqParams.lastReleaseSeqNumTried.Some? {
      var released := FindNextReleased(table.rows, seqParams.lastReleaseSeqNumTried.value, prefix, suffix);
      r := if released.None? then Err(AllUsed) else Ok(released.value);
      return;
    }
    var newSeqNum: int;
    var dbMaxSeqNum := FindMax(table.rows, prefix, suffix);
    if attemptCount == 1 {
      if dbMaxSeqNum.Some? {
        newSeqNum := dbMaxSeqNum.value + seqParams.increment;
      } else {
        newSeqNum := seqParams.startValue;
      }
    } else if dbMaxSeqNum.None? {
      if increments.None? {
        return Err(NoIncrementParameter);
      }
      newSeqNum := lastSequenceNumber.value + NextIncrement(increments.value, attemptCount);
    } else {
      newSeqNum := lastSequenceNumber.value + seqParams.increment;
    }
    var max := seqParams.GetMaxValue();
    if newSeqNum > max {
      var released := FindNextReleased(table.rows, seqParams.startValue, prefix, suffix);
      if released.None? {
        return Err(AllUsed);
      }
      seqParams.lastReleaseSeqNumTried := released;
      return Ok(released.value);
    }
    r := Ok(newSeqNum);
  }

  // ---------------------------------------------------------------- what the choices have in common

  /** Rows with another prefix or suffix have no part in what is chosen. */
  lemma ChoiceByColumns(a: seq<Row>, row: Row, b: seq<Row>, policy: Policy, prefix: string, suffix: Option<string>,
                        tried: Option<int>, last: int, attempt: nat, increments: Option<seq<int>>)
    requires increments.Some? ==> |increments.value| > 0
    requires row.prefix != Some(prefix) || row.suffix != suffix
    ensures Choose(a + [row] + b, policy, prefix, suffix, tried, last, attempt, increments) ==
            Choose(a + b, policy, prefix, suffix, tried, last, attempt, increments)
  {
    hide FindMax, FindNextReleased;
    OtherColumns(a, row, b, policy.start, prefix, suffix);
    OtherColumns(a, row, b, if tried.Some? then tried.value else 0, prefix, suffix);
  }

  /** A fresh number that passes the maximum gives way to the largest released one above the start. */
  ghost predicate FreshOrReleased(rows: seq<Row>, policy: Policy, prefix: string, suffix: Option<string>, n: int,
                                  c: Choice) {
    if n <= policy.max then c == Fresh(n)
    else
      match FindNextReleased(rows, policy.start, prefix, suffix)
      case Some(r) => c == Recycled(r)
      case None => c == Refused(AllUsed)
  }

  /** The first attempt: the number after the largest of the family, or the start of an empty one. */
  lemma ChoiceAtFirst(rows: seq<Row>, policy: Policy, prefix: string, suffix: Option<string>, last: int,
                    increments: Option<seq<int>>)
    requires increments.Some? ==> |increments.value| > 0
    ensures var m, c := FindMax(rows, prefix, suffix), Choose(rows, policy, prefix, suffix, None, last, 1, increments);
            FreshOrReleased(rows, policy, prefix, suffix,
                            if m.Some? then m.value + policy.increment else policy.start, c)
  {
    hide FindMax, FindNextReleased;
  }

  /**
   A later attempt goes on from the number tried last: by the increment of the policy, or while the family is empty by
   the service's increments in turn, the last of them again and again.
   */
  lemma ChoiceLater(rows: seq<Row>, policy: Policy, prefix: string, suffix: Option<string>, last: int, attempt: nat,
                    increments: Option<seq<int>>)
    requires (increments.Some? ==> |increments.value| > 0) && attempt >= 2
    ensures var m := FindMax(rows, prefix, suffix);
            var c := Choose(rows, policy, prefix, suffix, None, last, attempt, increments);
            && (m.Some? ==> FreshOrReleased(rows, policy, prefix, suffix, last + policy.increment, c))
            && (m.None? && increments.None? ==> c == Refused(NoIncrementParameter))
            && (m.None? && increments.Some? ==>
                  var steps := increments.value;
                  && (attempt - 2 < |steps| ==>
                        FreshOrReleased(rows, policy, prefix, suffix, last + steps[attempt - 2], c))
                  && (attempt - 2 >= |steps| ==>
                        FreshOrReleased(rows, policy, prefix, suffix, last + steps[|steps| - 1], c)))
  {
    hide FindMax, FindNextReleased;
  }

  /** Once a released number was tried, only a larger released one can follow. */
  lemma ChoiceAfterReleased(rows: seq<Row>, policy: Policy, prefix: string, suffix: Option<string>, tried: int,
                            last: int, attempt: nat, increments: Option<seq<int>>)
    requires increments.Some? ==> |increments.value| > 0
    ensures var c := Choose(rows, policy, prefix, suffix, Some(tried), last, attempt, increments);
            match FindNextReleased(rows, tried, prefix, suffix)
            case Some(r) => c == Recycled(r)
            case None => c == Refused(AllUsed)
  {
    hide FindMax, FindNextReleased;
  }

  /** A fresh number keeps to the maximum and lies above every number of the family, on a first attempt with rows. */
  lemma FreshAboveAll(rows: seq<Row>, policy: Policy, prefix: string, suffix: Option<string>, i: nat,
                      increments: Option<seq<int>>)
    requires (increments.Some? ==> |increments.value| > 0) && policy.increment > 0
    requires i < |rows| && rows[i].prefix == Some(prefix) && rows[i].suffix == suffix && rows[i].seqNum.Some?
    ensures var c := Choose(rows, policy, prefix, suffix, None, 0, 1, increments);
            c.Fresh? ==> rows[i].seqNum.value < c.n <= policy.max
  {
  }

  /** A recycled number is the largest released one above the bound: above the start, or above the one tried before. */
  lemma RecycledIsLargest(rows: seq<Row>, policy: Policy, prefix: string, suffix: Option<string>, tried: Option<int>,
                          last: int, attempt: nat, increments: Option<seq<int>>)
    requires increments.Some? ==> |increments.value| > 0
    requires Choose(rows, policy, prefix, suffix, tried, last, attempt, increments).Recycled?
    ensures var n := Choose(rows, policy, prefix, suffix, tried, last, attempt, increments).n;
            var above := if tried.Some? then tried.value else policy.start;
            && n > above
            && (exists i :: 0 <= i < |rows| && Recyclable(rows[i], prefix, suffix, above) && rows[i].seqNum == Some(n))
            && forall i :: 0 <= i < |rows| && Recyclable(rows[i], prefix, suffix, above) ==> rows[i].seqNum.value <= n
  {
  }

  /** After one released number no second one is found in the same transaction: the first was the largest. */
  lemma RecyclesOnce(rows: seq<Row>, policy: Policy, prefix: string, suffix: Option<string>, last: int, attempt: nat,
                     last': int, attempt': nat, increments: Option<seq<int>>)
    requires increments.Some? ==> |increments.value| > 0
    requires Choose(rows, policy, prefix, suffix, None, last, attempt, increments).Recycled?
    ensures var n := Choose(rows, policy, prefix, suffix, None, last, attempt, increments).n;
            Choose(rows, policy, prefix, suffix, Some(n), last', attempt', increments) == Refused(AllUsed)
  {
    var n := Choose(rows, policy, prefix, suffix, None, last, attempt, increments).n;
    assert forall i :: 0 <= i < |rows| && Recyclable(rows[i], prefix, suffix, n) ==>
             Recyclable(rows[i], prefix, suffix, policy.start);
  }
}
