/** The retry loop of `NameGenerator.generateNameWithSequences`: number, name, validation, and again. */
module NameAttempts {
  import opened Wrappers
  import opened SequenceFormat
  import opened NameTable
  import opened SequenceGenerator

  // ---------------------------------------------------------------- putting the name together

  /** The value of a recipe item: a text, or the sequence whose number is still to be chosen. */
  datatype Segment = Text(text: string) | Sequence

  type Values = map<string, Segment>

  ghost predicate AllPresent(values: Values, recipe: seq<string>) {
    forall item :: item in recipe ==> item in values
  }

  /** A recipe names its sequence at most once. */
  ghost predicate OneSequence(values: Values, recipe: seq<string>) {
    && (forall item :: item in values && values[item].Sequence? ==> item == "SEQUENCE")
    && ("SEQUENCE" in values && values["SEQUENCE"].Sequence? ==>
          forall i, j :: 0 <= i < |recipe| && 0 <= j < |recipe| && recipe[i] == recipe[j] == "SEQUENCE" ==> i == j)
  }

  function SegmentText(segment: Segment, seqText: Option<string>): string {
    match segment
    case Text(t) => t
    case Sequence => if seqText.Some? then seqText.value else "null"
  }

  /** The texts of the items one after the other. */
  function Assemble(values: Values, recipe: seq<string>, seqText: Option<string>): string
    requires AllPresent(values, recipe)
  {
    if |recipe| == 0 then "" else SegmentText(values[recipe[0]], seqText) + Assemble(values, recipe[1..], seqText)
  }

  /** Where an item first stands in a recipe. */
  function IndexOf(recipe: seq<string>, item: string): (r: nat)
    ensures r <= |recipe| && item !in recipe[..r] && (r < |recipe| ==> recipe[r] == item)
  {
    if |recipe| == 0 || recipe[0] == item then 0
    else
      var r := IndexOf(recipe[1..], item);
      assert recipe[..r + 1] == [recipe[0]] + recipe[1..][..r];
      1 + r
  }

  function Prefix(values: Values, recipe: seq<string>): string
    requires AllPresent(values, recipe)
  {
    Assemble(values, recipe[..IndexOf(recipe, "SEQUENCE")], None)
  }

  function SuffixText(values: Values, recipe: seq<string>): string
    requires AllPresent(values, recipe)
  {
    var k := IndexOf(recipe, "SEQUENCE");
    if k == |recipe| then "" else Assemble(values, recipe[k + 1..], None)
  }

  /** An empty suffix is stored as null. */
  function Suffix(values: Values, recipe: seq<string>): Option<string>
    requires AllPresent(values, recipe)
  {
    if SuffixText(values, recipe) == "" then None else Some(SuffixText(values, recipe))
  }

  /** The suffix that is stored: what follows the sequence, and nothing at all in place of an empty text. */
  lemma SuffixStored(values: Values, recipe: seq<string>)
    requires AllPresent(values, recipe)
    ensures var s := Suffix(values, recipe);
            s != Some("") && SuffixText(values, recipe) == match s case Some(text) => text case None => ""
  {
  }

  function Compose(prefix: string, number: string, suffix: Option<string>): string {
    prefix + number + if suffix.Some? then suffix.value else ""
  }

  lemma {:induction false} AssembleConcat(values: Values, a: seq<string>, b: seq<string>, seqText: Option<string>)
    requires AllPresent(values, a) && AllPresent(values, b)
    ensures Assemble(values, a + b, seqText) == Assemble(values, a, seqText) + Assemble(values, b, seqText)
  {
    hide SegmentText;
    if |a| == 0 {
      assert a + b == b;
    } else {
      assert (a + b)[1..] == a[1..] + b;
      AssembleConcat(values, a[1..], b, seqText);
    }
  }

  /** One item: its text, or that of the number, which is `null` while there is none. */
  lemma AssembleItem(values: Values, item: string, seqText: Option<string>)
    requires item in values
    ensures Assemble(values, [item], seqText) ==
            match values[item]
            case Text(text) => text
            case Sequence => (match seqText case Some(number) => number case None => "null")
  {
    assert [item][1..] == [] && SegmentText(values[item], seqText) + "" == SegmentText(values[item], seqText);
  }

  /** Without the sequence among the items, its text does not matter. */
  lemma {:induction false} AssemblePlain(values: Values, recipe: seq<string>, seqText: Option<string>)
    requires AllPresent(values, recipe) && forall item :: item in recipe ==> values[item].Text?
    ensures Assemble(values, recipe, seqText) == Assemble(values, recipe, None)
  {
    if |recipe| > 0 {
      AssemblePlain(values, recipe[1..], seqText);
    }
  }

  /** The recipe around its sequence. */
  lemma RecipeSplit(recipe: seq<string>) returns (k: nat)
    requires "SEQUENCE" in recipe
    ensures k == IndexOf(recipe, "SEQUENCE") < |recipe|
    ensures recipe == recipe[..k] + ["SEQUENCE"] + recipe[k + 1..]
  {
    k := IndexOf(recipe, "SEQUENCE");
    assert recipe[..|recipe|] == recipe;
  }

  lemma AssembleThree(values: Values, a: seq<string>, item: string, b: seq<string>, seqText: Option<string>)
    requires AllPresent(values, a + [item] + b)
    ensures item in values && AllPresent(values, a) && AllPresent(values, b)
    ensures Assemble(values, a + [item] + b, seqText) ==
            Assemble(values, a, seqText) + SegmentText(values[item], seqText) + Assemble(values, b, seqText)
  {
    var all := a + [item] + b;
    forall x | x in a ensures x in values { assert x in all; }
    forall x | x in b ensures x in values { assert x in all; }
    assert item in all;
    AssembleConcat(values, a + [item], b, seqText);
    AssembleConcat(values, a, [item], seqText);
    var text := SegmentText(values[item], seqText);
    assert [item][1..] == [] && text + "" == text;
    assert Assemble(values, [item], seqText) == text;
  }

  /** A name with a sequence is its prefix, the number's text and its suffix. */
  lemma NameIsComposed(values: Values, recipe: seq<string>, number: string)
    requires AllPresent(values, recipe) && OneSequence(values, recipe)
    requires "SEQUENCE" in recipe && values["SEQUENCE"].Sequence?
    ensures Assemble(values, recipe, Some(number)) == Compose(Prefix(values, recipe), number, Suffix(values, recipe))
  {
    var k := RecipeSplit(recipe);
    var a, b := recipe[..k], recipe[k + 1..];
    AssembleThree(values, a, "SEQUENCE", b, Some(number));
    forall item | item in a ensures values[item].Text? {
      assert item != "SEQUENCE";
    }
    forall item | item in b ensures values[item].Text? {
      var j :| 0 <= j < |b| && b[j] == item;
      assert recipe[k + 1 + j] == item;
    }
    AssemblePlain(values, a, Some(number));
    AssemblePlain(values, b, Some(number));
  }

  // ---------------------------------------------------------------- the attempts

  /** What stays the same during the attempts at one name. */
  datatype Quest = Quest(elementType: string, prefix: string, suffix: Option<string>, policy: Policy,
                         kind: SequenceType, length: int, operate: string -> string, maxGenAttempt: nat,
                         increments: Option<seq<int>>)

  ghost predicate Sound(q: Quest) {
    q.maxGenAttempt >= 1 && (q.increments.Some? ==> |q.increments.value| > 0)
  }

  /** The name a number leads to. */
  function NameOf(q: Quest, n: int): Option<string> {
    match Format(n, q.kind, q.length)
    case None => None
    case Some(text) => Some(q.operate(Compose(q.prefix, text, q.suffix)))
  }

  /** What becomes of a number: no text, several rows with its name, a name in use, or a free one. */
  datatype Verdict = Illegal | Several | InUse | Free(name: string)

  /** The number chosen, given the released number tried before, the last number and the attempt. */
  type Chooser = (Option<int>, int, nat) -> Choice

  type Checker = int -> Verdict

  function ChooserOf(rows: seq<Row>, q: Quest): Chooser
    requires Sound(q)
  {
    (tried: Option<int>, last: int, attempt: nat) =>
      Choose(rows, q.policy, q.prefix, q.suffix, tried, last, attempt, q.increments)
  }

  function Check(rows: seq<Row>, q: Quest, n: int): Verdict {
    match NameOf(q, n)
    case None => Illegal
    case Some(name) =>
      match FindByName(rows, q.elementType, name, false)
      case NoRow => Free(name)
      case OneRow(_) => InUse
      case ManyRows => Several
  }

  /** A number is found free, in use or worse by the rows in use that bear its name for the type. */
  lemma CheckByRows(rows: seq<Row>, q: Quest, n: int)
    ensures var v, name := Check(rows, q, n), NameOf(q, n);
            && (v.Illegal? <==> Format(n, q.kind, q.length).None?) && (v.Illegal? <==> name.None?)
            && (v.Free? <==>
                  name.Some? && !exists row :: row in rows && row.elementType == q.elementType
                                               && row.name == name.value && row.released != Yes)
            && (v.Free? ==> v.name == name.value)
            && (v.InUse? ==> exists row :: row in rows && row.elementType == q.elementType && row.name == name.value
                                           && row.released != Yes)
            && (v.Several? ==> !KeyUnique(rows))
            && ((exists i, j :: 0 <= i < j < |rows| && name == Some(rows[i].name) == Some(rows[j].name)
                                && rows[i].elementType == rows[j].elementType == q.elementType
                                && rows[i].released != Yes && rows[j].released != Yes) ==> v.Several?)
  {
    hide Format;
    if name: string :| NameOf(q, n) == Some(name) {
      var found := FindByName(rows, q.elementType, name, false);
      assert forall row :: row in rows ==> exists i :: 0 <= i < |rows| && rows[i] == row;
      assert found.OneRow? ==> rows[found.index] in rows;
      assert forall i ::
          0 <= i < |rows| && rows[i].elementType == q.elementType && rows[i].name == name && rows[i].released != Yes ==>
            Names(rows[i], q.elementType, name, false);
      if found.ManyRows? {
        var i :| 0 <= i < |rows| && Names(rows[i], q.elementType, name, false);
        assert rows[i] in rows;
      }
      if KeyUnique(rows) {
        KeyMakesSingle(rows, q.elementType, name, false);
      }
    }
  }

  function CheckerOf(rows: seq<Row>, q: Quest): Checker {
    n => Check(rows, q, n)
  }

  /** The numbers tried, and what came of them. */
  datatype Trial = Trial(numbers: seq<int>, result: Result<(int, string), Failure>)

  /** The attempts after the first `done`; `last` is the number tried before, `tried` the released one among them. */
  function Attempts(choose: Chooser, check: Checker, max: nat, done: nat, last: int, tried: Option<int>): (r: Trial)
    requires done <= max + 1
    ensures |r.numbers| + done <= max + 1
    decreases max + 1 - done
  {
    if done > max then Trial([], Err(TooManyAttempts))
    else
      var c := choose(tried, last, done + 1);
      if c.Refused? then Trial([], Err(c.error))
      else
        match check(c.n)
        case Illegal => Trial([c.n], Err(Unformattable))
        case Several => Trial([c.n], Err(Ambiguous))
        case Free(name) => Trial([c.n], if done + 1 > max then Err(TooManyAttempts) else Ok((c.n, name)))
        case InUse =>
          var rest := Attempts(choose, check, max, done + 1, c.n, TriedAfter(tried, c));
          Trial([c.n] + rest.numbers, rest.result)
  }

  /** The released number on record after a choice. */
  function TriedAfter(tried: Option<int>, c: Choice): Option<int>
    requires !c.Refused?
  {
    if c.Recycled? && tried.None? then Some(c.n) else tried
  }

  // ---------------------------------------------------------------- the numbers tried

  /** Each number is above the one before, except that the last may be a released one, at most `top`. */
  ghost predicate Climbs(numbers: seq<int>, floor: int, top: Option<int>) {
    || |numbers| == 0
    || (numbers[0] > floor && Climbs(numbers[1..], numbers[0], top))
    || (|numbers| == 1 && top.Some? && numbers[0] <= top.value)
  }

  /** A chooser that goes up, hands out released numbers up to `top`, and only one of them. */
  ghost predicate GoesUp(choose: Chooser, floor: int, top: Option<int>) {
    && (forall last: int, attempt: nat :: attempt >= 2 && last >= floor ==>
          var c := choose(None, last, attempt); c.Fresh? ==> c.n > last)
    && (var c := choose(None, 0, 1); c.Fresh? ==> c.n > floor)
    && (forall last: int, attempt: nat ::
          var c := choose(None, last, attempt); c.Recycled? ==> top.Some? && c.n <= top.value)
    && (forall last: int, attempt: nat, last': int, attempt': nat ::
          var c := choose(None, last, attempt); c.Recycled? ==> choose(Some(c.n), last', attempt').Refused?)
  }

  lemma {:induction false} AttemptsClimb(choose: Chooser, check: Checker, max: nat, done: nat, last: int, floor: int,
                                         top: Option<int>)
    requires GoesUp(choose, floor, top) && done <= max + 1
    requires if done > 0 then last >= floor else last == 0
    ensures Climbs(Attempts(choose, check, max, done, last, None).numbers, if done > 0 then last else floor, top)
    decreases max + 1 - done
  {
    if done <= max {
      var c := choose(None, last, done + 1);
      if c.Fresh? && check(c.n).InUse? {
        AttemptsClimb(choose, check, max, done + 1, c.n, floor, top);
        var rest := Attempts(choose, check, max, done + 1, c.n, None).numbers;
        assert ([c.n] + rest)[1..] == rest;
      } else if c.Recycled? && check(c.n).InUse? && done + 1 <= max {
        assert choose(Some(c.n), c.n, done + 2).Refused?;
      }
    }
  }

  lemma {:induction false} ClimbsDistinct(numbers: seq<int>, floor: int, top: Option<int>)
    requires Climbs(numbers, floor, top) && (top.Some? ==> top.value <= floor)
    ensures forall i :: 0 <= i < |numbers| ==>
              numbers[i] > floor || (top.Some? && numbers[i] <= top.value && i == |numbers| - 1)
    ensures forall i, j :: 0 <= i < j < |numbers| ==> numbers[i] != numbers[j]
    ensures forall i, j :: 0 <= i < j < |numbers| - 1 ==> numbers[i] < numbers[j]
  {
    if |numbers| > 0 && numbers[0] > floor && Climbs(numbers[1..], numbers[0], top) {
      ClimbsDistinct(numbers[1..], numbers[0], top);
      forall i | 0 < i < |numbers| ensures numbers[i] == numbers[1..][i - 1] {
      }
    }
  }

  ghost predicate Positive(q: Quest) {
    q.policy.increment > 0
        && (q.increments.Some? ==> forall i :: 0 <= i < |q.increments.value| ==> q.increments.value[i] > 0)
  }

  /** The bound that the first number of a transaction exceeds. */
  function Floor(rows: seq<Row>, q: Quest): int {
    var m := FindMax(rows, q.prefix, q.suffix);
    if m.Some? then m.value else q.policy.start - 1
  }

  /** A released number of the family is at most its maximum. */
  lemma ReleasedBelowMax(rows: seq<Row>, above: int, prefix: string, suffix: Option<string>)
    ensures var r, m := FindNextReleased(rows, above, prefix, suffix), FindMax(rows, prefix, suffix);
            r.Some? ==> m.Some? && r.value <= m.value
  {
  }

  lemma ChooserGoesUp(rows: seq<Row>, q: Quest)
    requires Sound(q) && Positive(q)
    ensures GoesUp(ChooserOf(rows, q), Floor(rows, q), FindMax(rows, q.prefix, q.suffix))
  {
    var choose, top := ChooserOf(rows, q), FindMax(rows, q.prefix, q.suffix);
    ReleasedBelowMax(rows, q.policy.start, q.prefix, q.suffix);
    forall last: int, attempt: nat, last': int, attempt': nat
      ensures var c := choose(None, last, attempt); c.Recycled? ==> choose(Some(c.n), last', attempt').Refused?
    {
      if choose(None, last, attempt).Recycled? {
        RecyclesOnce(rows, q.policy, q.prefix, q.suffix, last, attempt, last', attempt', q.increments);
      }
    }
  }

  /**
   The numbers tried for one name are pairwise distinct: they rise while they are fresh, and only the last may be
   a released one. There is at most one more of them than attempts are allowed.
   */
  lemma NumbersTriedDistinct(rows: seq<Row>, q: Quest)
    requires Sound(q) && Positive(q)
    ensures var numbers := Attempts(ChooserOf(rows, q), CheckerOf(rows, q), q.maxGenAttempt, 0, 0, None).numbers;
            && |numbers| <= q.maxGenAttempt + 1
            && (forall i, j :: 0 <= i < j < |numbers| ==> numbers[i] != numbers[j])
            && (forall i, j :: 0 <= i < j < |numbers| - 1 ==> numbers[i] < numbers[j])
  {
    ChooserGoesUp(rows, q);
    var choose, check, floor, top := ChooserOf(rows, q), CheckerOf(rows, q), Floor(rows, q),
        FindMax(rows, q.prefix, q.suffix);
    AttemptsClimb(choose, check, q.maxGenAttempt, 0, 0, floor, top);
    ClimbsDistinct(Attempts(choose, check, q.maxGenAttempt, 0, 0, None).numbers, floor, top);
  }

  /** A name that is returned belongs to the number tried last, was found free, and came within the attempts allowed. */
  lemma {:induction false} ResultValidated(choose: Chooser, check: Checker, max: nat, done: nat, last: int,
                                           tried: Option<int>)
    requires done <= max + 1 && Attempts(choose, check, max, done, last, tried).result.Ok?
    ensures var r := Attempts(choose, check, max, done, last, tried);
            var (n, name) := r.result.value;
            && 0 < |r.numbers| && r.numbers[|r.numbers| - 1] == n && done + |r.numbers| <= max && check(n) == Free(name)
    decreases max + 1 - done
  {
    var c := choose(tried, last, done + 1);
    if check(c.n).InUse? {
      ResultValidated(choose, check, max, done + 1, c.n, TriedAfter(tried, c));
    }
  }

  /** Choosing the next number is refused, with some released number on record or none. */
  ghost predicate Refuses(choose: Chooser, last: int, attempt: nat, e: Failure) {
    exists tried: Option<int> :: choose(tried, last, attempt) == Refused(e)
  }

  /**
   When attempts come to an end: every number but the last leads to a name in use, and there is no other way out than a
   free name, a number without a text, several rows of a name, a refused choice, or one attempt more than allowed.
   */
  ghost predicate Ends(choose: Chooser, check: Checker, max: nat, done: nat, last: int, r: Trial) {
    var n := |r.numbers|;
    && (forall k :: 0 <= k < n - 1 ==> check(r.numbers[k]).InUse?)
    && match r.result
       case Ok((m, name)) =>
         n > 0 && done + n <= max && r.numbers[n - 1] == m && check(m) == Free(name)
       case Err(e) =>
         || (e == TooManyAttempts && done + n == max + 1
             && (n > 0 ==> check(r.numbers[n - 1]).InUse? || check(r.numbers[n - 1]).Free?))
         || (e == Unformattable && n > 0 && check(r.numbers[n - 1]).Illegal?)
         || (e == Ambiguous && n > 0 && check(r.numbers[n - 1]).Several?)
         || ((n > 0 ==> check(r.numbers[n - 1]).InUse?)
             && Refuses(choose, if n > 0 then r.numbers[n - 1] else last, done + n + 1, e))
  }

  /** One more attempt before these, for a number whose name is in use. */
  lemma EndsLater(choose: Chooser, check: Checker, max: nat, done: nat, last: int, n: int, rest: Trial)
    requires check(n).InUse? && Ends(choose, check, max, done + 1, n, rest)
    ensures Ends(choose, check, max, done, last, Trial([n] + rest.numbers, rest.result))
  {
    var all := [n] + rest.numbers;
    assert forall k :: 0 < k < |all| ==> all[k] == rest.numbers[k - 1];
  }

  /** The attempts end so, however many of them were made before. */
  lemma {:induction false} AttemptsEnd(choose: Chooser, check: Checker, max: nat, done: nat, last: int,
                                       tried: Option<int>)
    requires done <= max + 1
    ensures Ends(choose, check, max, done, last, Attempts(choose, check, max, done, last, tried))
    decreases max + 1 - done
  {
    if done <= max {
      var c := choose(tried, last, done + 1);
      if c.Refused? {
        assert Refuses(choose, last, done + 1, c.error);
      } else if check(c.n).InUse? {
        hide Ends;
        AttemptsEnd(choose, check, max, done + 1, c.n, TriedAfter(tried, c));
        EndsLater(choose, check, max, done, last, c.n,
                  Attempts(choose, check, max, done + 1, c.n, TriedAfter(tried, c)));
      }
    }
  }

  /** The first number is the one chosen at first, and each further one is chosen after the one before it. */
  lemma {:induction false} NumbersChosen(choose: Chooser, check: Checker, max: nat, done: nat, last: int, k: nat)
    requires done <= max + 1
    requires forall last: int, attempt: nat, last': int, attempt': nat ::
               var c := choose(None, last, attempt); c.Recycled? ==> choose(Some(c.n), last', attempt').Refused?
    requires k < |Attempts(choose, check, max, done, last, None).numbers|
    ensures var numbers := Attempts(choose, check, max, done, last, None).numbers;
            var c := choose(None, if k > 0 then numbers[k - 1] else last, done + k + 1);
            !c.Refused? && numbers[k] == c.n && (c.Recycled? ==> k == |numbers| - 1)
    decreases max + 1 - done
  {
    var c := choose(None, last, done + 1);
    if check(c.n).InUse? {
      var rest := Attempts(choose, check, max, done + 1, c.n, TriedAfter(None, c)).numbers;
      assert ([c.n] + rest)[1..] == rest;
      if c.Recycled? {
        assert done + 1 <= max ==> choose(Some(c.n), c.n, done + 2).Refused?;
      } else if k > 0 {
        NumbersChosen(choose, check, max, done + 1, c.n, k - 1);
      }
    }
  }

  /**
   From one attempt to the next the number goes up by the increment of the policy, or while the family has no rows by
   the next of the service's increments, the last of which repeats; a number beyond the maximum gives way to the largest
   released one, and that is the last.
   */
  lemma NumbersStep(rows: seq<Row>, q: Quest, k: nat)
    requires Sound(q)
    requires k + 1 < |Attempts(ChooserOf(rows, q), CheckerOf(rows, q), q.maxGenAttempt, 0, 0, None).numbers|
    ensures var numbers := Attempts(ChooserOf(rows, q), CheckerOf(rows, q), q.maxGenAttempt, 0, 0, None).numbers;
            && (FindMax(rows, q.prefix, q.suffix).None? ==> q.increments.Some?)
            && var step := if FindMax(rows, q.prefix, q.suffix).Some? then q.policy.increment
                           else if k < |q.increments.value| then q.increments.value[k]
                           else q.increments.value[|q.increments.value| - 1];
               if numbers[k] + step <= q.policy.max then numbers[k + 1] == numbers[k] + step
               else k + 2 == |numbers|
                    && FindNextReleased(rows, q.policy.start, q.prefix, q.suffix) == Some(numbers[k + 1])
  {
    hide FindMax, FindNextReleased, Attempts;
    var choose, check := ChooserOf(rows, q), CheckerOf(rows, q);
    OneReleased(rows, q);
    NumbersChosen(choose, check, q.maxGenAttempt, 0, 0, k + 1);
    var numbers := Attempts(choose, check, q.maxGenAttempt, 0, 0, None).numbers;
    ChoiceLater(rows, q.policy, q.prefix, q.suffix, numbers[k], k + 2, q.increments);
  }

  lemma OneReleased(rows: seq<Row>, q: Quest)
    requires Sound(q)
    ensures forall last: int, attempt: nat, last': int, attempt': nat ::
              var c := ChooserOf(rows, q)(None, last, attempt);
              c.Recycled? ==> ChooserOf(rows, q)(Some(c.n), last', attempt').Refused?
  {
    hide FindMax, FindNextReleased;
    forall last: int, attempt: nat, last': int, attempt': nat
      ensures var c := ChooserOf(rows, q)(None, last, attempt);
              c.Recycled? ==> ChooserOf(rows, q)(Some(c.n), last', attempt').Refused?
    {
      if ChooserOf(rows, q)(None, last, attempt).Recycled? {
        RecyclesOnce(rows, q.policy, q.prefix, q.suffix, last, attempt, last', attempt', q.increments);
      }
    }
  }

  // ---------------------------------------------------------------- the loop itself

  datatype SeqGenData = SeqGenData(prefix: Option<string>, suffix: Option<string>, number: int, name: string)

  /** Whether the recipe has a sequence whose scope makes the generator choose a number for it. */
  predicate Numbered(values: Values, recipe: seq<string>, scope: Option<string>) {
    && "SEQUENCE" in recipe && "SEQUENCE" in values && values["SEQUENCE"].Sequence?
    && (scope == Some("PRECEEDING") || scope == Some("ENTIRETY"))
  }

  function AtLeastOne(n: int): nat {
    if n <= 0 then 1 else n
  }

  /** The fixed part of the attempts, read off the sequence of the policy. */
  function QuestOf(elementType: string, values: Values, recipe: seq<string>, s: PolicySequence,
                   operate: string -> string, maxGenAttempt: int, increments: Option<seq<int>>): Quest
    requires AllPresent(values, recipe)
    reads s
  {
    Quest(elementType, Prefix(values, recipe), Suffix(values, recipe), Policy(s.startValue, s.increment, s.Max()),
          s.kind, s.length, operate, AtLeastOne(maxGenAttempt), increments)
  }

  /** The name of a recipe for which no number is chosen. */
  function Plain(rows: seq<Row>, elementType: string, name: string): Result<SeqGenData, Failure> {
    match FindByName(rows, elementType, name, false)
    case NoRow => Ok(SeqGenData(None, None, 0, name))
    case OneRow(_) => Err(NotValid)
    case ManyRows => Err(Ambiguous)
  }

  /** What the attempts come to, with the prefix and suffix that are stored beside the name. */
  function Outcome(rows: seq<Row>, q: Quest): Result<SeqGenData, Failure>
    requires Sound(q)
  {
    match Attempts(ChooserOf(rows, q), CheckerOf(rows, q), q.maxGenAttempt, 0, 0, None).result
    case Err(e) => Err(e)
    case Ok((n, name)) => Ok(SeqGenData(Some(q.prefix), q.suffix, n, name))
  }

  /** A name that comes out of the attempts is not in use. */
  lemma OutcomeValid(rows: seq<Row>, q: Quest)
    requires Sound(q) && Outcome(rows, q).Ok?
    ensures FindByName(rows, q.elementType, Outcome(rows, q).value.name, false).NoRow?
  {
    ResultValidated(ChooserOf(rows, q), CheckerOf(rows, q), q.maxGenAttempt, 0, 0, None);
  }

  /** The name is the operation's result for prefix, number and suffix, which are stored beside it as they are. */
  lemma OutcomeName(rows: seq<Row>, q: Quest)
    requires Sound(q) && Outcome(rows, q).Ok?
    ensures var data := Outcome(rows, q).value;
            && data.prefix == Some(q.prefix) && data.suffix == q.suffix
            && Format(data.number, q.kind, q.length).Some?
            && data.name == q.operate(q.prefix + Format(data.number, q.kind, q.length).value
                                      + if q.suffix.Some? then q.suffix.value else "")
  {
    hide Format, Choose, FindByName;
    ResultValidated(ChooserOf(rows, q), CheckerOf(rows, q), q.maxGenAttempt, 0, 0, None);
  }

  /** A name without a number is only tried once: it is taken if no row in use of its type bears it. */
  lemma PlainFree(rows: seq<Row>, elementType: string, name: string)
    ensures var r := Plain(rows, elementType, name);
            && (r.Ok? <==> forall row :: row in rows && row.elementType == elementType && row.name == name ==>
                             row.released == Yes)
            && (r.Ok? ==> r.value.name == name && r.value.prefix == None && r.value.suffix == None
                          && r.value.number == 0)
            && (r.Err? && KeyUnique(rows) ==> r.error == NotValid)
  {
    var found := FindByName(rows, elementType, name, false);
    assert forall row :: row in rows ==> exists i :: 0 <= i < |rows| && rows[i] == row;
    assert found.OneRow? ==> rows[found.index] in rows;
    if found.ManyRows? {
      var i :| 0 <= i < |rows| && Names(rows[i], elementType, name, false);
      assert rows[i] in rows;
    }
    if KeyUnique(rows) {
      KeyMakesSingle(rows, elementType, name, false);
    }
  }

  /** The quest looks for names of this recipe. */
  ghost predicate Fits(q: Quest, values: Values, recipe: seq<string>) {
    && Sound(q) && AllPresent(values, recipe) && OneSequence(values, recipe)
    && "SEQUENCE" in recipe && values["SEQUENCE"].Sequence?
    && q.prefix == Prefix(values, recipe) && q.suffix == Suffix(values, recipe)
  }

  /** The quest counts as the policy of `s` says. */
  ghost predicate Counts(q: Quest, s: PolicySequence)
    reads s
  {
    q.policy == Policy(s.startValue, s.increment, s.Max()) && q.kind == s.kind && q.length == s.length
  }

  /** What one pass of the loop comes to. */
  ghost predicate OnePass(choose: Chooser, check: Checker, lastSeq: Option<int>, tried: Option<int>, attempt: nat,
                          r: Result<(int, string, bool), Failure>, tried': Option<int>)
  {
    var c := choose(tried, if lastSeq.Some? then lastSeq.value else 0, attempt);
    if c.Refused? then r == Err(c.error)
    else
      && tried' == TriedAfter(tried, c)
      && match check(c.n)
         case Illegal => r == Err(Unformattable)
         case Several => r == Err(Ambiguous)
         case InUse => r.Ok? && r.value.0 == c.n && !r.value.2
         case Free(name) => r == Ok((c.n, name, true))
  }

  /** What the attempts come to, seen from the middle of the loop. */
  ghost predicate Stands(choose: Chooser, check: Checker, max: nat, done: nat, lastSeq: Option<int>, tried: Option<int>,
                         name: string, valid: bool, result: Result<(int, string), Failure>)
  {
    var last := if lastSeq.Some? then lastSeq.value else 0;
    done <= max + 1 &&
    result == if !valid then Attempts(choose, check, max, done, last, tried).result
              else if done > max then Err(TooManyAttempts) else Ok((last, name))
  }

  lemma StandsNext(choose: Chooser, check: Checker, max: nat, done: nat, lastSeq: Option<int>, tried: Option<int>,
                   name: string, result: Result<(int, string), Failure>, r: Result<(int, string, bool), Failure>,
                   tried': Option<int>)
    requires done <= max && Stands(choose, check, max, done, lastSeq, tried, name, false, result)
    requires OnePass(choose, check, lastSeq, tried, done + 1, r, tried')
    ensures r.Err? ==> result == Err(r.error)
    ensures r.Ok? ==> Stands(choose, check, max, done + 1, Some(r.value.0), tried', r.value.1, r.value.2, result)
  {
  }

  /** The chooser and the checker work on this table for this quest. */
  ghost predicate Behaves(choose: Chooser, check: Checker, rows: seq<Row>, q: Quest)
    requires Sound(q)
  {
    && (forall tried: Option<int>, last: int, attempt: nat
          {:trigger Choose(rows, q.policy, q.prefix, q.suffix, tried, last, attempt, q.increments)} ::
          choose(tried, last, attempt) ==
              Choose(rows, q.policy, q.prefix, q.suffix, tried, last, attempt, q.increments))
    && (forall n: int {:trigger Check(rows, q, n)} :: check(n) == Check(rows, q, n))
  }

  /** One pass of the loop: a number, the name it leads to, and whether that name is free. */
  method TryOnce(table: Table, values: Values, recipe: seq<string>, s: PolicySequence, q: Quest, lastSeq: Option<int>,
                 attempt: nat, ghost choose: Chooser, ghost check: Checker)
    returns (r: Result<(int, string, bool), Failure>)
    requires Fits(q, values, recipe) && Counts(q, s) && Behaves(choose, check, table.rows, q)
    requires attempt >= 1 && (attempt >= 2 ==> lastSeq.Some?)
    modifies s`value, s`maxValue, s`lastReleaseSeqNumTried
    ensures Counts(q, s)
    ensures OnePass(choose, check, lastSeq, old(s.lastReleaseSeqNumTried), attempt, r, s.lastReleaseSeqNumTried)
  {
    hide Format, Choose, Assemble, Prefix, Suffix, AllPresent, OneSequence, FindByName;
    var number := Generate(table, q.prefix, q.suffix, s, lastSeq, attempt, q.increments);
    if number.Err? {
      return Err(number.error);
    }
    assert check(number.value) == Check(table.rows, q, number.value);
    var text := Format(number.value, s.kind, s.length);
    if text.None? {
      return Err(Unformattable);
    }
    s.value := text;
    NameIsComposed(values, recipe, text.value);
    var name := q.operate(Assemble(values, recipe, s.value));
    var free := table.Validate(q.elementType, name);
    r := if free.None? then Err(Ambiguous) else Ok((number.value, name, free.value));
  }

  /** The loop. */
  method Number(table: Table, values: Values, recipe: seq<string>, s: PolicySequence, q: Quest,
                ghost choose: Chooser, ghost check: Checker)
    returns (r: Result<(int, string), Failure>)
    requires Fits(q, values, recipe) && Counts(q, s) && Behaves(choose, check, table.rows, q)
    requires s.lastReleaseSeqNumTried == None
    modifies s`value, s`maxValue, s`lastReleaseSeqNumTried
    ensures r == Attempts(choose, check, q.maxGenAttempt, 0, 0, None).result
  {
    ghost var result := Attempts(choose, check, q.maxGenAttempt, 0, 0, None).result;
    var attemptCount: nat, lastSeq: Option<int>, name, valid := 0, None, "", false;
    while attemptCount <= q.maxGenAttempt && !valid
      invariant attemptCount <= q.maxGenAttempt + 1 && (attemptCount > 0 ==> lastSeq.Some?)
      invariant (valid ==> attemptCount > 0) && Counts(q, s)
      invariant Stands(choose, check, q.maxGenAttempt, attemptCount, lastSeq, s.lastReleaseSeqNumTried, name, valid,
                       result)
      decreases q.maxGenAttempt + 1 - attemptCount
    {
      ghost var tried := s.lastReleaseSeqNumTried;
      var attempt := TryOnce(table, values, recipe, s, q, lastSeq, attemptCount + 1, choose, check);
      StandsNext(choose, check, q.maxGenAttempt, attemptCount, lastSeq, tried, name, result, attempt,
                 s.lastReleaseSeqNumTried);
      if attempt.Err? {
        return Err(attempt.error);
      }
      attemptCount := attemptCount + 1;
      lastSeq, name, valid := Some(attempt.value.0), attempt.value.1, attempt.value.2;
    }
    if attemptCount > q.maxGenAttempt {
      return Err(TooManyAttempts);
    }
    r := Ok((lastSeq.value, name));
  }

  method GenerateNameWithSequences(table: Table, elementType: string, values: Values, recipe: seq<string>,
                                   s: PolicySequence, operate: string -> string, maxGenAttempt: int,
                                   increments: Option<seq<int>>)
    returns (r: Result<SeqGenData, Failure>)
    requires AllPresent(values, recipe) && OneSequence(values, recipe) && (increments.Some? ==> |increments.value| > 0)
    requires s.lastReleaseSeqNumTried == None && s.value == None
    modifies s
    ensures r == if Numbered(values, recipe, old(s.scope))
                 then Outcome(table.rows,
                              old(QuestOf(elementType, values, recipe, s, operate, maxGenAttempt, increments)))
                 else Plain(table.rows, elementType, operate(Assemble(values, recipe, None)))
    ensures r.Ok? ==> FindByName(table.rows, elementType, r.value.name, false).NoRow?
  {
    if Numbered(values, recipe, s.scope) {
      var max := s.GetMaxValue();
      var policy := Policy(s.startValue, s.increment, max);
      var q := Quest(elementType, Prefix(values, recipe), Suffix(values, recipe), policy, s.kind, s.length, operate,
                     AtLeastOne(maxGenAttempt), increments);
      var numbered := Number(table, values, recipe, s, q, ChooserOf(table.rows, q), CheckerOf(table.rows, q));
      r := if numbered.Err? then Err(numbered.error)
           else Ok(SeqGenData(Some(q.prefix), q.suffix, numbered.value.0, numbered.value.1));
      if r.Ok? {
        OutcomeValid(table.rows, q);
      }
    } else {
      var plain := operate(Assemble(values, recipe, s.value));
      var free := table.Validate(elementType, plain);
      r := if free.None? then Err(Ambiguous) else if free.value then Ok(SeqGenData(None, None, 0, plain))
          else Err(NotValid);
    }
  }
}
